/** A well-formed UTF-8 text yields only well-formed UTF-8 keys and strings. */
module JsonUtf8 {
  import opened ByteStrings
  import opened JsonGrammar
  import opened Utf8
  import JsonSpec
  import JsonSound

  /** Every key and every string in the value is well-formed UTF-8. */
  ghost predicate AllWellFormed(j: Json) {
    match j
    case String(s) => WellFormed(s)
    case Array(items) => forall i :: 0 <= i < |items| ==> AllWellFormed(items[i])
    case Object(fields) => forall k :: k in fields ==> WellFormed(k) && AllWellFormed(fields[k])
    case _ => true
  }

  /** `s` is empty or starts with an ASCII byte, so no character can straddle the border before it. */
  predicate Border(s: bytes) { s == [] || s[0] < 0x80 }

  lemma BorderConcat(a: bytes, b: bytes)
    requires Border(a) && Border(b)
    ensures Border(a + b)
  {
  }

  lemma {:induction false} Split(a: bytes, b: bytes)
    requires WellFormed(a + b) && Border(b)
    ensures WellFormed(a) && WellFormed(b)
    decreases |a|
  {
    var s := a + b;
    if a == [] {
      assert s == b;
    } else {
      var n := CharLength(s);
      assert CharLength(a) == n by {
        assert forall i :: 0 <= i < n ==> s[i] == a[i];
      }
      assert s[n..] == a[n..] + b;
      Split(a[n..], b);
    }
  }

  lemma SplitThree(a: bytes, b: bytes, c: bytes)
    requires WellFormed(a + (b + c)) && Border(b) && Border(c)
    ensures WellFormed(a) && WellFormed(b) && WellFormed(c)
  {
    BorderConcat(b, c);
    Split(a, b + c);
    Split(b, c);
  }

  // ---- Strings ----

  predicate AllAscii(s: bytes) { forall i :: 0 <= i < |s| ==> s[i] < 0x80 }

  lemma {:induction false} DropAscii(a: bytes, b: bytes)
    requires AllAscii(a) && WellFormed(a + b)
    ensures WellFormed(b)
    decreases |a|
  {
    if a == [] {
      assert a + b == b;
    } else {
      assert (a + b)[1..] == a[1..] + b;
      DropAscii(a[1..], b);
    }
  }

  /** A text that starts with a byte that is not ASCII starts with that byte as a character of its own. */
  lemma RawHead(cs: Characters, text: bytes)
    requires GoodCharacters(cs) && text == CharactersText(cs) && text != [] && text[0] >= 0x80
    ensures cs.Char? && text[1..] == CharactersText(cs.rest)
    ensures CharactersBytes(cs) == [text[0]] + CharactersBytes(cs.rest)
  {
    assert cs.Char? && cs.first.Raw?;
    assert text == [cs.first.b] + CharactersText(cs.rest);
  }

  /** The same for a run of `k` such bytes. */
  lemma {:induction false} TakeRaw(cs: Characters, text: bytes, k: nat) returns (rest: Characters)
    requires GoodCharacters(cs) && text == CharactersText(cs) && k <= |text|
    requires forall i :: 0 <= i < k ==> text[i] >= 0x80
    ensures GoodCharacters(rest) && (k > 0 ==> rest < cs) && (k == 0 ==> rest == cs)
    ensures CharactersText(rest) == text[k..]
    ensures CharactersBytes(cs) == text[..k] + CharactersBytes(rest)
    decreases k
  {
    hide CharactersText, CharactersBytes;
    if k == 0 {
      rest := cs;
      assert text[..0] + CharactersBytes(cs) == CharactersBytes(cs);
    } else {
      RawHead(cs, text);
      var tail := text[1..];
      rest := TakeRaw(cs.rest, tail, k - 1);
      assert [text[0]] + tail[..k - 1] == text[..k];
      assert [text[0]] + (tail[..k - 1] + CharactersBytes(rest)) == text[..k] + CharactersBytes(rest);
    }
  }

  lemma EscapeAscii(c: Character)
    requires GoodCharacter(c) && !c.Raw?
    ensures AllAscii(CharacterText(c)) && WellFormed(CharacterBytes(c))
  {
    match c
    case Short(letter) => ShortAscii(letter);
    case Unicode(quad) =>
      QuadAscii(quad);
      EncodeWellFormed(QuadValue(quad));
    case Surrogates(high, low) =>
      QuadAscii(high);
      QuadAscii(low);
      hide WellFormed, QuadValue, AllAscii;
      EncodeWellFormed(Combine(QuadValue(high), QuadValue(low)));
      JoinAscii([BACKSLASH, LETTER_U] + high, [BACKSLASH, LETTER_U] + low);
  }

  lemma ShortAscii(letter: byte)
    requires Unescaped(letter).Some?
    ensures AllAscii([BACKSLASH, letter]) && WellFormed([Unescaped(letter).value])
  {
    var b := Unescaped(letter).value;
    assert [b][1..] == [];
  }

  lemma QuadAscii(quad: bytes)
    requires IsQuad(quad)
    ensures AllAscii([BACKSLASH, LETTER_U] + quad)
  {
  }

  lemma JoinAscii(a: bytes, b: bytes)
    requires AllAscii(a) && AllAscii(b)
    ensures AllAscii(a + b)
  {
  }

  lemma {:induction false} CharactersUtf8(cs: Characters)
    requires GoodCharacters(cs) && WellFormed(CharactersText(cs))
    ensures WellFormed(CharactersBytes(cs))
    decreases cs
  {
    hide CharLength, Encode;
    if cs.Char? {
      if cs.first.Raw? && cs.first.b >= 0x80 {
        RawUtf8(cs);
      } else {
        if cs.first.Raw? {
          CharLengthAscii(cs.first.b);
        } else {
          EscapeAscii(cs.first);
        }
        DropAscii(CharacterText(cs.first), CharactersText(cs.rest));
        CharactersUtf8(cs.rest);
        Concat(CharacterBytes(cs.first), CharactersBytes(cs.rest));
      }
    }
  }

  lemma CharLengthAscii(b: byte)
    requires b < 0x80
    ensures WellFormed([b])
  {
    assert [b][1..] == [];
  }

  /** A character of several bytes. */
  lemma {:induction false} RawUtf8(cs: Characters)
    requires GoodCharacters(cs) && WellFormed(CharactersText(cs))
    requires cs.Char? && cs.first.Raw? && cs.first.b >= 0x80
    ensures WellFormed(CharactersBytes(cs))
    decreases cs, 0
  {
    var text := CharactersText(cs);
    var n := CharLength(text);
    assert text[0] == cs.first.b;
    var rest := TakeRaw(cs, text, n);
    CharactersUtf8(rest);
    var one := text[..n];
    assert forall i :: 0 <= i < n ==> one[i] == text[i];
    assert CharLength(one) == n && one[n..] == [];
    Concat(one, CharactersBytes(rest));
  }

  // ---- Values ----

  lemma WsBorder(ws: bytes)
    requires AllWs(ws)
    ensures Border(ws)
  {
  }

  lemma StringBorder(cs: Characters)
    ensures Border(StringText(cs))
  {
  }

  lemma TextBorder(v: Tree)
    requires Good(v)
    ensures Border(Text(v))
  {
    match v
    case NumberTree(n) =>
      var whole, tail := n.whole, FractionText(n.fraction) + (n.mark + n.exponent);
      assert (whole + tail)[0] == whole[0];
    case _ =>
  }

  lemma StringUtf8(cs: Characters)
    requires GoodCharacters(cs) && WellFormed(StringText(cs))
    ensures WellFormed(CharactersBytes(cs))
  {
    DropAscii([QUOTE], CharactersText(cs));
    CharactersUtf8(cs);
  }

  lemma {:induction false} TreeUtf8(v: Tree)
    requires Good(v) && WellFormed(Text(v))
    ensures AllWellFormed(Denote(v))
    decreases v
  {
    hide WellFormed, StringText, CharactersBytes, ElementsText, MembersText;
    match v
    case StringTree(cs) => StringUtf8(cs);
    case ArrayTree(es) =>
      DropAscii([OPEN_BRACKET], ElementsText(es));
      ElementsUtf8(es);
    case ObjectTree(ms) =>
      DropAscii([OPEN_BRACE], MembersText(ms));
      MembersUtf8(ms);
    case _ =>
  }

  lemma {:induction false} ElementsUtf8(es: Elements)
    requires GoodElements(es) && WellFormed(ElementsText(es))
    ensures forall i :: 0 <= i < |DenoteElements(es)| ==> AllWellFormed(DenoteElements(es)[i])
    decreases es
  {
    hide WellFormed, Text, Good, Denote, Border;
    var tail := es.after + ElementsTail(es);
    WsBorder(es.after);
    assert Border(ElementsTail(es)) by { TailBorder(ElementsTail(es), if es.Element? then COMMA else CLOSE_BRACKET); }
    BorderConcat(es.after, ElementsTail(es));
    TextBorder(es.value);
    SplitThree(es.before, Text(es.value), tail);
    Split(es.after, ElementsTail(es));
    TreeUtf8(es.value);
    if es.Element? {
      DropAscii([COMMA], ElementsText(es.rest));
      ElementsUtf8(es.rest);
    }
  }

  lemma TailBorder(s: bytes, b: byte)
    requires b < 0x80 && s != [] && s[0] == b
    ensures Border(s)
  {
  }

  lemma {:induction false} MembersUtf8(ms: Members)
    requires GoodMembers(ms) && WellFormed(MembersText(ms))
    ensures forall k :: k in DenoteMembers(ms) ==> WellFormed(k) && AllWellFormed(DenoteMembers(ms)[k])
    decreases ms
  {
    hide WellFormed, Text, StringText, Good, GoodCharacters, CharactersBytes, Denote, Border;
    MemberPieces(ms);
    StringUtf8(ms.key);
    TreeUtf8(ms.value);
    if ms.Member? {
      DropAscii([COMMA], MembersText(ms.rest));
      MembersUtf8(ms.rest);
    }
  }

  lemma MemberPieces(ms: Members)
    requires GoodMembers(ms) && WellFormed(MembersText(ms))
    ensures WellFormed(StringText(ms.key)) && WellFormed(Text(ms.value)) && WellFormed(MembersTail(ms))
  {
    hide WellFormed, Text, StringText, Good, GoodCharacters, Border;
    var end := ms.after + MembersTail(ms);
    var slot := ms.lead + (Text(ms.value) + end);
    WsBorder(ms.mid);
    WsBorder(ms.lead);
    WsBorder(ms.after);
    TailBorder(MembersTail(ms), if ms.Member? then COMMA else CLOSE_BRACE);
    TailBorder([COLON] + slot, COLON);
    BorderConcat(ms.after, MembersTail(ms));
    TextBorder(ms.value);
    StringBorder(ms.key);
    BorderConcat(ms.mid, [COLON] + slot);
    SplitThree(ms.before, StringText(ms.key), ms.mid + ([COLON] + slot));
    Split(ms.mid, [COLON] + slot);
    DropAscii([COLON], slot);
    SplitThree(ms.lead, Text(ms.value), end);
    Split(ms.after, MembersTail(ms));
  }

  /** Parsing preserves UTF-8. */
  lemma ParsePreservesUtf8(text: bytes)
    requires WellFormed(text) && JsonSpec.ReadText(text).Got?
    ensures AllWellFormed(JsonSpec.ReadText(text).value)
  {
    hide WellFormed, Text, Denote, Good;
    JsonSound.Sound(text);
    var before, v, after :| Spells(before, v, after, text) && Denote(v) == JsonSpec.ReadText(text).value;
    assert text == before + (Text(v) + after);
    TextBorder(v);
    WsBorder(after);
    SplitThree(before, Text(v), after);
    TreeUtf8(v);
  }
}

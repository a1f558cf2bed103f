/** Whatever the parser accepts is derived by the grammar, with the value the parser returns. */
module JsonSound {
  import opened ByteStrings
  import opened JsonGrammar
  import opened JsonSpec
  import JsonComplete
  import Utf8

  lemma WsSlice(t: bytes, p: nat) returns (ws: bytes)
    requires p <= |t|
    ensures AllWs(ws) && At(t, p, ws) && p + |ws| == SkipWs(t, p)
  {
    ws := t[p..SkipWs(t, p)];
    SkipWsRun(t, p);
    AtEquals(t, p, ws);
  }

  // ---- Strings ----

  lemma EscapeSound(t: bytes, p: nat) returns (c: Character)
    requires p < |t| && t[p] == BACKSLASH && ReadEscape(t, p + 1).Got?
    ensures GoodCharacter(c) && !c.Raw? && At(t, p, CharacterText(c))
    ensures ReadEscape(t, p + 1) == Got(CharacterBytes(c), p + |CharacterText(c)|)
  {
    if t[p + 1] == LETTER_U { c := UnicodeSound(t, p); } else { c := ShortSound(t, p); }
  }

  lemma ShortSound(t: bytes, p: nat) returns (c: Character)
    requires p + 1 < |t| && t[p] == BACKSLASH && t[p + 1] != LETTER_U && ReadEscape(t, p + 1).Got?
    ensures c == Short(t[p + 1]) && GoodCharacter(c) && At(t, p, CharacterText(c))
    ensures ReadEscape(t, p + 1) == Got(CharacterBytes(c), p + 2)
  {
    hide At, ReadCodePoint, IsQuad, QuadValue, IsHighSurrogate, IsLowSurrogate;
    var letter := t[p + 1];
    c := Short(letter);
    TwoBytes(t, p, BACKSLASH, letter);
  }

  lemma TwoBytes(t: bytes, p: nat, a: byte, b: byte)
    requires p + 1 < |t| && t[p] == a && t[p + 1] == b
    ensures At(t, p, [a, b])
  {
  }

  /** A \u and four bytes. */
  lemma QuadAt(t: bytes, p: nat)
    requires p + 6 <= |t| && t[p] == BACKSLASH && t[p + 1] == LETTER_U
    ensures At(t, p, [BACKSLASH, LETTER_U] + t[p + 2..p + 6])
  {
    hide At;
    AtEquals(t, p + 2, t[p + 2..p + 6]);
    TwoBytes(t, p, BACKSLASH, LETTER_U);
    AtConcat(t, p, [BACKSLASH, LETTER_U], t[p + 2..p + 6]);
  }

  lemma UnicodeSound(t: bytes, p: nat) returns (c: Character)
    requires p + 1 < |t| && t[p] == BACKSLASH && t[p + 1] == LETTER_U && ReadEscape(t, p + 1).Got?
    ensures GoodCharacter(c) && !c.Raw? && At(t, p, CharacterText(c))
    ensures ReadEscape(t, p + 1) == Got(CharacterBytes(c), p + |CharacterText(c)|)
  {
    hide At, QuadValue, IsQuad, HexDigit, Unescaped;
    var quad := t[p + 2..p + 6];
    QuadAt(t, p);
    if IsHighSurrogate(QuadValue(quad)) {
      var low := t[p + 8..p + 12];
      QuadAt(t, p + 6);
      AtConcat(t, p, [BACKSLASH, LETTER_U] + quad, [BACKSLASH, LETTER_U] + low);
      c := Surrogates(quad, low);
    } else {
      c := Unicode(quad);
    }
  }

  lemma {:induction false} CharactersSound(t: bytes, p: nat, value: bytes) returns (cs: Characters)
    requires p <= |t| && ReadCharacters(t, p, value).Got?
    ensures GoodCharacters(cs) && At(t, p, CharactersText(cs))
    ensures ReadCharacters(t, p, value) == Got(value + CharactersBytes(cs), p + |CharactersText(cs)|)
    decreases |t| - p
  {
    hide At, ReadEscape, CharacterText, CharacterBytes, GoodCharacter;
    if t[p] == QUOTE {
      AtByte(t, p, QUOTE);
      cs := End;
      assert value + [] == value;
    } else {
      var c := CharacterSound(t, p, value);
      var rest := CharactersSound(t, p + |CharacterText(c)|, value + CharacterBytes(c));
      cs := Char(c, rest);
      AtConcat(t, p, CharacterText(c), CharactersText(rest));
      assert value + CharacterBytes(c) + CharactersBytes(rest) == value + CharactersBytes(cs);
    }
  }

  /** One turn of the loop over the characters. */
  lemma CharacterSound(t: bytes, p: nat, value: bytes) returns (c: Character)
    requires p < |t| && t[p] != QUOTE && ReadCharacters(t, p, value).Got?
    ensures GoodCharacter(c) && At(t, p, CharacterText(c)) && CharacterText(c) != []
    ensures p + |CharacterText(c)| <= |t|
    ensures ReadCharacters(t, p, value) == ReadCharacters(t, p + |CharacterText(c)|, value + CharacterBytes(c))
  {
    if t[p] == BACKSLASH {
      c := EscapeSound(t, p);
    } else {
      c := Raw(t[p]);
      AtByte(t, p, t[p]);
    }
  }

  lemma StringSound(t: bytes, p: nat) returns (cs: Characters)
    requires p <= |t| && ReadString(t, p).Got?
    ensures GoodCharacters(cs) && At(t, p, StringText(cs))
    ensures ReadString(t, p) == Got(CharactersBytes(cs), p + |StringText(cs)|)
  {
    cs := CharactersSound(t, p + 1, []);
    AtByte(t, p, QUOTE);
    AtConcat(t, p, [QUOTE], CharactersText(cs));
    assert [] + CharactersBytes(cs) == CharactersBytes(cs);
  }

  // ---- Numbers ----

  lemma WholeSound(t: bytes, p: nat)
    requires p <= |t| && ReadWhole(t, p).Got?
    ensures var whole := ReadWhole(t, p).value;
            && AllDigits(whole) && whole != [] && (whole[0] == ZERO ==> |whole| == 1)
            && At(t, p, whole) && ReadWhole(t, p).next == p + |whole|
  {
    SkipDigitsRun(t, p);
    AtEquals(t, p, ReadWhole(t, p).value);
  }

  lemma FractionSound(t: bytes, p: nat)
    requires p <= |t| && ReadFraction(t, p).Got?
    ensures var fraction := ReadFraction(t, p).value;
            && AllDigits(fraction) && At(t, p, FractionText(fraction))
            && ReadFraction(t, p).next == p + |FractionText(fraction)|
  {
    if p < |t| && t[p] == DOT {
      var fraction := ReadFraction(t, p).value;
      SkipDigitsRun(t, p + 1);
      AtEquals(t, p + 1, fraction);
      AtByte(t, p, DOT);
      AtConcat(t, p, [DOT], fraction);
    }
  }

  lemma ExponentSound(t: bytes, p: nat)
    requires p <= |t| && ReadExponent(t, p).Got?
    ensures var mark, exponent := t[p..MarkEnd(t, p)], ReadExponent(t, p).value;
            && GoodMark(mark) && AllDigits(exponent) && (mark == [] <==> exponent == [])
            && At(t, p, mark + exponent) && ReadExponent(t, p).next == p + |mark| + |exponent|
  {
    var m := MarkEnd(t, p);
    var mark, exponent := t[p..m], ReadExponent(t, p).value;
    SkipDigitsRun(t, m);
    AtEquals(t, p, mark);
    AtEquals(t, m, exponent);
    AtConcat(t, p, mark, exponent);
  }

  lemma NumeralSound(t: bytes, p: nat)
    requires p < |t| && ReadNumeral(t, p).Got?
    ensures var n := ReadNumeral(t, p).value;
            GoodShape(n) && At(t, p, NumeralText(n)) && ReadNumeral(t, p).next == p + |NumeralText(n)|
  {
    hide At, ReadWhole, ReadFraction, ReadExponent, MarkEnd, GoodMark;
    var n := ReadNumeral(t, p).value;
    var w := if t[p] == MINUS then p + 1 else p;
    WholeSound(t, w);
    var f := w + |n.whole|;
    FractionSound(t, f);
    var e := f + |FractionText(n.fraction)|;
    ExponentSound(t, e);
    AtThree(t, w, n.whole, FractionText(n.fraction), n.mark + n.exponent);
    if n.negative {
      AtByte(t, p, MINUS);
      AtConcat(t, p, [MINUS], UnsignedText(n));
    }
  }

  // ---- Values ----

  /** Everything a value that is not a non-empty container can be. */
  lemma ScalarSound(t: bytes, p: nat, depth: nat) returns (v: Tree)
    requires p <= |t| && depth <= MAXIMUM_DEPTH && ReadValue(t, p, depth).Got?
    requires SkipWs(t, p) < |t| && t[SkipWs(t, p)] != OPEN_BRACKET && t[SkipWs(t, p)] != OPEN_BRACE
    ensures Good(v) && Depth(v) == 0 && At(t, SkipWs(t, p), Text(v))
    ensures ReadValue(t, p, depth) == Got(Denote(v), SkipWs(t, p) + |Text(v)|)
  {
    var q := SkipWs(t, p);
    if At(t, q, Ascii("null")) {
      v := NullTree;
    } else if At(t, q, Ascii("true")) {
      v := BoolTree(true);
    } else if At(t, q, Ascii("false")) {
      v := BoolTree(false);
    } else if t[q] == QUOTE {
      var cs := StringSound(t, q);
      v := StringTree(cs);
    } else {
      NumeralSound(t, q);
      v := NumberTree(ReadNumeral(t, q).value);
    }
  }

  lemma EmptySound(t: bytes, q: nat, open: byte, close: byte) returns (ws: bytes)
    requires q < |t| && t[q] == open && SkipWs(t, q + 1) < |t| && t[SkipWs(t, q + 1)] == close
    ensures AllWs(ws) && At(t, q, [open] + (ws + [close])) && SkipWs(t, q + 1) == q + 1 + |ws|
  {
    ws := WsSlice(t, q + 1);
    AtByte(t, q, open);
    AtByte(t, q + 1 + |ws|, close);
    AtThree(t, q, [open], ws, [close]);
  }

  lemma {:induction false} ValueSound(t: bytes, p: nat, depth: nat) returns (v: Tree)
    requires p <= |t| && ReadValue(t, p, depth).Got?
    ensures Good(v) && depth + Depth(v) <= MAXIMUM_DEPTH && At(t, SkipWs(t, p), Text(v))
    ensures ReadValue(t, p, depth) == Got(Denote(v), SkipWs(t, p) + |Text(v)|)
    decreases |t| - p, 1
  {
    hide At;
    var q := SkipWs(t, p);
    if t[q] == OPEN_BRACKET {
      JsonComplete.Dispatch(t, p, depth);
      v := ArraySound(t, q, depth + 1);
    } else if t[q] == OPEN_BRACE {
      JsonComplete.Dispatch(t, p, depth);
      v := ObjectSound(t, q, depth + 1);
    } else {
      v := ScalarSound(t, p, depth);
    }
  }

  lemma {:induction false} ArraySound(t: bytes, q: nat, depth: nat) returns (v: Tree)
    requires q < |t| && t[q] == OPEN_BRACKET && 0 < depth <= MAXIMUM_DEPTH + 1 && ReadArray(t, q, depth).Got?
    ensures Good(v) && depth + Depth(v) <= MAXIMUM_DEPTH + 1 && At(t, q, Text(v))
    ensures ReadArray(t, q, depth) == Got(Denote(v), q + |Text(v)|)
    decreases |t| - q, 0
  {
    hide At, SkipWs, ReadElements, ElementsText, DenoteElements, GoodElements, ElementsDepth;
    var s := SkipWs(t, q + 1);
    if s < |t| && t[s] == CLOSE_BRACKET {
      var ws := EmptySound(t, q, OPEN_BRACKET, CLOSE_BRACKET);
      v := EmptyArray(ws);
    } else {
      var es := ElementsSound(t, q + 1, depth, []);
      v := ArrayTree(es);
      AtByte(t, q, OPEN_BRACKET);
      AtConcat(t, q, [OPEN_BRACKET], ElementsText(es));
      assert [] + DenoteElements(es) == DenoteElements(es);
    }
  }

  /** One turn of the loop over the elements, from its result. */
  lemma ElementTurn(t: bytes, q: nat, depth: nat, items: seq<Json>) returns (item: Json, a: nat, b: nat)
    requires q <= |t| && ReadElements(t, q, depth, items).Got?
    ensures q < |t| && q < a <= b < |t| && ReadValue(t, q, depth) == Got(item, a) && b == SkipWs(t, a)
    ensures t[b] == CLOSE_BRACKET || t[b] == COMMA
    ensures ReadElements(t, q, depth, items) ==
            if t[b] == CLOSE_BRACKET then Got(Array(items + [item]), b + 1)
            else ReadElements(t, SkipWs(t, b + 1), depth, items + [item])
  {
    hide ReadValue, SkipWs;
    item := ReadValue(t, q, depth).value;
    a := ReadValue(t, q, depth).next;
    b := SkipWs(t, a);
  }

  lemma {:induction false} ElementsSound(t: bytes, w: nat, depth: nat, items: seq<Json>) returns (es: Elements)
    requires w <= |t| && ReadElements(t, SkipWs(t, w), depth, items).Got?
    ensures GoodElements(es) && depth + ElementsDepth(es) <= MAXIMUM_DEPTH && At(t, w, ElementsText(es))
    ensures ReadElements(t, SkipWs(t, w), depth, items)
         == Got(Array(items + DenoteElements(es)), w + |ElementsText(es)|)
    decreases |t| - w, 2
  {
    hide At, ReadValue, ReadElements, Text, Good, Denote, Depth;
    var q := SkipWs(t, w);
    var before := WsSlice(t, w);
    assert SkipWs(t, q) == q;
    var item, a, b := ElementTurn(t, q, depth, items);
    var v := ValueSound(t, q, depth);
    var after := WsSlice(t, a);
    if t[b] == CLOSE_BRACKET {
      es := LastElement(before, v, after);
      AtByte(t, b, CLOSE_BRACKET);
      assert items + [item] == items + DenoteElements(es);
    } else {
      var rest := ElementsSound(t, b + 1, depth, items + [item]);
      es := Element(before, v, after, rest);
      AtByte(t, b, COMMA);
      AtConcat(t, b, [COMMA], ElementsText(rest));
      assert items + [item] + DenoteElements(rest) == items + DenoteElements(es);
    }
    AtConcat(t, a, after, ElementsTail(es));
    AtThree(t, w, before, Text(v), after + ElementsTail(es));
  }

  lemma {:induction false} ObjectSound(t: bytes, q: nat, depth: nat) returns (v: Tree)
    requires q < |t| && t[q] == OPEN_BRACE && 0 < depth <= MAXIMUM_DEPTH + 1 && ReadObject(t, q, depth).Got?
    ensures Good(v) && depth + Depth(v) <= MAXIMUM_DEPTH + 1 && At(t, q, Text(v))
    ensures ReadObject(t, q, depth) == Got(Denote(v), q + |Text(v)|)
    decreases |t| - q, 0
  {
    hide At, SkipWs, ReadMembers, MembersText, DenoteMembers, GoodMembers, MembersDepth;
    var s := SkipWs(t, q + 1);
    if s < |t| && t[s] == CLOSE_BRACE {
      var ws := EmptySound(t, q, OPEN_BRACE, CLOSE_BRACE);
      v := EmptyObject(ws);
    } else {
      var ms := MembersSound(t, q + 1, depth, map[]);
      v := ObjectTree(ms);
      AtByte(t, q, OPEN_BRACE);
      AtConcat(t, q, [OPEN_BRACE], MembersText(ms));
      assert map[] + DenoteMembers(ms) == DenoteMembers(ms);
    }
  }

  /** A key and its colon. */
  lemma KeySound(t: bytes, w: nat, depth: nat, fields: map<bytes, Json>)
      returns (before: bytes, key: Characters, mid: bytes, c: nat)
    requires w <= |t| && ReadMembers(t, SkipWs(t, w), depth, fields).Got?
    ensures AllWs(before) && GoodCharacters(key) && AllWs(mid)
    ensures c == w + |before| + |StringText(key)| + |mid| < |t|
    ensures At(t, w, before) && At(t, w + |before|, StringText(key)) && At(t, w + |before| + |StringText(key)|, mid)
    ensures SkipWs(t, w) == w + |before|
    ensures ReadString(t, SkipWs(t, w)) == Got(CharactersBytes(key), w + |before| + |StringText(key)|)
    ensures SkipWs(t, w + |before| + |StringText(key)|) == c && t[c] == COLON
  {
    hide At, SkipWs, ReadString, StringText, CharactersBytes, ReadValue;
    before := WsSlice(t, w);
    key := StringSound(t, SkipWs(t, w));
    mid := WsSlice(t, w + |before| + |StringText(key)|);
    c := w + |before| + |StringText(key)| + |mid|;
  }

  /** One turn of the loop over the members, from its result; the colon is at `c`. */
  lemma MemberTurn(t: bytes, q: nat, depth: nat, fields: map<bytes, Json>)
      returns (key: bytes, c: nat, item: Json, a: nat, b: nat)
    requires q <= |t| && ReadMembers(t, q, depth, fields).Got?
    ensures q < |t| && ReadString(t, q).Got? && key == ReadString(t, q).value && c == SkipWs(t, ReadString(t, q).next)
    ensures q < c && c + 1 < a <= b < |t| && ReadValue(t, c + 1, depth) == Got(item, a) && b == SkipWs(t, a)
    ensures t[b] == CLOSE_BRACE || t[b] == COMMA
    ensures ReadMembers(t, q, depth, fields) ==
            if t[b] == CLOSE_BRACE then Got(Object(fields[key := item]), b + 1)
            else ReadMembers(t, SkipWs(t, b + 1), depth, fields[key := item])
  {
    hide ReadValue, ReadString, SkipWs;
    key := ReadString(t, q).value;
    c := SkipWs(t, ReadString(t, q).next);
    item := ReadValue(t, c + 1, depth).value;
    a := ReadValue(t, c + 1, depth).next;
    b := SkipWs(t, a);
  }

  lemma {:induction false} MembersSound(t: bytes, w: nat, depth: nat, fields: map<bytes, Json>) returns (ms: Members)
    requires w <= |t| && ReadMembers(t, SkipWs(t, w), depth, fields).Got?
    ensures GoodMembers(ms) && depth + MembersDepth(ms) <= MAXIMUM_DEPTH && At(t, w, MembersText(ms))
    ensures ReadMembers(t, SkipWs(t, w), depth, fields)
         == Got(Object(fields + DenoteMembers(ms)), w + |MembersText(ms)|)
    decreases |t| - w, 2
  {
    hide At, SkipWs, ReadValue, ReadString, ReadMembers, StringText, CharactersBytes, Text, Good, GoodCharacters, Denote, Depth;
    var before, key, mid, c := KeySound(t, w, depth, fields);
    var k, _, item, a, b := MemberTurn(t, SkipWs(t, w), depth, fields);
    var lead := WsSlice(t, c + 1);
    var v := ValueSound(t, c + 1, depth);
    var after := WsSlice(t, a);
    var next := fields[k := item];
    if t[b] == CLOSE_BRACE {
      ms := LastMember(before, key, mid, lead, v, after);
      AtByte(t, b, CLOSE_BRACE);
      assert next == fields + DenoteMembers(ms);
    } else {
      var rest := MembersSound(t, b + 1, depth, next);
      ms := Member(before, key, mid, lead, v, after, rest);
      AtByte(t, b, COMMA);
      AtConcat(t, b, [COMMA], MembersText(rest));
      assert next + DenoteMembers(rest) == fields + DenoteMembers(ms);
    }
    MemberInPlace(t, w, ms);
  }

  /** The pieces of a member, one after the other, make its text. */
  lemma MemberInPlace(t: bytes, w: nat, ms: Members)
    requires At(t, w, ms.before)
    requires var k := w + |ms.before|; var m := k + |StringText(ms.key)|; var c := m + |ms.mid|;
             var q := c + 1 + |ms.lead|; var a := q + |Text(ms.value)|;
             && At(t, k, StringText(ms.key)) && At(t, m, ms.mid) && c < |t| && t[c] == COLON
             && At(t, c + 1, ms.lead) && At(t, q, Text(ms.value)) && At(t, a, ms.after)
             && At(t, a + |ms.after|, MembersTail(ms))
    ensures At(t, w, MembersText(ms))
  {
    hide At, StringText, Text, MembersTail;
    var slot := ms.lead + (Text(ms.value) + (ms.after + MembersTail(ms)));
    var k := w + |ms.before|;
    var m := k + |StringText(ms.key)|;
    var c := m + |ms.mid|;
    AtConcat(t, c + 1 + |ms.lead| + |Text(ms.value)|, ms.after, MembersTail(ms));
    AtThree(t, c + 1, ms.lead, Text(ms.value), ms.after + MembersTail(ms));
    AtByte(t, c, COLON);
    AtThree(t, m, ms.mid, [COLON], slot);
    AtThree(t, w, ms.before, StringText(ms.key), ms.mid + ([COLON] + slot));
  }

  /** Soundness: an accepted text is derived, with the value returned. */
  lemma Sound(text: bytes)
    requires ReadText(text).Got?
    ensures Derives(text, ReadText(text).value)
  {
    hide At, SkipWs, ReadValue, Good, Text, Denote, Depth;
    var q := SkipWs(text, 0);
    var before := WsSlice(text, 0);
    JsonComplete.SkipTwice(text, 0, 0);
    var v := ValueSound(text, 0, 0);
    var a := q + |Text(v)|;
    var after := WsSlice(text, a);
    AtEquals(text, 0, before);
    AtEquals(text, q, Text(v));
    AtEquals(text, a, after);
    assert Spells(before, v, after, text);
  }

  /** The parser accepts exactly what the grammar derives, and a text has at most one value. */
  lemma SoundAndComplete(text: bytes, value: Json)
    ensures ReadText(text) == Got(value, |text|) <==> Derives(text, value)
    ensures ReadText(text).Got? <==> exists w :: Derives(text, w)
  {
    if ReadText(text).Got? {
      Sound(text);
    }
    forall w | Derives(text, w) ensures ReadText(text) == Got(w, |text|) {
      JsonComplete.Complete(text, w);
    }
  }
}

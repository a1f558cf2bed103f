/** Independent writers of the parts of JSON text: literals, short escapes, \u escapes and surrogate pairs, and the order of items. */
module JsonLeaves {
  import opened ByteStrings
  import opened JsonGrammar
  import opened JsonSpec
  import JsonComplete
  import Utf8

  // ---- Literals ----

  lemma LiteralReads(text: bytes, v: Tree)
    requires (v.NullTree? || v.BoolTree?) && text == Text(v)
    ensures ReadText(text) == Got(Denote(v), |text|)
  {
    hide ReadText;
    assert [] + text + [] == text;
    assert Spells([], v, [], text);
    JsonComplete.Complete(text, Denote(v));
  }

  /** Each literal is read as the value it names. */
  lemma Literals()
    ensures ReadText(Ascii("null")) == Got(Null, 4)
    ensures ReadText(Ascii("true")) == Got(Bool(true), 4)
    ensures ReadText(Ascii("false")) == Got(Bool(false), 5)
  {
    hide ReadText;
    LiteralReads(Ascii("null"), NullTree);
    LiteralReads(Ascii("true"), BoolTree(true));
    LiteralReads(Ascii("false"), BoolTree(false));
  }

  // ---- Two-byte escapes ----

  /** The control characters, and the three bytes that stand for themselves, behind a backslash. */
  function ShortLetters(): bytes { Ascii("\"\\/bfnrt") }

  const SHORT_BYTES: bytes := [0x22, 0x5C, 0x2F, 0x08, 0x0C, 0x0A, 0x0D, 0x09]

  lemma ShortEscapes(i: nat)
    requires i < 8
    ensures var t := [QUOTE, BACKSLASH, ShortLetters()[i], QUOTE]; ReadString(t, 0) == Got([SHORT_BYTES[i]], 4)
  {
    hide ReadString;
    var letter := ShortLetters()[i];
    var t := [QUOTE, BACKSLASH, letter, QUOTE];
    var cs := Char(Short(letter), End);
    assert Unescaped(letter) == Some(SHORT_BYTES[i]);
    assert StringText(cs) == t;
    assert CharactersBytes(cs) == [SHORT_BYTES[i]];
    AtEquals(t, 0, t);
    JsonComplete.StringComplete(t, 0, cs);
  }

  // ---- \u escapes ----

  const LOWER := "0123456789abcdef"
  const UPPER := "0123456789ABCDEF"

  function HexChar(n: nat, upper: bool): byte
    requires n < 16
  {
    if n < 10 then 0x30 + n else if upper then 0x37 + n else 0x57 + n
  }

  /** Four hexadecimal digits, the most significant first. */
  function HexText(n: nat, upper: bool): (s: bytes)
    requires n < 0x10000
    ensures |s| == 4
  {
    [HexChar(n / 0x1000, upper), HexChar(n / 0x100 % 16, upper), HexChar(n / 0x10 % 16, upper), HexChar(n % 16, upper)]
  }

  lemma HexCharReads(n: nat, upper: bool)
    requires n < 16
    ensures HexDigit(HexChar(n, upper)) == Some(n)
    ensures HexChar(n, upper) == (if upper then UPPER[n] else LOWER[n]) as int
  {
  }

  lemma HexTextReads(n: nat, upper: bool)
    requires n < 0x10000
    ensures IsQuad(HexText(n, upper)) && QuadValue(HexText(n, upper)) == n
  {
    hide HexDigit, HexChar;
    HexCharReads(n / 0x1000, upper);
    HexCharReads(n / 0x100 % 16, upper);
    HexCharReads(n / 0x10 % 16, upper);
    HexCharReads(n % 16, upper);
    Sixteens(n);
  }

  lemma Sixteens(n: nat)
    ensures ((n / 0x1000 * 16 + n / 0x100 % 16) * 16 + n / 0x10 % 16) * 16 + n % 16 == n
  {
    var a, b := n / 0x10, n / 0x100;
    assert n / 0x1000 == b / 16 && b == a / 16;
  }

  /** The surrogate pair of a code point above the basic plane (section 2.1 of RFC 2781). */
  function HighOf(c: nat): nat
    requires 0x10000 <= c < 0x110000
  {
    0xD800 + (c - 0x10000) / 0x400
  }

  function LowOf(c: nat): nat
    requires 0x10000 <= c < 0x110000
  {
    0xDC00 + (c - 0x10000) % 0x400
  }

  lemma PairCombines(c: nat)
    requires 0x10000 <= c < 0x110000
    ensures IsHighSurrogate(HighOf(c)) && IsLowSurrogate(LowOf(c)) && Combine(HighOf(c), LowOf(c)) == c
  {
  }

  /** The \u form of a code point, as section 7 of RFC 8259 has it. */
  function UnicodeForm(c: nat, upper: bool): bytes
    requires Utf8.IsScalar(c)
  {
    if c < 0x10000 then [BACKSLASH, LETTER_U] + HexText(c, upper)
    else [BACKSLASH, LETTER_U] + HexText(HighOf(c), upper) + ([BACKSLASH, LETTER_U] + HexText(LowOf(c), upper))
  }

  predicate AllScalars(cs: seq<nat>) { forall i :: 0 <= i < |cs| ==> Utf8.IsScalar(cs[i]) }

  /** The string written with \u escapes alone, behind its opening quote. */
  function UnicodeText(cs: seq<nat>, upper: bool): bytes
    requires AllScalars(cs)
  {
    if cs == [] then [QUOTE] else UnicodeForm(cs[0], upper) + UnicodeText(cs[1..], upper)
  }

  function Encoded(cs: seq<nat>): bytes
    requires AllScalars(cs)
  {
    if cs == [] then [] else Utf8.Encode(cs[0]) + Encoded(cs[1..])
  }

  function UnicodeCharacter(c: nat, upper: bool): Character
    requires Utf8.IsScalar(c)
  {
    if c < 0x10000 then Unicode(HexText(c, upper)) else Surrogates(HexText(HighOf(c), upper), HexText(LowOf(c), upper))
  }

  lemma UnicodeCharacterIs(c: nat, upper: bool)
    requires Utf8.IsScalar(c)
    ensures var u := UnicodeCharacter(c, upper);
            GoodCharacter(u) && CharacterText(u) == UnicodeForm(c, upper) && CharacterBytes(u) == Utf8.Encode(c)
  {
    hide HexText, Utf8.Encode, QuadValue, IsQuad;
    if c < 0x10000 {
      HexTextReads(c, upper);
    } else {
      PairCombines(c);
      HexTextReads(HighOf(c), upper);
      HexTextReads(LowOf(c), upper);
    }
  }

  lemma {:induction false} UnicodeSpells(cs: seq<nat>, upper: bool) returns (tree: Characters)
    requires AllScalars(cs)
    ensures GoodCharacters(tree) && CharactersText(tree) == UnicodeText(cs, upper) && CharactersBytes(tree) == Encoded(cs)
    decreases |cs|
  {
    hide UnicodeForm, UnicodeCharacter, Utf8.Encode, GoodCharacter, CharacterText, CharacterBytes;
    if cs == [] {
      tree := End;
    } else {
      var rest := UnicodeSpells(cs[1..], upper);
      UnicodeCharacterIs(cs[0], upper);
      tree := Char(UnicodeCharacter(cs[0], upper), rest);
    }
  }

  /** Round trip: a string of any code points, written with \u escapes and surrogate pairs in either case, is read as the
      UTF-8 of those code points. */
  lemma UnicodeReads(cs: seq<nat>, upper: bool)
    requires AllScalars(cs)
    ensures var t := [QUOTE] + UnicodeText(cs, upper); ReadString(t, 0) == Got(Encoded(cs), |t|)
  {
    hide ReadString, UnicodeText, Encoded, At;
    var t := [QUOTE] + UnicodeText(cs, upper);
    var tree := UnicodeSpells(cs, upper);
    AtEquals(t, 0, t);
    JsonComplete.StringComplete(t, 0, tree);
  }

  // ---- Order ----

  /** The trees of an array, in textual order. */
  function Items(es: Elements): seq<Tree> { [es.value] + if es.Element? then Items(es.rest) else [] }

  /** The i-th element of an array is the value of its i-th tree. */
  lemma {:induction false} InOrder(es: Elements, i: nat)
    requires GoodElements(es) && i < |Items(es)|
    ensures |DenoteElements(es)| == |Items(es)| && Good(Items(es)[i]) && DenoteElements(es)[i] == Denote(Items(es)[i])
    decreases es
  {
    if es.Element? { InOrder(es.rest, if i == 0 then 0 else i - 1); }
  }

  /** The tree behind the last occurrence of a key. */
  function LastWith(ms: Members, key: bytes): Option<Tree>
    requires GoodMembers(ms)
  {
    var later := if ms.Member? then LastWith(ms.rest, key) else None;
    if later.Some? then later else if CharactersBytes(ms.key) == key then Some(ms.value) else None
  }

  /** Of several members with one key the last one counts. */
  lemma {:induction false} LastWins(ms: Members, key: bytes)
    requires GoodMembers(ms)
    ensures match LastWith(ms, key)
            case None => key !in DenoteMembers(ms)
            case Some(v) => Good(v) && key in DenoteMembers(ms) && DenoteMembers(ms)[key] == Denote(v)
    decreases ms
  {
    if ms.Member? { LastWins(ms.rest, key); }
  }
}

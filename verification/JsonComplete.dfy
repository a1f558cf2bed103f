/** Every text the grammar derives is read, and read as the value the grammar gives it. */
module JsonComplete {
  import opened ByteStrings
  import opened JsonGrammar
  import opened JsonSpec
  import Utf8

  /** What may follow a value: the end, whitespace, a comma or a closing bracket or brace. */
  predicate Delimited(t: bytes, q: nat) {
    q < |t| ==> IsWs(t[q]) || t[q] == COMMA || t[q] == CLOSE_BRACKET || t[q] == CLOSE_BRACE
  }

  lemma {:induction false} WsComplete(t: bytes, p: nat, ws: bytes)
    requires AllWs(ws) && At(t, p, ws)
    requires p + |ws| < |t| ==> !IsWs(t[p + |ws|])
    ensures SkipWs(t, p) == p + |ws|
    decreases |ws|
  {
    if ws != [] {
      AtConcat(t, p, ws[..1], ws[1..]);
      assert ws == ws[..1] + ws[1..];
      AtHead(t, p, ws);
      WsComplete(t, p + 1, ws[1..]);
    }
  }

  lemma {:induction false} DigitsComplete(t: bytes, p: nat, digits: bytes)
    requires AllDigits(digits) && At(t, p, digits)
    requires p + |digits| < |t| ==> !IsDigit(t[p + |digits|])
    ensures SkipDigits(t, p) == p + |digits|
    decreases |digits|
  {
    if digits != [] {
      AtConcat(t, p, digits[..1], digits[1..]);
      assert digits == digits[..1] + digits[1..];
      AtHead(t, p, digits);
      DigitsComplete(t, p + 1, digits[1..]);
    }
  }

  // ---- Strings ----

  /** An escape, from its backslash. */
  lemma EscapeComplete(t: bytes, p: nat, c: Character)
    requires GoodCharacter(c) && !c.Raw? && At(t, p, CharacterText(c))
    ensures p < |t| && t[p] == BACKSLASH && ReadEscape(t, p + 1) == Got(CharacterBytes(c), p + |CharacterText(c)|)
  {
    match c
    case Short(letter) =>
      AtIndex(t, p, [BACKSLASH, letter], 0);
      AtIndex(t, p, [BACKSLASH, letter], 1);
    case Unicode(quad) =>
      QuadComplete(t, p, quad);
    case Surrogates(high, low) =>
      AtConcat(t, p, [BACKSLASH, LETTER_U] + high, [BACKSLASH, LETTER_U] + low);
      QuadComplete(t, p, high);
      QuadComplete(t, p + 6, low);
  }

  lemma QuadComplete(t: bytes, p: nat, quad: bytes)
    requires IsQuad(quad) && At(t, p, [BACKSLASH, LETTER_U] + quad)
    ensures p + 6 <= |t| && t[p] == BACKSLASH && t[p + 1] == LETTER_U
    ensures ReadQuad(t, p + 2) == Got(QuadValue(quad), p + 6)
  {
    AtConcat(t, p, [BACKSLASH, LETTER_U], quad);
    AtIndex(t, p, [BACKSLASH, LETTER_U], 0);
    AtIndex(t, p, [BACKSLASH, LETTER_U], 1);
    AtEquals(t, p + 2, quad);
  }

  lemma {:induction false} CharactersComplete(t: bytes, p: nat, cs: Characters, value: bytes)
    requires GoodCharacters(cs) && At(t, p, CharactersText(cs))
    ensures ReadCharacters(t, p, value) == Got(value + CharactersBytes(cs), p + |CharactersText(cs)|)
    decreases cs
  {
    hide At, ReadCharacters, CharacterText, CharacterBytes, GoodCharacter;
    match cs
    case End =>
      AtByte(t, p, QUOTE);
      EndStep(t, p, value);
      assert value + [] == value;
    case Char(c, rest) =>
      AtConcat(t, p, CharacterText(c), CharactersText(rest));
      CharacterStep(t, p, c, value);
      CharactersComplete(t, p + |CharacterText(c)|, rest, value + CharacterBytes(c));
      assert value + CharacterBytes(c) + CharactersBytes(rest) == value + CharactersBytes(cs);
  }

  lemma EndStep(t: bytes, p: nat, value: bytes)
    requires p < |t| && t[p] == QUOTE
    ensures ReadCharacters(t, p, value) == Got(value, p + 1)
  {
    hide ReadEscape;
  }

  /** One turn of the loop over the characters. */
  lemma CharacterStep(t: bytes, p: nat, c: Character, value: bytes)
    requires GoodCharacter(c) && At(t, p, CharacterText(c))
    ensures p + |CharacterText(c)| <= |t|
    ensures ReadCharacters(t, p, value) == ReadCharacters(t, p + |CharacterText(c)|, value + CharacterBytes(c))
  {
    hide ReadEscape, Utf8.Encode, QuadValue, IsQuad;
    if c.Raw? {
      AtByte(t, p, c.b);
    } else {
      EscapeComplete(t, p, c);
    }
  }

  lemma StringComplete(t: bytes, p: nat, cs: Characters)
    requires GoodCharacters(cs) && At(t, p, StringText(cs))
    ensures ReadString(t, p) == Got(CharactersBytes(cs), p + |StringText(cs)|)
  {
    AtConcat(t, p, [QUOTE], CharactersText(cs));
    AtByte(t, p, QUOTE);
    CharactersComplete(t, p + 1, cs, []);
    assert [] + CharactersBytes(cs) == CharactersBytes(cs);
  }

  // ---- Numbers ----

  lemma WholeComplete(t: bytes, p: nat, whole: bytes)
    requires AllDigits(whole) && whole != [] && (whole[0] == ZERO ==> |whole| == 1)
    requires At(t, p, whole) && (p + |whole| < |t| ==> !IsDigit(t[p + |whole|]))
    ensures ReadWhole(t, p) == Got(whole, p + |whole|)
  {
    AtHead(t, p, whole);
    AtEquals(t, p, whole);
    if whole[0] != ZERO {
      DigitsComplete(t, p, whole);
    }
  }

  lemma FractionComplete(t: bytes, p: nat, fraction: bytes)
    requires AllDigits(fraction) && At(t, p, FractionText(fraction))
    requires var q := p + |FractionText(fraction)|; q < |t| ==> !IsDigit(t[q]) && t[q] != DOT
    ensures ReadFraction(t, p) == Got(fraction, p + |FractionText(fraction)|)
  {
    if fraction != [] {
      AtConcat(t, p, [DOT], fraction);
      AtByte(t, p, DOT);
      AtEquals(t, p + 1, fraction);
      DigitsComplete(t, p + 1, fraction);
    }
  }

  lemma ExponentComplete(t: bytes, p: nat, mark: bytes, exponent: bytes)
    requires GoodMark(mark) && AllDigits(exponent) && (mark == [] <==> exponent == [])
    requires At(t, p, mark + exponent) && Delimited(t, p + |mark| + |exponent|)
    ensures MarkEnd(t, p) == p + |mark| && t[p..MarkEnd(t, p)] == mark
    ensures ReadExponent(t, p) == Got(exponent, p + |mark| + |exponent|)
  {
    AtConcat(t, p, mark, exponent);
    AtEquals(t, p, mark);
    AtEquals(t, p + |mark|, exponent);
    var m := p + |mark|;
    if mark != [] {
      AtHead(t, m, exponent);
      assert t[p] == mark[0] && t[m - 1] == mark[|mark| - 1];
      DigitsComplete(t, m, exponent);
    }
  }

  lemma UnsignedComplete(t: bytes, p: nat, n: Numeral)
    requires GoodShape(n) && At(t, p, UnsignedText(n)) && Delimited(t, p + |UnsignedText(n)|)
    ensures var f := p + |n.whole|; var e := f + |FractionText(n.fraction)|;
            && p < |t| && IsDigit(t[p]) && ReadWhole(t, p) == Got(n.whole, f) && ReadFraction(t, f) == Got(n.fraction, e)
            && t[e..MarkEnd(t, e)] == n.mark && ReadExponent(t, e) == Got(n.exponent, p + |UnsignedText(n)|)
  {
    var whole, fraction, tail := n.whole, FractionText(n.fraction), n.mark + n.exponent;
    AtThree(t, p, whole, fraction, tail);
    var f, e := p + |whole|, p + |whole| + |fraction|;
    AtHead(t, p, whole);
    if n.mark != [] {
      AtConcat(t, e, n.mark, n.exponent);
      AtHead(t, e, n.mark);
    }
    if n.fraction != [] {
      AtConcat(t, f, [DOT], n.fraction);
      AtByte(t, f, DOT);
    }
    WholeComplete(t, p, whole);
    FractionComplete(t, f, n.fraction);
    ExponentComplete(t, e, n.mark, n.exponent);
  }

  lemma ShapeComplete(t: bytes, p: nat, n: Numeral)
    requires GoodShape(n) && At(t, p, NumeralText(n)) && Delimited(t, p + |NumeralText(n)|)
    ensures p < |t| && (t[p] == MINUS || IsDigit(t[p]))
    ensures ReadNumeral(t, p) == Got(n, p + |NumeralText(n)|)
  {
    hide At, UnsignedText, ReadWhole, ReadFraction, ReadExponent, MarkEnd;
    if n.negative {
      AtConcat(t, p, [MINUS], UnsignedText(n));
      AtByte(t, p, MINUS);
      UnsignedComplete(t, p + 1, n);
    } else {
      UnsignedComplete(t, p, n);
    }
  }

  lemma NumeralComplete(t: bytes, p: nat, n: Numeral)
    requires GoodNumeral(n) && At(t, p, NumeralText(n)) && Delimited(t, p + |NumeralText(n)|)
    ensures p < |t| && (t[p] == MINUS || IsDigit(t[p]))
    ensures ReadNumber(t, p) == Got(Number(NumeralValue(n)), p + |NumeralText(n)|)
  {
    ShapeComplete(t, p, n);
  }

  // ---- Values ----

  /** No tree starts with whitespace or with something that would end or separate a list. */
  predicate Opens(b: byte) {
    !IsWs(b) && b != CLOSE_BRACKET && b != CLOSE_BRACE && b != COMMA
  }

  /** How each kind of tree starts. */
  lemma TextHead(t: bytes, p: nat, v: Tree)
    requires Good(v) && At(t, p, Text(v)) && Delimited(t, p + |Text(v)|)
    ensures p < |t| && Opens(t[p])
    ensures v.NumberTree? ==> t[p] == MINUS || IsDigit(t[p])
    ensures v.StringTree? ==> t[p] == QUOTE
    ensures v.EmptyArray? || v.ArrayTree? ==> t[p] == OPEN_BRACKET
    ensures v.EmptyObject? || v.ObjectTree? ==> t[p] == OPEN_BRACE
  {
    hide At, NumeralText, CharactersText, ElementsText, MembersText, GoodElements, GoodMembers;
    match v
    case NullTree => AtHead(t, p, Ascii("null"));
    case BoolTree(b) => AtHead(t, p, BoolText(b));
    case NumberTree(n) => ShapeComplete(t, p, n);
    case StringTree(cs) => AtConcat(t, p, [QUOTE], CharactersText(cs)); AtByte(t, p, QUOTE);
    case EmptyArray(ws) => AtConcat(t, p, [OPEN_BRACKET], ws + [CLOSE_BRACKET]); AtByte(t, p, OPEN_BRACKET);
    case ArrayTree(es) => AtConcat(t, p, [OPEN_BRACKET], ElementsText(es)); AtByte(t, p, OPEN_BRACKET);
    case EmptyObject(ws) => AtConcat(t, p, [OPEN_BRACE], ws + [CLOSE_BRACE]); AtByte(t, p, OPEN_BRACE);
    case ObjectTree(ms) => AtConcat(t, p, [OPEN_BRACE], MembersText(ms)); AtByte(t, p, OPEN_BRACE);
  }

  /** A text that starts with a literal starts with its first letter. */
  lemma LiteralHeads(t: bytes, q: nat)
    requires q < |t|
    ensures At(t, q, Ascii("null")) ==> t[q] == 0x6E
    ensures At(t, q, Ascii("true")) ==> t[q] == 0x74
    ensures At(t, q, Ascii("false")) ==> t[q] == 0x66
  {
    if At(t, q, Ascii("null")) { AtHead(t, q, Ascii("null")); }
    if At(t, q, Ascii("true")) { AtHead(t, q, Ascii("true")); }
    if At(t, q, Ascii("false")) { AtHead(t, q, Ascii("false")); }
  }

  /** Which reader a value goes to, by its first byte. */
  lemma Dispatch(t: bytes, p: nat, depth: nat)
    requires p <= |t| && SkipWs(t, p) < |t| && depth <= MAXIMUM_DEPTH
    ensures var q, r := SkipWs(t, p), ReadValue(t, p, depth);
            && (At(t, q, Ascii("null")) ==> r == Got(Null, q + 4))
            && (At(t, q, Ascii("true")) ==> r == Got(Bool(true), q + 4))
            && (At(t, q, Ascii("false")) ==> r == Got(Bool(false), q + 5))
            && (t[q] == QUOTE && ReadString(t, q).Got? ==> r == Got(String(ReadString(t, q).value), ReadString(t, q).next))
            && (t[q] == OPEN_BRACKET ==> r == ReadArray(t, q, depth + 1))
            && (t[q] == OPEN_BRACE ==> r == ReadObject(t, q, depth + 1))
            && (t[q] == MINUS || IsDigit(t[q]) ==> r == ReadNumber(t, q))
  {
    LiteralHeads(t, SkipWs(t, p));
  }

  lemma SkipTwice(t: bytes, p: nat, depth: nat)
    requires p <= |t| && depth <= MAXIMUM_DEPTH
    ensures ReadValue(t, SkipWs(t, p), depth) == ReadValue(t, p, depth)
  {
    var q := SkipWs(t, p);
    assert SkipWs(t, q) == q;
  }

  /** Whitespace, a piece and whitespace, in front of a tail: where the cursor stops. */
  lemma Slot(t: bytes, p: nat, before: bytes, x: bytes, after: bytes, tail: bytes)
    requires AllWs(before) && AllWs(after) && At(t, p, before + (x + (after + tail)))
    ensures var q, a, b := p + |before|, p + |before| + |x|, p + |before| + |x| + |after|;
            && At(t, q, x) && At(t, b, tail)
            && (q < |t| && !IsWs(t[q]) ==> SkipWs(t, p) == q)
            && (b == |t| || !IsWs(t[b]) ==> SkipWs(t, a) == b)
            && (a < b ==> IsWs(t[a]))
  {
    var q, a, b := p + |before|, p + |before| + |x|, p + |before| + |x| + |after|;
    AtThree(t, p, before, x, after + tail);
    AtConcat(t, a, after, tail);
    if q < |t| && !IsWs(t[q]) {
      WsComplete(t, p, before);
    }
    if b == |t| || !IsWs(t[b]) {
      WsComplete(t, a, after);
    }
    if after != [] {
      AtHead(t, a, after);
    }
  }

  lemma ScalarComplete(t: bytes, p: nat, v: Tree, depth: nat)
    requires Good(v) && !v.ArrayTree? && !v.ObjectTree? && depth <= MAXIMUM_DEPTH && p <= |t|
    requires var q := SkipWs(t, p); At(t, q, Text(v)) && Delimited(t, q + |Text(v)|)
    ensures ReadValue(t, p, depth) == Got(Denote(v), SkipWs(t, p) + |Text(v)|)
  {
    hide At, Delimited, SkipWs, ReadValue, Text, Denote, Good;
    if v.EmptyArray? || v.EmptyObject? { EmptyContainerComplete(t, p, v, depth); }
    else if v.NumberTree? || v.StringTree? { LeafComplete(t, p, v, depth); }
    else { LiteralComplete(t, p, v, depth); }
  }

  lemma LiteralComplete(t: bytes, p: nat, v: Tree, depth: nat)
    requires (v.NullTree? || v.BoolTree?) && depth <= MAXIMUM_DEPTH && p <= |t|
    requires var q := SkipWs(t, p); At(t, q, Text(v)) && Delimited(t, q + |Text(v)|)
    ensures ReadValue(t, p, depth) == Got(Denote(v), SkipWs(t, p) + |Text(v)|)
  {
    hide At, Delimited, SkipWs, ReadNumber, ReadString, ReadValue;
    TextHead(t, SkipWs(t, p), v);
    Dispatch(t, p, depth);
  }

  lemma LeafComplete(t: bytes, p: nat, v: Tree, depth: nat)
    requires Good(v) && (v.NumberTree? || v.StringTree?) && depth <= MAXIMUM_DEPTH && p <= |t|
    requires var q := SkipWs(t, p); At(t, q, Text(v)) && Delimited(t, q + |Text(v)|)
    ensures ReadValue(t, p, depth) == Got(Denote(v), SkipWs(t, p) + |Text(v)|)
  {
    hide At, Delimited, SkipWs, ReadNumber, ReadString, ReadValue, NumeralText, StringText, CharactersBytes, NumeralValue, GoodNumeral, GoodCharacters;
    var q := SkipWs(t, p);
    TextHead(t, q, v);
    Dispatch(t, p, depth);
    if v.NumberTree? { NumeralComplete(t, q, v.numeral); } else { StringComplete(t, q, v.characters); }
  }

  lemma EmptyContainerComplete(t: bytes, p: nat, v: Tree, depth: nat)
    requires Good(v) && (v.EmptyArray? || v.EmptyObject?) && depth <= MAXIMUM_DEPTH && p <= |t|
    requires var q := SkipWs(t, p); At(t, q, Text(v)) && Delimited(t, q + |Text(v)|)
    ensures ReadValue(t, p, depth) == Got(Denote(v), SkipWs(t, p) + |Text(v)|)
  {
    hide At, Delimited, SkipWs, ReadNumber, ReadString, ReadValue, AllWs;
    var q := SkipWs(t, p);
    TextHead(t, q, v);
    Dispatch(t, p, depth);
    match v
    case EmptyArray(ws) => EmptyComplete(t, q, OPEN_BRACKET, ws, CLOSE_BRACKET);
    case EmptyObject(ws) => EmptyComplete(t, q, OPEN_BRACE, ws, CLOSE_BRACE);
  }

  lemma {:induction false} TreeComplete(t: bytes, p: nat, v: Tree, depth: nat)
    requires Good(v) && depth + Depth(v) <= MAXIMUM_DEPTH && p <= |t|
    requires var q := SkipWs(t, p); At(t, q, Text(v)) && Delimited(t, q + |Text(v)|)
    ensures ReadValue(t, p, depth) == Got(Denote(v), SkipWs(t, p) + |Text(v)|)
    decreases v, 1
  {
    hide At, Delimited, SkipWs, ReadValue, ReadArray, ReadObject, ElementsText, MembersText, DenoteElements, DenoteMembers;
    hide GoodElements, GoodMembers, ElementsDepth, MembersDepth;
    var q := SkipWs(t, p);
    if v.ArrayTree? {
      TextHead(t, q, v);
      Dispatch(t, p, depth);
      ArrayComplete(t, q, v.elements, depth + 1);
    } else if v.ObjectTree? {
      TextHead(t, q, v);
      Dispatch(t, p, depth);
      ObjectComplete(t, q, v.members, depth + 1);
    } else {
      ScalarComplete(t, p, v, depth);
    }
  }

  lemma EmptyComplete(t: bytes, q: nat, open: byte, ws: bytes, close: byte)
    requires AllWs(ws) && !IsWs(close) && At(t, q, [open] + (ws + [close]))
    ensures q < |t| && t[q] == open && SkipWs(t, q + 1) == q + 1 + |ws| < |t| && t[q + 1 + |ws|] == close
  {
    AtThree(t, q, [open], ws, [close]);
    AtByte(t, q, open);
    AtByte(t, q + 1 + |ws|, close);
    WsComplete(t, q + 1, ws);
  }

  lemma {:induction false} ArrayComplete(t: bytes, q: nat, es: Elements, depth: nat)
    requires GoodElements(es) && depth + ElementsDepth(es) <= MAXIMUM_DEPTH
    requires At(t, q, [OPEN_BRACKET] + ElementsText(es))
    ensures ReadArray(t, q, depth) == Got(Array(DenoteElements(es)), q + 1 + |ElementsText(es)|)
    decreases es, 1
  {
    hide At, ReadElements, SkipWs, ElementsText, DenoteElements, GoodElements, ElementsDepth;
    AtConcat(t, q, [OPEN_BRACKET], ElementsText(es));
    AtByte(t, q, OPEN_BRACKET);
    ElementsComplete(t, q + 1, es, depth, []);
    assert [] + DenoteElements(es) == DenoteElements(es);
  }

  /** One turn of the loop over the elements. */
  lemma ElementStep(t: bytes, p: nat, depth: nat, items: seq<Json>, item: Json, a: nat)
    requires p < |t| && p < a <= |t| && ReadValue(t, p, depth) == Got(item, a) && SkipWs(t, a) < |t|
    ensures var b, r := SkipWs(t, a), ReadElements(t, p, depth, items);
            && (t[b] == CLOSE_BRACKET ==> r == Got(Array(items + [item]), b + 1))
            && (t[b] == COMMA ==> r == ReadElements(t, SkipWs(t, b + 1), depth, items + [item]))
  {
    hide ReadValue, SkipWs;
  }

  /** Where the first element and what follows it lie. */
  lemma ElementPlaces(t: bytes, p: nat, es: Elements)
    requires GoodElements(es) && At(t, p, ElementsText(es))
    ensures var q, a := p + |es.before|, p + |es.before| + |Text(es.value)|; var b := a + |es.after|;
            && SkipWs(t, p) == q < |t| && Opens(t[q]) && At(t, q, Text(es.value)) && Delimited(t, a)
            && SkipWs(t, a) == b < |t| && t[b] == (if es.Element? then COMMA else CLOSE_BRACKET)
            && (es.Element? ==> At(t, b + 1, ElementsText(es.rest)))
            && |ElementsTail(es)| == (if es.Element? then 1 + |ElementsText(es.rest)| else 1)
  {
    hide At, SkipWs, Text, Good, AllWs;
    var x := Text(es.value);
    var b := p + |es.before| + |x| + |es.after|;
    Slot(t, p, es.before, x, es.after, ElementsTail(es));
    if es.Element? {
      AtConcat(t, b, [COMMA], ElementsText(es.rest));
      AtByte(t, b, COMMA);
    } else {
      AtByte(t, b, CLOSE_BRACKET);
    }
    TextHead(t, p + |es.before|, es.value);
  }

  lemma {:induction false} ElementsComplete(t: bytes, p: nat, es: Elements, depth: nat, items: seq<Json>)
    requires GoodElements(es) && depth + ElementsDepth(es) <= MAXIMUM_DEPTH && At(t, p, ElementsText(es))
    ensures var q := SkipWs(t, p); q < |t| && t[q] != CLOSE_BRACKET
    ensures ReadElements(t, SkipWs(t, p), depth, items)
         == Got(Array(items + DenoteElements(es)), p + |ElementsText(es)|)
    decreases es, 0
  {
    hide At, Delimited, ReadValue, ReadElements, ElementsTail, Text, Good, Denote, Depth;
    var v := es.value;
    var q, a := p + |es.before|, p + |es.before| + |Text(v)|;
    ElementPlaces(t, p, es);
    TreeComplete(t, q, v, depth);
    ElementStep(t, q, depth, items, Denote(v), a);
    if es.Element? {
      ElementsComplete(t, a + |es.after| + 1, es.rest, depth, items + [Denote(v)]);
      assert items + [Denote(v)] + DenoteElements(es.rest) == items + DenoteElements(es);
    } else {
      assert items + [Denote(v)] == items + DenoteElements(es);
    }
  }

  lemma {:induction false} ObjectComplete(t: bytes, q: nat, ms: Members, depth: nat)
    requires GoodMembers(ms) && depth + MembersDepth(ms) <= MAXIMUM_DEPTH
    requires At(t, q, [OPEN_BRACE] + MembersText(ms))
    ensures ReadObject(t, q, depth) == Got(Object(DenoteMembers(ms)), q + 1 + |MembersText(ms)|)
    decreases ms, 1
  {
    hide At, ReadMembers, SkipWs, MembersText, DenoteMembers, GoodMembers, MembersDepth;
    AtConcat(t, q, [OPEN_BRACE], MembersText(ms));
    AtByte(t, q, OPEN_BRACE);
    MembersComplete(t, q + 1, ms, depth, map[]);
    assert map[] + DenoteMembers(ms) == DenoteMembers(ms);
  }

  /** One turn of the loop over the members. */
  lemma MemberStep(t: bytes, p: nat, depth: nat, fields: map<bytes, Json>, key: bytes, k: nat, item: Json, a: nat)
    requires p < |t| && p < k <= |t| && ReadString(t, p) == Got(key, k)
    requires SkipWs(t, k) < |t| && t[SkipWs(t, k)] == COLON
    requires SkipWs(t, k) + 1 < a <= |t| && ReadValue(t, SkipWs(t, k) + 1, depth) == Got(item, a) && SkipWs(t, a) < |t|
    ensures var b, r := SkipWs(t, a), ReadMembers(t, p, depth, fields);
            && (t[b] == CLOSE_BRACE ==> r == Got(Object(fields[key := item]), b + 1))
            && (t[b] == COMMA ==> r == ReadMembers(t, SkipWs(t, b + 1), depth, fields[key := item]))
  {
    hide ReadString, ReadValue, SkipWs;
  }

  /** A key, its colon, and the bytes behind the colon. */
  lemma KeyComplete(t: bytes, p: nat, before: bytes, key: Characters, mid: bytes, slot: bytes)
    requires AllWs(before) && GoodCharacters(key) && AllWs(mid)
    requires At(t, p, before + (StringText(key) + (mid + ([COLON] + slot))))
    ensures var q, k, c := p + |before|, p + |before| + |StringText(key)|, p + |before| + |StringText(key)| + |mid|;
            && SkipWs(t, p) == q < |t| && t[q] == QUOTE && ReadString(t, q) == Got(CharactersBytes(key), k)
            && SkipWs(t, k) == c < |t| && t[c] == COLON && At(t, c + 1, slot)
  {
    hide At, CharactersText, CharactersBytes, ReadString, SkipWs;
    var s := StringText(key);
    var q, k, c := p + |before|, p + |before| + |s|, p + |before| + |s| + |mid|;
    AtThree(t, p, before, s, mid + ([COLON] + slot));
    AtThree(t, k, mid, [COLON], slot);
    AtByte(t, c, COLON);
    AtConcat(t, q, [QUOTE], CharactersText(key));
    AtByte(t, q, QUOTE);
    WsComplete(t, p, before);
    WsComplete(t, k, mid);
    StringComplete(t, q, key);
  }

  /** Where the first member's value and what follows it lie. */
  lemma MemberPlaces(t: bytes, c: nat, ms: Members)
    requires GoodMembers(ms) && At(t, c, ms.lead + (Text(ms.value) + (ms.after + MembersTail(ms))))
    ensures var q, a := c + |ms.lead|, c + |ms.lead| + |Text(ms.value)|; var b := a + |ms.after|;
            && SkipWs(t, c) == q < |t| && At(t, q, Text(ms.value)) && Delimited(t, a)
            && SkipWs(t, a) == b < |t| && t[b] == (if ms.Member? then COMMA else CLOSE_BRACE)
            && (ms.Member? ==> At(t, b + 1, MembersText(ms.rest)))
            && |MembersTail(ms)| == (if ms.Member? then 1 + |MembersText(ms.rest)| else 1)
  {
    hide At, SkipWs, Text, Good, AllWs, GoodCharacters, CharactersText;
    var x := Text(ms.value);
    var b := c + |ms.lead| + |x| + |ms.after|;
    Slot(t, c, ms.lead, x, ms.after, MembersTail(ms));
    if ms.Member? {
      AtConcat(t, b, [COMMA], MembersText(ms.rest));
      AtByte(t, b, COMMA);
    } else {
      AtByte(t, b, CLOSE_BRACE);
    }
    TextHead(t, c + |ms.lead|, ms.value);
  }

  lemma {:induction false} MembersComplete(t: bytes, p: nat, ms: Members, depth: nat, fields: map<bytes, Json>)
    requires GoodMembers(ms) && depth + MembersDepth(ms) <= MAXIMUM_DEPTH && At(t, p, MembersText(ms))
    ensures var q := SkipWs(t, p); q < |t| && t[q] != CLOSE_BRACE
    ensures ReadMembers(t, SkipWs(t, p), depth, fields)
         == Got(Object(fields + DenoteMembers(ms)), p + |MembersText(ms)|)
    decreases ms, 0
  {
    hide At, Delimited, SkipWs, ReadString, ReadValue, ReadMembers, Text, StringText, CharactersBytes, Good, Denote, Depth, MembersTail;
    var key, v := CharactersBytes(ms.key), ms.value;
    var k := p + |ms.before| + |StringText(ms.key)|;
    var c := k + |ms.mid| + 1;
    var a := c + |ms.lead| + |Text(v)|;
    KeyComplete(t, p, ms.before, ms.key, ms.mid, ms.lead + (Text(v) + (ms.after + MembersTail(ms))));
    MemberPlaces(t, c, ms);
    TreeComplete(t, c, v, depth);
    MemberStep(t, p + |ms.before|, depth, fields, key, k, Denote(v), a);
    var next := fields[key := Denote(v)];
    if ms.Member? {
      MembersComplete(t, a + |ms.after| + 1, ms.rest, depth, next);
      assert next + DenoteMembers(ms.rest) == fields + DenoteMembers(ms);
    } else {
      assert next == fields + DenoteMembers(ms);
    }
  }

  lemma TextComplete(t: bytes, before: bytes, v: Tree, after: bytes)
    requires AllWs(before) && AllWs(after) && Good(v) && Depth(v) <= MAXIMUM_DEPTH
    requires At(t, 0, before + (Text(v) + (after + []))) && |t| == |before| + |Text(v)| + |after|
    ensures ReadText(t) == Got(Denote(v), |t|)
  {
    hide At, SkipWs, ReadValue, Text, Good, Denote, Depth;
    Slot(t, 0, before, Text(v), after, []);
    TextHead(t, |before|, v);
    TreeComplete(t, 0, v, 0);
    SkipTwice(t, 0, 0);
  }

  /** Completeness: a derivable text is accepted with the derived value. */
  lemma Complete(text: bytes, value: Json)
    requires Derives(text, value)
    ensures ReadText(text) == Got(value, |text|)
  {
    hide At, ReadText, Text, Good, Denote, Depth, AllWs;
    var before, v, after :| Spells(before, v, after, text) && Denote(v) == value;
    var spelled := before + (Text(v) + (after + []));
    assert text == spelled;
    AtEquals(text, 0, spelled);
    TextComplete(text, before, v, after);
  }
}

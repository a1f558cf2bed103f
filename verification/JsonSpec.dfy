/**
  * What the recursive-descent parser computes, as functions of the text and the cursor.
  * Each result carries the cursor behind what was read, or the first error and its byte offset.
  */
module JsonSpec {
  import opened ByteStrings
  import opened JsonGrammar
  import Utf8

  datatype ErrorKind =
    | NestingExceedsLimit
    | ExpectedValue
    | InvalidValue
    | ExpectedString
    | ControlCharacter
    | UnterminatedEscape
    | InvalidEscape
    | UnterminatedString
    | IncompleteUnicodeEscape
    | InvalidUnicodeEscape
    | MissingLowSurrogate
    | InvalidLowSurrogate
    | UnpairedLowSurrogate
    | ExpectedCommaOrBracket
    | UnterminatedArray
    | ExpectedColon
    | ExpectedCommaOrBrace
    | UnterminatedObject
    | IncompleteNumber
    | LeadingZero
    | InvalidNumber
    | FractionWithoutDigits
    | ExponentWithoutDigits
    | TrailingCharacters

  datatype ParseError = ParseError(kind: ErrorKind, offset: nat)

  datatype Read<+T> = Got(value: T, next: nat) | Failed(error: ParseError)

  function Fail<T>(kind: ErrorKind, offset: nat): Read<T> { Failed(ParseError(kind, offset)) }

  // ---- Runs of one class of byte ----

  function SkipWs(t: bytes, p: nat): (q: nat)
    requires p <= |t|
    ensures p <= q <= |t|
    ensures q < |t| ==> !IsWs(t[q])
    decreases |t| - p
  {
    if p < |t| && IsWs(t[p]) then SkipWs(t, p + 1) else p
  }

  lemma {:induction false} SkipWsRun(t: bytes, p: nat)
    requires p <= |t|
    ensures AllWs(t[p..SkipWs(t, p)])
    decreases |t| - p
  {
    var q := SkipWs(t, p);
    if p < q {
      SkipWsRun(t, p + 1);
      assert t[p..q] == [t[p]] + t[p + 1..q];
    }
  }

  function SkipDigits(t: bytes, p: nat): (q: nat)
    requires p <= |t|
    ensures p <= q <= |t|
    ensures q < |t| ==> !IsDigit(t[q])
    decreases |t| - p
  {
    if p < |t| && IsDigit(t[p]) then SkipDigits(t, p + 1) else p
  }

  lemma {:induction false} SkipDigitsRun(t: bytes, p: nat)
    requires p <= |t|
    ensures AllDigits(t[p..SkipDigits(t, p)])
    decreases |t| - p
  {
    var q := SkipDigits(t, p);
    if p < q {
      SkipDigitsRun(t, p + 1);
      assert t[p..q] == [t[p]] + t[p + 1..q];
    }
  }

  // ---- Strings ----

  function ReadQuad(t: bytes, p: nat): (r: Read<nat>)
    requires p <= |t|
    ensures r.Got? ==> r.next == p + 4 <= |t| && IsQuad(t[p..p + 4]) && r.value == QuadValue(t[p..p + 4])
    ensures p + 4 <= |t| && IsQuad(t[p..p + 4]) ==> r.Got?
  {
    if p + 4 > |t| then Fail(IncompleteUnicodeEscape, p)
    else if HexDigit(t[p]).None? then Fail(InvalidUnicodeEscape, p + 1)
    else if HexDigit(t[p + 1]).None? then Fail(InvalidUnicodeEscape, p + 2)
    else if HexDigit(t[p + 2]).None? then Fail(InvalidUnicodeEscape, p + 3)
    else if HexDigit(t[p + 3]).None? then Fail(InvalidUnicodeEscape, p + 4)
    else Got(QuadValue(t[p..p + 4]), p + 4)
  }

  /** The first `n` bytes behind `p` are hexadecimal digits. */
  predicate HexDigits(t: bytes, p: nat, n: nat)
    requires p + n <= |t|
  {
    n > 0 ==> HexDigits(t, p, n - 1) && HexDigit(t[p + n - 1]).Some?
  }

  function HexValue(t: bytes, p: nat, n: nat): nat
    requires p + n <= |t| && HexDigits(t, p, n)
  {
    if n == 0 then 0 else HexValue(t, p, n - 1) * 16 + HexDigit(t[p + n - 1]).value
  }

  lemma HexFour(t: bytes, p: nat)
    requires p + 4 <= |t|
    ensures HexDigits(t, p, 4) ==> ReadQuad(t, p) == Got(HexValue(t, p, 4), p + 4)
    ensures forall i | 0 <= i < 4 && HexDigits(t, p, i) && HexDigit(t[p + i]).None? ::
              ReadQuad(t, p) == Failed(ParseError(InvalidUnicodeEscape, p + i + 1))
  {
    forall i | 0 <= i < 4 && HexDigits(t, p, i) && HexDigit(t[p + i]).None?
      ensures ReadQuad(t, p) == Failed(ParseError(InvalidUnicodeEscape, p + i + 1))
    {
      assert i >= 1 ==> HexDigits(t, p, i - 1);
      assert i >= 2 ==> HexDigits(t, p, i - 2);
      assert i >= 3 ==> HexDigits(t, p, i - 3);
    }
    if HexDigits(t, p, 4) {
      assert HexDigits(t, p, 3) && HexDigits(t, p, 2) && HexDigits(t, p, 1);
      assert HexValue(t, p, 1) == HexValue(t, p, 0) * 16 + HexDigit(t[p]).value;
      assert HexValue(t, p, 3) == HexValue(t, p, 2) * 16 + HexDigit(t[p + 2]).value;
    }
  }

  /** The code point of a \u escape; `p` is behind the u. */
  function ReadCodePoint(t: bytes, p: nat): (r: Read<nat>)
    requires p <= |t|
    ensures r.Got? ==> p < r.next <= |t| && Utf8.IsScalar(r.value)
  {
    match ReadQuad(t, p)
    case Failed(e) => Failed(e)
    case Got(c, q) =>
      if IsHighSurrogate(c) then
        if q + 2 > |t| || t[q] != BACKSLASH || t[q + 1] != LETTER_U then Fail(MissingLowSurrogate, q)
        else
          match ReadQuad(t, q + 2)
          case Failed(e) => Failed(e)
          case Got(low, next) =>
            if !IsLowSurrogate(low) then Fail(InvalidLowSurrogate, next) else Got(Combine(c, low), next)
      else if IsLowSurrogate(c) then Fail(UnpairedLowSurrogate, q)
      else Got(c, q)
  }

  /** The bytes an escape stands for; `p` is behind the backslash. */
  function ReadEscape(t: bytes, p: nat): (r: Read<bytes>)
    requires p <= |t|
    ensures r.Got? ==> p < r.next <= |t|
  {
    if p >= |t| then Fail(UnterminatedEscape, p)
    else if t[p] == LETTER_U then
      match ReadCodePoint(t, p + 1)
      case Failed(e) => Failed(e)
      case Got(c, q) => Got(Utf8.Encode(c), q)
    else
      match Unescaped(t[p])
      case Some(b) => Got([b], p + 1)
      case None => Fail(InvalidEscape, p + 1)
  }

  /** The rest of a string whose characters so far stand for `value`. */
  function ReadCharacters(t: bytes, p: nat, value: bytes): (r: Read<bytes>)
    requires p <= |t|
    ensures r.Got? ==> p < r.next <= |t|
    decreases |t| - p
  {
    if p >= |t| then Fail(UnterminatedString, p)
    else if t[p] == QUOTE then Got(value, p + 1)
    else if t[p] < 0x20 then Fail(ControlCharacter, p + 1)
    else if t[p] != BACKSLASH then ReadCharacters(t, p + 1, value + [t[p]])
    else
      match ReadEscape(t, p + 1)
      case Failed(e) => Failed(e)
      case Got(b, q) => ReadCharacters(t, q, value + b)
  }

  function ReadString(t: bytes, p: nat): (r: Read<bytes>)
    requires p <= |t|
    ensures r.Got? ==> p < r.next <= |t|
  {
    if p >= |t| || t[p] != QUOTE then Fail(ExpectedString, p) else ReadCharacters(t, p + 1, [])
  }

  // ---- Numbers ----

  /** The end of the integer digits, which start at `p`. */
  function ReadWhole(t: bytes, p: nat): (r: Read<bytes>)
    requires p <= |t|
    ensures r.Got? ==> p < r.next <= |t| && r.value == t[p..r.next]
  {
    if p >= |t| then Fail(IncompleteNumber, p)
    else if t[p] == ZERO then
      if p + 1 < |t| && IsDigit(t[p + 1]) then Fail(LeadingZero, p + 1) else Got(t[p..p + 1], p + 1)
    else if IsDigit(t[p]) then Got(t[p..SkipDigits(t, p)], SkipDigits(t, p))
    else Fail(InvalidNumber, p)
  }

  function ReadFraction(t: bytes, p: nat): (r: Read<bytes>)
    requires p <= |t|
    ensures r.Got? ==> p <= r.next <= |t|
  {
    if p < |t| && t[p] == DOT then
      var q := SkipDigits(t, p + 1);
      if q == p + 1 then Fail(FractionWithoutDigits, q) else Got(t[p + 1..q], q)
    else Got([], p)
  }

  /** The end of the exponent mark: the letter e and an optional sign. */
  function MarkEnd(t: bytes, p: nat): (q: nat)
    requires p <= |t|
    ensures p <= q <= |t|
  {
    if p < |t| && (t[p] == 0x65 || t[p] == 0x45) then
      if p + 1 < |t| && (t[p + 1] == PLUS || t[p + 1] == MINUS) then p + 2 else p + 1
    else p
  }

  function ReadExponent(t: bytes, p: nat): (r: Read<bytes>)
    requires p <= |t|
    ensures r.Got? ==> MarkEnd(t, p) <= r.next <= |t|
  {
    var m := MarkEnd(t, p);
    if m == p then Got([], p)
    else
      var q := SkipDigits(t, m);
      if q == m then Fail(ExponentWithoutDigits, q) else Got(t[m..q], q)
  }

  /** The numeral at `p`, without the range check. */
  function ReadNumeral(t: bytes, p: nat): (r: Read<Numeral>)
    requires p < |t|
    ensures r.Got? ==> p < r.next <= |t|
  {
    var negative := t[p] == MINUS;
    match ReadWhole(t, if negative then p + 1 else p)
    case Failed(e) => Failed(e)
    case Got(whole, a) =>
      match ReadFraction(t, a)
      case Failed(e) => Failed(e)
      case Got(fraction, b) =>
        match ReadExponent(t, b)
        case Failed(e) => Failed(e)
        case Got(exponent, c) => Got(Numeral(negative, whole, fraction, t[b..MarkEnd(t, b)], exponent), c)
  }

  lemma ReadNumeralDigits(t: bytes, p: nat)
    requires p < |t| && ReadNumeral(t, p).Got?
    ensures var n := ReadNumeral(t, p).value;
            AllDigits(n.whole) && AllDigits(n.fraction) && AllDigits(n.exponent)
  {
    var w := if t[p] == MINUS then p + 1 else p;
    SkipDigitsRun(t, w);
    var f := ReadWhole(t, w).next;
    if f < |t| { SkipDigitsRun(t, f + 1); }
    SkipDigitsRun(t, MarkEnd(t, ReadFraction(t, f).next));
  }

  function ReadNumber(t: bytes, p: nat): (r: Read<Json>)
    requires p < |t|
    ensures r.Got? ==> p < r.next <= |t|
  {
    match ReadNumeral(t, p)
    case Failed(e) => Failed(e)
    case Got(n, q) =>
      ReadNumeralDigits(t, p);
      var d := NumeralValue(n);
      if IsFinite(d) then Got(Number(d), q) else Fail(InvalidNumber, q)
  }

  // ---- Values ----

  function ReadValue(t: bytes, p: nat, depth: nat): (r: Read<Json>)
    requires p <= |t|
    ensures r.Got? ==> p < r.next <= |t|
    decreases |t| - p, 1
  {
    if depth > MAXIMUM_DEPTH then Fail(NestingExceedsLimit, p)
    else
      var q := SkipWs(t, p);
      if q >= |t| then Fail(ExpectedValue, q)
      else if At(t, q, Ascii("null")) then Got(Null, q + 4)
      else if At(t, q, Ascii("true")) then Got(Bool(true), q + 4)
      else if At(t, q, Ascii("false")) then Got(Bool(false), q + 5)
      else if t[q] == QUOTE then
        match ReadString(t, q)
        case Failed(e) => Failed(e)
        case Got(s, next) => Got(String(s), next)
      else if t[q] == OPEN_BRACKET then ReadArray(t, q, depth + 1)
      else if t[q] == OPEN_BRACE then ReadObject(t, q, depth + 1)
      else if t[q] == MINUS || IsDigit(t[q]) then ReadNumber(t, q)
      else Fail(InvalidValue, q)
  }

  function ReadArray(t: bytes, p: nat, depth: nat): (r: Read<Json>)
    requires p < |t|
    ensures r.Got? ==> p < r.next <= |t|
    decreases |t| - p, 0
  {
    var q := SkipWs(t, p + 1);
    if q < |t| && t[q] == CLOSE_BRACKET then Got(Array([]), q + 1) else ReadElements(t, q, depth, [])
  }

  /** The rest of an array whose elements so far are `items`. */
  function ReadElements(t: bytes, p: nat, depth: nat, items: seq<Json>): (r: Read<Json>)
    requires p <= |t|
    ensures r.Got? ==> p < r.next <= |t|
    decreases |t| - p, 2
  {
    if p >= |t| then Fail(UnterminatedArray, p)
    else
      match ReadValue(t, p, depth)
      case Failed(e) => Failed(e)
      case Got(item, q) =>
        var a := SkipWs(t, q);
        if a < |t| && t[a] == CLOSE_BRACKET then Got(Array(items + [item]), a + 1)
        else if a >= |t| || t[a] != COMMA then Fail(ExpectedCommaOrBracket, a)
        else ReadElements(t, SkipWs(t, a + 1), depth, items + [item])
  }

  function ReadObject(t: bytes, p: nat, depth: nat): (r: Read<Json>)
    requires p < |t|
    ensures r.Got? ==> p < r.next <= |t|
    decreases |t| - p, 0
  {
    var q := SkipWs(t, p + 1);
    if q < |t| && t[q] == CLOSE_BRACE then Got(Object(map[]), q + 1) else ReadMembers(t, q, depth, map[])
  }

  /** A key, a colon and a value. */
  function ReadMember(t: bytes, p: nat, depth: nat): (r: Read<(bytes, Json)>)
    requires p <= |t|
    ensures r.Got? ==> p < r.next <= |t|
    decreases |t| - p, 1
  {
    match ReadString(t, p)
    case Failed(e) => Failed(e)
    case Got(key, k) =>
      var c := SkipWs(t, k);
      if c >= |t| || t[c] != COLON then Fail(ExpectedColon, c)
      else
        match ReadValue(t, c + 1, depth)
        case Failed(e) => Failed(e)
        case Got(item, q) => Got((key, item), q)
  }

  /** The rest of an object whose members so far are `fields`. */
  function ReadMembers(t: bytes, p: nat, depth: nat, fields: map<bytes, Json>): (r: Read<Json>)
    requires p <= |t|
    ensures r.Got? ==> p < r.next <= |t|
    decreases |t| - p, 2
  {
    if p >= |t| then Fail(UnterminatedObject, p)
    else
      match ReadMember(t, p, depth)
      case Failed(e) => Failed(e)
      case Got(pair, q) =>
        var a := SkipWs(t, q);
        if a < |t| && t[a] == CLOSE_BRACE then Got(Object(fields[pair.0 := pair.1]), a + 1)
        else if a >= |t| || t[a] != COMMA then Fail(ExpectedCommaOrBrace, a)
        else ReadMembers(t, SkipWs(t, a + 1), depth, fields[pair.0 := pair.1])
  }

  /** `ParseJson`: one value and nothing but whitespace around it. */
  function ReadText(t: bytes): Read<Json> {
    match ReadValue(t, SkipWs(t, 0), 0)
    case Failed(e) => Failed(e)
    case Got(v, q) =>
      var end := SkipWs(t, q);
      if end != |t| then Fail(TrailingCharacters, end) else Got(v, end)
  }
}

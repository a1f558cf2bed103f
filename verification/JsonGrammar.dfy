/**
  * JSON values and the grammar of RFC 8259, sections 2 to 7, as concrete syntax trees:
  * `Text` is what a tree spells, `Denote` the value it stands for.
  */
module JsonGrammar {
  import opened ByteStrings
  import Utf8

  const QUOTE: byte := 0x22
  const PLUS: byte := 0x2B
  const COMMA: byte := 0x2C
  const MINUS: byte := 0x2D
  const DOT: byte := 0x2E
  const ZERO: byte := 0x30
  const COLON: byte := 0x3A
  const OPEN_BRACKET: byte := 0x5B
  const BACKSLASH: byte := 0x5C
  const CLOSE_BRACKET: byte := 0x5D
  const LETTER_U: byte := 0x75
  const OPEN_BRACE: byte := 0x7B
  const CLOSE_BRACE: byte := 0x7D

  const MAXIMUM_DEPTH: nat := 64

  // ---- Values ----

  /** The exact number `digits * 10^exponent`. */
  datatype Decimal = Decimal(digits: int, exponent: int)

  datatype Json =
    | Null
    | Bool(b: bool)
    | Number(d: Decimal)
    | String(s: bytes)
    | Array(items: seq<Json>)
    | Object(fields: map<bytes, Json>)
  {
    /** `JsonValue::Find`. */
    function Find(key: bytes): Option<Json> {
      if Object? && key in fields then Some(fields[key]) else None
    }
  }

  function Magnitude(n: int): nat { if n < 0 then -n else n }

  /** The least magnitude that rounds to infinity as an IEEE 754 double. */
  function DoubleOverflow(): nat { (Pow(2, 54) - 1) * Pow(2, 970) }

  /** A correctly rounding `strtod` gives a finite double. */
  predicate IsFinite(d: Decimal) {
    if d.exponent >= 0
    then Magnitude(d.digits) * Pow(10, d.exponent) < DoubleOverflow()
    else Magnitude(d.digits) < DoubleOverflow() * Pow(10, -d.exponent)
  }

  // ---- Strings ----

  /** One character of a string: a byte as it is, a two-byte escape, a \u escape, or a surrogate pair. */
  datatype Character =
    | Raw(b: byte)
    | Short(letter: byte)
    | Unicode(quad: bytes)
    | Surrogates(high: bytes, low: bytes)

  datatype Characters = End | Char(first: Character, rest: Characters)

  /** The byte a two-byte escape stands for, by the letter after the backslash. */
  function Unescaped(letter: byte): Option<byte> {
    match letter
    case 0x22 => Some(0x22)
    case 0x5C => Some(0x5C)
    case 0x2F => Some(0x2F)
    case 0x62 => Some(0x08)
    case 0x66 => Some(0x0C)
    case 0x6E => Some(0x0A)
    case 0x72 => Some(0x0D)
    case 0x74 => Some(0x09)
    case _ => None
  }

  function HexDigit(b: byte): (r: Option<nat>)
    ensures r.Some? ==> r.value < 16
  {
    var n: int := b;
    if 0x30 <= n <= 0x39 then Some(n - 0x30)
    else if 0x61 <= n <= 0x66 then Some(n - 0x61 + 10)
    else if 0x41 <= n <= 0x46 then Some(n - 0x41 + 10)
    else None
  }

  predicate IsQuad(q: bytes) {
    |q| == 4 && HexDigit(q[0]).Some? && HexDigit(q[1]).Some? && HexDigit(q[2]).Some? && HexDigit(q[3]).Some?
  }

  function QuadValue(q: bytes): (r: nat)
    requires IsQuad(q)
    ensures r < 0x10000
  {
    ((HexDigit(q[0]).value * 16 + HexDigit(q[1]).value) * 16 + HexDigit(q[2]).value) * 16 + HexDigit(q[3]).value
  }

  predicate IsHighSurrogate(c: nat) { 0xD800 <= c <= 0xDBFF }

  predicate IsLowSurrogate(c: nat) { 0xDC00 <= c <= 0xDFFF }

  function Combine(high: nat, low: nat): (c: nat)
    requires IsHighSurrogate(high) && IsLowSurrogate(low)
    ensures 0x10000 <= c < 0x110000
  {
    0x10000 + (high - 0xD800) * 0x400 + (low - 0xDC00)
  }

  predicate GoodCharacter(c: Character) {
    match c
    case Raw(b) => b >= 0x20 && b != QUOTE && b != BACKSLASH
    case Short(letter) => Unescaped(letter).Some?
    case Unicode(quad) => IsQuad(quad) && Utf8.IsScalar(QuadValue(quad))
    case Surrogates(high, low) =>
      IsQuad(high) && IsHighSurrogate(QuadValue(high)) && IsQuad(low) && IsLowSurrogate(QuadValue(low))
  }

  predicate GoodCharacters(cs: Characters) {
    cs.Char? ==> GoodCharacter(cs.first) && GoodCharacters(cs.rest)
  }

  function CharacterText(c: Character): bytes {
    match c
    case Raw(b) => [b]
    case Short(letter) => [BACKSLASH, letter]
    case Unicode(quad) => [BACKSLASH, LETTER_U] + quad
    case Surrogates(high, low) => [BACKSLASH, LETTER_U] + high + ([BACKSLASH, LETTER_U] + low)
  }

  function CharacterBytes(c: Character): bytes
    requires GoodCharacter(c)
  {
    match c
    case Raw(b) => [b]
    case Short(letter) => [Unescaped(letter).value]
    case Unicode(quad) => Utf8.Encode(QuadValue(quad))
    case Surrogates(high, low) => Utf8.Encode(Combine(QuadValue(high), QuadValue(low)))
  }

  /** The characters and the closing quote. */
  function CharactersText(cs: Characters): bytes {
    match cs
    case End => [QUOTE]
    case Char(c, rest) => CharacterText(c) + CharactersText(rest)
  }

  function CharactersBytes(cs: Characters): bytes
    requires GoodCharacters(cs)
  {
    match cs
    case End => []
    case Char(c, rest) => CharacterBytes(c) + CharactersBytes(rest)
  }

  function StringText(cs: Characters): bytes { [QUOTE] + CharactersText(cs) }

  // ---- Numbers ----

  /** `fraction` and `exponent` are the digits after the dot and after the e; empty when absent. */
  datatype Numeral = Numeral(negative: bool, whole: bytes, fraction: bytes, mark: bytes, exponent: bytes)

  /** `mark` is empty, or the letter e in either case with an optional sign. */
  predicate GoodMark(mark: bytes) {
    || mark == []
    || ((|mark| == 1 || (|mark| == 2 && (mark[1] == PLUS || mark[1] == MINUS))) && (mark[0] == 0x65 || mark[0] == 0x45))
  }

  predicate GoodShape(n: Numeral) {
    && AllDigits(n.whole) && n.whole != [] && (n.whole[0] == ZERO ==> |n.whole| == 1)
    && AllDigits(n.fraction)
    && GoodMark(n.mark) && AllDigits(n.exponent) && (n.mark == [] <==> n.exponent == [])
  }

  predicate GoodNumeral(n: Numeral) { GoodShape(n) && IsFinite(NumeralValue(n)) }

  function FractionText(fraction: bytes): bytes { if fraction == [] then [] else [DOT] + fraction }

  function UnsignedText(n: Numeral): bytes { n.whole + (FractionText(n.fraction) + (n.mark + n.exponent)) }

  function NumeralText(n: Numeral): bytes {
    if n.negative then [MINUS] + UnsignedText(n) else UnsignedText(n)
  }

  function NumeralValue(n: Numeral): Decimal
    requires AllDigits(n.whole) && AllDigits(n.fraction) && AllDigits(n.exponent)
  {
    var digits: int := DigitsValue(n.whole + n.fraction);
    var power: int := DigitsValue(n.exponent);
    Decimal(if n.negative then -digits else digits,
            (if |n.mark| == 2 && n.mark[1] == MINUS then -power else power) - |n.fraction|)
  }

  // ---- Values, arrays and objects ----

  datatype Tree =
    | NullTree
    | BoolTree(b: bool)
    | NumberTree(numeral: Numeral)
    | StringTree(characters: Characters)
    | EmptyArray(ws: bytes)
    | ArrayTree(elements: Elements)
    | EmptyObject(ws: bytes)
    | ObjectTree(members: Members)

  datatype Elements =
    | LastElement(before: bytes, value: Tree, after: bytes)
    | Element(before: bytes, value: Tree, after: bytes, rest: Elements)

  datatype Members =
    | LastMember(before: bytes, key: Characters, mid: bytes, lead: bytes, value: Tree, after: bytes)
    | Member(before: bytes, key: Characters, mid: bytes, lead: bytes, value: Tree, after: bytes, rest: Members)

  predicate Good(v: Tree) {
    match v
    case NullTree => true
    case BoolTree(_) => true
    case NumberTree(n) => GoodNumeral(n)
    case StringTree(cs) => GoodCharacters(cs)
    case EmptyArray(ws) => AllWs(ws)
    case ArrayTree(es) => GoodElements(es)
    case EmptyObject(ws) => AllWs(ws)
    case ObjectTree(ms) => GoodMembers(ms)
  }

  predicate GoodElements(es: Elements) {
    AllWs(es.before) && Good(es.value) && AllWs(es.after) && (es.Element? ==> GoodElements(es.rest))
  }

  predicate GoodMembers(ms: Members) {
    && AllWs(ms.before) && GoodCharacters(ms.key) && AllWs(ms.mid)
    && AllWs(ms.lead) && Good(ms.value) && AllWs(ms.after)
    && (ms.Member? ==> GoodMembers(ms.rest))
  }

  function BoolText(b: bool): bytes { if b then Ascii("true") else Ascii("false") }

  function Text(v: Tree): bytes {
    match v
    case NullTree => Ascii("null")
    case BoolTree(b) => BoolText(b)
    case NumberTree(n) => NumeralText(n)
    case StringTree(cs) => StringText(cs)
    case EmptyArray(ws) => [OPEN_BRACKET] + (ws + [CLOSE_BRACKET])
    case ArrayTree(es) => [OPEN_BRACKET] + ElementsText(es)
    case EmptyObject(ws) => [OPEN_BRACE] + (ws + [CLOSE_BRACE])
    case ObjectTree(ms) => [OPEN_BRACE] + MembersText(ms)
  }

  /** The elements and the closing bracket. */
  function ElementsText(es: Elements): bytes {
    es.before + (Text(es.value) + (es.after + ElementsTail(es)))
  }

  function ElementsTail(es: Elements): bytes
    decreases es, 0
  {
    if es.Element? then [COMMA] + ElementsText(es.rest) else [CLOSE_BRACKET]
  }

  /** The members and the closing brace. */
  function MembersText(ms: Members): bytes {
    ms.before + (StringText(ms.key) + (ms.mid + ([COLON] + (ms.lead + (Text(ms.value) + (ms.after + MembersTail(ms)))))))
  }

  function MembersTail(ms: Members): bytes
    decreases ms, 0
  {
    if ms.Member? then [COMMA] + MembersText(ms.rest) else [CLOSE_BRACE]
  }

  function Denote(v: Tree): Json
    requires Good(v)
  {
    match v
    case NullTree => Null
    case BoolTree(b) => Bool(b)
    case NumberTree(n) => Number(NumeralValue(n))
    case StringTree(cs) => String(CharactersBytes(cs))
    case EmptyArray(_) => Array([])
    case ArrayTree(es) => Array(DenoteElements(es))
    case EmptyObject(_) => Object(map[])
    case ObjectTree(ms) => Object(DenoteMembers(ms))
  }

  function DenoteElements(es: Elements): seq<Json>
    requires GoodElements(es)
  {
    [Denote(es.value)] + if es.Element? then DenoteElements(es.rest) else []
  }

  /** A later member with the same key wins. */
  function DenoteMembers(ms: Members): map<bytes, Json>
    requires GoodMembers(ms)
  {
    map[CharactersBytes(ms.key) := Denote(ms.value)] + if ms.Member? then DenoteMembers(ms.rest) else map[]
  }

  /** The largest number of containers around any value inside the tree. */
  function Depth(v: Tree): nat {
    match v
    case ArrayTree(es) => 1 + ElementsDepth(es)
    case ObjectTree(ms) => 1 + MembersDepth(ms)
    case _ => 0
  }

  function ElementsDepth(es: Elements): nat {
    var d := Depth(es.value);
    if es.Element? && ElementsDepth(es.rest) > d then ElementsDepth(es.rest) else d
  }

  function MembersDepth(ms: Members): nat {
    var d := Depth(ms.value);
    if ms.Member? && MembersDepth(ms.rest) > d then MembersDepth(ms.rest) else d
  }

  /** `text` is whitespace, the tree, whitespace, and the tree respects the nesting limit. */
  ghost predicate Spells(before: bytes, v: Tree, after: bytes, text: bytes) {
    AllWs(before) && AllWs(after) && Good(v) && Depth(v) <= MAXIMUM_DEPTH && text == before + Text(v) + after
  }

  /** The grammar derives the value from the whole of `text`. */
  ghost predicate Derives(text: bytes, value: Json) {
    exists before, v, after :: Spells(before, v, after, text) && Denote(v) == value
  }
}

/** UTF-8 as section 4 of RFC 3629 defines it, and the program's encoder. */
module Utf8 {
  import opened ByteStrings

  predicate IsScalar(c: nat) { c < 0xD800 || 0xE000 <= c < 0x110000 }

  predicate IsTail(b: byte) { 0x80 <= b < 0xC0 }

  /** Number of bytes of the well-formed character that starts `s`; 0 when there is none. */
  function CharLength(s: bytes): (n: nat)
    ensures n <= 4 && n <= |s|
  {
    if |s| >= 1 && s[0] < 0x80 then 1
    else if |s| >= 2 && 0xC2 <= s[0] <= 0xDF && IsTail(s[1]) then 2
    else if |s| >= 3 && IsTail(s[2]) && ThreeByteLead(s[0], s[1]) then 3
    else if |s| >= 4 && IsTail(s[2]) && IsTail(s[3]) && FourByteLead(s[0], s[1]) then 4
    else 0
  }

  predicate ThreeByteLead(a: byte, b: byte) {
    || (a == 0xE0 && 0xA0 <= b <= 0xBF)
    || (0xE1 <= a <= 0xEC && IsTail(b))
    || (a == 0xED && 0x80 <= b <= 0x9F)
    || (0xEE <= a <= 0xEF && IsTail(b))
  }

  predicate FourByteLead(a: byte, b: byte) {
    || (a == 0xF0 && 0x90 <= b <= 0xBF)
    || (0xF1 <= a <= 0xF3 && IsTail(b))
    || (a == 0xF4 && 0x80 <= b <= 0x8F)
  }

  /** The whole of `s` is a sequence of well-formed characters. */
  predicate WellFormed(s: bytes) {
    s == [] || (CharLength(s) > 0 && WellFormed(s[CharLength(s)..]))
  }

  /** The code point whose leading bits are `high` and whose last six bits come from the tail byte `b`. */
  function Shift(high: int, b: int): int { high * 0x40 + (b - 0x80) }

  /** The code point of the character that starts `s`. */
  function FirstCodePoint(s: bytes): int
    requires CharLength(s) > 0
  {
    var lead: int := s[0];
    match CharLength(s)
    case 1 => lead
    case 2 => Shift(lead - 0xC0, s[1])
    case 3 => Shift(Shift(lead - 0xE0, s[1]), s[2])
    case _ => Shift(Shift(Shift(lead - 0xF0, s[1]), s[2]), s[3])
  }

  /** The bytes `AppendCodePoint` pushes; `C | (c >> k & m)` is written as a sum, which `BitForms` justifies. */
  function Encode(c: nat): bytes
    requires c < 0x110000
  {
    if c <= 0x7F then [c]
    else if c <= 0x7FF then [0xC0 + c / 0x40, 0x80 + c % 0x40]
    else if c <= 0xFFFF then [0xE0 + c / 0x1000, 0x80 + c / 0x40 % 0x40, 0x80 + c % 0x40]
    else [0xF0 + c / 0x40000, 0x80 + c / 0x1000 % 0x40, 0x80 + c / 0x40 % 0x40, 0x80 + c % 0x40]
  }

  /** The shifts, masks and ors of the encoder as arithmetic, on 32-bit words. */
  lemma BitForms(c: bv32)
    requires c < 0x110000
    ensures c <= 0x7FF ==> 0xC0 | (c >> 6) == 0xC0 + c / 0x40
    ensures c <= 0xFFFF ==> 0xE0 | (c >> 12) == 0xE0 + c / 0x1000
    ensures 0xF0 | (c >> 18) == 0xF0 + c / 0x40000
    ensures 0x80 | (c & 0x3F) == 0x80 + c % 0x40
    ensures 0x80 | ((c >> 6) & 0x3F) == 0x80 + c / 0x40 % 0x40
    ensures 0x80 | ((c >> 12) & 0x3F) == 0x80 + c / 0x1000 % 0x40
  {
  }

  method AppendCodePoint(codePoint: nat, output: bytes) returns (ok: bool, appended: bytes)
    ensures ok <==> codePoint < 0x110000
    ensures ok ==> appended == output + Encode(codePoint)
    ensures !ok ==> appended == output
  {
    appended := output;
    if codePoint <= 0x7F {
      appended := appended + [codePoint];
    } else if codePoint <= 0x7FF {
      appended := appended + [0xC0 + codePoint / 0x40];
      appended := appended + [0x80 + codePoint % 0x40];
    } else if codePoint <= 0xFFFF {
      appended := appended + [0xE0 + codePoint / 0x1000];
      appended := appended + [0x80 + codePoint / 0x40 % 0x40];
      appended := appended + [0x80 + codePoint % 0x40];
    } else if codePoint <= 0x10FFFF {
      appended := appended + [0xF0 + codePoint / 0x40000];
      appended := appended + [0x80 + codePoint / 0x1000 % 0x40];
      appended := appended + [0x80 + codePoint / 0x40 % 0x40];
      appended := appended + [0x80 + codePoint % 0x40];
    } else {
      return false, appended;
    }
    return true, appended;
  }

  /** Encoding a scalar value gives one well-formed character, and decoding it gives the value back. */
  lemma EncodeDecode(c: nat, rest: bytes)
    requires IsScalar(c)
    ensures CharLength(Encode(c) + rest) == |Encode(c)|
    ensures FirstCodePoint(Encode(c) + rest) == c
  {
    var s := Encode(c) + rest;
    var high := c / 0x40;
    if c <= 0x7F {
      assert s[0] == c;
    } else if c <= 0x7FF {
      assert s[0] == 0xC0 + high && s[1] == 0x80 + c % 0x40;
    } else if c <= 0xFFFF {
      assert c / 0x1000 == high / 0x40;
      assert s[0] == 0xE0 + high / 0x40 && s[1] == 0x80 + high % 0x40 && s[2] == 0x80 + c % 0x40;
    } else {
      var top := high / 0x40;
      assert c / 0x1000 == top && c / 0x40000 == top / 0x40;
      assert s[0] == 0xF0 + top / 0x40 && s[1] == 0x80 + top % 0x40;
      assert s[2] == 0x80 + high % 0x40 && s[3] == 0x80 + c % 0x40;
    }
  }

  /** Conversely every well-formed character is the encoding of the scalar value it decodes to. */
  lemma DecodeEncode(s: bytes)
    requires CharLength(s) > 0
    ensures FirstCodePoint(s) >= 0 && IsScalar(FirstCodePoint(s))
    ensures Encode(FirstCodePoint(s)) == s[..CharLength(s)]
  {
    match CharLength(s)
    case 1 =>
    case 2 =>
    case 3 => DecodeThree(s);
    case _ => DecodeFour(s);
  }

  lemma DecodeThree(s: bytes)
    requires CharLength(s) == 3
    ensures var c := FirstCodePoint(s); 0 <= c && IsScalar(c) && Encode(c) == s[..3]
  {
    hide WellFormed;
    var c := FirstCodePoint(s);
    var lead: int := s[0];
    assert c / 0x40 == Shift(lead - 0xE0, s[1]);
    assert c / 0x1000 == lead - 0xE0;
  }

  lemma DecodeFour(s: bytes)
    requires CharLength(s) == 4
    ensures var c := FirstCodePoint(s); 0 <= c && IsScalar(c) && Encode(c) == s[..4]
  {
    hide WellFormed;
    var c := FirstCodePoint(s);
    var lead: int := s[0];
    assert c / 0x40 == Shift(Shift(lead - 0xF0, s[1]), s[2]);
    assert c / 0x1000 == Shift(lead - 0xF0, s[1]);
    assert c / 0x40000 == lead - 0xF0;
  }

  /** Bytes after a complete character do not change how it is read. */
  lemma CharLengthExtend(a: bytes, b: bytes)
    requires CharLength(a) > 0
    ensures CharLength(a + b) == CharLength(a)
  {
    hide WellFormed;
  }

  lemma {:induction false} Concat(a: bytes, b: bytes)
    requires WellFormed(a) && WellFormed(b)
    ensures WellFormed(a + b)
  {
    hide CharLength;
    if a == [] {
      assert a + b == b;
    } else {
      var n := CharLength(a);
      CharLengthExtend(a, b);
      Concat(a[n..], b);
      assert (a + b)[n..] == a[n..] + b;
    }
  }

  lemma EncodeWellFormed(c: nat)
    requires IsScalar(c)
    ensures WellFormed(Encode(c))
  {
    EncodeDecode(c, []);
    assert Encode(c) + [] == Encode(c);
    assert Encode(c)[|Encode(c)|..] == [];
  }

  /** `a` comes before `b`: they agree in front of byte `k`, and differ there. */
  predicate BelowAt(a: bytes, b: bytes, k: nat) { k < |a| && k < |b| && a[..k] == b[..k] && a[k] < b[k] }

  /** Byte order is code point order, which together with the table of well-formed characters leaves one encoding only. */
  lemma OrderKept(c: nat, d: nat) returns (k: nat)
    requires c < d < 0x110000
    ensures BelowAt(Encode(c), Encode(d), k)
  {
    if Size(c) < Size(d) {
      k := 0;
      LeadsApart(c, d);
    } else if c <= 0x7F {
      k := 0;
    } else if c <= 0x7FF {
      k := OrderTwo(c, d);
    } else if c <= 0xFFFF {
      k := OrderThree(c, d);
    } else {
      k := OrderFour(c, d);
    }
  }

  function Size(c: nat): nat { if c <= 0x7F then 1 else if c <= 0x7FF then 2 else if c <= 0xFFFF then 3 else 4 }

  lemma LeadsApart(c: nat, d: nat)
    requires c < d < 0x110000 && Size(c) < Size(d)
    ensures BelowAt(Encode(c), Encode(d), 0)
  {
  }

  lemma OrderTwo(c: nat, d: nat) returns (k: nat)
    requires 0x7F < c < d <= 0x7FF
    ensures BelowAt(Encode(c), Encode(d), k)
  {
    k := if c / 0x40 < d / 0x40 then 0 else 1;
    Digits64(c);
    Digits64(d);
  }

  lemma OrderThree(c: nat, d: nat) returns (k: nat)
    requires 0x7FF < c < d <= 0xFFFF
    ensures BelowAt(Encode(c), Encode(d), k)
  {
    k := if c / 0x1000 < d / 0x1000 then 0 else if c / 0x40 < d / 0x40 then 1 else 2;
    Digits64(c);
    Digits64(d);
  }

  lemma OrderFour(c: nat, d: nat) returns (k: nat)
    requires 0xFFFF < c < d < 0x110000
    ensures BelowAt(Encode(c), Encode(d), k)
  {
    k := if c / 0x40000 < d / 0x40000 then 0 else if c / 0x1000 < d / 0x1000 then 1 else if c / 0x40 < d / 0x40 then 2 else 3;
    Digits64(c);
    Digits64(d);
  }

  lemma Digits64(c: nat)
    ensures c == c / 0x40 * 0x40 + c % 0x40
    ensures c / 0x40 == c / 0x1000 * 0x40 + c / 0x40 % 0x40
    ensures c / 0x1000 == c / 0x40000 * 0x40 + c / 0x1000 % 0x40
  {
    var a := c / 0x40;
    assert c / 0x1000 == a / 0x40;
    var b := a / 0x40;
    assert c / 0x40000 == b / 0x40;
  }
}

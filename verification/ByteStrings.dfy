/** Byte strings, the `std::string` of the program: every element is a byte. */
module ByteStrings {

  type byte = x: int | 0 <= x < 256
  type bytes = seq<byte>

  datatype Option<+T> = None | Some(value: T)

  /** The bytes of an ASCII literal. */
  function Ascii(s: string): (b: bytes)
    ensures |b| == |s|
    ensures forall i :: 0 <= i < |s| ==> b[i] == s[i] as int % 256
  {
    seq(|s|, i requires 0 <= i < |s| => s[i] as int % 256)
  }

  /** Byte `i` of `s` is in place when `s` is laid over `t` at position `p`. */
  predicate Agree(t: bytes, p: nat, s: bytes, i: nat) {
    i < |s| && p + i < |t| && t[p + i] == s[i]
  }

  /** `s` occurs in `t` at position `p`. */
  predicate At(t: bytes, p: nat, s: bytes) {
    p + |s| <= |t| && forall i :: 0 <= i < |s| ==> Agree(t, p, s, i)
  }

  lemma AtConcat(t: bytes, p: nat, a: bytes, b: bytes)
    ensures At(t, p, a + b) <==> At(t, p, a) && At(t, p + |a|, b)
  {
    var s := a + b;
    if At(t, p, s) {
      forall i | 0 <= i < |a| ensures Agree(t, p, a, i) { assert Agree(t, p, s, i); }
      var q := p + |a|;
      forall i | 0 <= i < |b| ensures Agree(t, q, b, i) {
        assert Agree(t, p, s, |a| + i);
      }
    }
    if At(t, p, a) && At(t, p + |a|, b) {
      forall i | 0 <= i < |s| ensures Agree(t, p, s, i) {
        if i < |a| { assert Agree(t, p, a, i); } else { assert Agree(t, p + |a|, b, i - |a|); }
      }
    }
  }

  lemma AtThree(t: bytes, p: nat, a: bytes, b: bytes, c: bytes)
    ensures At(t, p, a + (b + c)) <==> At(t, p, a) && At(t, p + |a|, b) && At(t, p + |a| + |b|, c)
  {
    AtConcat(t, p, a, b + c);
    AtConcat(t, p + |a|, b, c);
  }

  lemma AtHead(t: bytes, p: nat, s: bytes)
    requires At(t, p, s) && s != []
    ensures p < |t| && t[p] == s[0]
  {
    assert Agree(t, p, s, 0);
  }

  lemma AtIndex(t: bytes, p: nat, s: bytes, i: nat)
    requires At(t, p, s) && i < |s|
    ensures t[p + i] == s[i]
  {
    assert Agree(t, p, s, i);
  }

  lemma AtEquals(t: bytes, p: nat, s: bytes)
    ensures At(t, p, s) <==> p + |s| <= |t| && t[p..p + |s|] == s
  {
    if p + |s| <= |t| {
      var piece := t[p..p + |s|];
      if piece == s {
        forall i | 0 <= i < |s| ensures Agree(t, p, s, i) { assert piece[i] == t[p + i]; }
      }
      if At(t, p, s) {
        forall i | 0 <= i < |s| ensures piece[i] == s[i] { assert Agree(t, p, s, i); }
      }
    }
  }

  lemma AtByte(t: bytes, p: nat, b: byte)
    ensures At(t, p, [b]) <==> p < |t| && t[p] == b
  {
    if p < |t| && t[p] == b { assert Agree(t, p, [b], 0); }
    if At(t, p, [b]) { assert Agree(t, p, [b], 0); }
  }

  // ---- ASCII classes ----

  predicate IsWs(b: byte) { b == 0x20 || b == 0x09 || b == 0x0D || b == 0x0A }

  predicate IsDigit(b: byte) { 0x30 <= b <= 0x39 }

  predicate AllWs(s: bytes) { forall i :: 0 <= i < |s| ==> IsWs(s[i]) }

  predicate AllDigits(s: bytes) { forall i :: 0 <= i < |s| ==> IsDigit(s[i]) }

  // ---- Decimal numerals ----

  function Pow(base: nat, exponent: nat): (r: nat)
    ensures base > 0 ==> r > 0
    decreases exponent
  {
    if exponent == 0 then 1
    else
      var r := Pow(base, exponent - 1);
      assert base > 0 ==> base * r > 0;
      base * r
  }

  lemma {:induction false} PowAdd(a: nat, b: nat)
    ensures Pow(2, a + b) == Pow(2, a) * Pow(2, b)
    decreases b
  {
    if b > 0 {
      PowAdd(a, b - 1);
      assert Pow(2, a + b) == 2 * Pow(2, a + b - 1);
    }
  }

  /** The number a run of digits denotes in base ten. */
  function DigitsValue(s: bytes): nat
    requires AllDigits(s)
  {
    if s == [] then 0 else DigitsValue(s[..|s| - 1]) * 10 + (s[|s| - 1] - 0x30)
  }

  /** `std::to_string` of a non-negative integer. */
  function NatText(n: nat): (s: bytes)
    ensures |s| > 0 && AllDigits(s)
    ensures DigitsValue(s) == n
    ensures |s| > 1 ==> s[0] != 0x30
    ensures n > 0 ==> s[0] != 0x30
  {
    if n < 10 then
      var s := [0x30 + n];
      assert s[..0] == [];
      s
    else
      var front := NatText(n / 10);
      var s := front + [0x30 + n % 10];
      assert s[..|s| - 1] == front;
      s
  }

  /** `std::to_string` of a signed integer. */
  function IntText(n: int): bytes {
    if n < 0 then [0x2D] + NatText(-n) else NatText(n)
  }

  // ---- Lines ----

  /** Lines joined by line feeds. */
  function Joined(lines: seq<bytes>): (text: bytes)
    ensures lines == [] ==> text == []
    ensures lines != [] && lines[0] != [] ==> text != []
  {
    if lines == [] then []
    else if |lines| == 1 then lines[0]
    else Joined(lines[..|lines| - 1]) + [0x0A] + lines[|lines| - 1]
  }

  /** The pieces between line feeds. */
  function SplitLines(text: bytes): (lines: seq<bytes>)
    ensures lines != []
    decreases |text|
  {
    if text == [] then [[]]
    else
      var front := SplitLines(text[..|text| - 1]);
      if text[|text| - 1] == 0x0A then front + [[]]
      else front[..|front| - 1] + [front[|front| - 1] + [text[|text| - 1]]]
  }

  lemma {:induction false} SplitBehind(text: bytes, line: bytes)
    requires 0x0A !in line
    ensures SplitLines(text + [0x0A] + line) == SplitLines(text) + [line]
    decreases |line|
  {
    var all := text + [0x0A] + line;
    if line == [] {
      assert all == text + [0x0A] && all[..|all| - 1] == text;
    } else {
      var front, last := line[..|line| - 1], line[|line| - 1];
      SplitBehind(text, front);
      assert all[..|all| - 1] == text + [0x0A] + front && all[|all| - 1] == last;
      assert front + [last] == line;
      assert (SplitLines(text) + [front])[..|SplitLines(text)|] == SplitLines(text);
    }
  }

  lemma {:induction false} SplitOne(line: bytes)
    requires 0x0A !in line
    ensures SplitLines(line) == [line]
    decreases |line|
  {
    if line != [] {
      SplitOne(line[..|line| - 1]);
      assert line[..|line| - 1] + [line[|line| - 1]] == line;
    }
  }

  /** Joined lines split at the line feeds are the lines again. */
  lemma {:induction false} JoinedSplits(lines: seq<bytes>)
    requires lines != [] && forall i :: 0 <= i < |lines| ==> 0x0A !in lines[i]
    ensures SplitLines(Joined(lines)) == lines
    decreases |lines|
  {
    var n := |lines| - 1;
    if n == 0 {
      SplitOne(lines[0]);
    } else {
      JoinedSplits(lines[..n]);
      SplitBehind(Joined(lines[..n]), lines[n]);
      assert lines[..n] + [lines[n]] == lines;
    }
  }

  // ---- Digits by position ----

  /** The i-th of n digits counts 10^(n-1-i). */
  function Positional(s: bytes): nat
    requires AllDigits(s)
  {
    if s == [] then 0 else (s[0] - 0x30) * Pow(10, |s| - 1) + Positional(s[1..])
  }

  /** Reading digits from the left in base ten gives their positional value. */
  lemma {:induction false} DigitsByPosition(s: bytes)
    requires AllDigits(s)
    ensures DigitsValue(s) == Positional(s)
    decreases |s|
  {
    if s != [] {
      DigitsByPosition(s[..|s| - 1]);
      PositionalBack(s);
    }
  }

  lemma {:induction false} PositionalBack(s: bytes)
    requires AllDigits(s) && s != []
    ensures Positional(s) == Positional(s[..|s| - 1]) * 10 + (s[|s| - 1] - 0x30)
    decreases |s|
  {
    var front, tail := s[..|s| - 1], s[1..];
    if |s| == 1 {
      assert tail == [];
    } else {
      PositionalBack(tail);
      assert tail[..|tail| - 1] == front[1..];
      assert Pow(10, |s| - 1) == 10 * Pow(10, |front| - 1);
      TenTimes(s[0] - 0x30, Pow(10, |front| - 1));
    }
  }

  lemma TenTimes(d: int, p: int)
    ensures d * (10 * p) == d * p * 10
  {
  }
}

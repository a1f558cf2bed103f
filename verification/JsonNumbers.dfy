/** What numbers mean: the real number a numeral's digits spell, read one digit at a time, and a printer of decimals. */
module JsonNumbers {
  import opened ByteStrings
  import opened JsonGrammar
  import opened JsonSpec
  import JsonComplete
  import JsonSound

  // ---- Meaning ----

  /** Ten to the power `e`, of either sign. */
  function Ten(e: int): (r: real)
    ensures r > 0.0
    decreases if e < 0 then -e else e
  {
    if e == 0 then 1.0 else if e > 0 then 10.0 * Ten(e - 1) else Ten(e + 1) / 10.0
  }

  function Meaning(d: Decimal): real { d.digits as real * Ten(d.exponent) }

  function Digit(b: byte): real
    requires IsDigit(b)
  {
    (b - 0x30) as real
  }

  /** Digits behind the dot: the i-th counts 1/10^(i+1). */
  function Fraction(s: bytes): real
    requires AllDigits(s)
  {
    if s == [] then 0.0 else Fraction(s[..|s| - 1]) + Digit(s[|s| - 1]) * Ten(0 - |s|)
  }

  /** The factor behind the e; without one it is 1. */
  function Factor(mark: bytes, exponent: bytes): real
    requires AllDigits(exponent)
  {
    var e: int := Positional(exponent);
    Ten(if |mark| == 2 && mark[1] == MINUS then 0 - e else e)
  }

  /** The text is a numeral, and `x` is what its digits spell. */
  predicate Spelled(text: bytes, n: Numeral, x: real) {
    && GoodShape(n) && text == NumeralText(n)
    && x == Signed(n.negative, (Positional(n.whole) as real + Fraction(n.fraction)) * Factor(n.mark, n.exponent))
  }

  function Signed(negative: bool, x: real): real { if negative then -x else x }

  // ---- Powers of ten ----

  lemma {:induction false} TenStep(e: int)
    ensures Ten(e + 1) == 10.0 * Ten(e)
  {
    if e < 0 { assert Ten(e) == Ten(e + 1) / 10.0; }
  }

  lemma {:induction false} TenAdd(a: int, b: nat)
    ensures Ten(a + b) == Ten(a) * Ten(b)
    decreases b
  {
    if b > 0 {
      TenAdd(a, b - 1);
      TenStep(a + b - 1);
      TenStep(b - 1);
      Move(Ten(a), Ten(b - 1));
    }
  }

  lemma Move(x: real, y: real)
    ensures 10.0 * (x * y) == x * (10.0 * y)
  {
  }

  lemma {:induction false} TenIsPow(k: nat)
    ensures Ten(k) == Pow(10, k) as real
    decreases k
  {
    if k > 0 {
      TenIsPow(k - 1);
      assert Pow(10, k) == 10 * Pow(10, k - 1);
    }
  }

  // ---- Digits ----

  lemma DigitsFront(s: bytes)
    requires AllDigits(s) && s != []
    ensures AllDigits(s[1..]) && AllDigits(s[..|s| - 1]) && IsDigit(s[0]) && IsDigit(s[|s| - 1])
  {
  }

  lemma FractionBack(s: bytes)
    requires AllDigits(s) && s != []
    ensures AllDigits(s[..|s| - 1]) && Fraction(s) == Fraction(s[..|s| - 1]) + Digit(s[|s| - 1]) * Ten(0 - |s|)
  {
    hide Ten;
  }

  lemma DigitsBack(s: bytes, last: byte)
    requires AllDigits(s) && IsDigit(last)
    ensures AllDigits(s + [last]) && DigitsValue(s + [last]) == DigitsValue(s) * 10 + (last - 0x30)
  {
    assert (s + [last])[..|s|] == s;
  }

  /** Digits on both sides of the dot, read as one integer. */
  lemma {:induction false} BothSides(whole: bytes, fraction: bytes)
    requires AllDigits(whole) && AllDigits(fraction)
    ensures AllDigits(whole + fraction)
    ensures DigitsValue(whole + fraction) as real == (Positional(whole) as real + Fraction(fraction)) * Ten(|fraction|)
    decreases |fraction|
  {
    hide AllDigits, DigitsValue, Positional, Fraction, Ten;
    if fraction == [] {
      assert whole + fraction == whole;
      DigitsByPosition(whole);
      NoFraction();
    } else {
      DigitsFront(fraction);
      var n, front, last := |fraction|, fraction[..|fraction| - 1], fraction[|fraction| - 1];
      BothSides(whole, front);
      assert whole + fraction == (whole + front) + [last];
      DigitsBack(whole + front, last);
      FractionBack(fraction);
      TenStep(n - 1);
      Cancels(n);
      Shifted(Positional(whole) as real + Fraction(front), Ten(n - 1), Ten(n), Digit(last), Ten(0 - n));
      Associate(Positional(whole) as real, Fraction(front), Digit(last) * Ten(0 - n), Ten(n));
    }
  }

  lemma NoFraction()
    ensures AllDigits([]) && Fraction([]) == 0.0 && Ten(0) == 1.0
  {
  }

  lemma Associate(a: real, b: real, c: real, u: real)
    ensures (a + (b + c)) * u == (a + b + c) * u
  {
  }

  lemma {:induction false} Cancels(n: nat)
    ensures Ten(0 - n) * Ten(n) == 1.0
  {
    TenAdd(0 - n, n);
  }

  lemma Shifted(a: real, t: real, u: real, d: real, v: real)
    requires u == 10.0 * t && v * u == 1.0
    ensures (a + d * v) * u == 10.0 * (a * t) + d
  {
    assert (a + d * v) * u == a * u + d * (v * u);
    assert a * u == 10.0 * (a * t);
  }

  // ---- What a numeral is read as ----

  /** The decimal of a numeral means what its digits spell. */
  lemma NumeralMeans(n: Numeral)
    requires GoodShape(n)
    ensures Spelled(NumeralText(n), n, Meaning(NumeralValue(n)))
  {
    hide AllDigits, DigitsValue, Ten, Positional, Fraction, GoodMark, NumeralText;
    DigitsByPosition(n.exponent);
    BothSides(n.whole, n.fraction);
    var power: int := Positional(n.exponent);
    var e: int := if |n.mark| == 2 && n.mark[1] == MINUS then 0 - power else power;
    var k := |n.fraction|;
    TenAdd(e - k, k);
    var x := Positional(n.whole) as real + Fraction(n.fraction);
    Product(DigitsValue(n.whole + n.fraction) as real, x, Ten(k), Ten(e - k), Ten(e));
    assert Factor(n.mark, n.exponent) == Ten(e);
    assert Meaning(NumeralValue(n)) == Signed(n.negative, x * Ten(e));
  }

  lemma Product(digits: real, x: real, scale: real, rest: real, factor: real)
    requires digits == x * scale && factor == rest * scale
    ensures digits * rest == x * factor && -digits * rest == -(x * factor)
  {
    assert x * scale * rest == x * (rest * scale);
  }

  /** Whatever is read as a number is a numeral, and its decimal means what the digits spell. */
  lemma NumberMeans(t: bytes, p: nat)
    requires p < |t| && ReadNumber(t, p).Got?
    ensures var r := ReadNumber(t, p);
            r.value.Number? && exists n :: Spelled(t[p..r.next], n, Meaning(r.value.d))
  {
    hide ReadNumeral, NumeralValue, IsFinite, NumeralText, Spelled;
    JsonSound.NumeralSound(t, p);
    var n := ReadNumeral(t, p).value;
    AtEquals(t, p, NumeralText(n));
    NumeralMeans(n);
  }

  // ---- When a double is finite ----

  /** The limit is the midpoint between the greatest double, (2^53 - 1) * 2^971, and 2^1024. */
  lemma LimitIsMidpoint()
    ensures 2 * DoubleOverflow() == (Pow(2, 53) - 1) * Pow(2, 971) + Pow(2, 1024)
  {
    hide Pow;
    var b := Pow(2, 970);
    Twice(53);
    Twice(970);
    PowAdd(970, 54);
    Midpoint(Pow(2, 53), b);
  }

  lemma Twice(n: nat)
    ensures Pow(2, n + 1) == 2 * Pow(2, n)
  {
  }

  lemma Midpoint(a: int, b: int)
    ensures 2 * ((2 * a - 1) * b) == (a - 1) * (2 * b) + b * (2 * a)
  {
  }

  function Abs(x: real): real { if x < 0.0 then -x else x }

  /** A number is refused as too large by its meaning alone. */
  lemma FiniteByMeaning(d: Decimal)
    ensures IsFinite(d) <==> Abs(Meaning(d)) < DoubleOverflow() as real
  {
    hide DoubleOverflow, Pow, Ten, Abs, Meaning;
    var m, limit := Magnitude(d.digits), DoubleOverflow();
    AbsMeaning(d);
    if d.exponent >= 0 {
      TenIsPow(d.exponent);
      Multiplied(m, Pow(10, d.exponent));
    } else {
      FiniteFraction(m, limit, -d.exponent, Abs(Meaning(d)));
    }
  }

  lemma AbsMeaning(d: Decimal)
    ensures Abs(Meaning(d)) == Magnitude(d.digits) as real * Ten(d.exponent)
  {
    hide Ten, Abs;
    AbsProduct(d.digits, Ten(d.exponent));
  }

  lemma FiniteFraction(m: nat, limit: nat, k: nat, x: real)
    requires x == m as real * Ten(0 - k)
    ensures m < limit * Pow(10, k) <==> x < limit as real
  {
    hide Pow, Ten;
    TenIsPow(k);
    Cancels(k);
    Divided(m as real, Ten(0 - k), Ten(k), limit as real);
    Multiplied(limit, Pow(10, k));
  }

  lemma Multiplied(a: nat, b: nat)
    ensures (a * b) as real == a as real * b as real
  {
  }

  lemma AbsProduct(n: int, scale: real)
    requires scale > 0.0
    ensures Abs(n as real * scale) == Magnitude(n) as real * scale
  {
    if n >= 0 { assert n as real * scale >= 0.0; } else { assert n as real * scale == -((-n) as real * scale) && (-n) as real * scale > 0.0; }
  }

  lemma Divided(m: real, scale: real, inverse: real, limit: real)
    requires scale > 0.0 && inverse > 0.0 && scale * inverse == 1.0
    ensures m * scale < limit <==> m < limit * inverse
  {
    assert (m * scale) * inverse == m * (scale * inverse) == m;
    assert (limit * inverse) * scale == limit * (scale * inverse) == limit;
    if m * scale < limit { assert (m * scale) * inverse < limit * inverse; }
    if m < limit * inverse { assert m * scale < (limit * inverse) * scale; }
  }

  // ---- A printer of decimals ----

  /** The last `k` digits of `n`, zeros in front. */
  function Fixed(n: nat, k: nat): (s: bytes)
    ensures |s| == k && AllDigits(s)
  {
    if k == 0 then [] else Fixed(n / 10, k - 1) + [0x30 + n % 10]
  }

  /** `n` without its last `k` digits. */
  function Without(n: nat, k: nat): nat { if k == 0 then n else Without(n / 10, k - 1) }

  /** `digits` with a dot in front of its last `places` digits, and an exponent unless it is zero. */
  function Printed(digits: int, places: nat, exponent: int): bytes {
    var n := Magnitude(digits);
    (if digits < 0 then [MINUS] else []) + NatText(Without(n, places)) +
    (if places == 0 then [] else [DOT] + Fixed(n, places)) + (if exponent == 0 then [] else [0x65] + IntText(exponent))
  }

  lemma {:induction false} PrintedDigits(n: nat, k: nat)
    ensures AllDigits(NatText(Without(n, k)) + Fixed(n, k)) && DigitsValue(NatText(Without(n, k)) + Fixed(n, k)) == n
    decreases k
  {
    hide NatText, AllDigits, DigitsValue;
    if k == 0 {
      assert NatText(n) + [] == NatText(n);
    } else {
      PrintedDigits(n / 10, k - 1);
      var front := NatText(Without(n / 10, k - 1)) + Fixed(n / 10, k - 1);
      DigitsBack(front, 0x30 + n % 10);
      assert NatText(Without(n, k)) + Fixed(n, k) == front + [0x30 + n % 10];
    }
  }

  function PrintedNumeral(digits: int, places: nat, exponent: int): Numeral {
    Numeral(digits < 0, NatText(Without(Magnitude(digits), places)), Fixed(Magnitude(digits), places),
            if exponent == 0 then [] else if exponent < 0 then [0x65, MINUS] else [0x65],
            if exponent == 0 then [] else NatText(Magnitude(exponent)))
  }

  lemma PrintedIs(digits: int, places: nat, exponent: int)
    ensures var n := PrintedNumeral(digits, places, exponent);
            GoodShape(n) && NumeralText(n) == Printed(digits, places, exponent) && NumeralValue(n) == Decimal(digits, exponent - places)
  {
    hide NatText, Fixed, Without, DigitsValue;
    var n := PrintedNumeral(digits, places, exponent);
    PrintedDigits(Magnitude(digits), places);
    NothingSpelled();
    ExponentText(exponent);
    var f, x := FractionText(n.fraction), n.mark + n.exponent;
    assert n.whole + (f + x) == n.whole + f + x;
    if digits < 0 { assert [MINUS] + (n.whole + f + x) == [MINUS] + n.whole + f + x; } else { assert [] + n.whole == n.whole; }
  }

  lemma NothingSpelled()
    ensures AllDigits([]) && DigitsValue([]) == 0
  {
  }

  lemma ExponentText(exponent: int)
    ensures exponent != 0 ==>
              (if exponent < 0 then [0x65, MINUS] else [0x65]) + NatText(Magnitude(exponent)) == [0x65] + IntText(exponent)
  {
    if exponent < 0 { assert [0x65, MINUS] + NatText(-exponent) == [0x65] + ([0x2D] + NatText(-exponent)); }
  }

  /** digits / 10^places * 10^exponent */
  function PrintedMeaning(digits: int, places: nat, exponent: int): real { digits as real * Ten(0 - places) * Ten(exponent) }

  /** Round trip: a printed decimal is read as a number with the printed meaning, unless it is too large for a double, and
      then it is refused. */
  lemma PrintedReads(digits: int, places: nat, exponent: int)
    ensures var r := ReadText(Printed(digits, places, exponent));
            if Abs(PrintedMeaning(digits, places, exponent)) < DoubleOverflow() as real then
              r.Got? && r.value == Number(Decimal(digits, exponent - places)) && Meaning(r.value.d) == PrintedMeaning(digits, places, exponent)
            else r.Failed?
  {
    hide Printed, PrintedNumeral, NumeralText, NumeralValue, ReadText, DoubleOverflow, Abs, IsFinite, GoodShape, Ten;
    var n, d := PrintedNumeral(digits, places, exponent), Decimal(digits, exponent - places);
    PrintedIs(digits, places, exponent);
    TenSplit(exponent, places);
    Regroup(digits as real, Ten(0 - places), Ten(exponent), Ten(exponent - places));
    assert Meaning(d) == PrintedMeaning(digits, places, exponent);
    hide Meaning, PrintedMeaning;
    FiniteByMeaning(d);
    NumeralTextReads(n);
  }

  lemma {:induction false} TenSplit(e: int, k: nat)
    ensures Ten(e - k) == Ten(0 - k) * Ten(e)
  {
    hide Ten;
    TenAdd(e - k, k);
    Cancels(k);
    Swap(Ten(e - k), Ten(k), Ten(0 - k));
  }

  lemma Swap(a: real, b: real, c: real)
    requires c * b == 1.0
    ensures c * (a * b) == a
  {
    assert c * (a * b) == a * (c * b);
  }

  lemma Regroup(a: real, b: real, c: real, t: real)
    requires t == b * c
    ensures a * t == a * b * c
  {
  }

  /** A text that is one numeral. */
  lemma NumeralTextReads(n: Numeral)
    requires GoodShape(n)
    ensures var t := NumeralText(n);
            if IsFinite(NumeralValue(n)) then ReadText(t) == Got(Number(NumeralValue(n)), |t|) else ReadText(t).Failed?
  {
    hide NumeralText, NumeralValue, IsFinite, ReadNumeral, SkipWs, At;
    var t := NumeralText(n);
    AtEquals(t, 0, t);
    JsonComplete.ShapeComplete(t, 0, n);
    assert SkipWs(t, 0) == 0 by { StartsAtOnce(t); }
    assert SkipWs(t, |t|) == |t| by { EndsAtOnce(t); }
    JsonComplete.Dispatch(t, 0, 0);
  }

  lemma StartsAtOnce(t: bytes)
    requires t != [] && (t[0] == MINUS || IsDigit(t[0]))
    ensures SkipWs(t, 0) == 0
  {
  }

  lemma EndsAtOnce(t: bytes)
    ensures SkipWs(t, |t|) == |t|
  {
  }
}

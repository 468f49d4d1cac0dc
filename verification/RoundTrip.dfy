/** Seventeen significant digits are enough: printing and reading give the same double back. */
module RoundTrip {
  import opened Arith
  import opened Exact
  import opened Ieee
  import opened Rounding
  import opened DecimalText
  import opened Strtod
  import opened Division
  import opened Format
  import Powers

  lemma MantissaTop(m: nat)
    requires m < 2 * HIDDEN
    ensures m as real + 1.0 <= RPow(2, 53)
  {
    hide RPow;
    HiddenIsPow2();
    RPow2Nat(53);
  }

  /** A double is at most 2^53 of the gaps on either side of it. */
  lemma Gap(b: nat)
    ensures Value(b + 1) == Value(b) + RPow(2, Ulp(b))
    ensures Value(b) <= Value(b + 1) <= RPow(2, 53) * RPow(2, Ulp(b))
  {
    hide RPow;
    ValueStep(b);
    var m: nat, u := Mantissa(b), RPow(2, Ulp(b));
    MantissaTop(m);
    assert Value(b) == m as real * u;
    hide Value, Mantissa, Ulp;
    GapArith(m as real, u, RPow(2, 53), Value(b), Value(b + 1));
  }

  lemma GapArith(m: real, u: real, t: real, a: real, b: real)
    requires u > 0.0 && a == m * u && b == a + u && m + 1.0 <= t
    ensures a <= b <= t * u
  {
    RMulLe(m + 1.0, t, u);
    assert (m + 1.0) * u == m * u + u;
  }

  /** Rounding to sig digits moves a value by at most half of 10^(X+1-sig). */
  lemma PrintError(v: real, sig: nat, X: int, N: nat)
    requires sig >= 17 && RoundedTo(v, sig, X, N) && v > 0.0
    ensures var d := Decimal(N, X + 1 - sig);
      -v <= (2.0 * RPow(10, 16)) * (d - v) <= v
  {
    hide RPow, HalfEven;
    var s := sig - 1 - X;
    var x, t := Scale(v, s), RPow(10, X + 1 - sig);
    HalfEvenError(x);
    RPowAdd(10, s, X + 1 - sig);
    RPowZero(10);
    RPowPos(10, X + 1 - sig);
    Unscale(v, RPow(10, s), t, x, N as real, Decimal(N, X + 1 - sig));
    RPowMonotone(10, X + 1 - sig, X - 16);
    RPowAdd(10, 16, X - 16);
    RPowPos(10, 16);
    ErrorBound(t, RPow(10, X - 16), RPow(10, 16), RPow(10, X), v, Decimal(N, X + 1 - sig) - v);
  }

  lemma Unscale(v: real, p: real, t: real, x: real, n: real, d: real)
    requires p * t == 1.0 && x == v * p && d == n * t && t > 0.0 && -0.5 <= n - x <= 0.5
    ensures -t <= 2.0 * (d - v) <= t
  {
    var y := n - x;
    Scaled(v, p, t, x);
    Difference(n, x, t, y);
    HalfSpan(y, t, d - v);
  }

  lemma HalfSpan(y: real, t: real, yt: real)
    requires yt == y * t && t > 0.0 && -0.5 <= y <= 0.5
    ensures -t <= 2.0 * yt <= t
  {
    Span(y, 0.5, t, yt, 0.5 * t);
    Span(-0.5, y, t, (-0.5) * t, yt);
  }

  lemma Span(a: real, b: real, t: real, at: real, bt: real)
    requires a <= b && t > 0.0 && at == a * t && bt == b * t
    ensures at <= bt
  {
    RMulLe(a, b, t);
  }

  lemma Scaled(v: real, p: real, t: real, x: real)
    requires p * t == 1.0 && x == v * p
    ensures x * t == v
  {
    assert (v * p) * t == v * (p * t);
  }

  lemma Difference(n: real, x: real, t: real, y: real)
    requires y == n - x
    ensures y * t == n * t - x * t
  {
  }

  lemma ErrorBound(t: real, u: real, p: real, w: real, v: real, e: real)
    requires 0.0 < t <= u && p > 0.0 && w == p * u && w <= v && -t <= 2.0 * e <= t
    ensures -v <= (2.0 * p) * e <= v
  {
    RMulLe(2.0 * e, u, p);
    RMulLe(-u, 2.0 * e, p);
    assert (2.0 * e) * p == (2.0 * p) * e;
  }

  /** 10^16 exceeds 2^53: so the error stays below half of either gap. */
  lemma ErrorInsideGap(v: real, e: real, u: real)
    requires v > 0.0 && u > 0.0 && -v <= (2.0 * RPow(10, 16)) * e <= v
    requires v <= RPow(2, 53) * u
    ensures -u < 2.0 * e < u
  {
    hide RPow;
    TenSixteen();
    GapCompare(v, e, u, RPow(10, 16), RPow(2, 53));
  }

  lemma TenSixteen()
    ensures RPow(2, 53) < RPow(10, 16)
  {
    hide RPow;
    HiddenIsPow2();
    RPow2Nat(53);
    RPowNat(10, 16);
    PowAdd(10, 8, 8);
    assert Pow(10, 8) == 100000000;
  }

  lemma GapCompare(v: real, e: real, u: real, p: real, t: real)
    requires v > 0.0 && u > 0.0 && 0.0 < t < p && -v <= (2.0 * p) * e <= v && v <= t * u
    ensures -u < 2.0 * e < u
  {
    RMulLt(t, p, u);
    var ee := 2.0 * e;
    assert ee * p == (2.0 * p) * e;
    if ee >= u {
      RMulLe(u, ee, p);
    }
    if ee <= -u {
      RMulLe(ee, -u, p);
    }
  }

  /** The printed decimal is nearest to the double it came from, and outside the gap of the reader. */
  lemma PrintedIsNearest(b: nat, sig: nat, X: int, N: nat)
    requires 0 < b < INF && sig >= 17 && RoundedTo(Value(b), sig, X, N)
    ensures var d := Decimal(N, X + 1 - sig);
      Nearest(b, d) && !TinyGap(d)
  {
    hide RPow, Value, Nearest, RoundedTo, Decimal;
    var v, d := Value(b), Decimal(N, X + 1 - sig);
    ValueStep(0);
    ZeroValue();
    ValueMonotone(0, b);
    PrintError(v, sig, X, N);
    Gap(b - 1);
    Gap(b);
    RPowPos(2, Ulp(b - 1));
    RPowPos(2, Ulp(b));
    ErrorInsideGap(v, d - v, RPow(2, Ulp(b - 1)));
    ErrorInsideGap(v, d - v, RPow(2, Ulp(b)));
    if d >= v {
      NearestBetween(b, d, false);
    } else {
      NearestBetween(b - 1, d, true);
    }
    AboveHalfDenormal(b, d - v);
  }

  lemma ZeroValue()
    ensures Value(0) == 0.0 && Value(1) == RPow(2, -1074)
  {
    hide RPow;
  }

  /** A printed decimal is well above half the least denormal. */
  lemma AboveHalfDenormal(b: nat, e: real)
    requires b > 0 && -Value(b) <= (2.0 * RPow(10, 16)) * e <= Value(b)
    ensures !TinyGap(Value(b) + e)
  {
    hide RPow, Value;
    var v := Value(b);
    ZeroValue();
    ValueMonotone(1, b);
    RPowPos(2, -1074);
    RPowStep(2, -1075);
    RPowMonotone(2, -1130, -1075);
    RPowMonotone(2, 2, 53);
    RPow2Nat(2);
    assert Pow2(2) == 4;
    RMulLe(4.0, RPow(2, 53), v / 4.0);
    ErrorInsideGap(v, e, v / 4.0);
  }

  /** Printing with 17 or more significant digits in the e or g style and reading back returns the same bits. */
  method PrintAndRead(bits: nat, prec: int, style: Style, upper: bool, guess: int, p5: Pow5Cache)
    returns (text: string, r: ReadResult, stop: nat)
    requires bits < 2 * SIGN && IsFinite(bits % SIGN) && bits % SIGN > 0
    requires style != StyleF && Significant(style, prec) >= 17
    requires -400 <= guess <= 400 && p5.Valid()
    modifies p5`k, p5.cache`n, p5.cache.l
    ensures p5.Valid() && r == Bits(bits) && stop == |text|
  {
    hide RoundedTo, DigitsOf, Value, Reads, ShownForm, NumeralValue, KeptValue;
    hide Parse, HalfEven, Scale, DecVal, ZeroText;
    ghost var K, X, N, mag;
    text, K, X, N := FmtDouble(bits, prec, style, upper, guess, p5);
    ghost var sig := Significant(style, prec);
    ghost var shown := ShownNumeral(bits >= SIGN, K, X, sig, N, style == StyleG, upper);
    ParseRendered(shown);
    r, stop, mag := StrtodFull(text, p5);
    ReadBack(bits % SIGN, sig, X, N, mag);
  }

  /** The numeral that was printed. */
  ghost function ShownNumeral(neg: bool, K: string, X: int, sig: nat, N: nat, g: bool, upper: bool): (r: Rendered)
    requires DigitsOf(K, sig, N) && -900 <= X <= 900
    ensures r == ShownForm(neg, K, ShownExp(sig, X, N), sig, g, upper)
    ensures r.Valid() && r.neg == neg && |r.ip| + |r.fp| <= sig + 5
    ensures NumeralValue(r.ip, r.fp, r.Exp()) == Decimal(N, X + 1 - sig)
  {
    ShownValue(neg, K, X, sig, N, g, upper);
    ShownForm(neg, K, ShownExp(sig, X, N), sig, g, upper)
  }

  lemma ReadBack(b: nat, sig: nat, X: int, N: nat, mag: nat)
    requires 0 < b && IsFinite(b) && sig >= 17 && RoundedTo(Value(b), sig, X, N)
    requires Reads(mag, Decimal(N, X + 1 - sig))
    ensures mag == b
  {
    hide RoundedTo, Value, Nearest, TinyGap, Decimal;
    PrintedIsNearest(b, sig, X, N);
    NearestUnique(mag, b, Decimal(N, X + 1 - sig));
  }
}

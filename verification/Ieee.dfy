/** Binary64 bit patterns, their exact values, and rounding to nearest, ties to even. */
module Ieee {
  import opened Arith
  import opened Exact

  const HIDDEN := 0x10_0000_0000_0000           // 2^52
  const INF := 0x7FF0_0000_0000_0000
  const SIGN := 0x8000_0000_0000_0000

  /** The biased exponent and the fraction of a magnitude. */
  function BiasedExp(b: nat): nat { b / HIDDEN }
  function Fraction(b: nat): nat { b % HIDDEN }

  /** value = Mantissa * 2^Exponent; INF is read as 2^1024, the first value past the range. */
  function Mantissa(b: nat): nat {
    if BiasedExp(b) == 0 then Fraction(b) else HIDDEN + Fraction(b)
  }
  function Exponent(b: nat): int {
    if BiasedExp(b) == 0 then -1074 else BiasedExp(b) - 1075
  }

  ghost function Value(b: nat): real {
    Mantissa(b) as real * RPow(2, Exponent(b))
  }

  ghost function Dist(b: nat, v: real): real {
    if Value(b) >= v then Value(b) - v else v - Value(b)
  }

  /** b is the double nearest v, the even one of two equally near (section 4.3.1 of IEEE 754-2019). */
  ghost predicate Nearest(b: nat, v: real) {
    && b <= INF
    && forall c: nat :: c <= INF && c != b ==> Dist(b, v) < Dist(c, v) || (Dist(b, v) == Dist(c, v) && b % 2 == 0)
  }

  // ---- the grid of doubles ----

  /** The spacing above b is 2^Ulp(b). */
  function Ulp(b: nat): int {
    Exponent(b)
  }

  lemma ValueStep(b: nat)
    ensures Value(b + 1) == Value(b) + RPow(2, Ulp(b))
    ensures Value(b) >= 0.0
  {
    hide RPow;
    NextPattern(b);
    RPowPos(2, Exponent(b));
    RPowStep(2, Exponent(b));
    ValueStepArith(Mantissa(b), RPow(2, Exponent(b)), RPow(2, Exponent(b + 1)), Mantissa(b + 1));
  }

  /** The next pattern: one more unit, or the first of the next binade. */
  lemma NextPattern(b: nat)
    ensures (Exponent(b + 1) == Exponent(b) && Mantissa(b + 1) == Mantissa(b) + 1)
         || (Exponent(b + 1) == Exponent(b) + 1 && Mantissa(b + 1) == HIDDEN && Mantissa(b) == 2 * HIDDEN - 1)
  {
    if Fraction(b) == HIDDEN - 1 {
      assert BiasedExp(b + 1) == BiasedExp(b) + 1 && Fraction(b + 1) == 0;
    } else {
      assert BiasedExp(b + 1) == BiasedExp(b) && Fraction(b + 1) == Fraction(b) + 1;
    }
  }

  lemma ValueStepArith(m: nat, p: real, p': real, m': nat)
    requires p > 0.0
    requires (p' == p && m' == m + 1) || (p' == 2.0 * p && m' == HIDDEN && m == 2 * HIDDEN - 1)
    ensures m' as real * p' == m as real * p + p
    ensures m as real * p >= 0.0
  {
  }

  lemma NextAbove(b: nat)
    ensures Value(b) < Value(b + 1)
  {
    hide Value;
    ValueStep(b);
    RPowPos(2, Ulp(b));
  }

  lemma {:induction false} ValueMonotone(b: nat, c: nat)
    requires b <= c
    ensures Value(b) <= Value(c)
    ensures b < c ==> Value(b) < Value(c)
    decreases c - b
  {
    if b < c {
      hide Value;
      ValueMonotone(b, c - 1);
      NextAbove(c - 1);
    }
  }

  /** Between neighbours, the nearer end wins and a tie goes to the even one. */
  lemma NearestBetween(b: nat, v: real, up: bool)
    requires b < INF
    requires Value(b) <= v < Value(b + 1)
    requires var d := 2.0 * v - Value(b) - Value(b + 1);
      if up then d > 0.0 || (d == 0.0 && b % 2 == 1) else d < 0.0 || (d == 0.0 && b % 2 == 0)
    ensures Nearest(if up then b + 1 else b, v)
  {
    hide Value;
    var r := if up then b + 1 else b;
    forall c: nat | c <= INF && c != r
      ensures Dist(r, v) < Dist(c, v) || (Dist(r, v) == Dist(c, v) && r % 2 == 0)
    {
      if c <= b {
        ValueMonotone(c, b);
      } else {
        ValueMonotone(b + 1, c);
      }
    }
  }

  lemma NearestInfinity(v: real)
    requires v >= Value(INF)
    ensures Nearest(INF, v)
  {
    hide Value;
    forall c: nat | c <= INF && c != INF
      ensures Dist(INF, v) < Dist(c, v)
    {
      ValueMonotone(c, INF);
    }
  }

  /** Rounding to nearest even has one answer. */
  lemma NearestUnique(b: nat, c: nat, v: real)
    requires Nearest(b, v) && Nearest(c, v)
    ensures b == c
  {
    hide Value;
    if b < c {
      NotBothNearest(b, c, v);
    } else if c < b {
      NotBothNearest(c, b, v);
    }
  }

  lemma NotBothNearest(b: nat, c: nat, v: real)
    requires b < c
    ensures !(Nearest(b, v) && Nearest(c, v))
  {
    hide Value;
    ValueMonotone(b, b + 1);
    ValueMonotone(b + 1, c);
    assert Dist(b + 1, v) <= Dist(c, v) || Dist(b + 1, v) < Dist(b, v);
  }

  /** A larger value never rounds to a smaller double. */
  lemma NearestMonotone(b: nat, c: nat, v: real, w: real)
    requires Nearest(b, v) && Nearest(c, w) && v <= w
    ensures b <= c
  {
    hide Value;
    if c < b {
      ValueMonotone(c, b);
      assert Dist(b, v) <= Dist(c, v) && Dist(c, w) <= Dist(b, w);
      if v == w {
        NearestUnique(b, c, v);
      }
    }
  }

  /** A double is the nearest double to itself. */
  lemma NearestExact(b: nat)
    requires b <= INF
    ensures Nearest(b, Value(b))
  {
    hide Value;
    forall c: nat | c <= INF && c != b
      ensures Dist(b, Value(b)) < Dist(c, Value(b))
    {
      ValueMonotone(if c < b then c else b, if c < b then b else c);
    }
  }

  // ---- rounding inside one binade ----

  /** Patterns k*2^52 + m hold m units of 2^(k-1074). */
  lemma GridValue(k: nat, m: nat)
    requires k <= 2046 && m <= 2 * HIDDEN && (k == 0 || m >= HIDDEN)
    ensures Value(k * HIDDEN + m) == m as real * RPow(2, k - 1074)
  {
    hide RPow;
    var b := k * HIDDEN + m;
    RPowStep(2, k - 1074);
    if m == 2 * HIDDEN {
      assert BiasedExp(b) == k + 2 && Fraction(b) == 0;
      assert m as real * RPow(2, k - 1074) == HIDDEN as real * (2.0 * RPow(2, k - 1074));
    } else if m >= HIDDEN {
      assert BiasedExp(b) == k + 1 && Fraction(b) == m - HIDDEN;
    } else {
      assert BiasedExp(b) == 0 && Fraction(b) == m;
    }
  }

  lemma GridNeighbours(k: nat, f: nat)
    requires k <= 2045 && f < 2 * HIDDEN && (k == 0 || f >= HIDDEN)
    ensures Value(k * HIDDEN + f) == f as real * RPow(2, k - 1074)
    ensures Value(k * HIDDEN + f + 1) == (f + 1) as real * RPow(2, k - 1074)
  {
    hide Value, RPow;
    GridValue(k, f);
    GridValue(k, f + 1);
  }

  /** Half-even rounding on the grid of spacing 2^(k-1074) gives the nearest double. */
  lemma RoundOnGrid(v: real, k: nat, x: real)
    requires k <= 2045 && v == x * RPow(2, k - 1074)
    requires 0.0 <= x < (2 * HIDDEN) as real
    requires k > 0 ==> x >= HIDDEN as real
    ensures k * HIDDEN + HalfEven(x) >= 0
    ensures Nearest(k * HIDDEN + HalfEven(x), v)
  {
    hide Value, RPow, Nearest;
    var f, s := x.Floor, RPow(2, k - 1074);
    RPowPos(2, k - 1074);
    var b := k * HIDDEN + f;
    GridNeighbours(k, f);
    GridBetween(x, f as real, (f + 1) as real, s, v, Value(b), Value(b + 1));
    GridHalf(x, f as real, (f + 1) as real, s, v, Value(b), Value(b + 1));
    assert b % 2 == f % 2;
    NearestBetween(b, v, HalfEven(x) == f + 1);
  }

  lemma GridBetween(x: real, f: real, g: real, s: real, v: real, lo: real, hi: real)
    requires s > 0.0 && f <= x < g && v == x * s && lo == f * s && hi == g * s
    ensures lo <= v < hi
  {
    RMulLe(f, x, s);
    RMulLt(x, g, s);
  }

  lemma GridHalf(x: real, f: real, g: real, s: real, v: real, lo: real, hi: real)
    requires s > 0.0 && v == x * s && g == f + 1.0
    requires lo == f * s && hi == g * s
    ensures x - f > 0.5 ==> 2.0 * v - lo - hi > 0.0
    ensures x - f < 0.5 ==> 2.0 * v - lo - hi < 0.0
    ensures x - f == 0.5 ==> 2.0 * v - lo - hi == 0.0
  {
    MidpointScale(x, f, g, s);
    SignScale(2.0 * x - f - g, s);
  }

  lemma MidpointScale(x: real, f: real, g: real, s: real)
    ensures 2.0 * (x * s) - f * s - g * s == (2.0 * x - f - g) * s
  {
  }

  lemma SignScale(d: real, s: real)
    requires s > 0.0
    ensures d > 0.0 ==> d * s > 0.0
    ensures d < 0.0 ==> d * s < 0.0
    ensures d == 0.0 ==> d * s == 0.0
  {
  }
}

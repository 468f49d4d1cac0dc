/** Exact real arithmetic for specifications: signed powers, half-even rounding to an integer. */
module Exact {
  import opened Arith

  /** b^e for any integer e. */
  ghost function RPow(b: nat, e: int): (r: real)
    requires b > 0
    ensures r > 0.0
  {
    if e >= 0 then Pow(b, e) as real else Inverse(Pow(b, -e) as real)
  }

  ghost function Inverse(x: real): (r: real)
    requires x > 0.0
    ensures r > 0.0 && x * r == 1.0
  {
    InversePos(x);
    1.0 / x
  }

  lemma InversePos(x: real)
    requires x > 0.0
    ensures 1.0 / x > 0.0 && x * (1.0 / x) == 1.0
  {
  }

  lemma RealMul(a: int, b: int)
    ensures (a * b) as real == a as real * b as real
  {
  }

  lemma RMulLe(a: real, b: real, c: real)
    requires a <= b && c >= 0.0
    ensures a * c <= b * c
  {
  }

  lemma RMulLt(a: real, b: real, c: real)
    requires a < b && c > 0.0
    ensures a * c < b * c
  {
  }

  lemma RMulEq(a: real, b: real, c: real)
    requires a == b
    ensures a * c == b * c
  {
  }

  lemma RCancel(a: real, b: real, c: real)
    requires a * c == b * c && c > 0.0
    ensures a == b
  {
    if a < b {
      RMulLt(a, b, c);
    } else if b < a {
      RMulLt(b, a, c);
    }
  }

  lemma RCancelLe(a: real, b: real, c: real)
    requires a * c <= b * c && c > 0.0
    ensures a <= b
  {
    if b < a {
      RMulLt(b, a, c);
    }
  }

  /** b^(e+1) = b * b^e, on both sides of zero. */
  lemma RPowStep(b: nat, e: int)
    requires b > 0
    ensures RPow(b, e + 1) == b as real * RPow(b, e)
  {
    if e >= 0 {
      RealMul(b, Pow(b, e));
    } else {
      RPowStepDown(b, -e);
    }
  }

  lemma RPowStepDown(b: nat, n: int)
    requires b > 0 && n > 0
    ensures RPow(b, 1 - n) == b as real * RPow(b, -n)
  {
    PowNone(b);
    hide Inverse, Pow;
    var p := Pow(b, n - 1);
    PowSucc(b, n - 1);
    RealMul(b, p);
    InverseStep(b as real, p as real, RPow(b, -n), RPow(b, 1 - n), n == 1);
  }

  lemma PowNone(b: nat)
    ensures Pow(b, 0) == 1
  {
  }

  lemma InverseStep(b: real, p: real, x: real, y: real, last: bool)
    requires b > 0.0 && p > 0.0
    requires (b * p) * x == 1.0
    requires if last then p == 1.0 && y == 1.0 else p * y == 1.0
    ensures y == b * x
  {
    var z := b * x;
    assert z * p == (b * p) * x;
    if !last {
      RCancel(y, z, p);
    }
  }

  lemma {:induction false} RPowAdd(b: nat, x: int, y: int)
    requires b > 0
    ensures RPow(b, x + y) == RPow(b, x) * RPow(b, y)
    decreases if y >= 0 then y else -y
  {
    hide RPow;
    if y == 0 {
      RPowZero(b);
    } else if y > 0 {
      RPowAdd(b, x, y - 1);
      RPowStep(b, x + y - 1);
      RPowStep(b, y - 1);
      AddUp(b as real, RPow(b, x + y - 1), RPow(b, x), RPow(b, y - 1));
    } else {
      RPowAdd(b, x, y + 1);
      RPowStep(b, x + y);
      RPowStep(b, y);
      AddDown(b as real, RPow(b, x + y), RPow(b, x), RPow(b, y));
    }
  }

  lemma RPowZero(b: nat)
    requires b > 0
    ensures RPow(b, 0) == 1.0
  {
  }

  lemma RPowPos(b: nat, e: int)
    requires b > 0
    ensures RPow(b, e) > 0.0
  {
  }

  lemma AddUp(b: real, s: real, x: real, y: real)
    requires s == x * y
    ensures b * s == x * (b * y)
  {
  }

  lemma AddDown(b: real, s: real, x: real, y: real)
    requires b > 0.0 && b * s == x * (b * y)
    ensures s == x * y
  {
    var z := x * y;
    assert z * b == x * (b * y);
    RCancel(s, z, b);
  }

  /** v * 10^s. */
  ghost function Scale(v: real, s: int): real {
    v * RPow(10, s)
  }

  /** m * 10^e. */
  ghost function Decimal(m: nat, e: int): real {
    m as real * RPow(10, e)
  }

  lemma RPowNat(b: nat, e: nat)
    requires b > 0
    ensures RPow(b, e) == Pow(b, e) as real
  {
  }

  lemma RPow2Nat(e: nat)
    ensures RPow(2, e) == Pow2(e) as real
  {
    Pow2IsPow(e);
  }

  lemma {:induction false} RPowMonotone(b: nat, x: int, y: int)
    requires b >= 2 && x <= y
    ensures RPow(b, x) <= RPow(b, y)
    ensures x < y ==> 2.0 * RPow(b, x) <= RPow(b, y)
    decreases y - x
  {
    hide RPow;
    if x < y {
      RPowMonotone(b, x, y - 1);
      RPowPos(b, y - 1);
      RPowStep(b, y - 1);
      GrowStep(RPow(b, y - 1), b as real, RPow(b, y));
    }
  }

  lemma GrowStep(p: real, b: real, q: real)
    requires p > 0.0 && b >= 2.0 && q == b * p
    ensures q >= 2.0 * p
  {
  }

  /** 10^e = 5^e * 2^e. */
  lemma RPowTen(e: int)
    ensures RPow(10, e) == RPow(5, e) * RPow(2, e)
  {
    hide Pow, Pow2, Inverse;
    if e >= 0 {
      PowTen(e);
      Pow2IsPow(e);
      RealMul(Pow(5, e), Pow2(e));
    } else {
      PowTen(-e);
      Pow2IsPow(-e);
      RealMul(Pow(5, -e), Pow2(-e));
      InverseProduct(Pow(5, -e) as real, Pow2(-e) as real, RPow(5, e), RPow(2, e), RPow(10, e));
    }
  }

  lemma InverseProduct(a: real, b: real, x: real, y: real, z: real)
    requires a > 0.0 && b > 0.0 && a * x == 1.0 && b * y == 1.0 && (a * b) * z == 1.0
    ensures z == x * y
  {
    var ab, xy := a * b, x * y;
    assert xy * ab == (a * x) * (b * y);
    RCancel(z, xy, ab);
  }

  // ---- rounding to an integer ----

  /** The integer nearest x, ties to even. */
  ghost function HalfEven(x: real): int {
    var f := x.Floor;
    if x - f as real > 0.5 || (x - f as real == 0.5 && f % 2 != 0) then f + 1 else f
  }

  lemma FloorUnique(x: real, f: int)
    requires f as real <= x < (f + 1) as real
    ensures x.Floor == f
  {
  }

  /** Rounding a quotient: the remainder against half the divisor. */
  lemma HalfEvenQuotient(n: nat, d: nat, q: nat, r: nat, x: real)
    requires d > 0 && n == q * d + r && r < d && x * d as real == n as real
    ensures HalfEven(x) == if 2 * r > d || (2 * r == d && q % 2 == 1) then q + 1 else q
  {
    RealSplit(n, q, d, r);
    var e := x - q as real;
    RestOfQuotient(x, q as real, d as real, n as real, r as real, e);
    HalfOf(e, d as real, r as real);
    HalfEvenFrom(x, q, e);
  }

  lemma RealSplit(q: nat, h: nat, p: nat, m: nat)
    requires q == h * p + m
    ensures q as real == h as real * p as real + m as real
  {
    RealMul(h, p);
  }

  lemma RestOfQuotient(x: real, q: real, d: real, n: real, r: real, e: real)
    requires x * d == n && n == q * d + r && e == x - q
    ensures e * d == r
  {
    assert (x - q) * d == x * d - q * d;
    RMulEq(e, x - q, d);
  }

  lemma HalfOf(e: real, d: real, r: real)
    requires d > 0.0 && e * d == r && 0.0 <= r < d
    ensures 0.0 <= e < 1.0
    ensures e > 0.5 <==> 2.0 * r > d
    ensures e == 0.5 <==> 2.0 * r == d
  {
    CompareScaled(e, 0.0, d, r, 0.0);
    CompareScaled(e, 1.0, d, r, d);
    CompareScaled(e, 0.5, d, r, 0.5 * d);
  }

  lemma CompareScaled(e: real, c: real, d: real, ed: real, cd: real)
    requires d > 0.0 && ed == e * d && cd == c * d
    ensures e > c <==> ed > cd
    ensures e == c <==> ed == cd
  {
    if e < c {
      RMulLt(e, c, d);
    } else if c < e {
      RMulLt(c, e, d);
    }
  }

  lemma HalfEvenFrom(x: real, q: int, e: real)
    requires x == q as real + e && 0.0 <= e < 1.0
    ensures HalfEven(x) == if e > 0.5 || (e == 0.5 && q % 2 != 0) then q + 1 else q
  {
    FloorUnique(x, q);
  }

  /** Rounding from one extra kept bit and a sticky flag. */
  lemma HalfEvenKept(x: real, kept: nat, sticky: bool)
    requires kept as real <= 2.0 * x < (kept + 1) as real
    requires sticky <==> 2.0 * x != kept as real
    ensures HalfEven(x) == kept / 2 + (if kept % 2 == 1 && (sticky || kept / 2 % 2 == 1) then 1 else 0)
  {
    FloorUnique(x, kept / 2);
  }

  /** The rounded integer is within one half. */
  lemma HalfEvenError(x: real)
    ensures -0.5 <= HalfEven(x) as real - x <= 0.5
  {
  }

  lemma HalfEvenMonotone(x: real, y: real)
    requires x <= y
    ensures HalfEven(x) <= HalfEven(y)
  {
  }

  lemma HalfEvenInt(n: int)
    ensures HalfEven(n as real) == n
  {
  }
}

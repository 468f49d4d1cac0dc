/** Rounding a long binary value to binary64, once, from a prefix and a sticky flag. */
module Rounding {
  import opened Arith
  import opened Exact
  import opened Ieee
  import opened Limbs
  import opened Bignum
  import opened Division

  /** v lies in [q, q+1) * 2^e, and sticky tells whether it is not exactly q * 2^e. */
  ghost predicate Approx(q: nat, sticky: bool, e: int, v: real) {
    && q as real * RPow(2, e) <= v < (q + 1) as real * RPow(2, e)
    && (sticky <==> v != q as real * RPow(2, e))
  }

  /** Dropping low bits of the prefix into the sticky flag. */
  lemma ApproxShr(q: nat, sticky: bool, e: int, v: real, sh: nat)
    requires Approx(q, sticky, e, v)
    ensures Approx(Shr(q, sh), sticky || Mask(q, sh) != 0, e + sh, v)
  {
    hide RPow, Pow2, Shr, Mask;
    var h, m, p := Shr(q, sh), Mask(q, sh), Pow2(sh);
    ShrMask(q, sh);
    RealSplit(q, h, p, m);
    RPowAdd(2, e, sh);
    RPow2Nat(sh);
    RPowPos(2, e);
    ApproxShrStep(q as real, (q + 1) as real, h as real, (h + 1) as real, m as real, p as real, RPow(2, e),
                  RPow(2, e + sh), v);
  }

  lemma ApproxShrStep(q: real, q1: real, h: real, h1: real, m: real, p: real, s: real, t: real, v: real)
    requires q == h * p + m && 0.0 <= m && m + 1.0 <= p && s > 0.0 && t == s * p
    requires q1 == q + 1.0 && h1 == h + 1.0
    requires q * s <= v < q1 * s
    ensures h * t <= v < h1 * t
    ensures v == h * t <==> v == q * s && m == 0.0
  {
    assert h * t == (h * p) * s;
    assert h1 * t == (h * p + p) * s;
    assert q * s == (h * p) * s + m * s;
    RMulLe(0.0, m, s);
    RMulLe(q1, h * p + p, s);
    if m > 0.0 {
      RMulLt(0.0, m, s);
    }
  }

  /** Widening an exact prefix with zero bits. */
  lemma ApproxShl(q: nat, e: int, v: real, k: nat)
    requires Approx(q, false, e, v)
    ensures Approx(q * Pow2(k), false, e - k, v)
  {
    hide RPow;
    var p := Pow2(k);
    RealMul(q, p);
    RPowAdd(2, e - k, k);
    RPow2Nat(k);
    RPowPos(2, e - k);
    ApproxShlStep(q as real, (q * p) as real, (q * p + 1) as real, p as real, RPow(2, e - k), RPow(2, e), v);
  }

  lemma ApproxShlStep(q: real, qp: real, qp1: real, p: real, s: real, t: real, v: real)
    requires qp == q * p && qp1 == qp + 1.0 && t == s * p && s > 0.0 && v == q * t
    ensures qp * s <= v < qp1 * s && v == qp * s
  {
    assert q * t == (q * p) * s;
  }

  /** A prefix with one extra bit fixes half-even rounding at twice its spacing. */
  lemma ApproxRounds(kept: nat, sticky: bool, e: int, v: real, x: real)
    requires Approx(kept, sticky, e, v) && v == x * RPow(2, e + 1)
    ensures kept as real <= 2.0 * x < (kept + 1) as real
    ensures HalfEven(x) == kept / 2 + (if kept % 2 == 1 && (sticky || kept / 2 % 2 == 1) then 1 else 0)
  {
    hide RPow, HalfEven;
    RPowStep(2, e);
    RPowPos(2, e);
    ScaleDown(kept as real, (kept + 1) as real, 2.0 * x, RPow(2, e), v);
    HalfEvenKept(x, kept, sticky);
  }

  lemma ScaleDown(a: real, b: real, y: real, s: real, v: real)
    requires s > 0.0 && v == y * s && a * s <= v < b * s
    ensures a <= y < b
    ensures v == a * s <==> y == a
  {
    RCancelLe(a, y, s);
    if y >= b {
      RMulLe(b, y, s);
    }
  }

  /** v as a multiple of 2^e. */
  ghost function Scaled(v: real, e: int): (x: real)
    ensures v == x * RPow(2, e)
  {
    var x := v * RPow(2, -e);
    ScaledBack(v, e, x);
    x
  }

  lemma ScaledBack(v: real, e: int, x: real)
    requires x == v * RPow(2, -e)
    ensures v == x * RPow(2, e)
  {
    hide RPow;
    RPowAdd(2, -e, e);
    RPowZero(2);
    ScaledStep(v, RPow(2, -e), RPow(2, e), x);
  }

  lemma ScaledStep(v: real, a: real, b: real, x: real)
    requires a * b == 1.0 && x == v * a
    ensures v == x * b
  {
    assert v * (a * b) == (v * a) * b;
  }

  /** A normalized prefix cut to n+1 bits. */
  lemma KeptRange(q: nat, blq: nat, n: nat)
    requires n < blq && Pow2(blq - 1) <= q < Pow2(blq)
    ensures Pow2(n) <= Shr(q, blq - n - 1) < 2 * Pow2(n)
  {
    hide Shr, Mask, Pow2;
    var sh := blq - n - 1;
    ShrMask(q, sh);
    Pow2Add(n, sh);
    Pow2Add(n + 1, sh);
    Pow2Succ(n);
    KeptRangeStep(q, Shr(q, sh), Mask(q, sh), Pow2(sh), Pow2(n));
  }

  lemma Pow2Succ(n: nat)
    ensures Pow2(n + 1) == 2 * Pow2(n)
  {
  }

  lemma KeptRangeStep(q: nat, h: nat, m: nat, p: nat, n: nat)
    requires q == h * p + m && m < p && n * p <= q < (2 * n) * p
    ensures n <= h < 2 * n
  {
    MulCancelLt(h, 2 * n, p);
    if h < n {
      MulLe(h + 1, n, p);
    }
  }

  lemma KeptRangeShl(q: nat, blq: nat, n: nat)
    requires 0 < blq <= n + 1 && Pow2(blq - 1) <= q < Pow2(blq)
    ensures Pow2(n) <= q * Pow2(n + 1 - blq) < 2 * Pow2(n)
  {
    hide Pow2;
    var k := n + 1 - blq;
    Pow2Add(blq - 1, k);
    Pow2Add(blq, k);
    Pow2Succ(n);
    MulLe(Pow2(blq - 1), q, Pow2(k));
    MulLt(q, Pow2(blq), Pow2(k));
  }

  lemma HiddenIsPow2()
    ensures Pow2(52) == HIDDEN && Pow2(53) == 2 * HIDDEN
  {
    Pow2Word();
    assert Pow2(20) == 0x10_0000;
    Pow2Add(20, 32);
  }

  lemma TopOf53(q: nat)
    requires q <= 2 * HIDDEN
    ensures Shr(q, 53) != 0 <==> q == 2 * HIDDEN
    ensures HIDDEN <= q < 2 * HIDDEN ==> Mask(q, 52) == q - HIDDEN
    ensures q == 2 * HIDDEN ==> Mask(q / 2, 52) == 0
  {
    HiddenIsPow2();
    if q == 2 * HIDDEN {
      ShrUnique(q, 53, 1, 0);
      ShrUnique(q / 2, 52, 1, 0);
    } else {
      ShrUnique(q, 53, 0, q);
      if HIDDEN <= q {
        ShrUnique(q, 52, 1, q - HIDDEN);
      }
    }
  }

  /** Large values round to infinity, values at or below half the least denormal to zero. */
  lemma NearestFar(v: real, e2: int)
    ensures v >= RPow(2, e2 - 1) && e2 > 1024 ==> Nearest(INF, v)
    ensures 0.0 <= v <= RPow(2, -1075) ==> Nearest(0, v)
    ensures RPow(2, -1075) < v < RPow(2, -1074) ==> Nearest(1, v)
  {
    hide RPow, Nearest;
    if v >= RPow(2, e2 - 1) && e2 > 1024 {
      RPowMonotone(2, 1024, e2 - 1);
      GridValue(2045, 2 * HIDDEN);
      InfinityValue();
      NearestInfinity(v);
    }
    GridNeighbours(0, 0);
    RPowStep(2, -1075);
    RPowPos(2, -1075);
    if 0.0 <= v <= RPow(2, -1075) {
      NearestBetween(0, v, false);
    }
    if RPow(2, -1075) < v < RPow(2, -1074) {
      NearestBetween(0, v, true);
    }
  }

  lemma InfinityValue()
    ensures Value(INF) == RPow(2, 1024)
  {
    hide RPow;
    assert BiasedExp(INF) == 2047 && Fraction(INF) == 0;
    HiddenIsPow2();
    RPow2Nat(52);
    RPowAdd(2, 52, 972);
  }

  /** The sign and the rounded magnitude. */
  function Signed(neg: bool, mag: nat): nat {
    (if neg then SIGN else 0) + mag
  }

  /** sh_round_64: the prefix q has blq bits and v is about q * 2^(e2 - blq). */
  method Round64(q0: nat, sticky0: bool, blq: nat, e0: int, neg: bool, ghost v: real) returns (bits: nat, mag: nat)
    requires 1 <= blq <= 63 && Pow2(blq - 1) <= q0 < Pow2(blq)
    requires sticky0 ==> blq >= 54
    requires Approx(q0, sticky0, e0 - blq, v)
    ensures bits == Signed(neg, mag) && mag <= INF
    ensures Nearest(mag, v) <==> !(e0 == -1074 && q0 == Pow2(blq - 1) && sticky0)
    ensures e0 == -1074 && q0 == Pow2(blq - 1) ==> mag == 0
  {
    hide Nearest, RPow, Pow2, Shr, Mask, Approx;
    ApproxRange(q0, sticky0, blq, e0, v);
    NearestFar(v, e0);
    if e0 - 1 > 1023 {
      return Signed(neg, INF), INF;
    }
    if e0 <= -1074 {
      mag := if e0 == -1074 && blq < 64 && q0 > Pow2(blq - 1) then 1 else 0;
      TinyCases(q0, sticky0, blq, e0, v);
      return Signed(neg, mag), mag;
    }
    var mantBits := if e0 - 1 >= -1022 then 53 else 53 - (-1022 - (e0 - 1));
    if mantBits < 1 {
      mantBits := 1;
    }
    var sh := blq - (mantBits + 1);
    var q, sticky := q0, sticky0;
    if sh > 0 {
      if Mask(q, sh) != 0 {
        sticky := true;
      }
      ApproxShr(q, sticky0, e0 - blq, v, sh);
      KeptRange(q, blq, mantBits);
      q := Shr(q, sh);
    } else if sh < 0 {
      ApproxShl(q, e0 - blq, v, -sh);
      KeptRangeShl(q, blq, mantBits);
      q := q * Pow2(-sh);
    } else {
      KeptRangeShl(q, blq, mantBits);
      Pow2Zero();
    }
    mag := RoundKept(q, sticky, mantBits, e0, v);
    return Signed(neg, mag), mag;
  }

  /** The value in terms of its exponent. */
  lemma ApproxRange(q: nat, sticky: bool, blq: nat, e: int, v: real)
    requires blq > 0 && Pow2(blq - 1) <= q < Pow2(blq) && Approx(q, sticky, e - blq, v)
    ensures RPow(2, e - 1) <= v < RPow(2, e)
    ensures v == RPow(2, e - 1) <==> q == Pow2(blq - 1) && !sticky
    ensures q > Pow2(blq - 1) ==> v > RPow(2, e - 1)
  {
    hide RPow, Pow2;
    RPowAdd(2, blq - 1, e - blq);
    RPowAdd(2, blq, e - blq);
    RPow2Nat(blq - 1);
    RPow2Nat(blq);
    RPowPos(2, e - blq);
    RangeStep(q as real, (q + 1) as real, Pow2(blq - 1) as real, Pow2(blq) as real, RPow(2, e - blq),
              RPow(2, e - 1), RPow(2, e), v);
  }

  lemma RangeStep(q: real, q1: real, lo: real, hi: real, s: real, tl: real, th: real, v: real)
    requires s > 0.0 && lo <= q && q1 <= hi && tl == lo * s && th == hi * s
    requires q * s <= v < q1 * s
    ensures tl <= v < th
    ensures v == tl <==> v == q * s && q == lo
    ensures q > lo ==> v > tl
  {
    RMulLe(lo, q, s);
    RMulLe(q1, hi, s);
    if q > lo {
      RMulLt(lo, q, s);
    }
  }

  /** At and below the binade of half the least denormal. */
  lemma TinyCases(q: nat, sticky: bool, blq: nat, e: int, v: real)
    requires 1 <= blq <= 63 && Pow2(blq - 1) <= q < Pow2(blq) && Approx(q, sticky, e - blq, v) && e <= -1074
    ensures e == -1074 && q > Pow2(blq - 1) ==> Nearest(1, v)
    ensures e == -1074 && q == Pow2(blq - 1) && !sticky ==> Nearest(0, v)
    ensures e == -1074 && q == Pow2(blq - 1) && sticky ==> Nearest(1, v) && !Nearest(0, v)
    ensures e < -1074 ==> Nearest(0, v)
  {
    hide RPow, Nearest, Approx;
    ApproxRange(q, sticky, blq, e, v);
    NearestFar(v, e);
    RPowMonotone(2, e, -1074);
    if e < -1074 {
      RPowMonotone(2, e, -1075);
    }
    RPowPos(2, e - 1);
    if e == -1074 && q == Pow2(blq - 1) && sticky && Nearest(0, v) {
      NearestUnique(0, 1, v);
    }
  }

  /** From mantBits + 1 kept bits to the encoding. */
  method RoundKept(kept: nat, sticky: bool, mantBits: nat, e0: int, ghost v: real) returns (bits: nat)
    requires -1074 < e0 <= 1024
    requires mantBits == if e0 >= -1021 then 53 else e0 + 1074
    requires Pow2(mantBits) <= kept < 2 * Pow2(mantBits)
    requires Approx(kept, sticky, e0 - mantBits - 1, v)
    ensures bits <= INF && Nearest(bits, v)
  {
    hide RPow, Nearest, Approx, Pow2, Shr, Mask;
    KeptNearest(kept, sticky, mantBits, e0, v);
    var rb := kept % 2;
    var q := kept / 2;
    var e2 := e0;
    var bump := rb != 0 && (sticky || q % 2 != 0);
    if bump {
      q := q + 1;
    }
    TopOf53(q);
    if mantBits == 53 && Shr(q, mantBits) != 0 {
      q := q / 2;
      e2 := e2 + 1;
      if e2 - 1 > 1023 {
        return INF;
      }
    }
    if e2 - 1 >= -1022 {
      var frac := Mask(q, 52);
      bits := (e2 - 1 + 1023) * HIDDEN + frac;   // the two fields do not overlap
    } else if Shr(q, 53) != 0 {
      assert false;    // promotion to the least normal: a denormal never rounds up that far
    } else {
      bits := q;
    }
  }

  /** The kept bits, bumped by the half-even rule, are the nearest double on the grid of binade k. */
  lemma KeptNearest(kept: nat, sticky: bool, mantBits: nat, e0: int, v: real)
    requires -1074 < e0 <= 1024
    requires mantBits == if e0 >= -1021 then 53 else e0 + 1074
    requires Pow2(mantBits) <= kept < 2 * Pow2(mantBits)
    requires Approx(kept, sticky, e0 - mantBits - 1, v)
    ensures var q := kept / 2 + if kept % 2 != 0 && (sticky || kept / 2 % 2 != 0) then 1 else 0;
            var k := if e0 >= -1021 then e0 + 1021 else 0;
            && Nearest(k * HIDDEN + q, v)
            && (mantBits == 53 ==> HIDDEN <= q <= 2 * HIDDEN) && (mantBits < 53 ==> q <= HIDDEN)
  {
    hide RPow, Nearest, Approx, HalfEven, Pow2;
    var x := Scaled(v, e0 - mantBits);
    ApproxRounds(kept, sticky, e0 - mantBits - 1, v, x);
    HalfKept(kept, mantBits);
    RoundOnGrid(v, if e0 >= -1021 then e0 + 1021 else 0, x);
  }

  /** The rounded mantissa stays within its binade, its top included. */
  lemma HalfKept(kept: nat, n: nat)
    requires 1 <= n <= 53 && Pow2(n) <= kept < 2 * Pow2(n)
    ensures n == 53 ==> HIDDEN <= kept / 2 < 2 * HIDDEN && 2 * HIDDEN <= kept < 4 * HIDDEN
    ensures n < 53 ==> kept / 2 < HIDDEN && kept < 2 * HIDDEN
  {
    HiddenIsPow2();
    if n < 53 {
      Pow2Monotone(n, 52);
    }
  }

  // ---- the two bignum paths ----

  /** The one window where rounding to nearest fails: just above half the least denormal. */
  ghost predicate TinyGap(v: real) {
    RPow(2, -1075) < v < RPow(2, -1075) + RPow(2, -1130)
  }

  /** What rounding promises about the magnitude returned for v: nearest, except in the window, where it is zero. */
  ghost predicate Reads(mag: nat, v: real) {
    mag <= INF && (Nearest(mag, v) <==> !TinyGap(v)) && (TinyGap(v) ==> mag == 0)
  }

  lemma GapMeans(q: nat, sticky: bool, e: int, v: real)
    requires Pow2(55) <= q < Pow2(56) && Approx(q, sticky, e - 56, v)
    ensures (e == -1074 && q == Pow2(55) && sticky) <==> TinyGap(v)
  {
    hide RPow, Pow2;
    ApproxRange(q, sticky, 56, e, v);
    if e == -1074 {
      RPowAdd(2, 55, -1130);
      RPow2Nat(55);
      RPowPos(2, -1130);
      GapStep(q, q as real, (q + 1) as real, Pow2(55), Pow2(55) as real, RPow(2, -1130), RPow(2, -1075), v);
    } else {
      FarFromGap(e, v);
    }
  }

  lemma GapStep(q: nat, qr: real, q1: real, p: nat, pr: real, s: real, t: real, v: real)
    requires s > 0.0 && qr == q as real && q1 == qr + 1.0 && pr == p as real && t == pr * s && p <= q
    requires qr * s <= v < q1 * s
    ensures q == p && v != qr * s <==> t < v < t + s
  {
    if q > p {
      RMulLe(pr + 1.0, qr, s);
      assert (pr + 1.0) * s == t + s;
    } else {
      assert q1 * s == t + s;
    }
  }

  lemma FarFromGap(e: int, v: real)
    requires e != -1074 && RPow(2, e - 1) <= v < RPow(2, e)
    ensures !TinyGap(v)
  {
    hide RPow;
    if e < -1074 {
      RPowMonotone(2, e, -1075);
    } else {
      RPowMonotone(2, -1074, e - 1);
      RPowMonotone(2, -1130, -1075);
      RPowStep(2, -1075);
    }
  }

  lemma BelowGap(v: real, e: int)
    requires 0.0 <= v <= RPow(2, e) && e <= -1075
    ensures !TinyGap(v) && Nearest(0, v)
  {
    hide RPow, Nearest;
    RPowMonotone(2, e, -1075);
    NearestFar(v, 0);
  }

  lemma AboveGap(v: real, e: int)
    requires v >= RPow(2, e) && e >= 1024
    ensures !TinyGap(v) && Nearest(INF, v)
  {
    hide RPow, Nearest;
    RPowMonotone(2, -1074, e);
    RPowMonotone(2, -1130, -1075);
    RPowStep(2, -1075);
    NearestFar(v, e + 1);
  }

  /** sh_round: v = m0 * 2^s. */
  method RoundBig(m0: NBig, s: int, neg: bool, ghost v: real) returns (bits: nat, mag: nat)
    requires m0.Norm() && v == m0.V() as real * RPow(2, s)
    ensures bits == Signed(neg, mag) && Reads(mag, v)
  {
    hide RPow, Nearest, Pow2, BitLen, Shr, Mask, Num, Approx;
    ghost var V := m0.V();
    var B := new NBig();
    B.Assign(m0);
    var bitlen := B.BitLength();
    if bitlen == 0 {
      ZeroBits(V);
      RPowPos(2, -1075);
      BelowGap(v, -1075);
      return Signed(neg, 0), 0;
    }
    var e2 := bitlen + s;
    NumberRange(V, bitlen, s, v);
    if e2 - 1 > 2000 || e2 < -2000 - 60 {
      if e2 - 1 > 1023 {
        AboveGap(v, e2 - 1);
        return Signed(neg, INF), INF;
      }
      RPowPos(2, e2 - 1);
      BelowGap(v, e2);
      return Signed(neg, 0), 0;
    }
    var q, sticky := TopWord(B, bitlen, s, v);
    GapMeans(q, sticky, e2, v);
    bits, mag := Round64(q, sticky, 56, e2, neg, v);
  }

  /** The top 56 bits of a bignum, left-aligned, and whether anything below them is set. */
  method TopWord(B: NBig, bitlen: nat, s: int, ghost v: real) returns (q: nat, sticky: bool)
    requires B.Norm() && bitlen == BitLen(B.V()) && bitlen > 0 && v == B.V() as real * RPow(2, s)
    modifies B`n, B.l
    ensures Pow2(55) <= q < Pow2(56) && Approx(q, sticky, bitlen + s - 56, v)
  {
    hide RPow, Pow2, BitLen, Shr, Mask, Num, Approx;
    ghost var V := B.V();
    NumberRange(V, bitlen, s, v);
    sticky := false;
    var blq := bitlen;
    if bitlen > 56 {
      ApproxShr(V, false, s, v, bitlen - 56);
      KeptRange(V, bitlen, 55);
      sticky := B.ShrSticky(bitlen - 56);
      blq := 56;
    } else {
      Pow2Monotone(bitlen, 56);
      ApproxShl(V, s, v, 56 - bitlen);
      KeptRangeShl(V, bitlen, 55);
    }
    Pow2Succ(55);
    Pow2Monotone(56, 64);
    Pow2Zero();
    q := LowWord(B);
    q := q * Pow2(56 - blq);
  }

  /** The low 64 bits of a bignum that has no more. */
  method LowWord(B: NBig) returns (q: nat)
    requires B.Norm() && B.V() < Pow2(64)
    ensures q == B.V()
  {
    hide Pow2, Num;
    TwoLimbs(B);
    q := B.l[0];
    if B.n > 1 {
      q := q + B.l[1] * BASE;
    }
  }

  lemma ZeroBits(x: nat)
    requires BitLen(x) == 0
    ensures x == 0
  {
  }

  lemma NumberRange(x: nat, k: nat, s: int, v: real)
    requires BitLen(x) == k > 0 && v == x as real * RPow(2, s)
    ensures Pow2(k - 1) <= x < Pow2(k)
    ensures Approx(x, false, s, v)
    ensures RPow(2, k + s - 1) <= v < RPow(2, k + s)
  {
    hide RPow, Pow2;
    if x == 0 {
      BitLenZero();
    }
    BitLenBounds(x);
    RPowPos(2, s);
    RMulLt(x as real, (x + 1) as real, RPow(2, s));
    ApproxRange(x, false, k, k + s, v);
  }

  lemma TwoLimbs(b: NBig)
    requires b.Norm() && b.V() < Pow2(64)
    ensures b.V() == b.l[0] + (if b.n > 1 then b.l[1] * BASE else 0)
  {
    hide Pow2;
    b.Size(2);
    WStep(0);
    NumNext(b.l[..], 0);
    NumNext(b.l[..], 1);
    NumEmpty(b.l[..]);
  }

  /** The bits of x fed after t steps, from its top bit on and then zeros. */
  ghost function Fed(x: nat, k: nat, t: nat): nat {
    if t <= k then Shr(x, k - t) else x * Pow2(t - k)
  }

  lemma FedStart(x: nat)
    ensures Fed(x, BitLen(x), 0) == 0
  {
    hide BitLen;
    if x > 0 {
      BitLenBounds(x);
      ShrUnique(x, BitLen(x), 0, x);
    } else {
      MaskZero(BitLen(x));
    }
  }

  lemma FedStep(x: nat, k: nat, t: nat)
    ensures Fed(x, k, t + 1) == 2 * Fed(x, k, t) + (if t < k then Shr(x, k - t - 1) % 2 else 0)
  {
    if t < k {
      ShrStepDown(x, k - t - 1);
    } else {
      assert Pow2(t + 1 - k) == 2 * Pow2(t - k);
      FedDouble(x, Pow2(t - k));
      NoShift(x);
    }
  }

  lemma FedDouble(x: nat, p: nat)
    ensures x * (2 * p) == 2 * (x * p)
  {
  }

  /** Enough zero bits give a quotient of 56 bits. */
  lemma FedLarge(x: nat, d: nat, t: nat)
    requires x > 0 && d > 0 && t >= BitLen(x) + BitLen(d) + 64
    ensures Fed(x, BitLen(x), t) >= Pow2(56) * d
  {
    hide BitLen, Pow2;
    var k := BitLen(x);
    BitLenBounds(d);
    Pow2Monotone(BitLen(d) + 56, t - k);
    Pow2Add(BitLen(d), 56);
    FedLargeStep(x, Pow2(t - k), Pow2(BitLen(d)), Pow2(56), d);
    NoPadding(x, k, t);
  }

  lemma NoPadding(x: nat, k: nat, t: nat)
    requires t >= k
    ensures Fed(x, k, t) == x * Pow2(t - k)
  {
    NoShift(x);
  }

  lemma FedLargeStep(x: nat, e: nat, p: nat, w: nat, d: nat)
    requires x > 0 && p * w <= e && d < p
    ensures x * e >= w * d
  {
    MulLe(1, x, e);
    MulLe(d, p, w);
  }

  lemma QuotientBelow(f: nat, q: nat, d: nat, r: nat, w: nat)
    requires f == q * d + r && r < d && f >= w * d
    ensures q >= w
  {
    if q < w {
      MulLe(q + 1, w, d);
    }
  }

  /** The loop of sh_round_div: a 56-bit quotient prefix by restoring division. */
  method DividePrefix(N0: NBig, D0: NBig, blN: nat, blD: nat, rem: NBig) returns (q: nat, t: nat)
    requires N0.Norm() && D0.Norm() && D0.V() > 0 && D0.n < NBIG && N0.V() > 0
    requires blN == BitLen(N0.V()) && blD == BitLen(D0.V())
    requires rem != N0 && rem != D0 && rem.l != N0.l && rem.l != D0.l
    requires rem.Norm() && rem.V() == 0 && rem.n == 1
    modifies rem`n, rem.l
    ensures Pow2(55) <= q < Pow2(56)
    ensures rem.Norm() && rem.V() < D0.V()
    ensures Fed(N0.V(), blN, t) == q * D0.V() + rem.V()
  {
    hide Num, W, Shr, Pow2, BitLen, Fed;
    ghost var N, D := N0.V(), D0.V();
    FedStart(N);
    ZeroFits();
    q := 0;
    var got := 0;
    var i := blN - 1;
    while got < 56 && i >= -(blD + 64)
      invariant i < blN && i >= -(blD + 64) - 1
      invariant got == BitLen(q) && q < Pow2(56)
      invariant rem.Norm() && rem.V() < D && rem.n <= D0.n
      invariant Fed(N, blN, blN - 1 - i) == q * D + rem.V()
      decreases i + blD + 65
    {
      var bit := 0;
      if i >= 0 {
        bit := BitAt(N0, i);
      }
      FedStep(N, blN, blN - 1 - i);
      DivisionStep(Fed(N, blN, blN - 1 - i), bit, D, q, rem.V(), Fed(N, blN, blN - i));
      RoomForBit(q);
      rem.ShiftIn(bit);
      var c := rem.Cmp(D0);
      if c >= 0 {
        rem.Sub(D0);
        q := q * 2 + 1;
      } else {
        q := q * 2;
      }
      SmallerLimbs(rem, D0);
      got := BitLen(q);
      i := i - 1;
    }
    t := blN - 1 - i;
    if got < 56 {
      FedLarge(N, D, t);
      QuotientBelow(Fed(N, blN, t), q, D, rem.V(), Pow2(56));
      assert false;
    }
    FullPrefix(q);
  }

  /** A bit of a bignum. */
  method BitAt(b: NBig, i: nat) returns (bit: int)
    requires b.Norm() && b.V() > 0 && i < BitLen(b.V())
    ensures bit == Shr(b.V(), i) % 2 && 0 <= bit <= 1
  {
    hide BitLen, Shr, Num;
    LimbCount(b);
    bit := BitOf(b.l[i / 32], i % 32);
    BitOfLimb(b.l[..], b.n, i);
  }

  lemma ZeroFits()
    ensures BitLen(0) == 0 && 0 < Pow2(56)
  {
  }

  lemma RoomForBit(q: nat)
    requires BitLen(q) < 56
    ensures 2 * q + 1 < Pow2(56)
  {
    hide BitLen, Pow2;
    if q > 0 {
      BitLenBounds(q);
      Pow2Monotone(BitLen(q), 55);
    } else {
      Pow2Monotone(0, 55);
      Pow2Zero();
    }
    Pow2Succ(55);
  }

  lemma FullPrefix(q: nat)
    requires q < Pow2(56) && BitLen(q) >= 56
    ensures BitLen(q) == 56 && Pow2(55) <= q
  {
    hide BitLen, Pow2;
    BitLenAtMost(q, 56);
    if q == 0 {
      BitLenZero();
    } else {
      BitLenBounds(q);
    }
  }

  /** Is any of the low k bits set? */
  method LowBitsSet(b: NBig, k: nat) returns (found: bool)
    requires b.Norm()
    ensures found <==> Mask(b.V(), k) != 0
  {
    hide Mask, Num;
    ghost var s := b.Limbs();
    b.LimbsNum();
    found := false;
    var li := 0;
    while li < b.n && li * 32 < k
      invariant 0 <= li <= b.n && (li > 0 ==> (li - 1) * 32 < k)
      invariant found <==>
        ((exists j :: 0 <= j < li && j < k / 32 && At(s, j) != 0)
         || (k / 32 < li && k % 32 != 0 && Mask(At(s, k / 32), k % 32) != 0))
    {
      var lo := li * 32;
      var part := if lo + 32 <= k then b.l[li] else Mask(b.l[li], k - lo);
      assert At(s, li) == b.l[li];
      if part != 0 {
        found := true;
      }
      li := li + 1;
    }
    StickyMeaning(s, k / 32, k % 32, found);
  }

  lemma QuotientStep(q: real, q1: real, m: real, g: real, rest: real, d: real, u: real, t: real, v: real)
    requires d > 0.0 && u > 0.0 && q1 == q + 1.0
    requires v * d == m * u && m == q * g + rest && 0.0 <= rest && rest + 1.0 <= g && t * d == g * u
    ensures q * t <= v < q1 * t
    ensures v == q * t <==> rest == 0.0
  {
    var gu, qt, q1t := g * u, q * t, q1 * t;
    assert qt * d == q * (t * d);
    assert q1t * d == q1 * (t * d);
    ScaleSum(q, q1, g, rest, u, gu, m, t * d);
    QuotientCancel(qt, q1t, v, d, qt * d, v * d, q1t * d, rest * u, gu);
    if rest > 0.0 {
      RMulLt(0.0, rest, u);
    }
  }

  lemma ScaleSum(q: real, q1: real, g: real, rest: real, u: real, gu: real, m: real, td: real)
    requires u > 0.0 && q1 == q + 1.0 && m == q * g + rest && 0.0 <= rest && rest + 1.0 <= g && gu == g * u && td == gu
    ensures q1 * td == q * td + gu && m * u == q * td + rest * u && 0.0 <= rest * u < gu
  {
    RMulEq(m, q * g + rest, u);
    RMulEq(td, gu, q);
    RMulLe(0.0, rest, u);
    RMulLt(rest, g, u);
  }

  lemma QuotientCancel(a: real, b: real, v: real, d: real, ad: real, vd: real, bd: real, ru: real, gu: real)
    requires d > 0.0 && ad == a * d && vd == v * d && bd == b * d
    requires vd == ad + ru && bd == ad + gu && 0.0 <= ru < gu
    ensures a <= v < b
    ensures v == a <==> ru == 0.0
  {
    RCancelLe(a, v, d);
    if v >= b {
      RMulLe(b, v, d);
    }
    if ru == 0.0 {
      RCancel(a, v, d);
    }
  }

  /** The prefix, the remainder and the unread bits approximate the quotient. */
  lemma QuotientApprox(N: nat, D: nat, s: int, v: real, q: nat, r: nat, k: int, sticky: bool)
    requires D > 0 && v * D as real == N as real * RPow(2, s)
    requires (if k >= 0 then Shr(N, k) else N * Pow2(-k)) == q * D + r && r < D
    requires sticky <==> r != 0 || (k > 0 && Mask(N, k) != 0)
    ensures Approx(q, sticky, k + s, v)
  {
    hide RPow, Pow2, Shr, Mask, Approx;
    if k >= 0 {
      ShrMask(N, k);
      if k == 0 {
        NoShift(N);
      }
      QuotientHigh(N, D, s, v, q, r, k, Mask(N, k), sticky);
    } else {
      QuotientLow(N, D, s, v, q, r, -k, sticky);
    }
  }

  lemma QuotientHigh(N: nat, D: nat, s: int, v: real, q: nat, r: nat, k: nat, low: nat, sticky: bool)
    requires D > 0 && v * D as real == N as real * RPow(2, s)
    requires N == (q * D + r) * Pow2(k) + low && r < D && low < Pow2(k)
    requires sticky <==> r != 0 || low != 0
    ensures Approx(q, sticky, k + s, v)
  {
    hide RPow, Pow2;
    var p := Pow2(k);
    RPowPos(2, s);
    RestOf(N, D, q, r, p, low);
    RPowAdd(2, s, k);
    RPow2Nat(k);
    RealSplit(N, q, D * p, r * p + low);
    RealMul(D, p);
    ScaleSplit(RPow(2, k + s), D as real, p as real, RPow(2, s), (D * p) as real);
    var rest, g := r * p + low, D * p;
    QuotientStep(q as real, (q + 1) as real, N as real, g as real, rest as real, D as real,
                 RPow(2, s), RPow(2, k + s), v);
  }

  lemma QuotientLow(N: nat, D: nat, s: int, v: real, q: nat, r: nat, j: nat, sticky: bool)
    requires D > 0 && v * D as real == N as real * RPow(2, s)
    requires N * Pow2(j) == q * D + r && r < D
    requires sticky <==> r != 0
    ensures Approx(q, sticky, s - j, v)
  {
    hide RPow, Pow2;
    var p := Pow2(j);
    var m := N * p;
    RPowPos(2, s - j);
    RPowAdd(2, s - j, j);
    RPow2Nat(j);
    RealMul(N, p);
    RealSplit(m, q, D, r);
    MoveScale(v * D as real, N as real, p as real, RPow(2, s - j), RPow(2, s), m as real);
    QuotientStep(q as real, (q + 1) as real, m as real, D as real, r as real, D as real,
                 RPow(2, s - j), RPow(2, s - j), v);
  }

  lemma RestOf(n: nat, d: nat, q: nat, r: nat, p: nat, low: nat)
    requires n == (q * d + r) * p + low && r < d && low < p
    ensures n == q * (d * p) + (r * p + low) && r * p + low < d * p
    ensures r * p + low == 0 <==> r == 0 && low == 0
  {
    MulLe(r + 1, d, p);
    if r > 0 {
      MulLe(1, r, p);
    }
  }

  lemma ScaleSplit(t: real, d: real, p: real, u: real, g: real)
    requires t == u * p && g == d * p
    ensures t * d == g * u
  {
  }

  lemma MoveScale(vd: real, n: real, p: real, t: real, u: real, np: real)
    requires u == t * p && np == n * p && vd == n * u
    ensures vd == np * t
  {
  }

  /** sh_round_div: v = N0 / D0 * 2^s. */
  method RoundDiv(N0: NBig, D0: NBig, s: int, neg: bool, ghost v: real) returns (bits: nat, mag: nat)
    requires N0.Norm() && D0.Norm() && D0.V() > 0 && D0.n < NBIG
    requires v * D0.V() as real == N0.V() as real * RPow(2, s)
    ensures bits == Signed(neg, mag) && Reads(mag, v)
  {
    hide RPow, Nearest, Pow2, BitLen, Num, Approx, TinyGap;
    var blN := N0.BitLength();
    if blN == 0 {
      ZeroBits(N0.V());
      ZeroQuotient(v, D0.V() as real, RPow(2, s));
      RPowPos(2, -1075);
      BelowGap(v, -1075);
      return Signed(neg, 0), 0;
    }
    var q, t, sticky := QuotientPrefix(N0, D0, blN, s, v);
    BitLenUnique(q, 56);
    var blq := BitLen(q);
    var e2 := blq + blN - t + s;
    GapMeans(q, sticky, e2, v);
    bits, mag := Round64(q, sticky, blq, e2, neg, v);
  }

  /** The quotient prefix and the sticky flag: a remainder, or a bit of N never fed. */
  method QuotientPrefix(N0: NBig, D0: NBig, blN: nat, s: int, ghost v: real) returns (q: nat, t: nat, sticky: bool)
    requires N0.Norm() && D0.Norm() && D0.V() > 0 && D0.n < NBIG
    requires v * D0.V() as real == N0.V() as real * RPow(2, s)
    requires blN == BitLen(N0.V()) && blN > 0
    ensures Pow2(55) <= q < Pow2(56) && Approx(q, sticky, blN - t + s, v)
  {
    hide RPow, Pow2, BitLen, Num, Approx, Fed, Mask;
    var blD := D0.BitLength();
    var rem := new NBig();
    rem.Init();
    if N0.V() == 0 {
      BitLenZero();
    }
    q, t := DividePrefix(N0, D0, blN, blD, rem);
    var z := rem.IsZero();
    sticky := !z;
    if t < blN {
      var low := LowBitsSet(N0, blN - t);
      sticky := sticky || low;
    }
    PrefixApprox(N0.V(), D0.V(), s, v, q, rem.V(), blN, t, sticky);
  }

  lemma PrefixApprox(N: nat, D: nat, s: int, v: real, q: nat, r: nat, blN: nat, t: nat, sticky: bool)
    requires D > 0 && v * D as real == N as real * RPow(2, s)
    requires Fed(N, blN, t) == q * D + r && r < D
    requires sticky <==> r != 0 || (t < blN && Mask(N, blN - t) != 0)
    ensures Approx(q, sticky, blN - t + s, v)
  {
    hide RPow, Pow2, Shr, Mask, Approx;
    QuotientApprox(N, D, s, v, q, r, blN - t, sticky);
  }

  lemma ZeroQuotient(v: real, d: real, p: real)
    requires d > 0.0 && v * d == 0.0 * p
    ensures v == 0.0
  {
    RCancel(v, 0.0, d);
  }
}

/** Comparing a double with a power of ten, and rounding it at a decimal place, exactly. */
module Scaling {
  import opened Arith
  import opened Exact
  import opened Limbs
  import opened Bignum
  import opened Division

  /** mant * 2^e2. */
  ghost function Binary(mant: nat, e2: int): real {
    mant as real * RPow(2, e2)
  }

  /** mant * 2^e2 * 10^s. */
  ghost function Scaled10(mant: nat, e2: int, s: int): real {
    Scale(Binary(mant, e2), s)
  }

  predicate InRange(mant: nat, e2: int) {
    0 < mant < 0x20_0000_0000_0000 && -1074 <= e2 <= 971
  }

  // ---- comparing with 10^X ----

  lemma CompareStep(a: real, b: real, c: real, ac: real, bc: real)
    requires c > 0.0 && ac == a * c && bc == b * c
    ensures a >= b <==> ac >= bc
  {
    if a >= b {
      RMulLe(b, a, c);
    } else {
      RMulLt(a, b, c);
    }
  }

  /** m * 2^(e-X) against 5^X, with X positive: the shift goes to whichever side has room. */
  lemma CompareUp(m: nat, e: int, X: nat)
    ensures e - X >= 0 ==> (m * Pow2(e - X) >= Pow(5, X) <==> Binary(m, e) >= RPow(10, X))
    ensures e - X < 0 ==> (m >= Pow(5, X) * Pow2(X - e) <==> Binary(m, e) >= RPow(10, X))
  {
    hide RPow, Pow, Pow2;
    RPowTen(X);
    RPowNat(5, X);
    RPowPos(2, X);
    RPowPos(2, e);
    if e - X >= 0 {
      RPow2Nat(e - X);
      RPowAdd(2, e - X, X);
      RealMul(m, Pow2(e - X));
      Associate(m as real, RPow(2, e - X), RPow(2, X), RPow(2, e), (m * Pow2(e - X)) as real, Binary(m, e));
      CompareStep((m * Pow2(e - X)) as real, RPow(5, X), RPow(2, X), Binary(m, e), RPow(10, X));
    } else {
      RPow2Nat(X - e);
      RPowAdd(2, X - e, e);
      RealMul(Pow(5, X), Pow2(X - e));
      Associate(RPow(5, X), RPow(2, X - e), RPow(2, e), RPow(2, X), (Pow(5, X) * Pow2(X - e)) as real, RPow(10, X));
      CompareStep(m as real, (Pow(5, X) * Pow2(X - e)) as real, RPow(2, e), Binary(m, e), RPow(10, X));
    }
  }

  lemma Associate(a: real, b: real, c: real, bc: real, ab: real, r: real)
    requires bc == b * c && ab == a * b && r == a * bc
    ensures r == ab * c
  {
  }

  /** m * 5^Y against 2^(-d), with X = -Y not positive and d = e + Y. */
  lemma CompareDown(m: nat, e: int, Y: nat)
    requires m > 0
    ensures e + Y >= 0 ==> Binary(m, e) >= RPow(10, 0 - Y)
    ensures e + Y < 0 ==> (m * Pow(5, Y) >= Pow2(-(e + Y)) <==> Binary(m, e) >= RPow(10, 0 - Y))
  {
    hide RPow, Pow, Pow2;
    var d, X := e + Y, 0 - Y;
    RPowTen(X);
    RPowPos(2, X);
    RPowPos(5, X);
    RPowNat(5, Y);
    RPowAdd(5, X, Y);
    RPowZero(5);
    RPowAdd(2, d, X);
    var ten := RPow(10, X);
    Associate(m as real, RPow(2, d), RPow(2, X), RPow(2, e), m as real * RPow(2, d), Binary(m, e));
    // dividing both sides by 2^X leaves m * 2^d against 5^X
    CompareStep(m as real * RPow(2, d), RPow(5, X), RPow(2, X), Binary(m, e), ten);
    if d >= 0 {
      RPowMonotone(2, 0, d);
      RPowZero(2);
      RPowMonotone(5, X, 0);
      AtLeast(m as real, RPow(2, d), RPow(5, X));
    } else {
      RPow2Nat(-d);
      RPowAdd(2, d, -d);
      RPowZero(2);
      RPowPos(2, -d);
      RealMul(m, Pow(5, Y));
      CrossCompare(m as real, RPow(2, d), RPow(2, -d), RPow(5, X), RPow(5, Y), (m * Pow(5, Y)) as real);
    }
  }

  lemma AtLeast(m: real, p: real, q: real)
    requires m >= 1.0 && p >= 1.0 && q <= 1.0
    ensures m * p >= q
  {
    RMulLe(1.0, m, p);
  }

  lemma CrossCompare(m: real, p: real, p': real, f: real, f': real, mf: real)
    requires p * p' == 1.0 && f * f' == 1.0 && p' > 0.0 && f > 0.0 && mf == m * f' && f' > 0.0
    ensures m * p >= f <==> mf >= p'
  {
    var mp, c := m * p, p' * f';
    assert mp * c == mf * (p * p') by { assert (m * p) * (p' * f') == (m * f') * (p * p'); }
    assert f * c == p' * (f * f') by { assert f * (p' * f') == p' * (f * f'); }
    RMulLt(0.0, p', f');
    CompareStep(mp, f, c, mf, p');
  }

  /** value >= 10^X, decided on integers. */
  method GePow10(mant: nat, e2: int, X: int, p5: Pow5Cache) returns (ge: bool)
    requires InRange(mant, e2) && -400 <= X <= 400 && p5.Valid()
    modifies p5`k, p5.cache`n, p5.cache.l
    ensures p5.Valid()
    ensures ge <==> Binary(mant, e2) >= RPow(10, X)
  {
    hide RPow, Pow, Pow2, Num, Binary;
    if X > 0 {
      ge := GeUp(mant, e2, X, p5);
    } else {
      ge := GeDown(mant, e2, X, p5);
    }
  }

  method GeUp(mant: nat, e2: int, X: int, p5: Pow5Cache) returns (ge: bool)
    requires InRange(mant, e2) && 0 < X <= 400 && p5.Valid()
    modifies p5`k, p5.cache`n, p5.cache.l
    ensures p5.Valid()
    ensures ge <==> Binary(mant, e2) >= RPow(10, X)
  {
    hide RPow, Pow, Pow2, Num, Binary;
    var L := new NBig();
    var R := new NBig();
    p5.Pow5(X, R);
    L.SetU64(mant);
    var d := e2 - X;
    CompareUp(mant, e2, X);
    if d >= 0 {
      L.Shl(d);
    } else {
      R.Shl(-d);
    }
    var c := L.Cmp(R);
    return c >= 0;
  }

  method GeDown(mant: nat, e2: int, X: int, p5: Pow5Cache) returns (ge: bool)
    requires InRange(mant, e2) && -400 <= X <= 0 && p5.Valid()
    modifies p5`k, p5.cache`n, p5.cache.l
    ensures p5.Valid()
    ensures ge <==> Binary(mant, e2) >= RPow(10, X)
  {
    hide RPow, Pow, Pow2, Num, Binary;
    var d := e2 - X;
    CompareDown(mant, e2, -X);
    if d >= 0 {
      return true;
    }
    var L := new NBig();
    var t := new NBig();
    MulMantissa(L, t, mant, -X, p5);
    SetPow2(t, -d);
    var c := L.Cmp(t);
    return c >= 0;
  }

  /** L = mant * 5^Y; t is only a workplace, as nb_mul_big may not write to its inputs. */
  method MulMantissa(L: NBig, t: NBig, mant: nat, Y: nat, p5: Pow5Cache)
    requires 0 < mant < 0x20_0000_0000_0000 && Y <= 400 && p5.Valid()
    requires L.l.Length == NBIG && t.l.Length == NBIG && L != t && L.l != t.l
    requires L != p5.cache && L.l != p5.cache.l && t != p5.cache && t.l != p5.cache.l
    modifies L`n, L.l, t`n, t.l, p5`k, p5.cache`n, p5.cache.l
    ensures p5.Valid() && L.Norm() && L.V() == mant * Pow(5, Y)
  {
    hide Num, W, Pow, Pow2;
    var R := new NBig();
    p5.Pow5(Y, R);
    L.SetU64(mant);
    t.MulBig(L, R);
    L.Assign(t);
  }

  /** t = 2^k. */
  method SetPow2(t: NBig, k: nat)
    requires t.l.Length == NBIG && k <= 1500
    modifies t`n, t.l
    ensures t.Norm() && t.V() == Pow2(k)
  {
    hide Num, W, Pow2;
    t.Init();
    t.SetU64(1);
    t.Shl(k);
    Pow2Zero();
  }

  // ---- rounding at a decimal place ----

  /** n / d rounded half to even, from quotient and remainder. */
  function HalfEvenOf(q: nat, rest: nat, d: nat): nat {
    if 2 * rest > d || (2 * rest == d && q % 2 == 1) then q + 1 else q
  }

  /** Scaled10 with both exponents joined: mant * 2^(e2+s) * 5^s. */
  lemma JoinScale(m: nat, e: int, s: int)
    ensures Scaled10(m, e, s) == (m as real * RPow(2, e + s)) * RPow(5, s)
  {
    hide RPow;
    RPowTen(s);
    RPowAdd(2, e, s);
    JoinStep(m as real, RPow(2, e), RPow(2, s), RPow(5, s), RPow(2, e + s), RPow(10, s));
  }

  lemma JoinStep(m: real, a: real, b: real, f: real, ab: real, t: real)
    requires ab == a * b && t == f * b
    ensures (m * a) * t == (m * ab) * f
  {
    assert (m * a) * (f * b) == (m * (a * b)) * f;
  }

  /** n = up-scaled mantissa, d = down-scaling: the value as a quotient of integers. */
  ghost function Numer(m: nat, e: int, s: int): nat {
    (if e + s >= 0 then m * Pow2(e + s) else m) * (if s >= 0 then Pow(5, s) else 1)
  }

  ghost function Denom(e: int, s: int): (d: nat)
    ensures d > 0
  {
    PositiveProduct(if s < 0 then Pow(5, -s) else 1, if e + s < 0 then Pow2(-(e + s)) else 1);
    (if s < 0 then Pow(5, -s) else 1) * (if e + s < 0 then Pow2(-(e + s)) else 1)
  }

  lemma PositiveProduct(a: nat, b: nat)
    requires a > 0 && b > 0
    ensures a * b > 0
  {
  }

  /** The up- and down-scaled parts of one power. */
  lemma PowParts(b: nat, e: int, up: real, down: real)
    requires b > 0
    requires up == if e >= 0 then Pow(b, e) as real else 1.0
    requires down == if e < 0 then Pow(b, -e) as real else 1.0
    ensures RPow(b, e) * down == up && down > 0.0
  {
    hide RPow, Pow;
    RPowPos(b, -e);
    if e >= 0 {
      RPowNat(b, e);
    } else {
      RPowNat(b, -e);
      RPowAdd(b, e, -e);
      RPowZero(b);
    }
  }

  lemma TwoParts(e: int, up: nat, down: nat)
    requires up == if e >= 0 then Pow2(e) else 1
    requires down == if e < 0 then Pow2(-e) else 1
    ensures RPow(2, e) * down as real == up as real
  {
    hide RPow, Pow, Pow2;
    if e >= 0 {
      Pow2IsPow(e);
    } else {
      Pow2IsPow(-e);
    }
    PowParts(2, e, up as real, down as real);
  }

  lemma QuotientForm(m: nat, e: int, s: int)
    ensures Scaled10(m, e, s) * Denom(e, s) as real == Numer(m, e, s) as real
  {
    hide RPow, Pow, Pow2, Scaled10;
    JoinScale(m, e, s);
    NumerParts(m, e, s);
    hide Numer, Denom;
    var u2: nat := if e + s >= 0 then Pow2(e + s) else 1;
    var d2: nat := if e + s < 0 then Pow2(-(e + s)) else 1;
    var u5: nat := if s >= 0 then Pow(5, s) else 1;
    var d5: nat := if s < 0 then Pow(5, -s) else 1;
    TwoParts(e + s, u2, d2);
    PowParts(5, s, u5 as real, d5 as real);
    QuotientProducts(m, u2, u5, d5, d2);
    QuotientJoin(m as real, RPow(2, e + s), RPow(5, s), u2 as real, d2 as real, u5 as real, d5 as real);
  }

  lemma NumerParts(m: nat, e: int, s: int)
    ensures Numer(m, e, s) == m * (if e + s >= 0 then Pow2(e + s) else 1) * (if s >= 0 then Pow(5, s) else 1)
    ensures Denom(e, s) == (if s < 0 then Pow(5, -s) else 1) * (if e + s < 0 then Pow2(-(e + s)) else 1)
  {
    hide Pow, Pow2;
  }

  lemma QuotientProducts(m: nat, u2: nat, u5: nat, d5: nat, d2: nat)
    ensures (m * u2 * u5) as real == (m as real * u2 as real) * u5 as real
    ensures (d5 * d2) as real == d5 as real * d2 as real
  {
    RealMul(m, u2);
    RealMul(m * u2, u5);
    RealMul(d5, d2);
  }

  lemma QuotientJoin(m: real, p: real, f: real, u2: real, d2: real, u5: real, d5: real)
    requires p * d2 == u2 && f * d5 == u5
    ensures ((m * p) * f) * (d5 * d2) == (m * u2) * u5
  {
    assert ((m * p) * f) * (d5 * d2) == (m * (p * d2)) * (f * d5);
  }

  /** Rounding the quotient of the two integers rounds the value. */
  lemma RoundedQuotient(m: nat, e: int, s: int, q: nat, rest: nat)
    requires Numer(m, e, s) == q * Denom(e, s) + rest && rest < Denom(e, s)
    ensures HalfEven(Scaled10(m, e, s)) == HalfEvenOf(q, rest, Denom(e, s))
  {
    hide Numer, Denom, Scaled10, HalfEven;
    QuotientForm(m, e, s);
    HalfEvenQuotient(Numer(m, e, s), Denom(e, s), q, rest, Scaled10(m, e, s));
  }

  /** The quotient is the number itself: nothing is dropped. */
  lemma WholeQuotient(m: nat, e: int, s: int)
    requires e + s >= 0 && s >= 0
    ensures Denom(e, s) == 1
    ensures HalfEven(Scaled10(m, e, s)) == Numer(m, e, s) == m * Pow2(e + s) * Pow(5, s)
  {
    hide Scaled10, HalfEven, Pow, Pow2;
    RoundedQuotient(m, e, s, Numer(m, e, s), 0);
  }

  /** A value of at least one has a numerator no smaller than its denominator. */
  lemma AtLeastOneQuotient(m: nat, e: int, s: int)
    requires Scaled10(m, e, s) >= 1.0
    ensures Numer(m, e, s) >= Denom(e, s)
  {
    hide Numer, Denom, Scaled10;
    QuotientForm(m, e, s);
    RMulLe(1.0, Scaled10(m, e, s), Denom(e, s) as real);
  }

  /** Splitting the discarded part: over 5^a * 2^b the remainder is low * 5^a + rem. */
  lemma SplitRest(n: nat, q1: nat, r1: nat, f: nat, b: nat)
    requires n == q1 * f + r1 && r1 < f
    ensures n == Shr(q1, b) * (f * Pow2(b)) + (Mask(q1, b) * f + r1)
    ensures Mask(q1, b) * f + r1 < f * Pow2(b)
  {
    hide Shr, Mask, Pow2;
    ShrMask(q1, b);
    SplitRestStep(n, q1, r1, f, Pow2(b), Shr(q1, b), Mask(q1, b));
  }

  lemma SplitRestStep(n: nat, q1: nat, r1: nat, f: nat, p: nat, h: nat, low: nat)
    requires n == q1 * f + r1 && r1 < f && q1 == h * p + low && low < p
    ensures n == h * (f * p) + (low * f + r1) && low * f + r1 < f * p
  {
    MulEq(q1, h * p + low, f);
    MulLe(low + 1, p, f);
  }

  /** Room for nb_inc after a division or a shift that lost at least a factor of two. */
  lemma RoomToInc(q: NBig, n0: nat, q0: nat, k: nat)
    requires q.Norm() && n0 <= NBIG && q.n <= n0
    requires forall j :: q.n <= j < n0 ==> q.l[j] == 0
    requires q0 < W(n0) && k >= 2 && q.V() * k <= q0 && q0 > 0
    ensures q.V() + 1 < W(q.n) || (q.n < NBIG && q.l[q.n] == 0)
  {
    hide W, Num;
    if q.n == n0 {
      MulLe(2, k, q.V());
      if q.V() <= 1 {
        BigWeight(n0);
      }
    }
  }

  lemma BigWeight(n: nat)
    requires n > 0
    ensures W(n) >= BASE
  {
    Pow2Monotone(32, 32 * n);
    Pow2Word();
  }

  /** Round q up when the rest is past the half, or at it with q odd. */
  method IncIfAbove(q: NBig, c: int)
    requires q.Norm() && -1 <= c <= 1
    requires q.V() + 1 < W(q.n) || (q.n < NBIG && q.l[q.n] == 0)
    modifies q`n, q.l
    ensures q.Norm()
    ensures q.V() == if c > 0 || (c == 0 && old(q.V()) % 2 == 1) then old(q.V()) + 1 else old(q.V())
  {
    hide W, Num;
    LowLimbParity(q);
    if c > 0 || (c == 0 && q.l[0] % 2 != 0) {
      q.Inc();
    }
  }

  /** The number's parity is its low limb's. */
  lemma LowLimbParity(q: NBig)
    requires q.Valid()
    ensures q.l[0] % 2 == q.V() % 2
  {
    hide W, Num;
    assert 1 + (q.n - 1) == q.n;
    NumFirst(q.l[..], 0, q.n - 1);
    assert At(q.l[..], 0) == q.l[0];
  }

  lemma Pow5AtLeast(a: nat)
    requires a > 0
    ensures Pow(5, a) >= 5
  {
    PowMonotone(5, 1, a);
    assert Pow(5, 1) == 5 * Pow(5, 0);
  }

  /** q = q * 5^a, through a temporary. */
  method MulPow5(q: NBig, a: nat, p5: Pow5Cache)
    requires q.Norm() && q.n <= 200 && a <= 1500 && p5.Valid() && q != p5.cache && q.l != p5.cache.l
    modifies q`n, q.l, p5`k, p5.cache`n, p5.cache.l
    ensures p5.Valid() && q.Norm() && q.V() == old(q.V()) * Pow(5, a)
    ensures a == 0 ==> q.n == old(q.n)
    ensures q.n <= old(q.n) + 151
  {
    hide Num, W, Pow, Pow2;
    OneFactor();
    if a > 0 {
      var den := new NBig();
      p5.Pow5(a, den);
      var t2 := new NBig();
      t2.MulBig(q, den);
      ProductSize(t2, q, den);
      q.Assign(t2);
    }
  }

  lemma OneFactor()
    ensures Pow(5, 0) == 1
  {
  }

  lemma ProductSize(t: NBig, a: NBig, b: NBig)
    requires t.Norm() && a.Valid() && b.Valid() && t.V() == a.V() * b.V()
    ensures t.n <= a.n + b.n
  {
    hide Num, W;
    a.VBound();
    b.VBound();
    WAdd(a.n, b.n);
    ProductBelow(a.V(), b.V(), W(a.n), W(b.n));
    WeightIsPow2(a.n + b.n);
    t.Size(a.n + b.n);
  }

  lemma WeightIsPow2(n: nat)
    ensures W(n) == Pow2(32 * n)
  {
  }

  lemma ProductBelow(x: nat, y: nat, a: nat, b: nat)
    requires x < a && y < b
    ensures x * y < a * b
  {
    MulLe(x, a, y);
    MulLt(y, b, a);
  }

  /** q = q / 5^a, in place, keeping the remainder; q is at least 5^a. */
  method DivPow5(q: NBig, a: nat, p5: Pow5Cache, rem: NBig, den: NBig)
    requires q.Norm() && 0 < a <= 1500 && p5.Valid() && q != p5.cache && q.l != p5.cache.l
    requires rem.l.Length == NBIG && den.l.Length == NBIG
    requires rem != q && rem != p5.cache && rem.l != q.l && rem.l != p5.cache.l && rem != den && rem.l != den.l
    requires den != q && den != p5.cache && den.l != q.l && den.l != p5.cache.l
    requires q.V() >= Pow(5, a)
    modifies q`n, q.l, rem`n, rem.l, den`n, den.l, p5`k, p5.cache`n, p5.cache.l
    ensures p5.Valid() && q.Norm() && rem.Norm() && den.Norm() && den.V() == Pow(5, a)
    ensures old(q.V()) == q.V() * Pow(5, a) + rem.V() && rem.V() < Pow(5, a)
    ensures q.n <= old(q.n) && rem.n <= 151 && den.n <= 151
    ensures q.V() + 1 < W(q.n) || (q.n < NBIG && q.l[q.n] == 0)
  {
    hide Num, W, Pow, BitLen;
    ghost var v0, n0 := q.V(), q.n;
    q.VBound();
    p5.Pow5(a, den);
    BitLenMonotone(Pow(5, a), q.V());
    Pow5AtLeast(a);
    NbDivMod(q, den, q, rem);
    SmallerLimbs(rem, den);
    RoomToInc(q, n0, v0, Pow(5, a));
  }

  /** The last step of d2_round_pow10 with nothing below the point but the division remainder. */
  method HalfUp(q: NBig, rem: NBig, den: NBig)
    requires q.Norm() && rem.Norm() && den.Norm() && rem.n <= 151
    requires rem != q && rem != den && den != q && rem.l != q.l && rem.l != den.l && den.l != q.l
    requires q.V() + 1 < W(q.n) || (q.n < NBIG && q.l[q.n] == 0)
    modifies q`n, q.l, rem`n, rem.l
    ensures q.Norm() && q.V() == HalfEvenOf(old(q.V()), old(rem.V()), den.V())
  {
    hide Num, W;
    TwiceIsShift(rem.V());
    rem.Shl(1);
    var c := rem.Cmp(den);
    IncIfAbove(q, c);
  }

  lemma TwiceIsShift(x: nat)
    ensures x * Pow2(1) == 2 * x
  {
    assert Pow2(1) == 2;
  }

  /** The split case: b bits of q go, and the half test weighs low * 5^a + rem against 5^a * 2^b. */
  method HalfUpSplit(q: NBig, rem: NBig, haveRem: bool, a: nat, b: nat, p5: Pow5Cache)
    requires q.Norm() && q.V() > 0 && q.n <= 160 && rem.Norm() && rem.n <= 151 && a <= 1500 && 0 < b <= 1500
    requires rem != q && rem.l != q.l && (haveRem <==> rem.V() != 0) && rem.V() < Pow(5, a)
    requires p5.Valid() && q != p5.cache && q.l != p5.cache.l && rem != p5.cache && rem.l != p5.cache.l
    modifies q`n, q.l, p5`k, p5.cache`n, p5.cache.l
    ensures p5.Valid() && q.Norm()
    ensures q.V() == HalfEvenOf(Shr(old(q.V()), b), Mask(old(q.V()), b) * Pow(5, a) + old(rem.V()), Pow(5, a) * Pow2(b))
  {
    hide Num, W, Pow, Pow2, Shr, Mask;
    ghost var N1, R := q.V(), rem.V();
    var low := new NBig();
    low.LowPartOf(q, b);
    DropBits(q, b);
    var c := HalfTest(low, rem, haveRem, a, b, p5);
    IncIfAbove(q, c);
  }

  /** 2 * (low * 5^a + rem) against 5^a * 2^b. */
  method HalfTest(low: NBig, rem: NBig, haveRem: bool, a: nat, b: nat, p5: Pow5Cache) returns (c: int)
    requires low.Norm() && low.n <= 160 && rem.Norm() && rem.n <= 151 && a <= 1500 && 0 < b <= 1500
    requires (haveRem <==> rem.V() != 0) && p5.Valid()
    requires low != p5.cache && low.l != p5.cache.l && rem != p5.cache && rem.l != p5.cache.l
    modifies p5`k, p5.cache`n, p5.cache.l
    ensures p5.Valid() && -1 <= c <= 1
    ensures var x, y := 2 * (old(low.V()) * Pow(5, a) + old(rem.V())), Pow(5, a) * Pow2(b);
      (c > 0 <==> x > y) && (c == 0 <==> x == y)
  {
    hide Num, W, Pow, Pow2;
    var lhs := new NBig();
    var rhs := new NBig();
    HalfSides(low, lhs, rhs, a, p5);
    c := CompareHalf(lhs, rhs, rem, haveRem, b);
  }

  /** The two sides of the half test, before rem, the doubling and the shift. */
  method HalfSides(low: NBig, lhs: NBig, rhs: NBig, a: nat, p5: Pow5Cache)
    requires low.Norm() && low.n <= 160 && a <= 1500 && p5.Valid()
    requires lhs.l.Length == NBIG && rhs.l.Length == NBIG && lhs != rhs && lhs.l != rhs.l
    requires low != lhs && low != rhs && low.l != lhs.l && low.l != rhs.l && low != p5.cache && low.l != p5.cache.l
    requires lhs != p5.cache && lhs.l != p5.cache.l && rhs != p5.cache && rhs.l != p5.cache.l
    modifies lhs`n, lhs.l, rhs`n, rhs.l, p5`k, p5.cache`n, p5.cache.l
    ensures p5.Valid() && lhs.Norm() && rhs.Norm() && lhs.n <= 400 && rhs.n <= 151
    ensures lhs.V() == low.V() * Pow(5, a) && rhs.V() == Pow(5, a)
  {
    hide Num, W, Pow;
    if a > 0 {
      var den := new NBig();
      p5.Pow5(a, den);
      lhs.MulBig(low, den);
      ProductSize(lhs, low, den);
      rhs.Assign(den);
    } else {
      OneFactor();
      lhs.Assign(low);
      rhs.Init();
      rhs.SetU64(1);
    }
  }

  /** Shift the dropped bits out, leaving room for a carry. */
  method DropBits(q: NBig, b: nat)
    requires q.Norm() && q.V() > 0 && b > 0
    modifies q`n, q.l
    ensures q.Norm() && q.V() == Shr(old(q.V()), b) && q.n <= old(q.n)
    ensures q.V() + 1 < W(q.n) || (q.n < NBIG && q.l[q.n] == 0)
  {
    hide Num, W, Shr, Mask, Pow2;
    ghost var v0, n0 := q.V(), q.n;
    q.VBound();
    var _ := q.ShrSticky(b);
    ShrHalves(v0, b);
    RoomToInc(q, n0, v0, 2);
  }

  lemma ShrHalves(x: nat, b: nat)
    requires b > 0
    ensures Shr(x, b) * 2 <= x
  {
    hide Shr, Mask, Pow2;
    ShrMask(x, b);
    Pow2Monotone(1, b);
    Pow2Zero();
    Pow2Monotone(0, 1);
    MulLe(2, Pow2(b), Shr(x, b));
  }

  /** Twice the rest against the divisor. */
  method CompareHalf(lhs: NBig, rhs: NBig, rem: NBig, haveRem: bool, b: nat) returns (c: int)
    requires lhs.Norm() && rhs.Norm() && rem.Norm() && lhs.n <= 400 && rhs.n <= 151 && rem.n <= 151 && 0 < b <= 1500
    requires lhs != rhs && lhs.l != rhs.l && rem != lhs && rem.l != lhs.l && rem != rhs && rem.l != rhs.l
    requires haveRem <==> rem.V() != 0
    modifies lhs`n, lhs.l, rhs`n, rhs.l
    ensures -1 <= c <= 1
    ensures var x, y := 2 * (old(lhs.V()) + rem.V()), old(rhs.V()) * Pow2(b);
      (c > 0 <==> x > y) && (c == 0 <==> x == y)
  {
    hide Num, W, Pow2;
    if haveRem {
      lhs.Add(rem);
    }
    lhs.Double();
    rhs.Shl(b);
    c := lhs.Cmp(rhs);
  }

  /** d2_round_pow10: q = mant * 2^e2 * 10^s rounded half to even. */
  method RoundPow10(q: NBig, mant: nat, e2: int, s: int, p5: Pow5Cache)
    requires InRange(mant, e2) && -400 <= s <= 1500 && p5.Valid()
    requires q.l.Length == NBIG && q != p5.cache && q.l != p5.cache.l
    requires s < 0 ==> Scaled10(mant, e2, s) >= 1.0
    modifies q`n, q.l, p5`k, p5.cache`n, p5.cache.l
    ensures p5.Valid() && q.Norm() && q.V() == HalfEven(Scaled10(mant, e2, s))
  {
    hide Num, W, Pow, Pow2, Scaled10, HalfEven;
    var a := if s >= 0 then s else -s;
    var bexp := e2 + s;
    q.SetU64(mant);
    if s < 0 {
      AtLeastOneQuotient(mant, e2, s);
    }
    if bexp >= 0 {
      RoundWhole(q, mant, e2, s, a, p5);
    } else {
      RoundSplit(q, mant, e2, s, a, p5);
    }
  }

  /** No fraction bits: the two-power is a left shift, done before any division. */
  method RoundWhole(q: NBig, mant: nat, e2: int, s: int, a: nat, p5: Pow5Cache)
    requires InRange(mant, e2) && -400 <= s <= 1500 && p5.Valid() && e2 + s >= 0
    requires a == if s >= 0 then s else -s
    requires q.Norm() && q.V() == mant && q.n <= 2 && q != p5.cache && q.l != p5.cache.l
    requires s < 0 ==> Numer(mant, e2, s) >= Denom(e2, s)
    modifies q`n, q.l, p5`k, p5.cache`n, p5.cache.l
    ensures p5.Valid() && q.Norm() && q.V() == HalfEven(Scaled10(mant, e2, s))
  {
    hide Num, W, Pow, Pow2, Scaled10, HalfEven;
    var bexp := e2 + s;
    Pow2Zero();
    if bexp > 0 {
      q.Shl(bexp);
    }
    ShiftedSize(q, mant, bexp);
    if s >= 0 {
      MulPow5(q, a, p5);
      WholeQuotient(mant, e2, s);
    } else {
      var den := new NBig();
      var rem := new NBig();
      DivPow5(q, a, p5, rem, den);
      RoundedQuotient(mant, e2, s, q.V(), rem.V());
      HalfUp(q, rem, den);
    }
  }

  lemma ShiftedSize(q: NBig, m: nat, k: nat)
    requires q.Norm() && q.V() == m * Pow2(k) && m < 0x20_0000_0000_0000 && k <= 2471
    ensures q.n <= 80
  {
    hide Num, W, Pow2;
    MantissaBits();
    Pow2Add(53, k);
    MulLt(m, Pow2(53), Pow2(k));
    Pow2Monotone(53 + k, 32 * 80);
    q.Size(80);
  }

  lemma MantissaBits()
    ensures Pow2(53) == 0x20_0000_0000_0000
  {
    Pow2Word();
    assert Pow2(21) == 0x20_0000;
    Pow2Add(21, 32);
  }

  /** Fraction bits remain: multiply or divide by 5^a first, then drop b bits. */
  method RoundSplit(q: NBig, mant: nat, e2: int, s: int, a: nat, p5: Pow5Cache)
    requires InRange(mant, e2) && -400 <= s <= 1500 && p5.Valid() && e2 + s < 0
    requires a == if s >= 0 then s else -s
    requires q.Norm() && q.V() == mant && q.n <= 2 && q != p5.cache && q.l != p5.cache.l
    requires s < 0 ==> Numer(mant, e2, s) >= Denom(e2, s)
    modifies q`n, q.l, p5`k, p5.cache`n, p5.cache.l
    ensures p5.Valid() && q.Norm() && q.V() == HalfEven(Scaled10(mant, e2, s))
  {
    hide Num, W, Pow, Pow2, Scaled10, HalfEven, Shr, Mask;
    var b := -(e2 + s);
    var rem := new NBig();
    rem.Init();
    OneFactor();
    if s >= 0 {
      MulPow5(q, a, p5);
      SplitUpRest(mant, e2, s, a, b, q.V());
    } else {
      SplitDenom(mant, e2, s, a, b);
      var den := new NBig();
      DivPow5(q, a, p5, rem, den);
      SplitDownRest(mant, e2, s, a, b, q.V(), rem.V());
    }
    var z := rem.IsZero();
    HalfUpSplit(q, rem, !z, a, b, p5);
  }

  lemma SplitUpRest(m: nat, e: int, s: int, a: nat, b: nat, q1: nat)
    requires m > 0 && s >= 0 && a == s && b == -(e + s) && b > 0 && q1 == m * Pow(5, a)
    ensures q1 > 0
    ensures HalfEven(Scaled10(m, e, s)) == HalfEvenOf(Shr(q1, b), Mask(q1, b) * Pow(5, a), Pow(5, a) * Pow2(b))
  {
    hide Pow, Pow2, Scaled10, HalfEven, Shr, Mask;
    PositiveProduct(m, Pow(5, a));
    ShrMask(q1, b);
    assert Denom(e, s) == Pow2(b) && Numer(m, e, s) == q1;
    RoundedQuotient(m, e, s, Shr(q1, b), Mask(q1, b));
    ScaledHalf(Shr(q1, b), Mask(q1, b), Pow2(b), Pow(5, a));
  }

  /** Both sides of the half test scaled by the same factor. */
  lemma ScaledHalf(q: nat, rest: nat, d: nat, f: nat)
    requires f > 0
    ensures HalfEvenOf(q, rest * f, f * d) == HalfEvenOf(q, rest, d)
  {
    if 2 * rest > d {
      MulLt(d, 2 * rest, f);
    } else if 2 * rest < d {
      MulLt(2 * rest, d, f);
    } else {
      MulEq(2 * rest, d, f);
    }
    assert 2 * (rest * f) == (2 * rest) * f;
  }

  lemma SplitDenom(m: nat, e: int, s: int, a: nat, b: nat)
    requires s < 0 && a == -s && b == -(e + s) && b > 0 && Numer(m, e, s) >= Denom(e, s)
    ensures Denom(e, s) == Pow(5, a) * Pow2(b) && Numer(m, e, s) == m
    ensures m >= Pow(5, a)
  {
    hide Pow, Pow2;
    MulLe(1, Pow2(b), Pow(5, a));
  }

  lemma QuotientPositive(n: nat, q: nat, d: nat, r: nat)
    requires n == q * d + r && r < d && n >= d
    ensures q > 0
  {
    if q <= 0 {
      MulLe(q, 0, d);
    }
  }

  lemma SplitDownRest(m: nat, e: int, s: int, a: nat, b: nat, q1: nat, r1: nat)
    requires s < 0 && a == -s && b == -(e + s) && b > 0
    requires Denom(e, s) == Pow(5, a) * Pow2(b) && Numer(m, e, s) == m && m >= Pow(5, a)
    requires m == q1 * Pow(5, a) + r1 && r1 < Pow(5, a)
    ensures q1 > 0
    ensures HalfEven(Scaled10(m, e, s))
         == HalfEvenOf(Shr(q1, b), Mask(q1, b) * Pow(5, a) + r1, Pow(5, a) * Pow2(b))
  {
    hide Pow, Pow2, Scaled10, HalfEven, Shr, Mask, Numer, Denom;
    QuotientPositive(m, q1, Pow(5, a), r1);
    SplitRest(m, q1, r1, Pow(5, a), b);
    RoundedQuotient(m, e, s, Shr(q1, b), Mask(q1, b) * Pow(5, a) + r1);
  }
}

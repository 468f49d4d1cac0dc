/** Restoring long division and the cache of powers of five. */
module Division {
  import opened Arith
  import opened Limbs
  import opened Bignum

  /** One step of long division on numbers: the next bit joins the remainder and at most one subtraction follows. */
  lemma DivisionStep(fed: nat, bit: nat, d: nat, q: nat, r: nat, fed': nat)
    requires fed == q * d + r && r < d && fed' == 2 * fed + bit && bit <= 1
    ensures 2 * r + bit < d ==> fed' == (2 * q) * d + (2 * r + bit)
    ensures 2 * r + bit >= d ==> fed' == (2 * q + 1) * d + (2 * r + bit - d) && 2 * r + bit - d < d
  {
  }

  /** Dropping one bit fewer feeds one bit more. */
  lemma ShrStepDown(x: nat, i: nat)
    ensures Shr(x, i) == 2 * Shr(x, i + 1) + Shr(x, i) % 2
  {
    ShrShr(x, i, 1);
    var y := Shr(x, i);
    assert Shr(y, 1) == Shr(y / 2, 0) == y / 2;
  }

  /** A bit read out of the limb buffer. */
  function BitOf(x: Limb, b: nat): (r: int)
    ensures 0 <= r <= 1
  {
    Shr(x, b) % 2
  }

  /** The quotient bits found so far, placed from bit i up. */
  lemma PlaceBit(q: nat, i: nat)
    ensures Shr(q * Pow2(i + 1), i) % 2 == 0
    ensures q * Pow2(i + 1) + Pow2(i) == (2 * q + 1) * Pow2(i)
    ensures q * Pow2(i + 1) == (2 * q) * Pow2(i)
  {
    var p := Pow2(i);
    assert Pow2(i + 1) == 2 * p;
    DoublePlace(q, p);
    ShrUnique(q * Pow2(i + 1), i, 2 * q, 0);
  }

  lemma DoublePlace(q: nat, p: nat)
    ensures q * (2 * p) == (2 * q) * p && q * (2 * p) + p == (2 * q + 1) * p
  {
  }

  /** How many limbs a normalized number of that many bits has. */
  lemma LimbCount(b: NBig)
    requires b.Norm() && b.V() > 0
    ensures (BitLen(b.V()) + 31) / 32 == b.n
  {
    NumZero(b.l[..], 0, b.n);
    TopBits(b.l[..], b.n);
    BitLenBounds(b.l[b.n - 1]);
    Pow2Word();
    BitLenAtMost(b.l[b.n - 1], 32);
  }

  /** num = quot * den + rem. quot may be num itself only when num is not shorter than den. */
  method NbDivMod(num: NBig, den: NBig, quot: NBig, rem: NBig)
    requires num.Norm() && den.Norm() && den.V() > 0 && den.n < NBIG
    requires quot.l.Length == NBIG && rem.l.Length == NBIG
    requires quot != den && quot != rem && rem != num && rem != den
    requires quot.l != den.l && quot.l != rem.l && rem.l != num.l && rem.l != den.l
    requires quot == num <==> quot.l == num.l
    requires quot == num ==> BitLen(num.V()) >= BitLen(den.V())
    modifies quot`n, quot.l, rem`n, rem.l
    ensures quot.Norm() && rem.Norm()
    ensures old(num.V()) == quot.V() * den.V() + rem.V() && rem.V() < den.V()
    ensures rem.n <= old(num.n) || rem.n <= den.n
    ensures BitLen(old(num.V())) >= BitLen(den.V()) ==>
      quot.n <= old(num.n) && forall j :: quot.n <= j < old(num.n) ==> quot.l[j] == 0
  {
    hide Num, W, BitLen;
    ghost var N, D := num.V(), den.V();
    var n2 := new NBig();
    n2.Assign(num);
    var blN := n2.BitLength();
    var blD := den.BitLength();
    ClearLimbs(quot, (blN + 31) / 32, n2);
    if blN < blD {
      ShorterIsLess(N, D);
      CopyLimbs(num, rem);
      return;
    }
    BitLenPositive(N, D);
    LongDivision(n2, den, quot, rem, blN);
  }

  lemma ShorterIsLess(x: nat, d: nat)
    requires BitLen(x) < BitLen(d)
    ensures x < d && x == 0 * d + x
  {
    if x >= d {
      BitLenMonotone(d, x);
    }
  }

  /** nb_init, then every limb the quotient may reach is cleared. */
  method ClearLimbs(quot: NBig, c: nat, ghost num: NBig)
    requires num.Norm() && quot != num && quot.l != num.l && quot.l.Length == NBIG
    requires c == (BitLen(num.V()) + 31) / 32
    modifies quot`n, quot.l
    ensures quot.Norm() && quot.V() == 0 && quot.n == 1
    ensures num.V() > 0 ==> forall j :: 0 <= j < num.n ==> quot.l[j] == 0
  {
    hide BitLen;
    quot.Init();
    if num.V() > 0 {
      LimbCount(num);
    } else {
      BitLenZero();
    }
    var k := 0;
    while k < c
      invariant 0 <= k <= c <= NBIG && quot.n == 1
      invariant quot.l[0] == 0
      invariant forall j :: 0 <= j < k ==> quot.l[j] == 0
    {
      quot.l[k] := 0;
      k := k + 1;
    }
    NumZero(quot.l[..], 0, 1);
  }

  lemma BitLenZero()
    ensures BitLen(0) == 0
  {
  }

  lemma BitLenPositive(x: nat, d: nat)
    requires d > 0 && BitLen(x) >= BitLen(d)
    ensures x > 0 && BitLen(x) > 0
  {
  }

  /** Copy the meaningful limbs only, as the short-dividend branch does. */
  method CopyLimbs(src: NBig, dst: NBig)
    requires src.Norm() && dst.l.Length == NBIG && src != dst && src.l != dst.l
    modifies dst`n, dst.l
    ensures dst.Norm() && dst.V() == src.V() && dst.n == src.n
  {
    var i := 0;
    while i < src.n
      invariant 0 <= i <= src.n
      invariant forall j :: 0 <= j < i ==> dst.l[j] == src.l[j]
    {
      dst.l[i] := src.l[i];
      i := i + 1;
    }
    dst.n := src.n;
    NumEqual(dst.l[..], src.l[..], 0, src.n);
  }

  /** The division proper, over a cleared quotient: quotient and remainder with their tops trimmed. */
  method LongDivision(num: NBig, den: NBig, quot: NBig, rem: NBig, blN: nat)
    requires num.Norm() && den.Norm() && den.V() > 0 && den.n < NBIG && num.V() > 0
    requires quot.l.Length == NBIG && rem.l.Length == NBIG
    requires quot != den && quot != num && rem != num && rem != den && rem != quot
    requires quot.l != den.l && quot.l != num.l && rem.l != num.l && rem.l != den.l && rem.l != quot.l
    requires blN == BitLen(num.V())
    requires forall j :: 0 <= j < num.n ==> quot.l[j] == 0
    modifies quot`n, quot.l, rem`n, rem.l
    ensures quot.Norm() && rem.Norm()
    ensures num.V() == quot.V() * den.V() + rem.V() && rem.V() < den.V()
    ensures rem.n <= den.n
    ensures quot.n <= num.n && forall j :: quot.n <= j < num.n ==> quot.l[j] == 0
  {
    hide Num, W, BitLen;
    var r := new NBig();
    r.Init();
    var c := DivideBits(num, den, quot, r, blN);
    quot.n := c;
    quot.Trim();
    rem.Assign(r);
    rem.Trim();
  }

  /** The bit loop of the division, over a cleared quotient. */
  method DivideBits(num: NBig, den: NBig, quot: NBig, r: NBig, blN: nat) returns (c: nat)
    requires num.Norm() && den.Norm() && den.V() > 0 && den.n < NBIG && num.V() > 0
    requires quot.l.Length == NBIG && r.Norm() && r.V() == 0 && r.n == 1
    requires quot != den && quot != num && r != num && r != den && r != quot
    requires quot.l != den.l && quot.l != num.l && r.l != num.l && r.l != den.l && r.l != quot.l
    requires blN == BitLen(num.V())
    requires forall j :: 0 <= j < num.n ==> quot.l[j] == 0
    modifies quot.l, r`n, r.l
    ensures c == num.n && r.Norm() && r.n <= den.n
    ensures num.V() == Num(quot.l[..], 0, c) * den.V() + r.V() && r.V() < den.V()
    ensures forall j :: c <= j < NBIG ==> quot.l[j] == old(quot.l[j])
  {
    hide Num, W, Shr, Pow2, BitLen;
    ghost var N, D := num.V(), den.V();
    c := (blN + 31) / 32;
    LimbCount(num);
    ghost var q := 0;
    BitLenBounds(N);
    ShrUnique(N, blN, 0, N);
    NumZero(quot.l[..], 0, c);
    var i := blN - 1;
    while i >= 0
      invariant -1 <= i < blN
      invariant r.Norm() && r.V() < D && r.n <= den.n
      invariant Shr(N, i + 1) == q * D + r.V()
      invariant Num(quot.l[..], 0, c) == q * Pow2(i + 1)
      invariant forall j :: c <= j < NBIG ==> quot.l[j] == old(quot.l[j])
    {
      var bit := BitOf(num.l[i / 32], i % 32);
      BitOfLimb(num.l[..], num.n, i);
      ShrStepDown(N, i);
      DivisionStep(Shr(N, i + 1), bit, D, q, r.V(), Shr(N, i));
      PlaceBit(q, i);
      r.ShiftIn(bit);
      var cmp := r.Cmp(den);
      if cmp >= 0 {
        r.Sub(den);
        quot.SetBit(i, c);
        q := 2 * q + 1;
      } else {
        q := 2 * q;
      }
      SmallerLimbs(r, den);
      i := i - 1;
    }
    ShrAll(N);
    assert q * Pow2(0) == q by { Pow2Zero(); }
  }

  lemma ShrAll(x: nat)
    ensures Shr(x, 0) == x
  {
  }

  lemma SmallerLimbs(r: NBig, d: NBig)
    requires r.Norm() && d.Norm() && r.V() < d.V()
    ensures r.n <= d.n
  {
    d.VBound();
    r.Size(d.n);
  }

  // ---- powers of five ----

  /** The static p5_cache / p5_k pair. */
  class Pow5Cache {
    var k: int
    const cache: NBig

    ghost predicate Valid()
      reads this, cache, cache.l
    {
      cache.Norm() && -1 <= k <= 1600 && (k >= 0 ==> cache.V() == Pow(5, k) && cache.n <= 151)
    }

    constructor ()
      ensures Valid() && fresh(cache) && fresh(cache.l)
    {
      var c := new NBig();
      cache := c;
      k := -1;
      new;
      cache.Init();
    }

    /** out = 5^e, whatever was asked before. */
    /** A smaller power, recomputed from 1. */
    method FromOne(e: nat, out: NBig)
      requires e <= 1600 && out.l.Length == NBIG
      modifies out`n, out.l
      ensures out.Norm() && out.V() == Pow(5, e) && out.n <= 151
    {
      hide Num;
      out.Init();
      out.MulAdd(1, 1);
      var i := 0;
      while i < e
        invariant 0 <= i <= e
        invariant out.Norm() && out.V() == Pow(5, i) && out.n <= 151
      {
        out.MulAdd(5, 0);
        i := i + 1;
        Pow5Size(out, i);
      }
    }

    method Pow5(e: nat, out: NBig)
      requires Valid() && e <= 1600
      requires out.l.Length == NBIG && out != cache && out.l != cache.l
      modifies this`k, cache`n, cache.l, out`n, out.l
      ensures Valid()
      ensures out.Norm() && out.V() == Pow(5, e) && out.n <= 151
    {
      if e <= k {
        FromOne(e, out);
        return;
      }
      if k < 0 {
        cache.Init();
        cache.MulAdd(1, 1);
        k := 0;
      }
      while k < e
        invariant 0 <= k && k <= e && Valid()
      {
        cache.MulAdd(5, 0);
        k := k + 1;
        Pow5Size(cache, k);
      }
      out.Assign(cache);
    }
  }

  /** 5^e for e <= 1600 fits 151 limbs. */
  lemma Pow5Size(b: NBig, e: nat)
    requires b.Norm() && b.V() == Pow(5, e) && e <= 1600
    ensures b.n <= 151
  {
    PowBits(e);
    Pow2Monotone(3 * e, 4800);
    Pow2Monotone(4800, 32 * 151);
    b.Size(151);
  }
}

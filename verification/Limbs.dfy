/** Little-endian limb sequences in base 2^32 and the numbers they denote. */
module Limbs {
  import opened Arith

  const BASE := 0x1_0000_0000
  const NBIG: nat := 480

  // u32
  type Limb = x: int | 0 <= x < 0x1_0000_0000

  /** x + 1 in a u32. */
  function NextWord(x: Limb): Limb {
    if x == BASE - 1 then 0 else x + 1
  }

  /** x << 1 in a u32. */
  function TwiceWord(x: Limb): Limb {
    if x < 0x8000_0000 then 2 * x else 2 * x - BASE
  }

  /** x >> 31. */
  function TopBit(x: Limb): Limb {
    if x < 0x8000_0000 then 0 else 1
  }

  /** The weight of limb i. */
  ghost function W(i: nat): (w: nat)
    ensures w > 0
  {
    Pow2(32 * i)
  }

  /** Limb j of s, zero past the end. */
  function At(s: seq<Limb>, j: nat): Limb {
    if j < |s| then s[j] else 0
  }

  /** The number denoted by the k limbs of s from position lo on. */
  ghost function Num(s: seq<Limb>, lo: nat, k: nat): nat {
    if k == 0 then 0 else Num(s, lo, k - 1) + At(s, lo + k - 1) * W(k - 1)
  }

  lemma WStep(i: nat)
    ensures W(0) == 1
    ensures W(i + 1) == BASE * W(i)
  {
    Pow2Word();
    Pow2Times(32, i);
  }

  lemma WAdd(i: nat, j: nat)
    ensures W(i + j) == W(i) * W(j)
  {
    Pow2Add(32 * i, 32 * j);
    assert 32 * (i + j) == 32 * i + 32 * j;
  }

  lemma {:induction false} NumEqual(s: seq<Limb>, t: seq<Limb>, lo: nat, k: nat)
    requires forall j :: lo <= j < lo + k ==> At(s, j) == At(t, j)
    ensures Num(s, lo, k) == Num(t, lo, k)
  {
    if k != 0 {
      NumEqual(s, t, lo, k - 1);
    }
  }

  lemma {:induction false} NumBound(s: seq<Limb>, lo: nat, k: nat)
    ensures Num(s, lo, k) < W(k)
  {
    if k != 0 {
      NumBound(s, lo, k - 1);
      WStep(k - 1);
      MulLe(At(s, lo + k - 1), BASE - 1, W(k - 1));
    }
  }

  lemma {:induction false} NumSplit(s: seq<Limb>, lo: nat, a: nat, b: nat)
    ensures Num(s, lo, a + b) == Num(s, lo, a) + W(a) * Num(s, lo + a, b)
  {
    if b != 0 {
      NumSplit(s, lo, a, b - 1);
      WAdd(a, b - 1);
      SplitStep(W(a), Num(s, lo + a, b - 1), At(s, lo + a + b - 1), W(b - 1), W(a + b - 1));
    }
  }

  lemma SplitStep(v: nat, u: nat, x: nat, w: nat, z: nat)
    requires z == v * w
    ensures v * (u + x * w) == v * u + x * z
  {
    MulEq(z, v * w, x);
  }

  lemma {:induction false} NumZero(s: seq<Limb>, lo: nat, k: nat)
    ensures Num(s, lo, k) == 0 <==> forall j :: lo <= j < lo + k ==> At(s, j) == 0
  {
    if k != 0 {
      NumZero(s, lo, k - 1);
      if At(s, lo + k - 1) != 0 {
        MulLe(1, At(s, lo + k - 1), W(k - 1));
      }
    }
  }

  /** Limbs that are all zero above position m add nothing. */
  lemma NumTop(s: seq<Limb>, m: nat, k: nat)
    requires m <= k
    requires forall j :: m <= j < k ==> At(s, j) == 0
    ensures Num(s, 0, k) == Num(s, 0, m)
  {
    NumSplit(s, 0, m, k - m);
    NumZero(s, m, k - m);
  }

  lemma {:induction false} NumUpdate(s: seq<Limb>, i: nat, x: Limb, k: nat)
    requires i < |s|
    ensures Num(s[i := x], 0, k) == Num(s, 0, k) + (if i < k then (x - s[i]) * W(i) else 0)
  {
    if k != 0 {
      NumUpdate(s, i, x, k - 1);
      if i == k - 1 {
        assert x * W(i) == s[i] * W(i) + (x - s[i]) * W(i);
      }
    }
  }

  /** A nonzero top limb bounds the number from below. */
  lemma NumTopLimb(s: seq<Limb>, k: nat)
    requires k > 0 && At(s, k - 1) != 0
    ensures Num(s, 0, k) >= W(k - 1)
  {
    MulLe(1, At(s, k - 1), W(k - 1));
  }

  lemma NumLast(s: seq<Limb>, i: nat)
    ensures Num(s, 0, i + 1) == Num(s, 0, i) + At(s, i) * W(i)
  {
  }

  lemma LessStep(a: nat, b: nat, x: nat, y: nat, w: nat, c: nat)
    requires a < w && x < y
    ensures a + x * w + c < b + y * w + c
  {
    MulLe(x + 1, y, w);
  }

  /** The first differing limb from the top decides a comparison. */
  lemma NumLess(s: seq<Limb>, t: seq<Limb>, i: nat, k: nat)
    requires i < k
    requires At(s, i) < At(t, i)
    requires forall j :: i < j < k ==> At(s, j) == At(t, j)
    ensures Num(s, 0, k) < Num(t, 0, k)
  {
    NumLast(s, i);
    NumLast(t, i);
    hide W, Num;
    NumSplit(s, 0, i + 1, k - i - 1);
    NumSplit(t, 0, i + 1, k - i - 1);
    NumEqual(s, t, i + 1, k - i - 1);
    NumBound(s, 0, i);
    LessStep(Num(s, 0, i), Num(t, 0, i), At(s, i), At(t, i), W(i), W(i + 1) * Num(s, i + 1, k - i - 1));
  }

  /** A number below 2^(32 k) whose top limb is nonzero has at most k limbs. */
  lemma LimbsAtMost(s: seq<Limb>, n: nat, k: nat)
    requires n > 0 && k > 0
    requires n == 1 || At(s, n - 1) != 0
    requires Num(s, 0, n) < W(k)
    ensures n <= k
  {
    if n > k {
      NumTopLimb(s, n);
      Pow2Monotone(32 * k, 32 * (n - 1));
    }
  }

  // ---- shifts ----

  /** (lo >> rb) | (hi << (32 - rb)), or lo alone when rb is 0; the two parts have disjoint bits. */
  function ShrWord(lo: Limb, hi: Limb, rb: nat): (v: Limb)
    requires rb < 32
    ensures v == Shr(lo, rb) + Mask(hi, rb) * Pow2(32 - rb)
  {
    LimbParts(lo, hi, rb);
    if rb != 0 then Shr(lo, rb) + Mask(hi, rb) * Pow2(32 - rb) else lo
  }

  /** (lo << rb) | (hi >> (32 - rb)), or lo alone when rb is 0. */
  function ShlWord(lo: Limb, hi: Limb, rb: nat): (v: Limb)
    requires rb < 32
    ensures v == Shr(hi, 32 - rb) + Mask(lo, 32 - rb) * Pow2(rb)
  {
    LimbParts(hi, lo, 32 - rb);
    WholeLimb(hi, lo);
    if rb != 0 then Shr(hi, 32 - rb) + Mask(lo, 32 - rb) * Pow2(rb) else lo
  }

  /** Limb j of s shifted right by 32*lw + rb bits. */
  ghost function ShrLimb(s: seq<Limb>, lw: nat, rb: nat, j: nat): (v: Limb)
    requires rb < 32
  {
    ShrWord(At(s, j + lw), At(s, j + lw + 1), rb)
  }

  /** Limb j of s shifted left by 32*lw + rb bits. */
  ghost function ShlLimb(s: seq<Limb>, lw: nat, rb: nat, j: nat): (v: Limb)
    requires rb < 32
  {
    ShlWord(if j >= lw then At(s, j - lw) else 0, if j >= lw + 1 then At(s, j - lw - 1) else 0, rb)
  }

  /** A shift by a whole number of limbs moves the limb itself. */
  lemma WholeLimb(hi: Limb, lo: Limb)
    ensures Shr(hi, 32) + Mask(lo, 32) * Pow2(0) == lo
  {
    Pow2Word();
    ShrUnique(hi, 32, 0, hi);
    ShrUnique(lo, 32, 0, lo);
  }

  /** The high part of one limb and the low part of its neighbour fill one limb. */
  lemma LimbParts(x: Limb, y: Limb, r: nat)
    requires r <= 32
    ensures 0 <= Shr(x, r) + Mask(y, r) * Pow2(32 - r) < BASE
  {
    WordParts(x, y, r);
  }

  lemma WordParts(x: nat, y: nat, r: nat)
    requires r <= 32 && x < BASE
    ensures 0 <= Shr(x, r) + Mask(y, r) * Pow2(32 - r) < BASE
  {
    hide Pow2, Shr, Mask;
    Pow2Word();
    Pow2Add(r, 32 - r);
    ShrMask(x, r);
    ShrMask(y, r);
    PartsFit(x, Pow2(r), Pow2(32 - r), Shr(x, r), Mask(x, r), Mask(y, r));
  }

  lemma PartsFit(x: nat, p: nat, q: nat, d: nat, m: nat, y: nat)
    requires x < p * q && x == d * p + m && y < p
    ensures 0 <= d + y * q < p * q
  {
    MulLe(0, y, q);
    MulCancelLt(d, q, p);
    MulLe(y + 1, p, q);
  }

  lemma ShrStep(p: nat, acc: nat, o: nat, w: nat, a: nat, u: nat, d: nat, m: nat, h: nat, q: nat)
    requires p * acc + a == u + m * w
    requires o == d + h * q
    ensures p * (acc + o * w) + a == u + (d * p + m) * w + h * ((p * q) * w)
  {
    MulEq(o, d + h * q, p * w);
  }

  /** Right shift by 32*lw + rb bits, limb by limb. */
  lemma {:induction false} ShrPrefix(s: seq<Limb>, out: seq<Limb>, lw: nat, rb: nat, k: nat)
    requires rb < 32
    requires forall j :: 0 <= j < k ==> At(out, j) == ShrLimb(s, lw, rb, j)
    ensures Pow2(rb) * Num(out, 0, k) + Mask(At(s, lw), rb) == Num(s, lw, k) + Mask(At(s, lw + k), rb) * W(k)
  {
    if k == 0 {
      WStep(0);
    } else {
      ShrPrefix(s, out, lw, rb, k - 1);
      var lo, hi := At(s, lw + k - 1), At(s, lw + k);
      ShrMask(lo, rb);
      Pow2Word();
      Pow2Add(rb, 32 - rb);
      WStep(k - 1);
      ShrStep(Pow2(rb), Num(out, 0, k - 1), At(out, k - 1), W(k - 1), Mask(At(s, lw), rb), Num(s, lw, k - 1),
              Shr(lo, rb), Mask(lo, rb), Mask(hi, rb), Pow2(32 - rb));
    }
  }

  lemma ShrJoin(v: nat, low: nat, w: nat, u: nat, p: nat, x: nat, m: nat, k: nat)
    requires v == low + w * u && low < w && p * x + m == u && m < p && Pow2(k) == w * p
    ensures Shr(v, k) == x && Mask(v, k) == low + w * m
  {
    hide Pow2, Shr, Mask;
    var wp := Pow2(k);
    MulLe(m + 1, p, w);
    MulEq(u, p * x + m, w);
    MulEq(wp, w * p, x);
    ShrUnique(v, k, x, low + w * m);
  }

  /** The remainder dropped by a right shift, and the shifted number. */
  lemma ShrValue(s: seq<Limb>, out: seq<Limb>, n: nat, lw: nat, rb: nat)
    requires rb < 32 && n == |s|
    requires forall j :: 0 <= j < n ==> At(out, j) == ShrLimb(s, lw, rb, j)
    ensures Num(out, 0, n) == Shr(Num(s, 0, n), 32 * lw + rb)
    ensures Mask(Num(s, 0, n), 32 * lw + rb) == Num(s, 0, lw) + W(lw) * Mask(At(s, lw), rb)
  {
    hide Shr, Mask, Num;
    ShrPrefix(s, out, lw, rb, n);
    NumSplit(s, 0, lw, n);
    NumTop(s, n, lw + n);
    Pow2Add(32 * lw, rb);
    NumBound(s, 0, lw);
    ShrMask(At(s, lw), rb);
    MaskZero(rb);
    ShrJoin(Num(s, 0, n), Num(s, 0, lw), W(lw), Num(s, lw, n), Pow2(rb), Num(out, 0, n),
            Mask(At(s, lw), rb), 32 * lw + rb);
  }

  lemma MaskZero(k: nat)
    ensures Shr(0, k) == 0 && Mask(0, k) == 0
  {
    ShrUnique(0, k, 0, 0);
  }

  lemma ShlStep(p: nat, q: nat, acc: nat, o: nat, w: nat, c: nat, d: nat, m: nat, u: nat, v: nat, z: nat)
    requires acc + c * w == (v * p) * u
    requires o == c + m * p
    requires w == v * z
    ensures acc + o * w + d * ((p * q) * w) == (v * p) * (u + (d * q + m) * z)
  {
    MulEq(o, c + m * p, w);
    MulEq(w, v * z, (d * q + m) * p);
  }

  /** The same with every product named. */
  lemma ShlSum(p: nat, q: nat, acc: nat, o: nat, w: nat, c: nat, d: nat, m: nat, u: nat, v: nat, z: nat,
               x: nat, e: nat, t: nat)
    requires t == v * p && e == (p * q) * w && x == d * q + m
    requires acc + c * w == t * u && o == c + m * p && w == v * z
    ensures acc + o * w + d * e == t * (u + x * z)
  {
    ShlStep(p, q, acc, o, w, c, d, m, u, v, z);
  }

  /** The limbs below the shift are zero. */
  lemma ShlLow(s: seq<Limb>, out: seq<Limb>, lw: nat, rb: nat)
    requires rb < 32 && forall j :: 0 <= j < lw ==> At(out, j) == ShlLimb(s, lw, rb, j)
    ensures Num(out, 0, lw) == 0 && Num(s, 0, 0) == 0
  {
    hide Pow2, Shr, Mask;
    MaskZero(32 - rb);
    forall j | 0 <= j < lw ensures At(out, j) == 0 {
      assert At(out, j) == ShlLimb(s, lw, rb, j);
      ShlZero(rb);
    }
    NumZero(out, 0, lw);
  }

  lemma ShlZero(rb: nat)
    requires rb < 32
    ensures ShlWord(0, 0, rb) == 0
  {
    hide Shr, Mask, Pow2, ShlWord;
    MaskZero(32 - rb);
    MulEq(Mask(0, 32 - rb), 0, Pow2(rb));
  }

  /** The bits of limb k - 2 that a left shift moves up. */
  ghost function Moved(s: seq<Limb>, rb: nat, k: nat): nat
    requires rb < 32
  {
    if k > 1 then Shr(At(s, k - 2), 32 - rb) else 0
  }

  lemma ShlLimbAt(s: seq<Limb>, lw: nat, rb: nat, k: nat)
    requires rb < 32 && k > 0
    ensures ShlLimb(s, lw, rb, lw + k - 1) == Moved(s, rb, k) + Mask(At(s, k - 1), 32 - rb) * Pow2(rb)
  {
    hide Shr, Mask, Pow2, ShlWord, At;
    MaskZero(32 - rb);
    assert lw + k - 1 - lw == k - 1;
  }

  /** Left shift by 32*lw + rb bits, limb by limb. */
  lemma {:induction false} ShlPrefix(s: seq<Limb>, out: seq<Limb>, lw: nat, rb: nat, k: nat)
    requires rb < 32
    requires forall j :: 0 <= j < lw + k ==> At(out, j) == ShlLimb(s, lw, rb, j)
    ensures Num(out, 0, lw + k) + Moved(s, rb, k + 1) * W(lw + k) == Pow2(32 * lw + rb) * Num(s, 0, k)
  {
    if k == 0 {
      ShlLow(s, out, lw, rb);
    } else {
      hide Pow2, Shr, Mask, ShlWord, ShlLimb, Num, W, Moved;
      ShlPrefix(s, out, lw, rb, k - 1);
      assert At(out, lw + k - 1) == ShlLimb(s, lw, rb, lw + k - 1);
      ShlOne(s, out, lw, rb, k);
    }
  }

  /** One more limb of the shifted number. */
  lemma ShlOne(s: seq<Limb>, out: seq<Limb>, lw: nat, rb: nat, k: nat)
    requires rb < 32 && k > 0
    requires At(out, lw + k - 1) == ShlLimb(s, lw, rb, lw + k - 1)
    requires Num(out, 0, lw + k - 1) + Moved(s, rb, k) * W(lw + k - 1) == Pow2(32 * lw + rb) * Num(s, 0, k - 1)
    ensures Num(out, 0, lw + k) + Moved(s, rb, k + 1) * W(lw + k) == Pow2(32 * lw + rb) * Num(s, 0, k)
  {
    hide Pow2, Shr, Mask, ShlWord, ShlLimb, Num;
    var x := At(s, k - 1);
    assert Moved(s, rb, k + 1) == Shr(x, 32 - rb);
    ShlWeights(lw, rb, k);
    hide Moved, W;
    NumLast(out, lw + k - 1);
    NumLast(s, k - 1);
    ShlLimbAt(s, lw, rb, k);
    ShrMask(x, 32 - rb);
    ShlSum(Pow2(rb), Pow2(32 - rb), Num(out, 0, lw + k - 1), At(out, lw + k - 1), W(lw + k - 1),
           Moved(s, rb, k), Shr(x, 32 - rb), Mask(x, 32 - rb), Num(s, 0, k - 1), W(lw), W(k - 1),
           x, W(lw + k), Pow2(32 * lw + rb));
  }

  lemma ShlWeights(lw: nat, rb: nat, k: nat)
    requires rb < 32 && k > 0
    ensures Pow2(32 * lw + rb) == W(lw) * Pow2(rb)
    ensures W(lw + k) == (Pow2(rb) * Pow2(32 - rb)) * W(lw + k - 1)
    ensures W(lw + k - 1) == W(lw) * W(k - 1)
  {
    hide Pow2;
    Pow2Word();
    Pow2Add(rb, 32 - rb);
    Pow2Add(32 * lw, rb);
    WStep(lw + k - 1);
    WAdd(lw, k - 1);
  }

  lemma ShlValue(s: seq<Limb>, out: seq<Limb>, n: nat, lw: nat, rb: nat)
    requires rb < 32 && n == |s|
    requires forall j :: 0 <= j < lw + n + 1 ==> At(out, j) == ShlLimb(s, lw, rb, j)
    ensures Num(out, 0, lw + n + 1) == Pow2(32 * lw + rb) * Num(s, 0, n)
  {
    hide Pow2, Shr, Mask, ShlLimb, Num;
    ShlPrefix(s, out, lw, rb, n + 1);
    MaskZero(32 - rb);
    NumTop(s, n, n + 1);
  }

  // ---- bits ----

  /** n limbs split at limb w. */
  lemma NumAround(s: seq<Limb>, n: nat, w: nat) returns (h: nat)
    requires w < n
    ensures Num(s, 0, n) == Num(s, 0, w) + W(w) * (At(s, w) + BASE * h)
    ensures Num(s, 0, w) < W(w)
  {
    h := Num(s, w + 1, n - w - 1);
    NumSplit(s, 0, w, n - w);
    NumBound(s, 0, w);
    NumSplit(s, w, 1, n - w - 1);
    WStep(0);
    assert Num(s, w, 1) == Num(s, w, 0) + At(s, w) * W(0);
  }

  lemma BitStep(x: nat, p: nat, q: nat, h: nat, d: nat, m: nat, b: nat)
    requires x == d * p + m && b == p * (2 * q)
    ensures x + b * h == (d + 2 * (q * h)) * p + m
  {
    MulEq(b, p * (2 * q), h);
  }

  /** Bit i of the number is bit i mod 32 of limb i div 32. */
  lemma BitOfLimb(s: seq<Limb>, n: nat, i: nat)
    requires i / 32 < n
    ensures Shr(Num(s, 0, n), i) % 2 == Shr(At(s, i / 32), i % 32) % 2
  {
    hide Shr, Num, At;
    var w, b := i / 32, i % 32;
    var h := NumAround(s, n, w);
    var x := At(s, w);
    ShrShr(Num(s, 0, n), 32 * w, b);
    assert Shr(Num(s, 0, n), 32 * w) == x + BASE * h by {
      ShrUnique(Num(s, 0, n), 32 * w, x + BASE * h, Num(s, 0, w));
    }
    ShrLowLimb(x, b, h);
  }

  lemma ShrLowLimb(x: nat, b: nat, h: nat)
    requires b < 32
    ensures Shr(x + BASE * h, b) % 2 == Shr(x, b) % 2
  {
    LimbWeights(b);
    hide Shr, Mask, Pow2;
    ShrMask(x, b);
    BitStep(x, Pow2(b), Pow2(31 - b), h, Shr(x, b), Mask(x, b), BASE);
    ShrUnique(x + BASE * h, b, Shr(x, b) + 2 * (Pow2(31 - b) * h), Mask(x, b));
    EvenAdded(Shr(x, b), Pow2(31 - b) * h);
  }

  lemma LimbWeights(b: nat)
    requires b < 32
    ensures BASE == Pow2(b) * (2 * Pow2(31 - b))
  {
    Pow2Word();
    Pow2Add(b, 32 - b);
  }

  lemma EvenAdded(x: nat, y: nat)
    ensures (x + 2 * y) % 2 == x % 2
  {
  }

  lemma LowStep(v: nat, low: nat, w: nat, x: nat, b: nat, q: nat, h: nat, c: nat, k: nat)
    requires v == low + w * (x + c * h) && low < w && c == Pow2(b) * q && Pow2(k) == w * Pow2(b)
    ensures Mask(v, k) == low + w * Mask(x, b)
  {
    ShrMask(x, b);
    LowPart(x, Pow2(b), q, h, c, Shr(x, b), Mask(x, b));
    ShrJoin(v, low, w, x + c * h, Pow2(b), Shr(x, b) + q * h, Mask(x, b), k);
  }

  lemma MaskNone(x: nat)
    ensures Mask(x, 0) == 0
  {
  }

  lemma LowPart(x: nat, p: nat, q: nat, h: nat, c: nat, d: nat, m: nat)
    requires x == d * p + m && c == p * q
    ensures p * (d + q * h) + m == x + c * h
  {
    MulEq(c, p * q, h);
  }

  /** The low 32*w + b bits, read limb by limb. */
  lemma LowBits(s: seq<Limb>, n: nat, w: nat, b: nat)
    requires b < 32
    requires w < n || (w == n && b == 0)
    ensures Mask(Num(s, 0, n), 32 * w + b) == Num(s, 0, w) + W(w) * Mask(At(s, w), b)
  {
    hide Shr, Mask, Num, At;
    if w == n {
      NumBound(s, 0, w);
      ShrUnique(Num(s, 0, n), 32 * w, 0, Num(s, 0, w));
      MaskNone(At(s, w));
    } else {
      var x := At(s, w);
      var h := NumAround(s, n, w);
      Pow2Add(32 * w, b);
      Pow2Word();
      Pow2Add(b, 32 - b);
      LowStep(Num(s, 0, n), Num(s, 0, w), W(w), x, b, Pow2(32 - b), h, BASE, 32 * w + b);
    }
  }
}

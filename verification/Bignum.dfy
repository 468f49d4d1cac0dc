/** The fixed-capacity bignum: a limb buffer of which only the first n limbs mean something. */
module Bignum {
  import opened Arith
  import opened Limbs

  class NBig {
    var n: nat
    const l: array<Limb>

    ghost predicate Valid()
      reads this, l
    {
      l.Length == NBIG && 1 <= n <= NBIG
    }

    /** The number held. */
    ghost function V(): nat
      reads this, l
    {
      Num(l[..], 0, n)
    }

    /** No leading zero limb: what nb_trim leaves behind and nb_bitlen relies on. */
    ghost predicate Norm()
      reads this, l
    {
      Valid() && (n == 1 || l[n - 1] != 0)
    }

    /** The meaningful limbs. */
    ghost function Limbs(): seq<Limb>
      requires Valid()
      reads this, l
    {
      l[..n]
    }

    // A stack variable: the contents are whatever was there.
    constructor ()
      ensures fresh(l) && l.Length == NBIG
    {
      l := new Limb[NBIG];
    }

    lemma LimbsNum()
      requires Valid()
      ensures Num(Limbs(), 0, n) == V()
    {
      NumEqual(Limbs(), l[..], 0, n);
    }

    lemma Size(k: nat)
      requires Norm() && k > 0 && V() < Pow2(32 * k)
      ensures n <= k
    {
      LimbsAtMost(l[..], n, k);
    }

    lemma VBound()
      requires Valid()
      ensures V() < W(n)
    {
      NumBound(l[..], 0, n);
    }

    method Init()
      requires l.Length == NBIG
      modifies this`n, l
      ensures Norm() && V() == 0 && n == 1
      ensures forall j :: 1 <= j < NBIG ==> l[j] == old(l[j])
    {
      n := 1;
      l[0] := 0;
      NumZero(l[..], 0, 1);
    }

    /** Structure assignment: every limb is copied, the stale ones too. */
    method Assign(src: NBig)
      requires l.Length == NBIG && src.Valid() && src.l != l && src != this
      modifies this`n, l
      ensures Valid() && n == src.n && l[..] == src.l[..]
      ensures V() == src.V() && (src.Norm() ==> Norm())
    {
      n := src.n;
      var i := 0;
      while i < NBIG
        invariant 0 <= i <= NBIG
        invariant n == src.n
        invariant forall j :: 0 <= j < i ==> l[j] == src.l[j]
      {
        l[i] := src.l[i];
        i := i + 1;
      }
    }

    method Trim()
      requires Valid()
      modifies this`n
      ensures Norm() && V() == old(V()) && n <= old(n)
      ensures forall j :: n <= j < old(n) ==> l[j] == 0
    {
      ghost var n0 := n;
      while n > 1 && l[n - 1] == 0
        invariant 1 <= n <= n0
        invariant forall j :: n <= j < n0 ==> l[j] == 0
      {
        n := n - 1;
      }
      NumTop(l[..], n, n0);
    }

    method IsZero() returns (z: bool)
      requires Valid()
      ensures z <==> V() == 0
    {
      NumZero(l[..], 0, n);
      var i := 0;
      while i < n
        invariant 0 <= i <= n
        invariant forall j :: 0 <= j < i ==> l[j] == 0
      {
        if l[i] != 0 {
          assert At(l[..], i) != 0;
          return false;
        }
        i := i + 1;
      }
      return true;
    }

    method BitLength() returns (k: nat)
      requires Norm()
      ensures k == BitLen(V())
    {
      var z := IsZero();
      if z {
        return 0;
      }
      var t := l[n - 1];
      k := 0;
      while t != 0
        invariant t >= 0
        invariant k + BitLen(t) == BitLen(l[n - 1])
      {
        k := k + 1;
        t := t / 2;
      }
      TopBits(l[..], n);
      k := (n - 1) * 32 + k;
    }

    /** *this = *this * m + a. */
    method MulAdd(m: Limb, a: Limb)
      requires Valid()
      requires n < NBIG || V() * m + a < W(NBIG)
      modifies this`n, l
      ensures Valid() && V() == old(V()) * m + a
      ensures old(n) <= n <= old(n) + 1
      ensures old(Norm()) && m > 0 ==> Norm()
      ensures forall j :: n <= j < NBIG ==> l[j] == old(l[j])
    {
      hide Num, W;
      var carry := MulLimbs(m, a);
      // carry < 2^32: the source's append loop runs at most once
      if carry != 0 && n < NBIG {
        ghost var t0 := l[..];
        l[n] := carry;
        NumEqual(l[..], t0, 0, n);
        NumNext(l[..], n);
        n := n + 1;
      } else if carry != 0 {
        MulLe(1, carry, W(NBIG));
      }
    }

    /** The limb loop: multiply in place, carrying the upper halves; the last carry is left over. */
    method MulLimbs(m: Limb, a: Limb) returns (carry: Limb)
      requires Valid()
      modifies l
      ensures Num(l[..], 0, n) + carry * W(n) == old(V()) * m + a
      ensures forall j :: n <= j < NBIG ==> l[j] == old(l[j])
      ensures old(l[n - 1]) != 0 && m > 0 ==> carry != 0 || l[n - 1] != 0
    {
      hide Num, W;
      ghost var s0 := l[..];
      carry := a;
      var i := 0;
      WStart();
      NumZero(s0, 0, 0);
      NumZero(l[..], 0, 0);
      while i < n
        invariant 0 <= i <= n
        invariant Num(l[..], 0, i) + carry * W(i) == Num(s0, 0, i) * m + a
        invariant forall j :: i <= j < NBIG ==> l[j] == s0[j]
        invariant i > 0 && s0[i - 1] != 0 && m > 0 ==> carry != 0 || l[i - 1] != 0
      {
        carry := MulLimb(i, m, a, carry, s0);
        i := i + 1;
      }
    }

    /** One limb of the loop. */
    method MulLimb(i: nat, m: Limb, ghost a: Limb, carry0: Limb, ghost s0: seq<Limb>) returns (carry: Limb)
      requires Valid() && i < n && |s0| == NBIG && l[i] == s0[i]
      requires Num(l[..], 0, i) + carry0 * W(i) == Num(s0, 0, i) * m + a
      modifies l
      ensures Num(l[..], 0, i + 1) + carry * W(i + 1) == Num(s0, 0, i + 1) * m + a
      ensures forall j :: 0 <= j < NBIG && j != i ==> l[j] == old(l[j])
      ensures s0[i] != 0 && m > 0 ==> carry != 0 || l[i] != 0
    {
      hide Num, W;
      ghost var t0 := l[..];
      var v: int := l[i] * m + carry0;
      ProductFits(l[i], m, 0, carry0);
      assert v < BASE * BASE;     // the u64 does not wrap
      DivMod(v, BASE);
      HighPart(v);
      l[i] := v % BASE;
      NumEqual(l[..], t0, 0, i);
      NumNext(l[..], i);
      NumNext(s0, i);
      WStep(i);
      MulAddStep(Num(t0, 0, i), carry0, W(i), Num(s0, 0, i), m, a, s0[i], v % BASE, v / BASE);
      if s0[i] != 0 && m > 0 {
        MulLe(1, s0[i], m);
      }
      carry := v / BASE;
    }

    /** *this = a * b. */
    method MulBig(a: NBig, b: NBig)
      requires l.Length == NBIG && a.Valid() && b.Valid()
      requires a != this && b != this && a.l != l && b.l != l
      requires a.n + b.n <= NBIG
      modifies this`n, l
      ensures Norm() && V() == a.V() * b.V()
    {
      hide Num, W;
      var rn := a.n + b.n;
      var i := 0;
      while i < rn
        invariant 0 <= i <= rn
        invariant forall j :: 0 <= j < i ==> l[j] == 0
      {
        l[i] := 0;
        i := i + 1;
      }
      n := rn;
      NumZero(l[..], 0, rn);
      NumZero(a.l[..], 0, 0);
      i := 0;
      while i < a.n
        invariant 0 <= i <= a.n && n == rn
        invariant Num(l[..], 0, rn) == Num(a.l[..], 0, i) * b.V()
      {
        RowStep(Num(a.l[..], 0, i), a.l[i], W(i), b.V());
        NumNext(a.l[..], i);
        if a.l[i] != 0 {
          AddRow(a, b, i, rn);
        }
        i := i + 1;
      }
      Trim();
    }

    /** One row of the schoolbook product: add a->l[i] * b * 2^(32 i). */
    method AddRow(a: NBig, b: NBig, i: nat, rn: nat)
      requires Valid() && a.Valid() && b.Valid()
      requires a != this && b != this && a.l != l && b.l != l
      requires i < a.n && rn == a.n + b.n <= NBIG && n == rn
      requires Num(l[..], 0, rn) == Num(a.l[..], 0, i) * b.V()
      modifies l
      ensures Num(l[..], 0, rn) == old(Num(l[..], 0, rn)) + a.l[i] * (b.V() * W(i))
    {
      hide Num, W;
      ghost var N0 := Num(l[..], 0, rn);
      NumZero(b.l[..], 0, 0);
      var carry: int := 0;
      var j := 0;
      while j < b.n
        invariant 0 <= j <= b.n && n == rn && 0 <= carry < BASE
        invariant Num(l[..], 0, rn) + carry * W(i + j) == N0 + a.l[i] * (Num(b.l[..], 0, j) * W(i))
      {
        ghost var t0 := l[..];
        var v := a.l[i] * b.l[j] + l[i + j] + carry;
        ProductFits(a.l[i], b.l[j], l[i + j], carry);
        assert v < BASE * BASE;     // the u64 does not wrap
        DivMod(v, BASE);
        HighPart(v);
        l[i + j] := v % BASE;
        assert l[..] == t0[i + j := v % BASE];
        NumUpdate(t0, i + j, v % BASE, rn);
        WStep(i + j);
        WAdd(i, j);
        NumNext(b.l[..], j);
        RowLimbStep(Num(t0, 0, rn), carry, W(i + j), N0, a.l[i], Num(b.l[..], 0, j), b.l[j], W(i), W(j),
                    t0[i + j], v % BASE, v / BASE);
        carry := v / BASE;
        j := j + 1;
      }
      RowFits(a, b, i, N0);
      AddCarry(carry, i + b.n, rn);
    }

    /** Add carry * 2^(32 k), rippling up to limb rn. */
    method AddCarry(carry0: Limb, k0: nat, rn: nat)
      requires Valid() && k0 <= rn <= NBIG
      requires Num(l[..], 0, rn) + carry0 * W(k0) < W(rn)
      modifies l
      ensures Num(l[..], 0, rn) == old(Num(l[..], 0, rn)) + carry0 * W(k0)
    {
      ghost var total := Num(l[..], 0, rn) + carry0 * W(k0);
      var carry, k := carry0, k0;
      while carry != 0 && k < rn
        invariant k0 <= k <= rn && 0 <= carry < BASE
        invariant Num(l[..], 0, rn) + carry * W(k) == total
      {
        ghost var t0 := l[..];
        var v := l[k] + carry;
        DivMod(v, BASE);
        HighPart(v);
        l[k] := v % BASE;
        assert l[..] == t0[k := v % BASE];
        NumUpdate(t0, k, v % BASE, rn);
        WStep(k);
        CarryStep(carry, W(k), t0[k], v % BASE, v / BASE);
        carry := v / BASE;
        k := k + 1;
      }
      if carry != 0 {
        MulLe(1, carry, W(rn));
      }
    }

    lemma RowFits(a: NBig, b: NBig, i: nat, acc: nat)
      requires a.Valid() && b.Valid() && i < a.n
      requires acc == Num(a.l[..], 0, i) * b.V()
      ensures acc + a.l[i] * (b.V() * W(i)) < W(a.n + b.n)
    {
      RowStep(Num(a.l[..], 0, i), a.l[i], W(i), b.V());
      NumBound(a.l[..], 0, i + 1);
      b.VBound();
      var x, y := Num(a.l[..], 0, i + 1), b.V();
      Pow2Monotone(32 * (i + 1), 32 * a.n);
      MulLe(x, W(a.n), y);
      MulLt(y, W(b.n), W(a.n));
      WAdd(a.n, b.n);
    }

    /** Shift right by sh bits; the result tells whether any dropped bit was set. */
    method ShrSticky(sh: int) returns (sticky: bool)
      requires Norm()
      modifies this`n, l
      ensures Norm() && n <= old(n)
      ensures V() == Shr(old(V()), if sh > 0 then sh else 0)
      ensures sticky <==> Mask(old(V()), if sh > 0 then sh else 0) != 0
      ensures forall j :: n <= j < old(n) ==> l[j] == 0
      ensures forall j :: old(n) <= j < NBIG ==> l[j] == old(l[j])
    {
      hide W, Num, ShrWord, Shr, Mask;
      sticky := false;
      if sh <= 0 {
        NoShift(V());
        return;
      }
      ghost var s := Limbs();
      LimbsNum();
      var lw, rb := sh / 32, sh % 32;
      var i := 0;
      while i < n && i < lw
        invariant 0 <= i <= n && (i <= lw)
        invariant sticky <==> exists j :: 0 <= j < i && At(s, j) != 0
      {
        if l[i] != 0 {
          assert At(s, i) != 0;
          sticky := true;
        }
        i := i + 1;
      }
      if lw < n && rb != 0 && Mask(l[lw], rb) != 0 {
        sticky := true;
      }
      StickyMeaning(s, lw, rb, sticky);
      ShrLimbs(lw, rb);
      ShrValue(s, l[..], n, lw, rb);
      Trim();
    }

    /** The limb loop of the right shift, from the bottom up. */
    method ShrLimbs(lw: nat, rb: nat)
      requires Valid() && rb < 32
      modifies l
      ensures forall j :: n <= j < NBIG ==> l[j] == old(l[j])
      ensures forall j :: 0 <= j < n ==> l[j] == ShrLimb(old(Limbs()), lw, rb, j)
    {
      hide ShrWord;
      ghost var s := Limbs();
      var i := 0;
      while i < n
        invariant 0 <= i <= n == |s|
        invariant forall j :: i <= j < NBIG ==> l[j] == old(l[j])
        invariant forall j :: 0 <= j < i ==> l[j] == ShrLimb(s, lw, rb, j)
      {
        var src := i + lw;
        var lo := if src < n then l[src] else 0;
        var hi := if src + 1 < n then l[src + 1] else 0;
        assert lo == At(s, src) && hi == At(s, src + 1);
        l[i] := ShrWord(lo, hi, rb);
        i := i + 1;
      }
    }

    /** Shift left by sh bits. */
    method Shl(sh: int)
      requires Norm()
      requires sh > 0 ==> n + sh / 32 + 1 <= NBIG
      modifies this`n, l
      ensures Norm() && V() == old(V()) * Pow2(if sh > 0 then sh else 0)
    {
      hide Pow2, Num, ShlLimb, Shr, Mask;
      var z := IsZero();
      if sh <= 0 || z {
        Pow2Zero();
        return;
      }
      ghost var s := Limbs();
      LimbsNum();
      var lw, rb := sh / 32, sh % 32;
      ShlLimbs(lw, rb);
      ShlValue(s, l[..], |s|, lw, rb);
      assert lw + |s| + 1 == n && 32 * lw + rb == sh;
      Trim();
    }

    /** The limb loop of the left shift, from the top down. */
    method ShlLimbs(lw: nat, rb: nat)
      requires Valid() && rb < 32 && n + lw + 1 <= NBIG
      modifies this`n, l
      ensures Valid() && n == old(n) + lw + 1
      ensures forall j :: 0 <= j < n ==> l[j] == ShlLimb(old(Limbs()), lw, rb, j)
    {
      hide ShlWord, Pow2;
      ghost var s := Limbs();
      var nn := n + lw + 1;
      var i := nn - 1;
      while i >= 0
        invariant -1 <= i < nn && n == |s|
        invariant forall j :: 0 <= j <= i && j < n ==> l[j] == s[j]
        invariant forall j :: i < j < nn ==> l[j] == ShlLimb(s, lw, rb, j)
      {
        var src := i - lw;
        var lo := if 0 <= src < n then l[src] else 0;
        var hi := if 1 <= src && src - 1 < n then l[src - 1] else 0;
        assert lo == if i >= lw then At(s, i - lw) else 0;
        assert hi == if i >= lw + 1 then At(s, i - lw - 1) else 0;
        l[i] := ShlWord(lo, hi, rb);
        i := i - 1;
      }
      n := nn;
    }

    method Cmp(b: NBig) returns (c: int)
      requires Valid() && b.Valid()
      ensures -1 <= c <= 1
      ensures c < 0 <==> V() < b.V()
      ensures c > 0 <==> V() > b.V()
    {
      var an, bn := n, b.n;
      while an > 1 && l[an - 1] == 0
        invariant 1 <= an <= n
        invariant forall j :: an <= j < n ==> l[j] == 0
      {
        an := an - 1;
      }
      while bn > 1 && b.l[bn - 1] == 0
        invariant 1 <= bn <= b.n
        invariant forall j :: bn <= j < b.n ==> b.l[j] == 0
      {
        bn := bn - 1;
      }
      NumTop(l[..], an, n);
      NumTop(b.l[..], bn, b.n);
      if an != bn {
        MoreLimbs(l[..], b.l[..], an, bn);
        return if an < bn then -1 else 1;
      }
      var i := an - 1;
      while i >= 0
        invariant -1 <= i < an
        invariant forall j :: i < j < an ==> At(l[..], j) == At(b.l[..], j)
      {
        if l[i] != b.l[i] {
          if l[i] < b.l[i] {
            NumLess(l[..], b.l[..], i, an);
            return -1;
          } else {
            NumLess(b.l[..], l[..], i, an);
            return 1;
          }
        }
        i := i - 1;
      }
      NumEqual(l[..], b.l[..], 0, an);
      return 0;
    }

    /** *this = *this - b. */
    method Sub(b: NBig)
      requires Valid() && b.Valid() && b != this && b.l != l
      requires V() >= b.V()
      modifies this`n, l
      ensures Norm() && V() == old(V()) - b.V() && n <= old(n)
      ensures forall j :: old(n) <= j < NBIG ==> l[j] == old(l[j])
    {
      hide W, Num;
      ghost var s0 := l[..];
      ghost var t := b.Limbs();
      b.LimbsNum();
      NumEmpty(s0);
      NumEmpty(t);
      var borrow := 0;
      var i := 0;
      while i < n
        invariant 0 <= i <= n && n == old(n) && 0 <= borrow <= 1
        invariant forall j :: i <= j < NBIG ==> l[j] == s0[j]
        invariant Num(l[..], 0, i) - borrow * W(i) == Num(s0, 0, i) - Num(t, 0, i)
      {
        ghost var t0 := l[..];
        var v := l[i] - borrow - (if i < b.n then b.l[i] else 0);
        assert v == s0[i] - borrow - At(t, i);
        var next := if v < 0 then 1 else 0;
        l[i] := if v < 0 then v + BASE else v;
        NumEqual(l[..], t0, 0, i);
        WStep(i);
        NumNext(l[..], i);
        NumNext(s0, i);
        NumNext(t, i);
        SubStep(Num(t0, 0, i), borrow, W(i), Num(s0, 0, i), Num(t, 0, i), s0[i], At(t, i), l[i], next);
        borrow := next;
        i := i + 1;
      }
      NumBound(s0, 0, n);
      NoBorrow(l[..], t, n, borrow, Num(s0, 0, n));
      Trim();
    }

    method SetU64(v: nat)
      requires l.Length == NBIG && v < BASE * BASE
      modifies this`n, l
      ensures Norm() && V() == v && n <= 2
    {
      DivMod(v, BASE);
      HighPart(v);
      WStep(0);
      if v / BASE != 0 {
        l[0] := v % BASE;
        l[1] := v / BASE;
        n := 2;
        assert Num(l[..], 0, 2) == Num(l[..], 0, 1) + l[1] * W(1);
      } else {
        l[0] := v % BASE;
        n := 1;
      }
      assert Num(l[..], 0, 1) == Num(l[..], 0, 0) + l[0] * W(0);
    }

    /** *this = *this + 1; a carry out of the top limb lands on a limb that must be zero. */
    method Inc()
      requires Norm()
      requires V() + 1 < W(n) || (n < NBIG && l[n] == 0)
      modifies this`n, l
      ensures Norm() && V() == old(V()) + 1
    {
      hide W, Num;
      ghost var s := l[..];
      var i := 0;
      var v := NextWord(l[0]);
      l[0] := v;
      while v == 0
        invariant 0 <= i <= n && i < NBIG && n == old(n)
        invariant v == l[i] == NextWord(s[i])
        invariant forall j :: 0 <= j < i ==> s[j] == BASE - 1 && l[j] == 0
        invariant forall j :: i < j < NBIG ==> l[j] == s[j]
        decreases NBIG - i
      {
        AllOnes(s, i);
        i := i + 1;
        if i >= NBIG {
          break;
        }
        v := NextWord(l[i]);
        l[i] := v;
      }
      AllOnes(s, i);
      IncValue(s, l[..], i, n);
      if i >= n && l[n] != 0 {
        n := n + 1;
      }
    }

    /** *this = 2 * *this + bit: one step of feeding bits into a remainder. */
    method ShiftIn(bit: int)
      requires Norm() && n < NBIG && 0 <= bit <= 1
      modifies this`n, l
      ensures Norm() && V() == 2 * old(V()) + bit && n <= old(n) + 1
    {
      hide W, Num;
      ghost var s := l[..];
      var newtop := TopBit(l[n - 1]);
      ShiftLimbs(bit);
      DoubledValue(s, l[..], bit, n);
      assert n > 1 ==> l[n - 1] == TwiceWord(s[n - 1]) + TopBit(s[n - 2]);
      if newtop != 0 && n < NBIG {
        ghost var t := l[..];
        l[n] := 1;
        NumEqual(l[..], t, 0, n);
        n := n + 1;
        NumNext(l[..], n - 1);
      }
    }

    /** The limb loop of that step, from the top limb down. */
    method ShiftLimbs(bit: int)
      requires Valid() && 0 <= bit <= 1
      modifies l
      ensures var s := old(l[..]);
        && l[0] == TwiceWord(s[0]) + bit
        && (forall i :: 1 <= i < n ==> l[i] == TwiceWord(s[i]) + TopBit(s[i - 1]))
        && (forall i :: n <= i < NBIG ==> l[i] == s[i])
    {
      ghost var s := l[..];
      var j := n - 1;
      while j >= 1
        invariant 0 <= j < n
        invariant forall i :: 0 <= i <= j ==> l[i] == s[i]
        invariant forall i :: j < i < n ==> l[i] == TwiceWord(s[i]) + TopBit(s[i - 1])
        invariant forall i :: n <= i < NBIG ==> l[i] == s[i]
      {
        l[j] := TwiceWord(l[j]) + TopBit(l[j - 1]);
        j := j - 1;
      }
      l[0] := TwiceWord(l[0]) + bit;
    }

    /** Or bit i in, over the first c limbs. */
    method SetBit(i: nat, c: nat)
      requires l.Length == NBIG && i / 32 < c <= NBIG
      requires Shr(Num(l[..], 0, c), i) % 2 == 0
      modifies l
      ensures Num(l[..], 0, c) == old(Num(l[..], 0, c)) + Pow2(i)
      ensures forall j :: c <= j < NBIG ==> l[j] == old(l[j])
    {
      hide Shr, Num;
      ghost var s := l[..];
      l[i / 32] := OrBit(l[i / 32], i % 32);
      assert l[..] == s[i / 32 := OrBit(s[i / 32], i % 32)];
      BitAdded(s, c, i, i / 32, i % 32);
    }

    /** In-place division by a small number, from the top limb down. */
    method DivModSmall(d: Limb) returns (r: nat)
      requires Norm() && d > 0
      modifies this`n, l
      ensures Norm() && old(V()) == V() * d + r && r < d && n <= old(n)
    {
      hide W, Num;
      ghost var s := l[..];
      NumNothing(s, n);
      NumNothing(l[..], n);
      r := 0;
      var i := n - 1;
      while i >= 0
        invariant -1 <= i < n && n == old(n) && r < d
        invariant forall j :: 0 <= j <= i ==> l[j] == s[j]
        invariant Num(s, i + 1, n - 1 - i) == Num(l[..], i + 1, n - 1 - i) * d + r
      {
        ghost var t := l[..];
        var cur := r * BASE + l[i];
        SmallQuotient(cur, r, l[i], d);
        l[i] := cur / d;
        NumEqual(l[..], t, i + 1, n - 1 - i);
        NumFirst(s, i, n - 1 - i);
        NumFirst(l[..], i, n - 1 - i);
        SmallStep(Num(s, i + 1, n - 1 - i), Num(t, i + 1, n - 1 - i), d, r, s[i], cur / d, cur % d);
        r := cur % d;
        i := i - 1;
      }
      assert i + 1 == 0 && n - 1 - i == n;
      Trim();
    }

    /** *this = the low b bits of q. */
    method LowPartOf(q: NBig, b: nat)
      requires l.Length == NBIG && q.Valid() && q != this && q.l != l && b > 0
      modifies this`n, l
      ensures Norm() && V() == Mask(q.V(), b) && n <= q.n
    {
      hide Num, W, Mask;
      Init();
      var nl := (b + 31) / 32;
      var i := 0;
      while i < q.n && i < nl
        invariant 0 <= i <= q.n && i <= nl
        invariant forall j :: 0 <= j < i ==> l[j] == q.l[j]
      {
        l[i] := q.l[i];
        i := i + 1;
      }
      n := if q.n < nl then q.n else nl;
      if n == nl && b % 32 != 0 {
        ShrMask(l[nl - 1], b % 32);
        l[nl - 1] := Mask(l[nl - 1], b % 32);
      }
      LowPartValue(q.l[..], l[..], q.n, b);
      Trim();
    }

    /** *this = *this + b. */
    method Add(b: NBig)
      requires Valid() && b.Valid() && b != this && b.l != l
      requires n < NBIG && b.n < NBIG
      modifies this`n, l
      ensures Valid() && V() == old(V()) + b.V() && n <= (if old(n) > b.n then old(n) else b.n) + 1
    {
      hide W, Num;
      ghost var s, t := Limbs(), b.Limbs();
      LimbsNum();
      b.LimbsNum();
      NumEmpty(s);
      NumEmpty(t);
      NumEmpty(l[..]);
      var m := if b.n > n then b.n else n;
      var carry := 0;
      var i := 0;
      while i < m
        invariant 0 <= i <= m && n == old(n) && 0 <= carry <= 1
        invariant forall j :: i <= j < n ==> l[j] == s[j]
        invariant Num(l[..], 0, i) + carry * W(i) == Num(s, 0, i) + Num(t, 0, i)
      {
        ghost var t0 := l[..];
        var v := carry + (if i < n then l[i] else 0) + (if i < b.n then b.l[i] else 0);
        assert v == carry + At(s, i) + At(t, i);
        l[i] := v % BASE;
        NumEqual(l[..], t0, 0, i);
        WStep(i);
        NumNext(l[..], i);
        NumNext(s, i);
        NumNext(t, i);
        AddStep(Num(t0, 0, i), carry, W(i), Num(s, 0, i), Num(t, 0, i), At(s, i), At(t, i), v % BASE, v / BASE);
        carry := v / BASE;
        i := i + 1;
      }
      NumTop(s, |s|, m);
      NumTop(t, |t|, m);
      n := m;
      if carry != 0 && n < NBIG {
        ghost var t0 := l[..];
        l[n] := carry;
        NumEqual(l[..], t0, 0, n);
        n := n + 1;
        NumNext(l[..], n - 1);
      }
    }

    /** *this = 2 * *this. */
    method Double()
      requires Valid() && n < NBIG
      modifies this`n, l
      ensures Valid() && V() == 2 * old(V()) && n <= old(n) + 1
    {
      ghost var s := l[..];
      var carry := 0;
      var i := 0;
      while i < n
        invariant 0 <= i <= n && n == old(n) && 0 <= carry <= 1
        invariant forall j :: i <= j < NBIG ==> l[j] == s[j]
        invariant Num(l[..], 0, i) + carry * W(i) == 2 * Num(s, 0, i)
      {
        ghost var t0 := l[..];
        var v := l[i] * 2 + carry;
        l[i] := v % BASE;
        NumEqual(l[..], t0, 0, i);
        WStep(i);
        AddStep(Num(t0, 0, i), carry, W(i), Num(s, 0, i), Num(s, 0, i), s[i], s[i], v % BASE, v / BASE);
        carry := v / BASE;
        i := i + 1;
      }
      if carry != 0 && n < NBIG {
        ghost var t0 := l[..];
        l[n] := carry;
        NumEqual(l[..], t0, 0, n);
        n := n + 1;
      }
    }
  }

  /** x | 1 << b. */
  function OrBit(x: Limb, b: nat): (r: Limb)
    requires b < 32
  {
    OrBitFits(x, b);
    if Shr(x, b) % 2 == 1 then x else x + Pow2(b)
  }

  /** Setting a clear bit adds its power of two. */
  lemma BitAdded(s: seq<Limb>, c: nat, i: nat, w: nat, b: nat)
    requires i == 32 * w + b && b < 32 && w < c && w < |s|
    requires Shr(Num(s, 0, c), i) % 2 == 0
    ensures Num(s[w := OrBit(s[w], b)], 0, c) == Num(s, 0, c) + Pow2(i)
  {
    hide Shr, Num, Pow2;
    assert Shr(s[w], b) % 2 == 0 by {
      Parts(i, w, b);
      BitOfLimb(s, c, i);
    }
    OrBitFits(s[w], b);
    var y := OrBit(s[w], b);
    NumUpdate(s, w, y, c);
    MulEq(y - s[w], Pow2(b), W(w));
    Pow2Add(32 * w, b);
  }

  lemma Parts(i: nat, w: nat, b: nat)
    requires i == 32 * w + b && b < 32
    ensures i / 32 == w && i % 32 == b
  {
  }

  lemma OrBitFits(x: Limb, b: nat)
    requires b < 32
    ensures Shr(x, b) % 2 == 0 ==> x + Pow2(b) < BASE
  {
    if Shr(x, b) % 2 == 0 {
      ShrMask(x, b);
      Pow2Word();
      Pow2Add(b, 32 - b);
      BitRoom(x, Shr(x, b), Mask(x, b), Pow2(b), Pow2(31 - b));
    }
  }

  lemma BitRoom(x: nat, d: nat, m: nat, p: nat, q: nat)
    requires x == d * p + m && m < p && x < p * (2 * q) && d % 2 == 0
    ensures x + p < p * (2 * q)
  {
    MulCancelLt(d, 2 * q, p);
    MulLe(d + 2, 2 * q, p);
  }

  lemma MoreLimbs(s: seq<Limb>, t: seq<Limb>, a: nat, b: nat)
    requires 1 <= a <= |s| && 1 <= b <= |t| && a != b
    requires a == 1 || s[a - 1] != 0
    requires b == 1 || t[b - 1] != 0
    ensures a < b <==> Num(s, 0, a) < Num(t, 0, b)
    ensures a > b <==> Num(s, 0, a) > Num(t, 0, b)
  {
    NumBound(s, 0, a);
    NumBound(t, 0, b);
    if a < b {
      NumTopLimb(t, b);
      Pow2Monotone(32 * a, 32 * (b - 1));
    } else {
      NumTopLimb(s, a);
      Pow2Monotone(32 * b, 32 * (a - 1));
    }
  }

  lemma SubStep(acc: int, borrow: int, w: int, u: int, v: int, x: int, y: int, z: int, next: int)
    requires acc - borrow * w == u - v
    requires z == x - borrow - y + next * BASE
    ensures acc + z * w - next * (BASE * w) == (u + x * w) - (v + y * w)
  {
    MulEq(z, x - borrow - y + next * BASE, w);
  }

  lemma NoBorrow(s: seq<Limb>, t: seq<Limb>, n: nat, borrow: int, before: nat)
    requires 0 <= borrow <= 1
    requires Num(s, 0, n) - borrow * W(n) == before - Num(t, 0, n)
    requires before < W(n) && Num(t, 0, |t|) <= before
    ensures borrow == 0 && Num(t, 0, n) == Num(t, 0, |t|)
  {
    hide W, Num;
    NumBound(s, 0, n);
    if n < |t| {
      NumSplit(t, 0, n, |t| - n);
      if Num(t, n, |t| - n) > 0 {
        MulLe(1, Num(t, n, |t| - n), W(n));
      }
    } else {
      NumTop(t, |t|, n);
    }
  }

  lemma {:induction false} AllOnes(s: seq<Limb>, k: nat)
    requires k <= |s| && forall j :: 0 <= j < k ==> s[j] == BASE - 1
    ensures Num(s, 0, k) == W(k) - 1
  {
    if k == 0 {
      WStep(0);
    } else {
      hide W;
      AllOnes(s, k - 1);
      WStep(k - 1);
    }
  }

  lemma IncValue(s: seq<Limb>, t: seq<Limb>, i: nat, n: nat)
    requires i <= n <= |s| == |t| && i < |s|
    requires forall j :: 0 <= j < i ==> s[j] == BASE - 1 && t[j] == 0
    requires t[i] == NextWord(s[i]) != 0
    requires forall j :: i < j < |s| ==> t[j] == s[j]
    ensures i < n ==> Num(t, 0, n) == Num(s, 0, n) + 1
    ensures i == n && s[n] == 0 ==> Num(t, 0, n + 1) == Num(s, 0, n) + 1
  {
    hide W, Num;
    AllOnes(s, i);
    NumZero(t, 0, i);
    NumNext(s, i);
    NumNext(t, i);
    assert t[i] * W(i) == s[i] * W(i) + W(i);
    if i < n {
      NumSplit(s, 0, i + 1, n - i - 1);
      NumSplit(t, 0, i + 1, n - i - 1);
      NumEqual(s, t, i + 1, n - i - 1);
    }
  }

  lemma {:induction false} DoubledValue(s: seq<Limb>, t: seq<Limb>, bit: int, k: nat)
    requires k <= |s| == |t| && 0 <= bit <= 1 && k > 0
    requires t[0] == TwiceWord(s[0]) + bit
    requires forall i :: 1 <= i < k ==> t[i] == TwiceWord(s[i]) + TopBit(s[i - 1])
    ensures Num(t, 0, k) + TopBit(s[k - 1]) * W(k) == 2 * Num(s, 0, k) + bit
  {
    hide W, Num;
    var x := s[k - 1];
    WStep(k - 1);
    NumNext(s, k - 1);
    NumNext(t, k - 1);
    if k == 1 {
      WStep(0);
      NumEmpty(s);
      NumEmpty(t);
    } else {
      DoubledValue(s, t, bit, k - 1);
      DoubleStep(Num(t, 0, k - 1), TopBit(s[k - 2]), W(k - 1), Num(s, 0, k - 1), bit, x, t[k - 1],
                 TwiceWord(x), TopBit(x));
    }
  }

  lemma DoubleStep(acc: nat, c: nat, w: nat, u: nat, bit: nat, x: nat, z: nat, lo: nat, hi: nat)
    requires acc + c * w == 2 * u + bit
    requires z == lo + c && 2 * x == hi * BASE + lo
    ensures acc + z * w + hi * (BASE * w) == 2 * (u + x * w) + bit
  {
    MulEq(z, lo + c, w);
    MulEq(2 * x, hi * BASE + lo, w);
  }

  lemma AddStep(acc: nat, carry: nat, w: nat, u: nat, v: nat, x: nat, y: nat, lo: nat, hi: nat)
    requires acc + carry * w == u + v
    requires x + y + carry == hi * BASE + lo
    ensures acc + lo * w + hi * (BASE * w) == (u + x * w) + (v + y * w)
  {
    MulEq(x + y + carry, hi * BASE + lo, w);
  }

  /** The least significant limb of a slice. */
  lemma NumFirst(s: seq<Limb>, lo: nat, k: nat)
    ensures Num(s, lo, k + 1) == At(s, lo) + BASE * Num(s, lo + 1, k)
  {
    NumSplit(s, lo, 1, k);
    WStep(0);
    assert Num(s, lo, 1) == Num(s, lo, 0) + At(s, lo) * W(0);
  }

  lemma SmallQuotient(cur: nat, r: nat, x: Limb, d: nat)
    requires d > 0 && r < d && cur == r * BASE + x
    ensures cur / d < BASE && cur % d < d && cur == cur / d * d + cur % d && 0 <= cur / d
  {
    DivMod(cur, d);
    var q := cur / d;
    if q >= BASE {
      MulLe(BASE, q, d);
    }
    if q < 0 {
      MulLe(q, -1, d);
    }
  }

  lemma SmallStep(hs: nat, hq: nat, d: nat, r: nat, x: nat, q: nat, m: nat)
    requires hs == hq * d + r
    requires r * BASE + x == q * d + m
    ensures x + BASE * hs == (q + BASE * hq) * d + m
  {
  }

  lemma NumBelow(s: seq<Limb>, n: nat, b: nat)
    requires 32 * n <= b
    ensures Num(s, 0, n) < Pow2(b)
  {
    NumBound(s, 0, n);
    Pow2Monotone(32 * n, b);
  }

  lemma NoShift(x: nat)
    ensures Shr(x, 0) == x && Mask(x, 0) == 0
  {
  }

  lemma LowPartValue(s: seq<Limb>, t: seq<Limb>, n: nat, b: nat)
    requires b > 0 && 1 <= n <= |s| == |t|
    requires var nl := (b + 31) / 32;
      && (forall j :: 0 <= j < n && j < nl - 1 ==> t[j] == s[j])
      && (nl - 1 < n ==> t[nl - 1] == if b % 32 != 0 then Mask(s[nl - 1], b % 32) else s[nl - 1])
    ensures var nl := (b + 31) / 32;
      Num(t, 0, if n < nl then n else nl) == Mask(Num(s, 0, n), b)
  {
    hide W, Num, Mask;
    var nl := (b + 31) / 32;
    if n < nl {
      NumEqual(s, t, 0, n);
      NumBelow(s, n, b);
      ShrUnique(Num(s, 0, n), b, 0, Num(s, 0, n));
    } else {
      LowPartCut(s, t, n, b, nl);
    }
  }

  lemma LowPartCut(s: seq<Limb>, t: seq<Limb>, n: nat, b: nat, nl: nat)
    requires 1 <= nl <= n <= |s| == |t| && nl == (b + 31) / 32
    requires forall j :: 0 <= j < nl - 1 ==> t[j] == s[j]
    requires t[nl - 1] == if b % 32 != 0 then Mask(s[nl - 1], b % 32) else s[nl - 1]
    ensures Num(t, 0, nl) == Mask(Num(s, 0, n), b)
  {
    hide W, Num, Mask;
    if b % 32 == 0 {
      LowPartWhole(s, t, n, nl);
      assert b == 32 * nl;
    } else {
      LowPartBits(s, t, n, nl - 1, b % 32);
      assert b == 32 * (nl - 1) + b % 32;
    }
  }

  lemma LowPartWhole(s: seq<Limb>, t: seq<Limb>, n: nat, w: nat)
    requires w <= n <= |s| == |t| && forall j :: 0 <= j < w ==> t[j] == s[j]
    ensures Num(t, 0, w) == Mask(Num(s, 0, n), 32 * w)
  {
    hide W, Num, Mask;
    NumEqual(s, t, 0, w);
    LowBits(s, n, w, 0);
    NoShift(At(s, w));
  }

  lemma LowPartBits(s: seq<Limb>, t: seq<Limb>, n: nat, w: nat, b: nat)
    requires w < n <= |s| == |t| && b < 32 && (forall j :: 0 <= j < w ==> t[j] == s[j]) && t[w] == Mask(s[w], b)
    ensures Num(t, 0, w + 1) == Mask(Num(s, 0, n), 32 * w + b)
  {
    hide W, Num, Mask;
    NumEqual(s, t, 0, w);
    LowBits(s, n, w, b);
    NumNext(t, w);
  }

  /** The sticky flag of nb_shr_sticky: some dropped bit is set. */
  lemma StickyMeaning(s: seq<Limb>, lw: nat, rb: nat, sticky: bool)
    requires |s| > 0 && rb < 32
    requires sticky <==> (exists j :: 0 <= j < |s| && j < lw && At(s, j) != 0)
                         || (lw < |s| && rb != 0 && Mask(At(s, lw), rb) != 0)
    ensures sticky <==> Mask(Num(s, 0, |s|), 32 * lw + rb) != 0
  {
    var out := seq(|s|, j requires 0 <= j => ShrLimb(s, lw, rb, j));
    ShrValue(s, out, |s|, lw, rb);
    NumZero(s, 0, lw);
    MaskZero(rb);
    if Mask(At(s, lw), rb) != 0 {
      MulLe(1, Mask(At(s, lw), rb), W(lw));
    }
  }

  lemma WStart()
    ensures W(0) == 1
  {
  }

  lemma NumEmpty(s: seq<Limb>)
    ensures Num(s, 0, 0) == 0
  {
  }

  lemma NumNothing(s: seq<Limb>, lo: nat)
    ensures Num(s, lo, 0) == 0
  {
  }

  lemma NumNext(s: seq<Limb>, k: nat)
    ensures Num(s, 0, k + 1) == Num(s, 0, k) + At(s, k) * W(k)
  {
  }

  lemma ProductFits(x: Limb, y: Limb, r: Limb, c: Limb)
    ensures 0 <= x * y + r + c < BASE * BASE
  {
    MulLe(0, x, y);
    MulLe(x, 0xFFFF_FFFF, y);
  }

  lemma HighPart(v: int)
    requires 0 <= v < BASE * BASE
    ensures 0 <= v / BASE < BASE
  {
  }

  lemma MulAddStep(acc: nat, carry: nat, w: nat, u: nat, m: nat, a: nat, x: nat, lo: nat, hi: nat)
    requires acc + carry * w == u * m + a
    requires x * m + carry == hi * BASE + lo
    ensures acc + lo * w + hi * (BASE * w) == (u + x * w) * m + a
  {
    MulEq(x * m + carry, hi * BASE + lo, w);
  }

  lemma RowStep(u: nat, x: nat, w: nat, b: nat)
    ensures (u + x * w) * b == u * b + x * (b * w)
  {
  }

  lemma RowLimbStep(acc: nat, carry: nat, w: nat, base: nat, x: nat, u: nat, y: nat, wi: nat, wj: nat, r: nat, lo: nat,
                    hi: nat)
    requires acc + carry * w == base + x * (u * wi)
    requires w == wi * wj
    requires x * y + r + carry == hi * BASE + lo
    ensures acc + (lo - r) * w + hi * (BASE * w) == base + x * ((u + y * wj) * wi)
  {
    MulEq(x * y + r + carry, hi * BASE + lo, w);
    MulEq(w, wi * wj, x * y);
  }

  lemma CarryStep(carry: nat, w: nat, r: nat, lo: nat, hi: nat)
    requires r + carry == hi * BASE + lo
    ensures (lo - r) * w + hi * (BASE * w) == carry * w
  {
    MulEq(r + carry, hi * BASE + lo, w);
  }

  /** Only the top limb matters for the bit length. */
  lemma TopBits(s: seq<Limb>, n: nat)
    requires 0 < n <= |s| && s[n - 1] != 0
    ensures BitLen(Num(s, 0, n)) == (n - 1) * 32 + BitLen(s[n - 1])
  {
    hide BitLen, Pow2;
    var t: int, k, w := s[n - 1], BitLen(s[n - 1]), W(n - 1);
    BitLenBounds(t);
    NumBound(s, 0, n - 1);
    Pow2Add(32 * (n - 1), k);
    Pow2Add(32 * (n - 1), k - 1);
    TopBitsStep(Num(s, 0, n - 1), t, w, Pow2(k - 1), Pow2(k));
    BitLenUnique(Num(s, 0, n), 32 * (n - 1) + k);
  }

  lemma TopBitsStep(low: nat, t: nat, w: nat, p: nat, q: nat)
    requires low < w && p <= t < q
    ensures w * p <= low + t * w < w * q
  {
    MulLe(p, t, w);
    MulLe(t + 1, q, w);
  }
}

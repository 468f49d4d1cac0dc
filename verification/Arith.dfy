/** Powers, bit lengths and division facts shared by the bignum and rounding modules. */
module Arith {

  function Pow2(k: nat): (p: nat)
    ensures p > 0
  {
    if k == 0 then 1 else 2 * Pow2(k - 1)
  }

  function Pow(b: nat, k: nat): (p: nat)
    ensures b > 0 ==> p > 0
  {
    if k == 0 then 1 else b * Pow(b, k - 1)
  }

  lemma Pow2IsPow(k: nat)
    ensures Pow(2, k) == Pow2(k)
  {
  }

  lemma MulAssoc(a: int, b: int, c: int)
    ensures a * (b * c) == (a * b) * c
  {
  }

  lemma {:induction false} PowAdd(b: nat, x: nat, y: nat)
    ensures Pow(b, x + y) == Pow(b, x) * Pow(b, y)
  {
    if x == 0 {
      assert Pow(b, 0) == 1;
    } else {
      hide Pow;
      PowAdd(b, x - 1, y);
      PowSucc(b, x + y - 1);
      PowSucc(b, x - 1);
      MulAssoc(b, Pow(b, x - 1), Pow(b, y));
    }
  }

  lemma PowZero()
    ensures Pow(10, 0) == 1
  {
  }

  lemma PowSucc(b: nat, k: nat)
    ensures Pow(b, k + 1) == b * Pow(b, k)
  {
  }

  lemma ProductOfProducts(a: nat, b: nat, x: nat, y: nat)
    ensures (a * b) * (x * y) == (a * x) * (b * y)
  {
  }

  lemma {:induction false} PowProduct(a: nat, b: nat, k: nat)
    ensures Pow(a * b, k) == Pow(a, k) * Pow(b, k)
  {
    if k == 0 {
      assert Pow(a * b, 0) == 1 && Pow(a, 0) == 1 && Pow(b, 0) == 1;
    } else {
      hide Pow;
      PowProduct(a, b, k - 1);
      PowSucc(a * b, k - 1);
      PowSucc(a, k - 1);
      PowSucc(b, k - 1);
      ProductOfProducts(a, b, Pow(a, k - 1), Pow(b, k - 1));
    }
  }

  lemma {:induction false} PowMonotone(b: nat, x: nat, y: nat)
    requires b > 0 && x <= y
    ensures Pow(b, x) <= Pow(b, y)
    decreases y - x
  {
    if x < y {
      PowMonotone(b, x, y - 1);
      MulLe(1, b, Pow(b, y - 1));
    }
  }

  /** A larger base to the same exponent. */
  lemma {:induction false} PowBaseMonotone(a: nat, b: nat, k: nat)
    requires a <= b
    ensures Pow(a, k) <= Pow(b, k)
  {
    if k != 0 {
      PowBaseMonotone(a, b, k - 1);
      MulLe(a, b, Pow(a, k - 1));
      MulLe(Pow(a, k - 1), Pow(b, k - 1), b);
    }
  }

  lemma {:induction false} Pow2Add(x: nat, y: nat)
    ensures Pow2(x + y) == Pow2(x) * Pow2(y)
  {
    if x != 0 {
      Pow2Add(x - 1, y);
      assert 2 * (Pow2(x - 1) * Pow2(y)) == (2 * Pow2(x - 1)) * Pow2(y);
    }
  }

  lemma {:induction false} Pow2Monotone(x: nat, y: nat)
    requires x <= y
    ensures Pow2(x) <= Pow2(y)
    ensures x < y ==> 2 * Pow2(x) <= Pow2(y)
    decreases y - x
  {
    if x < y {
      Pow2Monotone(x, y - 1);
    }
  }

  lemma Pow2Zero()
    ensures Pow2(0) == 1
  {
  }

  lemma Pow2Word()
    ensures Pow2(32) == 0x1_0000_0000
  {
    assert Pow2(8) == 256;
    Pow2Add(8, 8);
    Pow2Add(16, 16);
  }

  lemma Pow2Times(c: nat, i: nat)
    ensures Pow2(c * (i + 1)) == Pow2(c) * Pow2(c * i)
  {
    assert c * (i + 1) == c + c * i;
    Pow2Add(c, c * i);
  }

  /** 5^k and 10^k have at most 3k and 4k bits. */
  lemma PowBits(k: nat)
    ensures Pow(5, k) <= Pow2(3 * k)
    ensures Pow(10, k) <= Pow2(4 * k)
  {
    PowBaseMonotone(5, 8, k);
    PowBaseMonotone(10, 16, k);
    PowOfPow2(3, k);
    PowOfPow2(4, k);
    assert Pow2(3) == 8 && Pow2(4) == 16;
  }

  lemma {:induction false} PowOfPow2(j: nat, k: nat)
    ensures Pow(Pow2(j), k) == Pow2(j * k)
  {
    if k != 0 {
      PowOfPow2(j, k - 1);
      assert j * k == j + j * (k - 1);
      Pow2Add(j, j * (k - 1));
    }
  }

  lemma PowTen(k: nat)
    ensures Pow(10, k) == Pow(5, k) * Pow2(k)
  {
    PowProduct(5, 2, k);
    Pow2IsPow(k);
  }

  lemma MulLe(a: int, b: int, c: int)
    requires a <= b && 0 <= c
    ensures a * c <= b * c && c * a <= c * b
  {
  }

  lemma MulLt(a: int, b: int, c: int)
    requires a < b && 0 < c
    ensures a * c < b * c && c * a < c * b
  {
  }

  lemma MulEq(a: int, b: int, c: int)
    requires a == b
    ensures a * c == b * c
  {
  }

  lemma MulCancelLt(a: int, b: int, c: int)
    requires a * c < b * c && 0 < c
    ensures a < b
  {
    if b <= a {
      MulLe(b, a, c);
    }
  }

  lemma DivMod(n: int, d: int)
    requires 0 < d
    ensures n == n / d * d + n % d && 0 <= n % d < d
  {
  }

  // ---- shifts ----

  /** x >> k. */
  function Shr(x: nat, k: nat): nat {
    if k == 0 then x else Shr(x / 2, k - 1)
  }

  /** x & (2^k - 1). */
  function Mask(x: nat, k: nat): nat {
    if k == 0 then 0 else x % 2 + 2 * Mask(x / 2, k - 1)
  }

  /** The two together are division by 2^k. */
  lemma {:induction false} ShrMask(x: nat, k: nat)
    ensures x == Shr(x, k) * Pow2(k) + Mask(x, k)
    ensures Mask(x, k) < Pow2(k)
  {
    if k != 0 {
      ShrMask(x / 2, k - 1);
      ShrMaskStep(x, x / 2, x % 2, Shr(x / 2, k - 1), Pow2(k - 1), Mask(x / 2, k - 1));
    }
  }

  lemma ShrMaskStep(x: nat, h: nat, b: nat, q: nat, p: nat, m: nat)
    requires x == 2 * h + b && h == q * p + m
    ensures x == q * (2 * p) + (b + 2 * m)
  {
  }

  lemma ShrUnique(x: nat, k: nat, q: int, r: int)
    requires x == q * Pow2(k) + r && 0 <= r < Pow2(k)
    ensures Shr(x, k) == q && Mask(x, k) == r
  {
    ShrMask(x, k);
    QuotientUnique(Pow2(k), Shr(x, k), Mask(x, k), q, r);
  }

  lemma QuotientUnique(d: int, q: int, r: int, q': int, r': int)
    requires 0 < d && 0 <= r < d && 0 <= r' < d
    requires q * d + r == q' * d + r'
    ensures q == q' && r == r'
  {
    if q < q' {
      MulLe(q + 1, q', d);
    } else if q' < q {
      MulLe(q' + 1, q, d);
    }
  }

  lemma {:induction false} ShrShr(x: nat, a: nat, b: nat)
    ensures Shr(x, a + b) == Shr(Shr(x, a), b)
  {
    if a != 0 {
      ShrShr(x / 2, a - 1, b);
    }
  }

  function BitLen(x: nat): (k: nat)
  {
    if x == 0 then 0 else 1 + BitLen(x / 2)
  }

  lemma {:induction false} BitLenBounds(x: nat)
    requires x > 0
    ensures BitLen(x) > 0
    ensures Pow2(BitLen(x) - 1) <= x < Pow2(BitLen(x))
  {
    if x > 1 {
      BitLenBounds(x / 2);
    }
  }

  lemma BitLenUnique(x: nat, k: nat)
    requires k > 0 && Pow2(k - 1) <= x < Pow2(k)
    ensures BitLen(x) == k
  {
    BitLenBounds(x);
    if BitLen(x) < k {
      Pow2Monotone(BitLen(x), k - 1);
    } else if k < BitLen(x) {
      Pow2Monotone(k, BitLen(x) - 1);
    }
  }

  lemma BitLenAtMost(x: nat, k: nat)
    requires x < Pow2(k)
    ensures BitLen(x) <= k
  {
    if x > 0 && BitLen(x) > k {
      BitLenBounds(x);
      Pow2Monotone(k, BitLen(x) - 1);
    }
  }

  lemma BitLenMonotone(x: nat, y: nat)
    requires x <= y
    ensures BitLen(x) <= BitLen(y)
  {
    if y > 0 {
      BitLenBounds(y);
      BitLenAtMost(x, BitLen(y));
    }
  }
}

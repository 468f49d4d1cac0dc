/** Powers of ten against powers of two. */
module Powers {
  import opened Arith
  import opened Exact

  /** 10^400 exceeds 2^1075, and so 2^1024. */
  lemma TenAgainstTwo()
    ensures RPow(10, -400) <= RPow(2, -1075)
    ensures RPow(2, 1024) <= RPow(10, 400)
  {
    hide RPow, Pow, Pow2;
    TenCubed(133);
    PowMonotone(10, 399, 400);
    Pow2Monotone(1075, 1197);
    Pow2Monotone(1024, 1197);
    RPowNat(10, 400);
    RPow2Nat(1075);
    RPow2Nat(1024);
    RPowAdd(10, -400, 400);
    RPowAdd(2, -1075, 1075);
    RPowZero(10);
    RPowZero(2);
    InverseOrder(RPow(10, -400), RPow(10, 400), RPow(2, -1075), RPow(2, 1075));
  }

  lemma InverseOrder(a: real, x: real, b: real, y: real)
    requires x >= y > 0.0 && a * x == 1.0 && b * y == 1.0 && a > 0.0
    ensures a <= b
  {
    RMulLe(y, x, a);
    RCancelLe(a, b, y);
  }

  lemma TenCubed(j: nat)
    ensures Pow2(9 * j) <= Pow(10, 3 * j)
  {
    PowOfPow2(9, j);
    assert Pow2(9) == 512;
    PowBaseMonotone(512, 1000, j);
    PowOfTen(j);
  }

  lemma {:induction false} PowOfTen(j: nat)
    ensures Pow(1000, j) == Pow(10, 3 * j)
  {
    if j != 0 {
      PowOfTen(j - 1);
      PowAdd(10, 3, 3 * (j - 1));
      assert Pow(10, 3) == 1000;
    }
  }
}

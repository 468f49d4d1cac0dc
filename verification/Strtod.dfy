/** Reading decimal text to the nearest double. */
module Strtod {
  import opened Arith
  import opened Exact
  import opened Ieee
  import opened Limbs
  import opened Bignum
  import opened Division
  import opened Rounding
  import opened DecimalText
  import opened Powers

  const MAX_DIGITS: nat := 1100

  /** The result of strtod_full; hexadecimal text is handed to sh_hexfloat, outside this model. */
  datatype ReadResult = NotANumber | Bits(bits: nat) | HexFloat(neg: bool, at: nat)

  /** The digits that reach the bignum. */
  function Kept(ip: string, fp: string): string {
    if |ip + fp| <= MAX_DIGITS then ip + fp else (ip + fp)[..MAX_DIGITS]
  }

  /** How many of the kept digits are fraction digits. */
  function KeptFraction(ip: string, fp: string): nat {
    if |Kept(ip, fp)| <= |ip| then 0 else |Kept(ip, fp)| - |ip|
  }

  /** The value the reader works with: the numeral cut to its first 1100 digits. */
  ghost function KeptValue(ip: string, fp: string, exp: int): real {
    Decimal(DecVal(Kept(ip, fp)), exp - KeptFraction(ip, fp))
  }

  lemma KeptIsAll(ip: string, fp: string, exp: int)
    requires |ip| + |fp| <= MAX_DIGITS
    ensures KeptValue(ip, fp, exp) == NumeralValue(ip, fp, exp)
  {
    hide RPow, DecVal;
  }

  function Clamp(e: int, limit: int): int {
    if e > limit then limit else if e < -limit then -limit else e
  }

  method AppendDigit(mant: NBig, c: char, ghost d: string)
    requires mant.Norm() && |d| < MAX_DIGITS && mant.V() == DecVal(d)
    modifies mant`n, mant.l
    ensures mant.Norm() && mant.V() == DecVal(d + [c])
  {
    hide DecVal, Num, Pow;
    DigitsSize(mant, d);
    mant.MulAdd(10, DigitValue(c));
    DecValPush(d, c);
  }

  lemma SliceNext(s: string, i: nat, j: nat, before: string)
    requires i <= j < |s|
    ensures Slice(s, i, j + 1) == Slice(s, i, j) + [s[j]]
    ensures before + Slice(s, i, j + 1) == before + Slice(s, i, j) + [s[j]]
  {
  }

  /** The digit loops: each digit multiplies by ten and adds, until 1100 are in. */
  method TakeDigits(s: string, p0: nat, mant: NBig, digits0: nat, ghost before: string) returns (p: nat, digits: nat)
    requires p0 <= |s| && mant.Norm() && |before| == digits0 <= MAX_DIGITS && mant.V() == DecVal(before)
    modifies mant`n, mant.l
    ensures p == DigitsEnd(s, p0)
    ensures digits == if digits0 + (p - p0) <= MAX_DIGITS then digits0 + (p - p0) else MAX_DIGITS
    ensures mant.Norm() && mant.V() == DecVal(before + Slice(s, p0, p0 + (digits - digits0)))
  {
    hide DecVal, Num, Pow, DigitsEnd;
    p, digits := p0, digits0;
    assert before + Slice(s, p0, p0) == before;
    while IsDigit(CharAt(s, p))
      invariant p0 <= p <= |s| && digits <= MAX_DIGITS
      invariant forall j :: p0 <= j < p ==> IsDigit(CharAt(s, j))
      invariant digits == if digits0 + (p - p0) <= MAX_DIGITS then digits0 + (p - p0) else MAX_DIGITS
      invariant mant.Norm() && mant.V() == DecVal(before + Slice(s, p0, p0 + (digits - digits0)))
      decreases |s| - p
    {
      if digits < MAX_DIGITS {
        AppendDigit(mant, s[p], before + Slice(s, p0, p0 + (digits - digits0)));
        SliceNext(s, p0, p0 + (digits - digits0), before);
        digits := digits + 1;
      }
      p := p + 1;
    }
    DigitsEndAt(s, p0, p);
  }

  /** At most 1100 digits fit 139 limbs. */
  lemma DigitsSize(b: NBig, d: string)
    requires b.Norm() && b.V() == DecVal(d) && |d| <= MAX_DIGITS
    ensures b.n <= 139
  {
    DecValBound(d);
    PowMonotone(10, |d|, 1100);
    PowBits(1100);
    Pow2Monotone(4400, 32 * 139);
    b.Size(139);
  }

  /** Saturating after every digit saturates the whole number. */
  lemma ClampPush(d: string, c: char)
    ensures var v := Clamp(DecVal(d), 100000) * 10 + DigitValue(c);
            Clamp(DecVal(d + [c]), 100000) == if v > 100000 then 100000 else v
  {
    DecValPush(d, c);
  }

  /** The exponent loop saturates at 100000. */
  method ReadExponent(s: string, i: nat) returns (eexp: int, p: nat)
    requires i <= |s|
    ensures p == ParseExp(s, i).1
    ensures eexp == Clamp(ParseExp(s, i).0, 100000)
  {
    hide DecVal, DigitsEnd, DigitValue;
    p := i;
    eexp := 0;
    if CharAt(s, i) == 'e' || CharAt(s, i) == 'E' {
      var q2 := i + 1;
      var esign := 1;
      if CharAt(s, q2) == '+' {
        q2 := q2 + 1;
      } else if CharAt(s, q2) == '-' {
        esign := -1;
        q2 := q2 + 1;
      }
      ghost var q := q2;
      var ev := 0;
      var any := false;
      EmptyValue();
      assert Slice(s, q, q) == [];
      while IsDigit(CharAt(s, q2))
        invariant q <= q2 && (q2 <= |s| || q2 == q) && (any <==> q2 > q)
        invariant forall j :: q <= j < q2 ==> IsDigit(CharAt(s, j))
        invariant ev == Clamp(DecVal(Slice(s, q, q2)), 100000)
        decreases |s| - q2
      {
        SliceNext(s, q, q2, "");
        ClampPush(Slice(s, q, q2), s[q2]);
        ev := ev * 10 + DigitValue(s[q2]);
        if ev > 100000 {
          ev := 100000;
        }
        any := true;
        q2 := q2 + 1;
      }
      DigitsEndAt(s, q, q2);
      if any {
        p := q2;
        eexp := esign * ev;
      }
    }
  }

  // ---- far exponents ----

  /** Clamping the exponent to +-1500 does not change what the value rounds to. */
  lemma ClampHarmless(m: nat, e: int, mag: nat)
    requires 0 < m < Pow(10, MAX_DIGITS)
    requires Reads(mag, Decimal(m, Clamp(e, 1500)))
    ensures Reads(mag, Decimal(m, e))
  {
    hide Reads, Decimal;
    if e > 1500 {
      Huge(m, e);
      Huge(m, 1500);
      ReadsInfinity(mag, Decimal(m, e));
      ReadsInfinity(mag, Decimal(m, 1500));
    } else if e < -1500 {
      Tiny(m, e);
      Tiny(m, -1500);
      ReadsZero(mag, Decimal(m, e));
      ReadsZero(mag, Decimal(m, -1500));
    }
  }

  /** From 10^1500 on everything is above the largest double, below 10^-1500 everything is below the least. */
  lemma Huge(m: nat, e: int)
    requires m > 0 && e >= 1500
    ensures Decimal(m, e) >= RPow(2, 1024)
  {
    hide RPow;
    TenAgainstTwo();
    RPowMonotone(10, 400, e);
    RPowPos(10, e);
    AtLeastOne(m as real, RPow(10, e), RPow(10, e));
  }

  lemma Tiny(m: nat, e: int)
    requires m < Pow(10, MAX_DIGITS) && e <= -1500
    ensures 0.0 <= Decimal(m, e) <= RPow(2, -1075)
  {
    hide RPow, Pow;
    SmallProduct(m, e);
  }

  lemma ReadsInfinity(mag: nat, v: real)
    requires v >= RPow(2, 1024)
    ensures Reads(mag, v) <==> mag == INF
  {
    hide RPow, Nearest, TinyGap;
    AboveGap(v, 1024);
    if Reads(mag, v) {
      NearestUnique(mag, INF, v);
    }
  }

  lemma ReadsZero(mag: nat, v: real)
    requires 0.0 <= v <= RPow(2, -1075)
    ensures Reads(mag, v) <==> mag == 0
  {
    hide RPow, Nearest, TinyGap;
    BelowGap(v, -1075);
    if Reads(mag, v) {
      NearestUnique(mag, 0, v);
    }
  }

  lemma AtLeastOne(m: real, p: real, q: real)
    requires m >= 1.0 && p >= q > 0.0
    ensures m * p >= q
  {
    RMulLe(1.0, m, p);
  }

  lemma SmallProduct(m: nat, e: int)
    requires m < Pow(10, MAX_DIGITS) && e <= -1500
    ensures 0.0 <= m as real * RPow(10, e) <= RPow(2, -1075)
  {
    hide RPow, Pow;
    TenAgainstTwo();
    RPowMonotone(10, e, -1500);
    RPowNat(10, 1100);
    RPowAdd(10, 1100, -1500);
    RPowPos(10, e);
    RPowPos(10, 1100);
    ProductBound(m as real, RPow(10, 1100), RPow(10, e), RPow(10, -1500));
  }

  lemma ProductBound(m: real, a: real, p: real, q: real)
    requires 0.0 <= m <= a && 0.0 < p <= q
    ensures 0.0 <= m * p <= a * q
  {
    RMulLe(0.0, m, p);
    RMulLe(m, a, p);
    RMulLe(p, q, a);
  }

  /** m * 10^e for e >= 0 is (m * 5^e) * 2^e. */
  lemma SplitUp(m: nat, e: nat)
    ensures m as real * RPow(10, e) == (m * Pow(5, e)) as real * RPow(2, e)
  {
    hide RPow, Pow;
    RPowTen(e);
    RPowNat(5, e);
    RealMul(m, Pow(5, e));
    Regroup(m as real, RPow(5, e), RPow(2, e), RPow(10, e), (m * Pow(5, e)) as real);
  }

  lemma Regroup(m: real, f: real, t: real, ten: real, mf: real)
    requires ten == f * t && mf == m * f
    ensures m * ten == mf * t
  {
  }

  /** m * 10^-e times 5^e is m * 2^-e. */
  lemma SplitDown(m: nat, e: int)
    requires e >= 0
    ensures (m as real * RPow(10, -e)) * Pow(5, e) as real == m as real * RPow(2, -e)
  {
    hide RPow, Pow;
    RPowTen(-e);
    RPowNat(5, e);
    RPowAdd(5, -e, e);
    RPowZero(5);
    Cancel5(m as real, RPow(5, -e), RPow(5, e), RPow(2, -e), RPow(10, -e));
  }

  lemma Cancel5(m: real, g: real, f: real, t: real, ten: real)
    requires ten == g * t && g * f == 1.0
    ensures (m * ten) * f == m * t
  {
    assert (m * (g * t)) * f == (m * t) * (g * f);
  }

  /** The two bignum paths of strtod_full, after clamping. */
  method ScaleAndRound(mant: NBig, dexp: int, neg: bool, p5: Pow5Cache, ghost v: real) returns (bits: nat, mag: nat)
    requires mant.Norm() && mant.n <= 139 && -1500 <= dexp <= 1500
    requires p5.Valid() && mant != p5.cache && mant.l != p5.cache.l
    requires v == Decimal(mant.V(), dexp)
    modifies p5`k, p5.cache`n, p5.cache.l
    ensures p5.Valid()
    ensures bits == Signed(neg, mag) && Reads(mag, v)
  {
    hide RPow, Pow, Reads, Num;
    ghost var m := mant.V();
    var f := new NBig();
    if dexp >= 0 {
      p5.Pow5(dexp, f);
      var r := new NBig();
      r.MulBig(mant, f);
      SplitUp(m, dexp);
      assert r.V() == m * Pow(5, dexp);
      bits, mag := RoundBig(r, dexp, neg, v);
    } else {
      p5.Pow5(-dexp, f);
      SplitDown(m, -dexp);
      assert mant.V() == m;
      bits, mag := RoundDiv(mant, f, dexp, neg, v);
    }
  }

  // ---- strtod_full ----

  /** The integer and fraction digits a numeral at p0 has, and where they end. */
  ghost predicate DigitParts(s: string, p0: nat, ip: string, fp: string, p: nat) {
    var a := DigitsEnd(s, p0);
    var point := CharAt(s, a) == '.';
    && ip == Slice(s, p0, a)
    && p == (if point then DigitsEnd(s, a + 1) else a)
    && fp == (if point then Slice(s, a + 1, p) else [])
  }

  lemma NumeralParts(s: string, p0: nat, neg: bool, ip: string, fp: string, p: nat)
    requires DigitParts(s, p0, ip, fp, p)
    ensures ParseNumeral(s, p0, neg) ==
            if ip == [] && fp == [] then NoNumber
            else Numeral(neg, ip, fp, ParseExp(s, p).0, ParseExp(s, p).1)
  {
    hide DigitsEnd, ParseExp, Slice;
  }

  /** The digits before and after the point. */
  method ReadDigits(s: string, p0: nat, mant: NBig)
    returns (p: nat, dexp: int, any: bool, ghost ip: string, ghost fp: string)
    requires p0 <= |s| && mant.l.Length == NBIG
    modifies mant`n, mant.l
    ensures mant.Norm() && mant.V() == DecVal(Kept(ip, fp)) && dexp == 0 - KeptFraction(ip, fp)
    ensures any <==> ip != [] || fp != []
    ensures p <= |s| && DigitParts(s, p0, ip, fp, p)
  {
    hide Num, DecVal, DigitsEnd, Kept, KeptFraction, Slice;
    mant.Init();
    EmptyValue();
    var digits;
    p, digits := TakeDigits(s, p0, mant, 0, []);
    any := p > p0;
    ip := Slice(s, p0, p);
    fp := [];
    dexp := 0;
    ghost var first := [] + Slice(s, p0, p0 + digits);
    var a := p;
    SliceSize(s, p0, p);
    if CharAt(s, p) == '.' {
      PointInside(s, p);
      p := p + 1;
      var digits1 := digits;
      SliceSize(s, p0, p0 + digits1);
      p, digits := TakeDigits(s, p, mant, digits1, first);
      any := any || p > a + 1;
      fp := Slice(s, a + 1, p);
      SliceSize(s, a + 1, p);
      dexp := dexp - (digits - digits1);
      KeptPieces(s, p0, a, digits1, a + 1, p, digits - digits1);
    } else {
      KeptPieces(s, p0, a, digits, a, a, 0);
      NoSlice(s, a, first);
    }
  }

  lemma SliceSize(s: string, i: nat, j: nat)
    requires i <= j <= |s|
    ensures |Slice(s, i, j)| == j - i && ([] + Slice(s, i, j) == Slice(s, i, j))
    ensures Slice(s, i, j) == [] <==> i == j
  {
  }

  lemma NoSlice(s: string, i: nat, t: string)
    ensures Slice(s, i, i) == [] && t + [] == t
  {
  }

  lemma PointInside(s: string, p: nat)
    requires CharAt(s, p) == '.'
    ensures p < |s|
  {
  }

  /** The decimal path from position p on. */
  method ReadNumeral(s: string, p0: nat, neg: bool, p5: Pow5Cache) returns (bits: nat, stop: nat, ghost mag: nat)
    requires p0 <= |s| && p5.Valid()
    modifies p5`k, p5.cache`n, p5.cache.l
    ensures p5.Valid()
    ensures ParseNumeral(s, p0, neg) == NoNumber ==> bits == 0 && stop == 0
    ensures ParseNumeral(s, p0, neg) != NoNumber ==>
      var t := ParseNumeral(s, p0, neg);
      bits == Signed(neg, mag) && stop == t.stop && Reads(mag, KeptValue(t.ip, t.fp, t.exp))
  {
    hide RPow, Reads, Num, DecVal, ParseExp, DigitsEnd, Kept, KeptFraction, ParseNumeral, DigitParts;
    var mant := new NBig();
    var p, dexp, any;
    ghost var ip, fp;
    p, dexp, any, ip, fp := ReadDigits(s, p0, mant);
    NumeralParts(s, p0, neg, ip, fp, p);
    mag := 0;
    if !any {
      return 0, 0, 0;
    }
    var eexp: int;
    eexp, stop := ReadExponent(s, p);
    bits, mag := FinishNumeral(mant, dexp + eexp, neg, p5, ip, fp, ParseExp(s, p).0);
  }

  /** Zero, clamping and rounding, once the digits and the exponent are read. */
  method FinishNumeral(mant: NBig, dexp0: int, neg: bool, p5: Pow5Cache,
                       ghost ip: string, ghost fp: string, ghost exp: int)
    returns (bits: nat, mag: nat)
    requires mant.Norm() && mant.V() == DecVal(Kept(ip, fp))
    requires dexp0 == 0 - KeptFraction(ip, fp) + Clamp(exp, 100000)
    requires p5.Valid() && mant != p5.cache && mant.l != p5.cache.l
    modifies p5`k, p5.cache`n, p5.cache.l
    ensures p5.Valid()
    ensures bits == Signed(neg, mag) && Reads(mag, KeptValue(ip, fp, exp))
  {
    hide RPow, Reads, Num, DecVal, Kept, KeptFraction, Decimal;
    var dexp := dexp0;
    var z := mant.IsZero();
    if z {
      ZeroReads(exp - KeptFraction(ip, fp));
      return Signed(neg, 0), 0;
    }
    if dexp > 1500 {
      dexp := 1500;
    }
    if dexp < -1500 {
      dexp := -1500;
    }
    KeptSize(mant, ip, fp, exp);
    ghost var m := mant.V();
    bits, mag := ScaleAndRound(mant, dexp, neg, p5, Decimal(m, dexp));
    ClampHarmless(m, exp - KeptFraction(ip, fp), mag);
  }

  lemma KeptSize(mant: NBig, ip: string, fp: string, exp: int)
    requires mant.Norm() && mant.V() == DecVal(Kept(ip, fp))
    ensures mant.n <= 139 && mant.V() < Pow(10, MAX_DIGITS)
    ensures Clamp(0 - KeptFraction(ip, fp) + Clamp(exp, 100000), 1500) == Clamp(exp - KeptFraction(ip, fp), 1500)
  {
    hide DecVal, Num, Pow;
    DigitsSize(mant, Kept(ip, fp));
    DecValBound(Kept(ip, fp));
    PowMonotone(10, |Kept(ip, fp)|, MAX_DIGITS);
  }

  lemma ZeroReads(e: int)
    ensures Reads(0, Decimal(0, e))
  {
    hide RPow, Nearest;
    RPowPos(2, -1075);
    BelowGap(0.0, -1075);
  }

  /** The two digit loops keep the first 1100 digits of the whole: d1 of s[i..j], then d2 of s[k..m]. */
  lemma KeptPieces(s: string, i: nat, j: nat, d1: nat, k: nat, m: nat, d2: nat)
    requires i <= j <= k <= m <= |s|
    requires d1 == (if j - i <= MAX_DIGITS then j - i else MAX_DIGITS)
    requires d1 + d2 == (if d1 + (m - k) <= MAX_DIGITS then d1 + (m - k) else MAX_DIGITS)
    ensures [] + Slice(s, i, i + d1) + Slice(s, k, k + d2) == Kept(Slice(s, i, j), Slice(s, k, m))
    ensures d2 == KeptFraction(Slice(s, i, j), Slice(s, k, m))
  {
    var a, b := Slice(s, i, j), Slice(s, k, m);
    assert Slice(s, i, i + d1) == a[..d1];
    assert Slice(s, k, k + d2) == b[..d2];
    hide Slice;
    assert [] + a[..d1] == a[..d1];
    KeptConcat(a, b, d1, d2);
  }

  lemma KeptConcat(a: string, b: string, d1: nat, d2: nat)
    requires d1 == (if |a| <= MAX_DIGITS then |a| else MAX_DIGITS)
    requires d2 == (if d1 + |b| <= MAX_DIGITS then |b| else MAX_DIGITS - d1)
    ensures a[..d1] + b[..d2] == Kept(a, b) && d2 == KeptFraction(a, b)
  {
    if |a| >= MAX_DIGITS {
      assert b[..d2] == [] && (a + b)[..MAX_DIGITS] == a[..MAX_DIGITS];
    } else if |a| + |b| <= MAX_DIGITS {
      assert a[..d1] == a && b[..d2] == b;
    } else {
      assert (a + b)[..MAX_DIGITS] == a + b[..d2] && a[..d1] == a;
    }
  }

  /** strtod_full: the text decides the result, and a numeral reads as its nearest double. */
  method StrtodFull(s: string, p5: Pow5Cache) returns (r: ReadResult, stop: nat, ghost mag: nat)
    requires p5.Valid()
    modifies p5`k, p5.cache`n, p5.cache.l
    ensures p5.Valid()
    ensures match Parse(s)
      case NanText(end) => r == NotANumber && stop == end
      case InfText(neg, end) => r == Bits(Signed(neg, INF)) && stop == end
      case HexText(neg, at) => r == HexFloat(neg, at)
      case NoNumber => r == Bits(0) && stop == 0
      case Numeral(neg, ip, fp, exp, end) =>
        && r == Bits(Signed(neg, mag)) && stop == end
        && Reads(mag, KeptValue(ip, fp, exp))
        && (|ip| + |fp| <= MAX_DIGITS ==> Reads(mag, NumeralValue(ip, fp, exp)))
  {
    hide ParseNumeral, KeptValue, NumeralValue, Reads;
    mag := 0;
    var p := 0;
    while IsSpace(CharAt(s, p))
      invariant p <= |s| && SpacesEnd(s, 0) == SpacesEnd(s, p)
      decreases |s| - p
    {
      p := p + 1;
    }
    var neg := false;
    if CharAt(s, p) == '+' {
      p := p + 1;
    } else if CharAt(s, p) == '-' {
      neg := true;
      p := p + 1;
    }
    if Letter(s, p, 'n', 'N') && Letter(s, p + 1, 'a', 'A') && Letter(s, p + 2, 'n', 'N') {
      return NotANumber, p + 3, 0;
    }
    if Letter(s, p, 'i', 'I') && Letter(s, p + 1, 'n', 'N') && Letter(s, p + 2, 'f', 'F') {
      p := p + 3;
      if Letter(s, p, 'i', 'I') && Letter(s, p + 1, 'n', 'N') && Letter(s, p + 2, 'i', 'I')
         && Letter(s, p + 3, 't', 'T') && Letter(s, p + 4, 'y', 'Y') {
        p := p + 5;
      }
      return Bits(Signed(neg, INF)), p, 0;
    }
    if CharAt(s, p) == '0' && Letter(s, p + 1, 'x', 'X') {
      return HexFloat(neg, p), p, 0;
    }
    var bits: nat;
    bits, stop, mag := ReadNumeral(s, p, neg, p5);
    r := Bits(bits);
    ghost var t := ParseNumeral(s, p, neg);
    if t.Numeral? && |t.ip| + |t.fp| <= MAX_DIGITS {
      KeptIsAll(t.ip, t.fp, t.exp);
    }
    NumeralSign(s, p, neg);
  }

  lemma NumeralSign(s: string, p: nat, neg: bool)
    ensures var t := ParseNumeral(s, p, neg); t == NoNumber || (t.Numeral? && t.neg == neg)
  {
  }
}

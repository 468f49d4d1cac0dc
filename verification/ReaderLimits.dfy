/** Where the reader does not return the nearest double of what is written: the exact conditions, and texts. */
module ReaderLimits {
  import opened Arith
  import opened Exact
  import opened Ieee
  import opened Rounding
  import opened DecimalText
  import opened Powers
  import opened Strtod
  import opened Division

  // ---- just past half the least denormal ----

  lemma GapValue()
    ensures var v := Decimal(10 * Pow(5, 1075) + 1, -1076);
      && TinyGap(v) && Nearest(1, v) && !Nearest(0, v)
      && (forall mag :: Reads(mag, v) ==> mag == 0)
    ensures 10 * Pow(5, 1075) + 1 < Pow(10, MAX_DIGITS)
  {
    hide RPow, Pow, Pow2, Nearest;
    var p := Pow(5, 1075);
    var v := Decimal(10 * p + 1, -1076);
    // 10 * 5^1075 * 10^-1076 is 2^-1075
    RPowTen(-1075);
    RPowNat(5, 1075);
    RPowAdd(5, 1075, -1075);
    RPowZero(5);
    RPowStep(10, -1076);
    RPowPos(10, -1076);
    WitnessValue(p as real, RPow(5, -1075), RPow(2, -1075), RPow(10, -1075), RPow(10, -1076), v, (10 * p + 1) as real);
    TinyTerm();
    NearestFar(v, 0);
    RPowMonotone(2, -1130, -1075);
    RPowStep(2, -1075);
    if Nearest(0, v) {
      NearestUnique(0, 1, v);
    }
    PowMonotone(5, 0, 1075);
    WitnessSize(p);
  }

  lemma WitnessValue(p: real, f: real, t: real, ten: real, tenth: real, v: real, n: real)
    requires p * f == 1.0 && ten == f * t && ten == 10.0 * tenth && n == 10.0 * p + 1.0 && v == n * tenth
    ensures v == t + tenth
  {
    assert p * (f * t) == (p * f) * t;
    assert n * tenth == p * (10.0 * tenth) + tenth;
  }

  lemma TinyTerm()
    ensures 0.0 < RPow(10, -1076) < RPow(2, -1130)
  {
    hide RPow, Pow, Pow2;
    TenAgainstTwo();
    RPowMonotone(10, -1076, -800);
    RPowAdd(10, -400, -400);
    RPowAdd(2, -1075, -1075);
    RPowPos(10, -400);
    RPowPos(10, -1076);
    Squares(RPow(10, -400), RPow(2, -1075));
    RPowMonotone(2, -2150, -1130);
    RPowPos(2, -1130);
    RPowPos(2, -2150);
  }

  lemma Squares(a: real, b: real)
    requires 0.0 < a <= b
    ensures a * a <= b * b
  {
    RMulLe(a, b, a);
    RMulLe(a, b, b);
  }

  lemma WitnessSize(p: nat)
    requires p == Pow(5, 1075)
    ensures 10 * p + 1 < Pow(10, MAX_DIGITS)
  {
    hide Pow;
    PowBaseMonotone(5, 10, 1075);
    PowMonotone(10, 1077, 1100);
    PowSucc(10, 1075);
    PowSucc(10, 1076);
    PowMonotone(10, 0, 1075);
    PowZero();
  }

  /** The digits of 10 * 5^1075 + 1, and the text (10 * 5^1075 + 1)e-1076. */
  function GapDigits(): string {
    DigitText(10 * Pow(5, 1075) + 1)
  }

  function GapText(): string {
    GapDigits() + "e-1076"
  }

  lemma GapNumeral()
    ensures Parse(GapText()) == Numeral(false, GapDigits(), "", -1076, |GapText()|)
    ensures |GapDigits()| <= MAX_DIGITS && DecVal(GapDigits()) == 10 * Pow(5, 1075) + 1
  {
    hide Pow, DigitText, Parse;
    var r := Rendered(false, GapDigits(), "", "e", true, "1076");
    FourDigits('1', '0', '7', '6');
    ParseRendered(r);
    assert r.Text() == GapText() by {
      assert "" + GapDigits() + "" + ("e" + "-" + "1076") == GapDigits() + "e-1076";
    }
    GapValue();
    DigitTextLength(10 * Pow(5, 1075) + 1, MAX_DIGITS);
    DigitTextValue(10 * Pow(5, 1075) + 1);
  }

  lemma FourDigits(a: char, b: char, c: char, d: char)
    requires IsDigit(a) && IsDigit(b) && IsDigit(c) && IsDigit(d)
    ensures AllDigits([a, b, c, d])
    ensures DecVal([a, b, c, d])
         == DigitValue(a) * 1000 + DigitValue(b) * 100 + DigitValue(c) * 10 + DigitValue(d)
  {
    hide DecVal;
    EmptyValue();
    DecValPush([], a);
    DecValPush([a], b);
    DecValPush([a, b], c);
    DecValPush([a, b, c], d);
    assert [] + [a] == [a] && [a] + [b] == [a, b] && [a, b] + [c] == [a, b, c] && [a, b, c] + [d] == [a, b, c, d];
  }

  /** A text of fewer than 1100 digits that is read wrong: it comes out as zero, and the nearest double is 2^-1074. */
  method ReadGap(p5: Pow5Cache) returns (r: ReadResult, stop: nat)
    requires p5.Valid()
    modifies p5`k, p5.cache`n, p5.cache.l
    ensures p5.Valid() && r == Bits(0) && stop == |GapText()|
    ensures Nearest(1, NumeralValue(GapDigits(), "", -1076))
  {
    hide Parse, Pow, Reads, Nearest, KeptValue, DigitText;
    GapNumeral();
    GapValue();
    assert GapDigits() + "" == GapDigits();
    ghost var mag;
    r, stop, mag := StrtodFull(GapText(), p5);
  }

  // ---- more than 1100 digits ----

  predicate AllZero(d: string) {
    forall i :: 0 <= i < |d| ==> d[i] == '0'
  }

  /** The digits the reader does not take in. */
  function Unread(ip: string, fp: string): string {
    if |ip + fp| <= MAX_DIGITS then [] else (ip + fp)[MAX_DIGITS..]
  }

  lemma {:induction false} ZeroDigits(d: string)
    requires AllDigits(d)
    ensures DecVal(d) == 0 <==> AllZero(d)
  {
    if d != [] {
      ZeroDigits(d[..|d| - 1]);
      assert d == d[..|d| - 1] + [d[|d| - 1]];
      assert DigitValue(d[|d| - 1]) == 0 <==> d[|d| - 1] == '0';
      assert AllZero(d) <==> AllZero(d[..|d| - 1]) && d[|d| - 1] == '0';
    }
  }

  /**
   * The value worked with is the value written exactly when every digit left out is a zero, and no integer
   * digit of a nonzero number was left out.
   */
  lemma KeptIsWritten(ip: string, fp: string, exp: int)
    requires AllDigits(ip) && AllDigits(fp)
    ensures KeptValue(ip, fp, exp) == NumeralValue(ip, fp, exp)
            <==> AllZero(Unread(ip, fp)) && (|ip| <= MAX_DIGITS || AllZero(ip + fp))
  {
    hide DecVal, Decimal;
    var d := ip + fp;
    if |d| <= MAX_DIGITS {
      KeptIsAll(ip, fp, exp);
    } else {
      var k, u := d[..MAX_DIGITS], d[MAX_DIGITS..];
      assert d == k + u && Kept(ip, fp) == k;
      DecValConcat(k, u);
      ZeroDigits(u);
      ZeroDigits(d);
      var lost := if |ip| <= MAX_DIGITS then 0 else |ip| - MAX_DIGITS;
      assert exp - KeptFraction(ip, fp) == exp - |fp| + |u| - lost;
      SameValueWhen(DecVal(k), DecVal(u), |u|, lost, exp - |fp|);
      assert AllZero(d) ==> AllZero(u);
    }
  }

  /** k * 10^(e + m - lost) against (k * 10^m + u) * 10^e. */
  lemma SameValueWhen(k: nat, u: nat, m: nat, lost: nat, e: int)
    requires lost <= m
    ensures Decimal(k, e + m - lost) == Decimal(k * Pow(10, m) + u, e)
            <==> u == 0 && (lost == 0 || k * Pow(10, m) + u == 0)
  {
    hide RPow, Pow;
    var w := m - lost;
    RPowNat(10, w);
    RPowAdd(10, w, e);
    RPowPos(10, e);
    PowAdd(10, w, lost);
    PowGrows(w);
    PowGrows(lost);
    SameDecimals(k, u, e, w, Pow(10, w), Pow(10, lost), Pow(10, m));
  }

  lemma SameDecimals(k: nat, u: nat, e: int, d: nat, w: nat, l: nat, m: nat)
    requires m == w * l && w >= 1 && l >= 1 && RPow(10, d) == w as real && RPow(10, e) > 0.0
    requires RPow(10, e + d) == RPow(10, d) * RPow(10, e)
    ensures Decimal(k, e + d) == Decimal(k * m + u, e) <==> u == 0 && (l == 1 || k * m + u == 0)
  {
    hide RPow;
    Compared(k, u, w, l, m, RPow(10, d), RPow(10, e), RPow(10, e + d));
  }

  lemma PowGrows(k: nat)
    ensures Pow(10, k) >= 1 && (Pow(10, k) == 1 <==> k == 0)
  {
    hide Pow;
    PowZero();
    PowMonotone(10, 0, k);
    if k > 0 {
      PowSucc(10, 0);
      PowMonotone(10, 1, k);
    }
  }

  lemma Compared(k: nat, u: nat, w: nat, l: nat, m: nat, rw: real, re: real, rew: real)
    requires m == w * l && w >= 1 && l >= 1 && rw == w as real && re > 0.0 && rew == rw * re
    ensures k as real * rew == (k * m + u) as real * re <==> u == 0 && (l == 1 || k * m + u == 0)
  {
    RealMul(k, w);
    assert k as real * rew == (k * w) as real * re by {
      Regrouped(k as real, rw, re, rew, (k * w) as real);
    }
    SameFactor((k * w) as real, (k * m + u) as real, re);
    Integers(k, u, w, l, m);
  }

  lemma Regrouped(k: real, rw: real, re: real, rew: real, kw: real)
    requires rew == rw * re && kw == k * rw
    ensures k * rew == kw * re
  {
  }

  lemma SameFactor(a: real, b: real, c: real)
    requires c > 0.0
    ensures a * c == b * c <==> a == b
  {
    if a < b {
      RMulLt(a, b, c);
    } else if b < a {
      RMulLt(b, a, c);
    }
  }

  lemma Integers(k: nat, u: nat, w: nat, l: nat, m: nat)
    requires m == w * l && w >= 1 && l >= 1
    ensures k * w == k * m + u <==> u == 0 && (l == 1 || k * m + u == 0)
  {
    assert k * m == (k * w) * l by { assert k * (w * l) == (k * w) * l; }
    MulLe(1, l, k * w);
    if l > 1 {
      MulLe(2, l, k * w);
      if k > 0 {
        MulLe(1, k, w);
      }
    }
  }

  /** Past 1100 integer digits the reader drops digits without scaling: the value read is at most a tenth. */
  lemma LongIntegerShrinks(ip: string, exp: int)
    requires |ip| > MAX_DIGITS && AllDigits(ip)
    ensures 10.0 * KeptValue(ip, "", exp) <= NumeralValue(ip, "", exp)
  {
    hide RPow, Pow, DecVal;
    var k, rest := ip[..MAX_DIGITS], ip[MAX_DIGITS..];
    assert ip + "" == ip && k + rest == ip && Kept(ip, "") == k;
    DecValConcat(k, rest);
    PowMonotone(10, 1, |rest|);
    PowSucc(10, 0);
    PowZero();
    MulLe(10, Pow(10, |rest|), DecVal(k));
    RPowPos(10, exp);
    TenTimes(DecVal(k) as real, DecVal(ip) as real, RPow(10, exp));
  }

  lemma TenTimes(k: real, n: real, p: real)
    requires 10.0 * k <= n && p > 0.0
    ensures 10.0 * (k * p) <= n * p
  {
    RMulLe(10.0 * k, n, p);
  }

  /** One and 1100 zeros, times 10^-1100: the number 1. */
  function LongText(): string {
    "1" + Zeros(1100) + "e-1100"
  }

  lemma LongNumeral()
    ensures Parse(LongText()) == Numeral(false, "1" + Zeros(1100), "", -1100, |LongText()|)
    ensures NumeralValue("1" + Zeros(1100), "", -1100) == 1.0 == Value(1023 * HIDDEN)
    ensures KeptValue("1" + Zeros(1100), "", -1100) <= 0.1
  {
    hide Pow, RPow, Parse, DecVal, Value;
    var ip := "1" + Zeros(1100);
    var r := Rendered(false, ip, "", "e", true, "1100");
    FourDigits('1', '1', '0', '0');
    assert r.Text() == LongText() by {
      assert "" + ip + "" + ("e" + "-" + "1100") == ip + "e-1100";
    }
    ParseRendered(r);
    assert ip + "" == ip;
    OneValue();
    DecValPad(0, "1", 1100);
    RPowNat(10, 1100);
    RPowAdd(10, 1100, -1100);
    RPowZero(10);
    LongKept(ip);
    OneIsDouble();
  }

  lemma OneValue()
    ensures AllDigits("1") && DecVal("1") == 1
  {
    assert "1" == [] + ['1'];
    EmptyValue();
    DecValPush([], '1');
  }

  lemma LongKept(ip: string)
    requires ip == "1" + Zeros(1100)
    ensures KeptValue(ip, "", -1100) <= 0.1
  {
    hide Pow, RPow, DecVal;
    assert Kept(ip, "") == "1" + Zeros(1099) by {
      assert ip + "" == ip && ip[..MAX_DIGITS] == "1" + Zeros(1099);
    }
    OneValue();
    DecValPad(0, "1", 1099);
    RPowNat(10, 1099);
    RPowAdd(10, 1099, -1100);
    RPowStep(10, -1);
    RPowZero(10);
  }

  lemma OneIsDouble()
    ensures Value(1023 * HIDDEN) == 1.0
  {
    hide RPow;
    HiddenIsPow2();
    RPow2Nat(52);
    RPowAdd(2, 52, -52);
    RPowZero(2);
  }

  /** A text whose returned bits are wrong: 1 is written, and what comes back is not 1. */
  method ReadLong(p5: Pow5Cache) returns (r: ReadResult, stop: nat)
    requires p5.Valid()
    modifies p5`k, p5.cache`n, p5.cache.l
    ensures p5.Valid() && stop == |LongText()| && r.Bits? && r != Bits(1023 * HIDDEN)
    ensures Nearest(1023 * HIDDEN, NumeralValue("1" + Zeros(1100), "", -1100))
  {
    hide Parse, Reads, Nearest, KeptValue, NumeralValue, Value, RPow;
    LongNumeral();
    NearestExact(1023 * HIDDEN);
    ghost var mag;
    r, stop, mag := StrtodFull(LongText(), p5);
    NotOne(mag, KeptValue("1" + Zeros(1100), "", -1100));
  }

  lemma ZeroIsZero()
    ensures Value(0) == 0.0
  {
    hide RPow;
  }

  /** Zero is nearer to anything up to a tenth than one is. */
  lemma NotOne(mag: nat, v: real)
    requires Reads(mag, v) && v <= 0.1
    ensures mag != 1023 * HIDDEN
  {
    hide RPow, TinyGap;
    OneIsDouble();
    assert Dist(0, v) < Dist(1023 * HIDDEN, v) by { ZeroIsZero(); }
  }
}

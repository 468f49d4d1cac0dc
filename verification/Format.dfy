/** The exact %e / %f / %g printer. */
module Format {
  import opened Arith
  import opened Exact
  import opened Ieee
  import opened Limbs
  import opened Bignum
  import opened Division
  import opened Scaling
  import opened DecimalText
  import opened Powers

  // ---- digits ----

  function Reversed(d: string): (r: string)
    ensures |r| == |d|
  {
    seq(|d|, i requires 0 <= i < |d| => d[|d| - 1 - i])
  }

  lemma ReversedPush(d: string, c: char)
    ensures Reversed(d + [c]) == [c] + Reversed(d)
  {
  }

  lemma DigitOf(r: nat)
    requires r < 10
    ensures IsDigit('0' + r as char) && DigitValue('0' + r as char) == r
  {
  }

  /** Peeling the last digit off the number puts it in front of those already peeled. */
  lemma PeelDigit(v: nat, t: nat, r: nat, t0: nat, d: string)
    requires r < 10 && t0 == t * 10 + r && v == t0 * Pow(10, |d|) + DecVal(Reversed(d))
    ensures var e := d + ['0' + r as char];
      v == t * Pow(10, |e|) + DecVal(Reversed(e)) && |e| == |d| + 1
  {
    var c := '0' + r as char;
    ReversedPush(d, c);
    DecValConcat([c], Reversed(d));
    DigitOf(r);
    assert DecVal([c]) == r by {
      assert [c][..0] == [];
    }
    PeelStep(t, r, Pow(10, |d|), DecVal(Reversed(d)));
    PowSucc(10, |d|);
  }

  lemma PeelStep(t: nat, r: nat, p: nat, x: nat)
    ensures (t * 10 + r) * p + x == t * (10 * p) + (r * p + x)
  {
  }

  /** d2_digits: the decimal digits of q, most significant first. */
  method Digits(q: NBig, dig: array<char>) returns (n: nat)
    requires q.Norm() && q.V() < Pow(10, 1500) && dig.Length == 1504
    modifies dig
    ensures 1 <= n <= 1500 && AllDigits(dig[..n]) && DecVal(dig[..n]) == q.V()
    ensures q.V() > 0 ==> dig[0] != '0'
    ensures q.V() == 0 ==> n == 1
  {
    hide Num, W, Pow, DecVal;
    ghost var v := q.V();
    var t := new NBig();
    t.Assign(q);
    var z := t.IsZero();
    if z {
      dig[0] := '0';
      ZeroDigit(dig[..1]);
      return 1;
    }
    n := PeelDigits(t, dig);
    ghost var d := dig[..n];
    ReverseInPlace(dig, n);
    assert dig[..n] == Reversed(d);
  }

  lemma ZeroDigit(d: string)
    requires d == "0"
    ensures DecVal(d) == 0 && AllDigits(d)
  {
    assert d[..0] == [];
  }

  /** The division loop: digits come out least significant first. */
  method PeelDigits(t: NBig, dig: array<char>) returns (n: nat)
    requires t.Norm() && 0 < t.V() < Pow(10, 1500) && dig.Length == 1504
    modifies t`n, t.l, dig
    ensures 1 <= n <= 1500 && AllDigits(dig[..n])
    ensures DecVal(Reversed(dig[..n])) == old(t.V())
    ensures dig[n - 1] != '0'
  {
    hide Num, W, Pow, DecVal;
    ghost var v := t.V();
    n := 0;
    EmptyValue();
    PowZero();
    assert dig[..0] == [] && Reversed([]) == [];
    var z := false;
    while !z
      invariant t.Norm() && 0 <= n <= 1500 && (z <==> t.V() == 0)
      invariant AllDigits(dig[..n])
      invariant v == t.V() * Pow(10, n) + DecVal(Reversed(dig[..n]))
      invariant z ==> n > 0 && dig[n - 1] != '0'
      decreases t.V()
    {
      ghost var d := dig[..n];
      ghost var t0 := t.V();
      RoomForDigit(v, t0, n, DecVal(Reversed(d)));
      var r := t.DivModSmall(10);
      DigitOf(r);
      PeelDigit(v, t.V(), r, t0, d);
      dig[n] := '0' + r as char;
      n := n + 1;
      assert dig[..n] == d + ['0' + r as char];
      z := t.IsZero();
    }
  }

  lemma RoomForDigit(v: nat, t: nat, n: nat, x: nat)
    requires t > 0 && v == t * Pow(10, n) + x && v < Pow(10, 1500)
    ensures n < 1500
  {
    hide Pow;
    if n >= 1500 {
      PowMonotone(10, 1500, n);
      MulLe(1, t, Pow(10, n));
    }
  }

  /** The swap loop. */
  method ReverseInPlace(dig: array<char>, n: nat)
    requires n <= dig.Length
    modifies dig
    ensures dig[..n] == Reversed(old(dig[..n]))
  {
    ghost var d := dig[..n];
    var i := 0;
    while i < n / 2
      invariant 0 <= i <= n / 2
      invariant forall k :: 0 <= k < i ==> dig[k] == d[n - 1 - k] && dig[n - 1 - k] == d[k]
      invariant forall k :: i <= k < n - i ==> dig[k] == d[k]
    {
      var c := dig[i];
      dig[i] := dig[n - 1 - i];
      dig[n - 1 - i] := c;
      i := i + 1;
    }
  }

  /** A leading nonzero digit fixes how many digits there are. */
  lemma LeadingDigit(d: string)
    requires d != [] && AllDigits(d) && d[0] != '0'
    ensures Pow(10, |d| - 1) <= DecVal(d) < Pow(10, |d|)
  {
    hide Pow;
    DecValBound(d);
    var rest := d[1..];
    assert d == [d[0]] + rest;
    DecValConcat([d[0]], rest);
    assert DecVal([d[0]]) >= 1 by {
      assert [d[0]][..0] == [];
    }
    MulLe(1, DecVal([d[0]]), Pow(10, |rest|));
  }

  // ---- the decimal exponent ----

  ghost predicate Decade(v: real, X: int) {
    RPow(10, X) <= v < RPow(10, X + 1)
  }

  lemma DecadeUnique(v: real, X: int, Y: int)
    requires Decade(v, X) && Decade(v, Y)
    ensures X == Y
  {
    hide RPow;
    if X < Y {
      RPowMonotone(10, X + 1, Y);
    } else if Y < X {
      RPowMonotone(10, Y + 1, X);
    }
  }

  /** Every finite double lies well inside 10^-400 .. 10^400. */
  lemma DoubleRange(mant: nat, e2: int)
    requires InRange(mant, e2)
    ensures RPow(10, -400) <= Binary(mant, e2) < RPow(10, 400)
  {
    hide RPow, Pow, Pow2;
    RPowMonotone(2, -1074, e2);
    RPowMonotone(2, e2, 971);
    RPowPos(2, -1074);
    MantissaBits();
    RPow2Nat(53);
    RPowAdd(2, 53, 971);
    SpanStep(mant as real, RPow(2, e2), RPow(2, -1074), RPow(2, 971), RPow(2, 53), RPow(2, 1024));
    TenAgainstTwo();
    RPowMonotone(2, -1075, -1074);
  }

  lemma SpanStep(m: real, p: real, lo: real, hi: real, t: real, top: real)
    requires 1.0 <= m < t && 0.0 < lo <= p <= hi && top == t * hi
    ensures lo <= m * p < top
  {
    RMulLe(1.0, m, p);
    RangeTop(m * p, t * p, m, p, hi, t, top);
  }

  lemma RangeTop(mp: real, tp: real, m: real, p: real, hi: real, t: real, top: real)
    requires mp == m * p && tp == t * p && m < t && 0.0 < p <= hi && t > 0.0 && top == t * hi
    ensures mp < top
  {
    RMulLt(m, t, p);
    RMulLe(p, hi, t);
  }

  /** The two decade loops: from any guess in range they settle on the decimal exponent. */
  method FindDecade(mant: nat, e2: int, guess: int, p5: Pow5Cache) returns (X: int)
    requires InRange(mant, e2) && -400 <= guess <= 400 && p5.Valid()
    modifies p5`k, p5.cache`n, p5.cache.l
    ensures p5.Valid() && -400 <= X < 400 && Decade(Binary(mant, e2), X)
  {
    hide RPow, Binary;
    DoubleRange(mant, e2);
    X := guess;
    var ge := GePow10(mant, e2, X, p5);
    while X > -400 && !ge
      invariant p5.Valid() && -400 <= X <= 400
      invariant ge <==> Binary(mant, e2) >= RPow(10, X)
      decreases X + 400
    {
      X := X - 1;
      ge := GePow10(mant, e2, X, p5);
    }
    var up := false;
    if X < 400 {
      up := GePow10(mant, e2, X + 1, p5);
    }
    while X < 400 && up
      invariant p5.Valid() && -400 <= X <= 400
      invariant Binary(mant, e2) >= RPow(10, X)
      invariant X < 400 ==> (up <==> Binary(mant, e2) >= RPow(10, X + 1))
      decreases 400 - X
    {
      X := X + 1;
      if X < 400 {
        up := GePow10(mant, e2, X + 1, p5);
      }
    }
  }

  // ---- the rounded integer ----

  /** Scaling by 10^(sig-1-X) brings the value into [10^(sig-1), 10^sig). */
  lemma ScaledDecade(v: real, X: int, s: int)
    requires Decade(v, X)
    ensures RPow(10, X + s) <= Scale(v, s) < RPow(10, X + 1 + s)
  {
    hide RPow;
    RPowAdd(10, X, s);
    RPowAdd(10, X + 1, s);
    RPowPos(10, s);
    RMulLe(RPow(10, X), v, RPow(10, s));
    RMulLt(v, RPow(10, X + 1), RPow(10, s));
  }

  /** The rounded integer has exactly sig digits, or is 10^sig. */
  lemma RoundedDigits(x: real, sig: nat)
    requires sig >= 1 && RPow(10, sig - 1) <= x < RPow(10, sig)
    ensures Pow(10, sig - 1) <= HalfEven(x) <= Pow(10, sig)
  {
    hide RPow, Pow;
    RPowNat(10, sig - 1);
    RPowNat(10, sig);
    HalfEvenMonotone(RPow(10, sig - 1), x);
    HalfEvenMonotone(x, RPow(10, sig));
    HalfEvenInt(Pow(10, sig - 1));
    HalfEvenInt(Pow(10, sig));
  }

  // ---- text ----

  /** Copying digits i..j of the buffer to the output. */
  method CopyDigits(o: string, dig: array<char>, i: nat, j: nat) returns (out: string)
    requires i <= j <= dig.Length
    ensures out == o + dig[i..j]
  {
    out := o;
    var k := i;
    while k < j
      invariant i <= k <= j
      invariant out == o + dig[i..k]
    {
      out := out + [dig[k]];
      k := k + 1;
      assert dig[i..k] == dig[i..k - 1] + [dig[k - 1]];
    }
  }

  method PadZeros(o: string, n: nat) returns (out: string)
    ensures out == o + Zeros(n)
  {
    out := o;
    var k := 0;
    while k < n
      invariant 0 <= k <= n
      invariant out == o + Zeros(k)
    {
      out := out + "0";
      k := k + 1;
      assert Zeros(k) == Zeros(k - 1) + "0";
    }
  }

  /** Decimal(m * 10^k, e) == Decimal(m, e + k). */
  lemma DecimalShift(m: nat, k: nat, e: int)
    ensures Decimal(m * Pow(10, k), e) == Decimal(m, e + k)
  {
    hide RPow, Pow;
    RPowNat(10, k);
    RPowAdd(10, k, e);
    RealMul(m, Pow(10, k));
    Associate(m as real, RPow(10, k), RPow(10, e), RPow(10, e + k), (m * Pow(10, k)) as real, Decimal(m, e + k));
  }

  /** What a numeral denotes whose significant digits are K, the first worth 10^X. */
  ghost predicate Denotes(r: Rendered, K: string, X: int) {
    r.Valid() && NumeralValue(r.ip, r.fp, r.Exp()) == Decimal(DecVal(K), X + 1 - |K|)
  }

  lemma DenotesDirect(r: Rendered, K: string, X: int)
    requires r.Valid() && r.ip + r.fp == K && r.Exp() - |r.fp| == X + 1 - |K|
    ensures Denotes(r, K, X)
  {
    hide DecVal, Decimal;
  }

  lemma DenotesPadded(r: Rendered, K: string, X: int, front: nat, back: nat)
    requires r.Valid() && r.ip + r.fp == Zeros(front) + K + Zeros(back)
    requires r.Exp() - |r.fp| + back == X + 1 - |K|
    ensures Denotes(r, K, X)
  {
    hide DecVal, Decimal;
    var d := r.ip + r.fp;
    assert d == Zeros(front) + (K + Zeros(back));
    DecValPad(front, K + Zeros(back), 0);
    DecValPad(0, K, back);
    DecimalShift(DecVal(K), back, r.Exp() - |r.fp|);
  }

  /** Two or three exponent digits. */
  function ExpDigits(xe: nat): (d: string)
    requires xe < 1000
  {
    (if xe / 100 > 0 then ['0' + (xe / 100) as char] else [])
    + ['0' + (xe / 10 % 10) as char, '0' + (xe % 10) as char]
  }

  lemma TwoMore(h: string, v: nat, b: nat, c: nat)
    requires AllDigits(h) && DecVal(h) == v && b < 10 && c < 10
    ensures var d := h + ['0' + b as char, '0' + c as char]; AllDigits(d) && DecVal(d) == (v * 10 + b) * 10 + c
  {
    hide DecVal;
    DigitOf(b);
    DigitOf(c);
    var h1 := h + ['0' + b as char];
    DecValPush(h, '0' + b as char);
    DecValPush(h1, '0' + c as char);
    assert h + ['0' + b as char, '0' + c as char] == h1 + ['0' + c as char];
  }

  lemma OneDigit(a: nat)
    requires a < 10
    ensures var h := if a > 0 then ['0' + a as char] else []; AllDigits(h) && DecVal(h) == a
  {
    hide DecVal;
    EmptyValue();
    DigitOf(a);
    if a > 0 {
      DecValPush([], '0' + a as char);
      assert [] + ['0' + a as char] == ['0' + a as char];
    }
  }

  lemma ExpDigitsValue(xe: nat)
    requires xe < 1000
    ensures AllDigits(ExpDigits(xe)) && DecVal(ExpDigits(xe)) == xe && |ExpDigits(xe)| >= 2
  {
    hide DecVal, AllDigits;
    OneDigit(xe / 100);
    TwoMore(if xe / 100 > 0 then ['0' + (xe / 100) as char] else [], xe / 100, xe / 10 % 10, xe % 10);
    assert (xe / 100 * 10 + xe / 10 % 10) * 10 + xe % 10 == xe;
  }

  // The three shapes of a nonzero result, from its significant digits K and the exponent X of the first one.

  /** d.ddde+dd */
  function ExpForm(neg: bool, K: string, X: int, upper: bool): Rendered
    requires K != [] && -999 <= X <= 999
  {
    Rendered(neg, K[..1], K[1..], if upper then "E" else "e", X < 0, ExpDigits(if X < 0 then -X else X))
  }

  /** ddd.ddd, ddd000 or 0.000ddd */
  function PlainForm(neg: bool, K: string, X: int): Rendered {
    if X < 0 then Rendered(neg, "0", Zeros(-X - 1) + K, "", false, "")
    else if X + 1 < |K| then Rendered(neg, K[..X + 1], K[X + 1..], "", false, "")
    else Rendered(neg, K + Zeros(X + 1 - |K|), "", "", false, "")
  }

  /** Digits D with the point prec places from the right. */
  function FixedForm(neg: bool, D: string, prec: nat): Rendered {
    if |D| <= prec then Rendered(neg, "0", Zeros(prec - |D|) + D, "", false, "")
    else Rendered(neg, D[..|D| - prec], D[|D| - prec..], "", false, "")
  }

  lemma ExpFormDenotes(neg: bool, K: string, X: int, upper: bool)
    requires K != [] && AllDigits(K) && -999 <= X <= 999
    ensures Denotes(ExpForm(neg, K, X, upper), K, X)
  {
    hide DecVal, Denotes, ExpDigits;
    var r := ExpForm(neg, K, X, upper);
    ExpDigitsValue(if X < 0 then -X else X);
    assert r.ip + r.fp == K;
    DenotesDirect(r, K, X);
  }

  lemma PlainFormDenotes(neg: bool, K: string, X: int)
    requires K != [] && AllDigits(K)
    ensures Denotes(PlainForm(neg, K, X), K, X)
  {
    hide DecVal, Denotes;
    var r := PlainForm(neg, K, X);
    EmptyValue();
    if X < 0 {
      assert r.ip + r.fp == Zeros(-X) + K + Zeros(0);
      DenotesPadded(r, K, X, -X, 0);
    } else if X + 1 < |K| {
      assert r.ip + r.fp == K;
      DenotesDirect(r, K, X);
    } else {
      assert r.ip + r.fp == Zeros(0) + K + Zeros(X + 1 - |K|);
      DenotesPadded(r, K, X, 0, X + 1 - |K|);
    }
  }

  lemma NoDigits()
    ensures AllDigits([]) && AllDigits("0")
  {
  }

  lemma PartDigits(D: string, i: nat)
    requires AllDigits(D) && i <= |D|
    ensures AllDigits(D[..i]) && AllDigits(D[i..])
  {
  }

  lemma ZerosInFront(n: nat, D: string)
    requires AllDigits(D)
    ensures |Zeros(n)| == n && AllDigits(Zeros(n) + D) && DecVal("0" + (Zeros(n) + D)) == DecVal(D)
  {
    hide DecVal;
    DecValPad(n + 1, D, 0);
    assert "0" + (Zeros(n) + D) == Zeros(n + 1) + D;
  }

  lemma FixedFormDenotes(neg: bool, D: string, prec: nat)
    requires D != [] && AllDigits(D)
    ensures var r := FixedForm(neg, D, prec);
      r.Valid() && |r.fp| == prec && NumeralValue(r.ip, r.fp, r.Exp()) == Decimal(DecVal(D), 0 - prec)
  {
    hide DecVal, Decimal, AllDigits, Zeros, NumeralValue;
    if |D| <= prec {
      ShortFixed(neg, D, prec);
    } else {
      LongFixed(neg, D, prec);
    }
  }

  lemma ShortFixed(neg: bool, D: string, prec: nat)
    requires AllDigits(D) && 0 < |D| <= prec
    ensures var r := Rendered(neg, "0", Zeros(prec - |D|) + D, "", false, "");
      r.Valid() && |r.fp| == prec && NumeralValue(r.ip, r.fp, r.Exp()) == Decimal(DecVal(D), 0 - prec)
  {
    hide DecVal, Decimal, AllDigits, Zeros, NumeralValue;
    NoDigits();
    ZerosInFront(prec - |D|, D);
    PlainValue("0", Zeros(prec - |D|) + D, DecVal(D), neg);
  }

  lemma LongFixed(neg: bool, D: string, prec: nat)
    requires AllDigits(D) && prec < |D|
    ensures var r := Rendered(neg, D[..|D| - prec], D[|D| - prec..], "", false, "");
      r.Valid() && |r.fp| == prec && NumeralValue(r.ip, r.fp, r.Exp()) == Decimal(DecVal(D), 0 - prec)
  {
    hide DecVal, Decimal, AllDigits, NumeralValue;
    NoDigits();
    PartDigits(D, |D| - prec);
    assert D[..|D| - prec] + D[|D| - prec..] == D;
    PlainValue(D[..|D| - prec], D[|D| - prec..], DecVal(D), neg);
  }

  /** Without an exponent field a numeral is its digits over 10^|fp|. */
  lemma PlainValue(ip: string, fp: string, n: nat, neg: bool)
    requires DecVal(ip + fp) == n
    ensures NumeralValue(ip, fp, Rendered(neg, ip, fp, "", false, "").Exp()) == Decimal(n, 0 - |fp|)
  {
    hide DecVal, Decimal;
    EmptyValue();
  }

  lemma JoinPoint(h: string, i: string, f: string, t: string)
    ensures h + i + "." + f + t == h + i + ("." + f) + t
  {
  }

  lemma JoinTail(b: string, m: string, s: string, e: string)
    ensures b + m + s + e == b + (m + s + e)
  {
  }

  lemma JoinDigits(h: string, a: string, b: string)
    ensures (h + a) + b == h + (a + b)
  {
  }

  method EmitExponential(o: string, neg: bool, dig: array<char>, nd: nat, ecap: nat, X: int, upper: bool)
    returns (out: string)
    requires o == (if neg then "-" else "") && 1 <= nd <= dig.Length
    requires ecap >= 1 && (ecap > 1 ==> nd > 1) && -999 <= X <= 999
    ensures out == ExpForm(neg, dig[..if nd < ecap then nd else ecap], X, upper).Text()
  {
    hide ExpDigits;
    ghost var K := dig[..if nd < ecap then nd else ecap];
    ghost var r := ExpForm(neg, K, X, upper);
    out := o + [dig[0]];
    assert [dig[0]] == r.ip;
    if ecap > 1 {
      out := CopyDigits(out + ".", dig, 1, if nd < ecap then nd else ecap);
      assert dig[1..if nd < ecap then nd else ecap] == r.fp;
      JoinPoint(o, r.ip, r.fp, "");
    }
    ghost var body := o + r.ip + r.Frac();
    assert out == body;
    var xe := if X < 0 then -X else X;
    var mark := if upper then "E" else "e";
    var sgn := if X < 0 then "-" else "+";
    out := out + mark;
    out := out + sgn;
    out := out + ExpDigits(xe);
    JoinTail(body, mark, sgn, ExpDigits(xe));
  }

  lemma PlainText(o: string, neg: bool, K: string, X: int)
    requires o == (if neg then "-" else "") && K != []
    ensures PlainForm(neg, K, X).Text() ==
            if X < 0 then o + "0." + Zeros(0 - X - 1) + K
            else if X + 1 < |K| then o + K[..X + 1] + "." + K[X + 1..]
            else o + K + Zeros(X + 1 - |K|)
  {
    if X < 0 {
      assert o + "0" + ("." + (Zeros(0 - X - 1) + K)) == o + "0." + Zeros(0 - X - 1) + K;
    } else if X + 1 < |K| {
      assert o + K[..X + 1] + ("." + K[X + 1..]) == o + K[..X + 1] + "." + K[X + 1..];
    } else {
      JoinDigits(o, K, Zeros(X + 1 - |K|));
    }
  }

  method EmitPlain(o: string, neg: bool, dig: array<char>, nd: nat, X: int) returns (out: string)
    requires o == (if neg then "-" else "") && 1 <= nd <= dig.Length
    ensures out == PlainForm(neg, dig[..nd], X).Text()
  {
    hide PlainForm, Rendered.Text;
    ghost var K := dig[..nd];
    PlainText(o, neg, K, X);
    if X >= 0 {
      var i := if X + 1 < nd then X + 1 else nd;
      out := CopyDigits(o, dig, 0, i);
      assert dig[0..i] == K[..i];
      if i <= X {
        out := PadZeros(out, X + 1 - i);
      }
      if i < nd {
        out := CopyDigits(out + ".", dig, i, nd);
        assert dig[i..nd] == K[i..];
      } else {
        assert K[..i] == K;
        assert i == X + 1 ==> Zeros(X + 1 - nd) == "" && out + "" == out;
      }
    } else {
      out := o + "0.";
      out := PadZeros(out, -X - 1);
      out := CopyDigits(out, dig, 0, nd);
      assert dig[0..nd] == K;
    }
  }

  lemma FixedText(o: string, neg: bool, D: string, prec: nat)
    requires o == (if neg then "-" else "") && D != []
    ensures FixedForm(neg, D, prec).Text() ==
            if |D| <= prec then o + "0." + Zeros(prec - |D|) + D
            else if prec > 0 then o + D[..|D| - prec] + "." + D[|D| - prec..]
            else o + D
  {
    if |D| <= prec {
      assert o + "0" + ("." + (Zeros(prec - |D|) + D)) == o + "0." + Zeros(prec - |D|) + D;
    } else if prec > 0 {
      assert o + D[..|D| - prec] + ("." + D[|D| - prec..]) == o + D[..|D| - prec] + "." + D[|D| - prec..];
    } else {
      assert D[..|D|] == D && D[|D|..] == [];
    }
  }

  method EmitFixed(o: string, neg: bool, dig: array<char>, nd: nat, prec: nat) returns (out: string)
    requires o == (if neg then "-" else "") && 1 <= nd <= dig.Length
    ensures out == FixedForm(neg, dig[..nd], prec).Text()
  {
    hide FixedForm, Rendered.Text, Zeros;
    ghost var D := dig[..nd];
    FixedText(o, neg, D, prec);
    if nd <= prec {
      out := o + "0.";
      out := PadZeros(out, prec - nd);
      out := CopyDigits(out, dig, 0, nd);
      assert dig[0..nd] == D;
    } else {
      out := CopyDigits(o, dig, 0, nd - prec);
      assert dig[0..nd - prec] == D[..nd - prec];
      if prec > 0 {
        out := CopyDigits(out + ".", dig, nd - prec, nd);
        assert dig[nd - prec..nd] == D[nd - prec..];
      } else {
        assert D[..nd] == D;
      }
    }
  }

  // ---- the e and g styles ----

  /** N is v rounded to sig significant digits, X the decimal exponent of v. */
  ghost predicate RoundedTo(v: real, sig: int, X: int, N: nat) {
    Decade(v, X) && N == HalfEven(Scale(v, sig - 1 - X))
  }

  /** The exponent of the first printed digit: one more when rounding carried to 10^sig. */
  function ShownExp(sig: nat, X: int, N: nat): int {
    if N == Pow(10, sig) then X + 1 else X
  }

  /** K are the digits of N, trailing zeros dropped down to |K| of them. */
  ghost predicate DigitsOf(K: string, sig: nat, N: nat) {
    && K != [] && AllDigits(K) && K[0] != '0' && |K| <= sig
    && DecVal(K) * Pow(10, sig - |K| + (if N == Pow(10, sig) then 1 else 0)) == N
  }

  /** The numeral shown for digits K: 'e' always uses an exponent, 'g' only outside -4 <= X < sig. */
  function ShownForm(neg: bool, K: string, X: int, sig: nat, g: bool, upper: bool): Rendered
    requires K != [] && -999 <= X <= 999
  {
    if !g || X < -4 || X >= sig then ExpForm(neg, K, X, upper) else PlainForm(neg, K, X)
  }

  /** Any such numeral denotes the rounded value exactly. */
  lemma ShownValue(neg: bool, K: string, X: int, sig: nat, N: nat, g: bool, upper: bool)
    requires DigitsOf(K, sig, N) && -900 <= X <= 900
    ensures var r := ShownForm(neg, K, ShownExp(sig, X, N), sig, g, upper);
      && r.Valid() && r.neg == neg
      && NumeralValue(r.ip, r.fp, r.Exp()) == Decimal(N, X + 1 - sig)
      && |r.ip| + |r.fp| <= sig + 5
  {
    hide DecVal, Pow, Decimal, NumeralValue;
    var X1 := ShownExp(sig, X, N);
    var r := ShownForm(neg, K, X1, sig, g, upper);
    var drop := sig - |K| + (if N == Pow(10, sig) then 1 else 0);
    DecimalShift(DecVal(K), drop, X + 1 - sig);
    if !g || X1 < -4 || X1 >= sig {
      ExpFormDenotes(neg, K, X1, upper);
    } else {
      PlainFormDenotes(neg, K, X1);
    }
  }

  /** How many digits the rounded integer has. */
  lemma DigitCount(D: string, sig: nat, N: nat)
    requires D != [] && AllDigits(D) && D[0] != '0' && DecVal(D) == N && sig >= 1
    requires Pow(10, sig - 1) <= N <= Pow(10, sig)
    ensures |D| == if N == Pow(10, sig) then sig + 1 else sig
  {
    hide Pow, DecVal;
    LeadingDigit(D);
    if |D| < sig {
      PowMonotone(10, |D|, sig - 1);
    } else if |D| > sig + 1 {
      PowMonotone(10, sig + 1, |D| - 1);
      PowSucc(10, sig);
    } else if |D| == sig + 1 {
      assert N >= Pow(10, sig);
    } else {
      assert N < Pow(10, sig);
    }
  }

  /** The digit after the first sig of 10^sig is a zero. */
  lemma CutDigits(D: string, sig: nat, N: nat)
    requires D != [] && AllDigits(D) && D[0] != '0' && DecVal(D) == N && sig >= 1
    requires Pow(10, sig - 1) <= N <= Pow(10, sig)
    ensures sig <= |D| && DigitsOf(D[..sig], sig, N)
  {
    hide Pow, DecVal;
    DigitCount(D, sig, N);
    if |D| == sig + 1 {
      DecValPush(D[..sig], D[sig]);
      assert D == D[..sig] + [D[sig]];
      PowSucc(10, sig - 1);
      PowSucc(10, 0);
      PowZero();
    } else {
      assert D[..sig] == D;
      PowZero();
    }
  }

  /** Dropping one trailing zero. */
  lemma DropZero(K: string, d: nat, N: nat)
    requires |K| > 1 && K[|K| - 1] == '0' && DecVal(K) * Pow(10, d) == N
    ensures DecVal(K[..|K| - 1]) * Pow(10, d + 1) == N
  {
    hide Pow, DecVal;
    DecValPush(K[..|K| - 1], K[|K| - 1]);
    assert K == K[..|K| - 1] + [K[|K| - 1]];
    PowSucc(10, d);
    DropStep(DecVal(K[..|K| - 1]), Pow(10, d));
  }

  lemma DropStep(k: nat, p: nat)
    ensures (k * 10 + 0) * p == k * (10 * p)
  {
  }

  /** The strip loop of the g style. */
  method StripZeros(dig: array<char>, nd0: nat, sig: nat, ghost N: nat) returns (nd: nat)
    requires 1 <= nd0 <= dig.Length && AllDigits(dig[..nd0]) && dig[0] != '0' && DecVal(dig[..nd0]) == N
    requires nd0 == sig + (if N == Pow(10, sig) then 1 else 0) && sig >= 1
    ensures 1 <= nd <= nd0 && DigitsOf(dig[..nd], sig, N)
    ensures nd > 1 ==> dig[nd - 1] != '0'
  {
    hide DecVal, Pow;
    nd := nd0;
    PowZero();
    while nd > 1 && dig[nd - 1] == '0'
      invariant 1 <= nd <= nd0
      invariant DecVal(dig[..nd]) * Pow(10, nd0 - nd) == N
    {
      DropZero(dig[..nd], nd0 - nd, N);
      assert dig[..nd][..nd - 1] == dig[..nd - 1];
      nd := nd - 1;
    }
    CarryDigits(dig[..nd0], dig[..nd], sig, N);
  }

  /** A carry to 10^sig leaves at least one zero to strip. */
  lemma CarryDigits(D: string, K: string, sig: nat, N: nat)
    requires 1 <= |K| <= |D| && K == D[..|K|] && AllDigits(D) && D[0] != '0' && DecVal(D) == N
    requires |D| == sig + (if N == Pow(10, sig) then 1 else 0) && sig >= 1
    requires DecVal(K) * Pow(10, |D| - |K|) == N
    requires |K| > 1 ==> K[|K| - 1] != '0'
    ensures DigitsOf(K, sig, N)
  {
    hide DecVal, Pow;
    if |K| > sig {
      assert K == D;
      DecValPush(D[..sig], D[sig]);
      assert D == D[..sig] + [D[sig]];
      PowSucc(10, sig - 1);
    }
  }

  /** One nonzero double in the e or g style. */
  method FormatSignificant(neg: bool, mant: nat, e2: int, sig: nat, g: bool, upper: bool, guess: int, p5: Pow5Cache)
    returns (out: string, ghost K: string, ghost X0: int, ghost N: nat)
    requires InRange(mant, e2) && 1 <= sig <= 1081 && -400 <= guess <= 400 && p5.Valid()
    modifies p5`k, p5.cache`n, p5.cache.l
    ensures p5.Valid()
    ensures RoundedTo(Binary(mant, e2), sig, X0, N) && -400 <= X0 < 400
    ensures DigitsOf(K, sig, N) && (if g then |K| > 1 ==> K[|K| - 1] != '0' else |K| == sig)
    ensures out == ShownForm(neg, K, ShownExp(sig, X0, N), sig, g, upper).Text()
  {
    hide Pow, RPow, DecVal, Num, HalfEven, Binary, Decade, DigitsOf, ShownForm, Rendered.Text;
    var X, q;
    X, q, N := RoundSignificant(mant, e2, sig, guess, p5);
    X0 := X;
    var dig := new char[1504];
    SmallInteger(N, sig);
    PowPositive(sig - 1);
    var nd := Digits(q, dig);
    DigitCount(dig[..nd], sig, N);
    CutDigits(dig[..nd], sig, N);
    assert dig[..nd][..sig] == dig[..sig];
    if nd == sig + 1 {
      X := X + 1;
    }
    var o := if neg then "-" else "";
    if g {
      nd := StripZeros(dig, nd, sig, N);
    }
    K := dig[..if g then nd else sig];
    out := EmitShown(o, neg, dig, nd, X, sig, g, upper);
  }

  /** Choosing and writing the notation. */
  method EmitShown(o: string, neg: bool, dig: array<char>, nd: nat, X: int, sig: nat, g: bool, upper: bool)
    returns (out: string)
    requires o == (if neg then "-" else "") && 1 <= nd <= dig.Length && -999 <= X <= 999
    requires !g ==> 1 <= sig <= nd
    ensures out == ShownForm(neg, dig[..if g then nd else sig], X, sig, g, upper).Text()
  {
    hide ExpForm, PlainForm;
    if g {
      if X < -4 || X >= sig {
        out := EmitExponential(o, neg, dig, nd, nd, X, upper);
      } else {
        out := EmitPlain(o, neg, dig, nd, X);
      }
    } else {
      out := EmitExponential(o, neg, dig, nd, sig, X, upper);
    }
  }

  lemma PowPositive(k: nat)
    ensures Pow(10, k) > 0
  {
  }

  lemma SmallInteger(N: nat, sig: nat)
    requires N <= Pow(10, sig) && sig <= 1081
    ensures N < Pow(10, 1500)
  {
    hide Pow;
    PowMonotone(10, sig + 1, 1500);
    PowSucc(10, sig);
    PowPositive(sig);
  }

  /** The decimal exponent and the rounded integer. */
  method RoundSignificant(mant: nat, e2: int, sig: nat, guess: int, p5: Pow5Cache)
    returns (X: int, q: NBig, ghost N: nat)
    requires InRange(mant, e2) && 1 <= sig <= 1081 && -400 <= guess <= 400 && p5.Valid()
    modifies p5`k, p5.cache`n, p5.cache.l
    ensures p5.Valid() && fresh(q) && fresh(q.l) && q.Norm() && q.V() == N
    ensures RoundedTo(Binary(mant, e2), sig, X, N) && -400 <= X < 400
    ensures Pow(10, sig - 1) <= N <= Pow(10, sig)
  {
    hide Pow, RPow, Num, HalfEven, Binary, Decade, Scale;
    X := FindDecade(mant, e2, guess, p5);
    ScaledDecade(Binary(mant, e2), X, sig - 1 - X);
    RoundedDigits(Scaled10(mant, e2, sig - 1 - X), sig);
    RPowMonotone(10, 0, sig - 1);
    RPowZero(10);
    q := new NBig();
    RoundPow10(q, mant, e2, sig - 1 - X, p5);
    N := q.V();
  }

  // ---- the f style ----

  lemma FixedBound(v: real, prec: nat, N: int)
    requires 0.0 <= v < RPow(10, 400) && prec <= 1080 && N == HalfEven(Scale(v, prec))
    ensures 0 <= N < Pow(10, 1500)
  {
    hide RPow, Pow, HalfEven;
    RPowAdd(10, 400, prec);
    RPowPos(10, prec);
    RMulLt(v, RPow(10, 400), RPow(10, prec));
    RMulLe(0.0, v, RPow(10, prec));
    RPowNat(10, 400 + prec);
    HalfEvenMonotone(0.0, Scale(v, prec));
    HalfEvenMonotone(Scale(v, prec), Pow(10, 400 + prec) as real);
    HalfEvenInt(Pow(10, 400 + prec));
    HalfEvenInt(0);
    PowMonotone(10, 401 + prec, 1500);
    PowSucc(10, 400 + prec);
    PowPositive(400 + prec);
  }

  /** One nonzero double in the f style. */
  method FormatFixed(neg: bool, mant: nat, e2: int, prec: nat, p5: Pow5Cache)
    returns (out: string, ghost D: string, ghost N: nat)
    requires InRange(mant, e2) && prec <= 1080 && p5.Valid()
    modifies p5`k, p5.cache`n, p5.cache.l
    ensures p5.Valid()
    ensures N == HalfEven(Scale(Binary(mant, e2), prec))
    ensures D == DigitText(N) && out == FixedForm(neg, D, prec).Text()
  {
    hide Pow, RPow, DecVal, DigitText, Num, HalfEven, Binary, Scale;
    var q := new NBig();
    RoundPow10(q, mant, e2, prec, p5);
    N := q.V();
    DoubleRange(mant, e2);
    RPowPos(10, -400);
    FixedBound(Binary(mant, e2), prec, N);
    var dig := new char[1504];
    var nd := Digits(q, dig);
    D := dig[..nd];
    DigitTextUnique(D, N);
    out := EmitFixed(if neg then "-" else "", neg, dig, nd, prec);
  }

  // ---- zan_fmt_double ----

  datatype Style = StyleE | StyleF | StyleG

  /** The precision after the two clamps, and the significant digits asked for. */
  function Precision(prec: int): nat {
    if prec < 0 then 6 else if prec > 1080 then 1080 else prec
  }

  function Significant(style: Style, prec: int): nat {
    if style == StyleE then Precision(prec) + 1
    else if Precision(prec) == 0 then 1 else Precision(prec)
  }

  /** What zero prints as, its sign apart. */
  function ZeroText(style: Style, upper: bool, prec: nat): string {
    match style
    case StyleG => "0"
    case StyleE => "0." + Zeros(prec) + (if upper then "E+00" else "e+00")
    case StyleF => if prec > 0 then "0." + Zeros(prec) else "0"
  }

  predicate IsFinite(mag: nat) {
    BiasedExp(mag) < 0x7ff
  }

  lemma FiniteRange(mag: nat)
    requires IsFinite(mag) && mag > 0
    ensures InRange(Mantissa(mag), Exponent(mag)) && Value(mag) == Binary(Mantissa(mag), Exponent(mag))
  {
    hide RPow;
  }

  lemma MantissaZero(mag: nat)
    ensures Mantissa(mag) == 0 <==> mag == 0
  {
  }

  /** zan_fmt_double; guess stands for the floating-point estimate of the decimal exponent. */
  method FmtDouble(bits: nat, prec0: int, style: Style, upper: bool, guess: int, p5: Pow5Cache)
    returns (out: string, ghost K: string, ghost X: int, ghost N: nat)
    requires bits < 2 * SIGN && -400 <= guess <= 400 && p5.Valid()
    modifies p5`k, p5.cache`n, p5.cache.l
    ensures p5.Valid()
    ensures var neg, mag := bits >= SIGN, bits % SIGN;
      var o := if neg then "-" else "";
      && (!IsFinite(mag) ==> out == o + (if Fraction(mag) != 0 then "nan" else "inf"))
      && (mag == 0 ==> out == o + ZeroText(style, upper, Precision(prec0)))
      && (IsFinite(mag) && mag > 0 && style == StyleF ==>
            && N == HalfEven(Scale(Value(mag), Precision(prec0))) && K == DigitText(N)
            && out == FixedForm(neg, K, Precision(prec0)).Text())
      && (IsFinite(mag) && mag > 0 && style != StyleF ==>
            var sig, g := Significant(style, prec0), style == StyleG;
            && RoundedTo(Value(mag), sig, X, N) && -400 <= X < 400
            && DigitsOf(K, sig, N) && (if g then |K| > 1 ==> K[|K| - 1] != '0' else |K| == sig)
            && out == ShownForm(neg, K, ShownExp(sig, X, N), sig, g, upper).Text())
  {
    hide DecVal, DigitText, Value, HalfEven, Scale, RoundedTo, DigitsOf, ShownForm, FixedForm, Binary;
    var neg := bits >= SIGN;
    var mag := bits % SIGN;
    var be, fr := BiasedExp(mag), Fraction(mag);
    var prec := Precision(prec0);
    out := if neg then "-" else "";
    K, X, N := "", 0, 0;
    if be == 0x7ff {
      out := out + (if fr != 0 then "nan" else "inf");
      return;
    }
    if be > 0x7ff {
      assert false;
    }
    var mant := Mantissa(mag);
    var e2 := Exponent(mag);
    MantissaZero(mag);
    if mant == 0 {
      ghost var o := out;
      if style == StyleG {
        out := out + "0";
      } else if style == StyleE {
        out := PadZeros(out + "0" + ".", prec);
        out := out + (if upper then "E+00" else "e+00");
        JoinZero(o, Zeros(prec), if upper then "E+00" else "e+00");
      } else {
        out := out + "0";
        if prec > 0 {
          out := PadZeros(out + ".", prec);
          JoinZero(o, Zeros(prec), "");
        }
      }
      return;
    }
    FiniteRange(mag);
    if style == StyleF {
      out, K, N := FormatFixed(neg, mant, e2, prec, p5);
    } else {
      out, K, X, N := FormatSignificant(neg, mant, e2, Significant(style, prec0), style == StyleG, upper, guess, p5);
    }
  }

  lemma JoinZero(o: string, z: string, t: string)
    ensures o + "0" + "." + z + t == o + ("0." + z + t)
    ensures o + "0" + "." + z == o + ("0." + z)
  {
    assert "0" + "." == "0.";
  }
}

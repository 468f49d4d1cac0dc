/** What the printed text looks like: its notation, digits, point and exponent, from the rounded decimal alone. */
module FormatTexts {
  import opened Arith
  import opened Exact
  import opened Ieee
  import opened DecimalText
  import opened Division
  import opened Format

  /** Digits, an optional point and fraction, an optional exponent. */
  datatype Shown = Shown(ip: string, fp: string, letter: string, esign: string, ed: string)
  {
    function Text(): string {
      ip + (if fp == "" then "" else "." + fp) + letter + esign + ed
    }

    ghost function Value(): real {
      Decimal(DecVal(ip + fp), (if esign == "-" then 0 - DecVal(ed) else DecVal(ed)) - |fp|)
    }

    /** No leading zero but a single one; one digit before the point and two or three in a signed exponent. */
    predicate Spelled() {
      && ip != "" && AllDigits(ip) && AllDigits(fp) && AllDigits(ed)
      && if letter == "" then esign == "" && ed == "" && (|ip| > 1 ==> ip[0] != '0')
         else |ip| == 1 && ip[0] != '0' && (letter == "e" || letter == "E")
              && (esign == "+" || (esign == "-" && DecVal(ed) > 0)) && |ed| == if DecVal(ed) < 100 then 2 else 3
    }
  }

  /** d is v > 0 rounded half to even to S significant digits. */
  ghost predicate ToDigits(v: real, S: nat, d: real) {
    exists X: int ::
      RPow(10, X) <= v < RPow(10, X + 1) && d == HalfEven(v * RPow(10, S - 1 - X)) as real * RPow(10, X + 1 - S)
  }

  /** d is v rounded half to even to P decimals. */
  ghost predicate ToPlaces(v: real, P: nat, d: real) {
    d == HalfEven(v * RPow(10, P)) as real * RPow(10, 0 - P)
  }

  /** The numeral t for a nonzero magnitude v in each style. */
  ghost predicate Fits(style: Style, upper: bool, P: nat, v: real, d: real, t: Shown) {
    var letter, S := if upper then "E" else "e", if P == 0 then 1 else P;
    && t.Spelled() && t.Value() == d
    && match style
       case StyleF => ToPlaces(v, P, d) && t.letter == "" && |t.fp| == P
       case StyleE => ToDigits(v, P + 1, d) && t.letter == letter && |t.fp| == P
       case StyleG =>
         && ToDigits(v, S, d) && t.letter == (if d < RPow(10, -4) || d >= RPow(10, S) then letter else "")
         && (t.fp != "" ==> t.fp[|t.fp| - 1] != '0')
  }

  function ZeroShown(style: Style, upper: bool, P: nat): string {
    match style
    case StyleG => "0"
    case StyleE => "0." + Zeros(P) + (if upper then "E+00" else "e+00")
    case StyleF => if P == 0 then "0" else "0." + Zeros(P)
  }

  // ---- the rounded decimal and its decade ----

  lemma RoundedDecade(v: real, sig: nat, X: int, N: nat)
    requires RoundedTo(v, sig, X, N) && sig >= 1
    ensures N > 0 && Decade(Decimal(N, X + 1 - sig), ShownExp(sig, X, N))
  {
    hide RPow, Pow, HalfEven;
    ScaledDecade(v, X, sig - 1 - X);
    RoundedDigits(Scale(v, sig - 1 - X), sig);
    if N < Pow(10, sig) {
      DecadeOf(N, sig - 1, X + 1 - sig);
    }
    DecadeOfTen(sig, X + 1 - sig);
    PowPositive(sig - 1);
  }

  lemma DecadeOf(N: nat, k: nat, e: int)
    requires Pow(10, k) <= N < Pow(10, k + 1)
    ensures Decade(Decimal(N, e), k + e)
  {
    hide RPow, Pow;
    RPowNat(10, k);
    RPowNat(10, k + 1);
    RPowPos(10, e);
    RPowAdd(10, k, e);
    RPowAdd(10, k + 1, e);
    DecadeStep(N as real, RPow(10, k), RPow(10, k + 1), RPow(10, e), RPow(10, k + e), RPow(10, k + 1 + e));
  }

  lemma DecadeStep(n: real, lo: real, hi: real, s: real, low: real, high: real)
    requires lo <= n < hi && s > 0.0 && low == lo * s && high == hi * s
    ensures low <= n * s < high
  {
    RMulLe(lo, n, s);
    RMulLt(n, hi, s);
  }

  lemma DecadeOfTen(k: nat, e: int)
    ensures Decade(Decimal(Pow(10, k), e), k + e)
  {
    hide RPow, Pow;
    PowMore(k);
    DecadeOf(Pow(10, k), k, e);
  }

  lemma PowMore(k: nat)
    ensures Pow(10, k) < Pow(10, k + 1)
  {
    PowPositive(k);
  }

  /** A value of decade X is at least 10^S exactly when X >= S. */
  lemma DecadeCompare(d: real, X: int, S: int)
    requires Decade(d, X)
    ensures d >= RPow(10, S) <==> X >= S
  {
    hide RPow;
    if X >= S {
      RPowMonotone(10, S, X);
    } else {
      RPowMonotone(10, X + 1, S);
    }
  }

  // ---- the three shapes ----

  /** A numeral of the formatter as the pieces of its text. */
  function ShownOf(r: Rendered): Shown {
    Shown(r.ip, r.fp, r.mark, if r.mark == "" then "" else if r.eneg then "-" else "+", r.ed)
  }

  lemma SameText(r: Rendered)
    requires r.Valid()
    ensures r.Text() == (if r.neg then "-" else "") + ShownOf(r).Text()
    ensures ShownOf(r).Value() == NumeralValue(r.ip, r.fp, r.Exp())
  {
    hide DecVal, Decimal;
    EmptyValue();
    var t := ShownOf(r);
    assert (if r.mark == "" then "" else if r.eneg then "-" else "+") == t.esign;
    TextPieces(r, if r.neg then "-" else "");
  }

  lemma TextPieces(r: Rendered, o: string)
    requires r.Valid()
    ensures o + r.ip + r.Frac() + r.Tail() == o + ShownOf(r).Text()
  {
    hide DecVal;
    assert ShownOf(r).Text() == r.ip + r.Frac() + r.Tail();
  }

  lemma ExponentSpelled(neg: bool, K: string, X: int, upper: bool)
    requires K != [] && AllDigits(K) && K[0] != '0' && -999 <= X <= 999
    ensures var t := ShownOf(ExpForm(neg, K, X, upper));
            && t.Spelled() && t.letter == (if upper then "E" else "e") && |t.fp| == |K| - 1
            && (t.fp != "" ==> |K| > 1 && t.fp[|t.fp| - 1] == K[|K| - 1])
  {
    hide DecVal, ExpDigits;
    var xe := if X < 0 then -X else X;
    ExpDigitsValue(xe);
    ExpDigitsLength(xe);
  }

  lemma ExpDigitsLength(xe: nat)
    requires xe < 1000
    ensures |ExpDigits(xe)| == if xe < 100 then 2 else 3
  {
  }

  lemma PlainSpelled(neg: bool, K: string, X: int)
    requires K != [] && AllDigits(K) && K[0] != '0'
    ensures var t := ShownOf(PlainForm(neg, K, X));
            && t.Spelled() && t.letter == ""
            && (t.fp != "" ==> t.fp[|t.fp| - 1] == K[|K| - 1] && (|K| == 1 ==> K[0] != '0'))
  {
    hide DecVal;
  }

  lemma FixedSpelled(neg: bool, D: string, prec: nat)
    requires D != [] && AllDigits(D) && (|D| > 1 ==> D[0] != '0')
    ensures var t := ShownOf(FixedForm(neg, D, prec));
            t.Spelled() && t.letter == "" && |t.fp| == prec
  {
    hide DecVal;
  }

  // ---- the styles ----

  /** How many significant digits the e and g styles show. */
  function Asked(style: Style, P: nat): nat {
    if style == StyleE then P + 1 else if P == 0 then 1 else P
  }

  /** The shape chosen for digits K of decade X. */
  lemma ShapeSpelled(neg: bool, K: string, X: int, sig: nat, g: bool, upper: bool)
    requires K != [] && AllDigits(K) && K[0] != '0' && -999 <= X <= 999
    requires if g then |K| > 1 ==> K[|K| - 1] != '0' else |K| == sig
    ensures var t := ShownOf(ShownForm(neg, K, X, sig, g, upper));
            && t.Spelled() && t.letter == (if !g || X < -4 || X >= sig then if upper then "E" else "e" else "")
            && if g then t.fp != "" ==> t.fp[|t.fp| - 1] != '0' else |t.fp| == sig - 1
  {
    hide DecVal, AllDigits, ExpForm, PlainForm, Shown.Spelled;
    ExponentSpelled(neg, K, X, upper);
    PlainSpelled(neg, K, X);
  }

  /** The e and g styles: the numeral shown fits the rounded decimal. */
  lemma SignificantFits(neg: bool, K: string, v: real, X: int, N: nat, style: Style, upper: bool, P: nat, sig: nat)
    requires style != StyleF && sig == Asked(style, P)
    requires RoundedTo(v, sig, X, N) && -400 <= X < 400 && DigitsOf(K, sig, N)
    requires if style == StyleG then |K| > 1 ==> K[|K| - 1] != '0' else |K| == sig
    ensures var r := ShownForm(neg, K, ShownExp(sig, X, N), sig, style == StyleG, upper);
            r.Valid() && r.neg == neg && Fits(style, upper, P, v, Decimal(N, X + 1 - sig), ShownOf(r))
  {
    hide RPow, Pow, DecVal, HalfEven, NumeralValue, ShownForm, Decimal;
    hide Shown.Spelled, Shown.Value, Rendered.Valid, ShownOf, RoundedTo, ToDigits, Decade, AllDigits;
    var X1 := ShownExp(sig, X, N);
    var d := Decimal(N, X + 1 - sig);
    ShownValue(neg, K, X, sig, N, style == StyleG, upper);
    SameText(ShownForm(neg, K, X1, sig, style == StyleG, upper));
    RoundedDecade(v, sig, X, N);
    DecadeCompare(d, X1, sig);
    DecadeCompare(d, X1, -4);
    AsDigits(v, sig, X, N);
    ShapeSpelled(neg, K, X1, sig, style == StyleG, upper);
  }

  lemma AsDigits(v: real, sig: nat, X: int, N: nat)
    requires RoundedTo(v, sig, X, N)
    ensures ToDigits(v, sig, Decimal(N, X + 1 - sig))
  {
    hide RPow, HalfEven;
    assert RPow(10, X) <= v < RPow(10, X + 1);
  }

  lemma FixedFits(neg: bool, v: real, N: nat, upper: bool, P: nat)
    requires N == HalfEven(Scale(v, P))
    ensures var r := FixedForm(neg, DigitText(N), P);
            r.Valid() && r.neg == neg && Fits(StyleF, upper, P, v, Decimal(N, 0 - P), ShownOf(r))
  {
    hide RPow, DecVal, HalfEven, NumeralValue, DigitText;
    var D := DigitText(N);
    DigitTextValue(N);
    OneLeadingZero(N);
    FixedFormDenotes(neg, D, P);
    FixedSpelled(neg, D, P);
    SameText(FixedForm(neg, D, P));
  }

  lemma OneLeadingZero(N: nat)
    ensures |DigitText(N)| > 1 ==> DigitText(N)[0] != '0'
  {
  }

  lemma NoLetter(d: string)
    requires AllDigits(d)
    ensures 'e' !in d && 'E' !in d
  {
  }

  /** An exponent letter occurs exactly when there is an exponent. */
  lemma LetterOccurs(o: string, t: Shown)
    requires t.Spelled() && (o == "" || o == "-")
    ensures ('e' in o + t.Text() <==> t.letter == "e") && ('E' in o + t.Text() <==> t.letter == "E")
  {
    hide DecVal;
    var frac := if t.fp == "" then "" else "." + t.fp;
    var a, b := o + t.ip + frac, t.esign + t.ed;
    NoLetter(t.ip);
    NoLetter(t.fp);
    NoLetter(t.ed);
    assert o + t.Text() == a + t.letter + b;
    hide AllDigits, Shown.Text;
    assert 'e' !in a && 'E' !in a && 'e' !in b && 'E' !in b;
  }

  /**
   * The printed text: the words, zero, or a numeral whose value is the rounded double and whose notation
   * depends on that value only.
   */
  method Print(bits: nat, prec: int, style: Style, upper: bool, guess: int, p5: Pow5Cache)
    returns (out: string, ghost t: Shown, ghost d: real)
    requires bits < 0x1_0000_0000_0000_0000 && -400 <= guess <= 400 && p5.Valid()
    modifies p5`k, p5.cache`n, p5.cache.l
    ensures p5.Valid()
    ensures var mag := bits % 0x8000_0000_0000_0000;
            var o := if bits >= 0x8000_0000_0000_0000 then "-" else "";
            var P := if prec < 0 then 6 else if prec > 1080 then 1080 else prec;
            if mag > 0x7FF0_0000_0000_0000 then out == o + "nan"
            else if mag == 0x7FF0_0000_0000_0000 then out == o + "inf"
            else if mag == 0 then out == o + ZeroShown(style, upper, P)
            else
              && out == o + t.Text() && Fits(style, upper, P, Value(mag), d, t)
              && ('e' in out <==> t.letter == "e") && ('E' in out <==> t.letter == "E")
  {
    hide RPow, Pow, DecVal, DigitText, HalfEven, Scale, RoundedTo, DigitsOf, ShownForm, FixedForm, Value, Fits;
    var mag := bits % 0x8000_0000_0000_0000;
    ghost var K, X, N;
    out, K, X, N := FmtDouble(bits, prec, style, upper, guess, p5);
    t, d := Shown("", "", "", "", ""), 0.0;
    SpecialBits(mag);
    if 0 < mag < 0x7FF0_0000_0000_0000 {
      ghost var P := if prec < 0 then 6 else if prec > 1080 then 1080 else prec;
      ghost var neg := bits >= 0x8000_0000_0000_0000;
      if style == StyleF {
        t, d := FixedPrinted(neg, Value(mag), N, upper, P);
      } else {
        t, d := SignificantPrinted(neg, K, Value(mag), X, N, style, upper, P, Significant(style, prec));
      }
    }
  }

  lemma FixedPrinted(neg: bool, v: real, N: nat, upper: bool, P: nat) returns (t: Shown, d: real)
    requires N == HalfEven(Scale(v, P))
    ensures var o := if neg then "-" else "";
            var out := FixedForm(neg, DigitText(N), P).Text();
            && out == o + t.Text() && Fits(StyleF, upper, P, v, d, t)
            && ('e' in out <==> t.letter == "e") && ('E' in out <==> t.letter == "E")
  {
    hide DigitText, HalfEven, Scale, FixedForm, Shown.Spelled, Shown.Text, Rendered.Valid, Rendered.Text;
    t, d := ShownOf(FixedForm(neg, DigitText(N), P)), Decimal(N, 0 - P);
    FixedFits(neg, v, N, upper, P);
    SameText(FixedForm(neg, DigitText(N), P));
    LetterOccurs(if neg then "-" else "", t);
  }

  lemma SignificantPrinted(neg: bool, K: string, v: real, X: int, N: nat, style: Style, upper: bool, P: nat, sig: nat)
    returns (t: Shown, d: real)
    requires style != StyleF && sig == Asked(style, P)
    requires RoundedTo(v, sig, X, N) && -400 <= X < 400 && DigitsOf(K, sig, N)
    requires if style == StyleG then |K| > 1 ==> K[|K| - 1] != '0' else |K| == sig
    ensures var o := if neg then "-" else "";
            var out := ShownForm(neg, K, ShownExp(sig, X, N), sig, style == StyleG, upper).Text();
            && out == o + t.Text() && Fits(style, upper, P, v, d, t)
            && ('e' in out <==> t.letter == "e") && ('E' in out <==> t.letter == "E")
  {
    hide RoundedTo, ShownForm, Shown.Spelled, Shown.Text, Shown.Value, Rendered.Valid, Rendered.Text, ShownOf;
    hide Pow, DecVal, RPow, ToDigits, AllDigits;
    var r := ShownForm(neg, K, ShownExp(sig, X, N), sig, style == StyleG, upper);
    t, d := ShownOf(r), Decimal(N, X + 1 - sig);
    SignificantFits(neg, K, v, X, N, style, upper, P, sig);
    SameText(r);
    LetterOccurs(if neg then "-" else "", t);
  }

  lemma SpecialBits(mag: nat)
    requires mag < 0x8000_0000_0000_0000
    ensures IsFinite(mag) <==> mag < 0x7FF0_0000_0000_0000
    ensures mag == 0x7FF0_0000_0000_0000 ==> Fraction(mag) == 0
    ensures mag > 0x7FF0_0000_0000_0000 ==> Fraction(mag) != 0
  {
  }
}

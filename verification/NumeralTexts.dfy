/** Every way of writing a number for the reader, put together from its pieces. */
module NumeralTexts {
  import opened Arith
  import opened Exact
  import opened Ieee
  import opened Rounding
  import opened DecimalText
  import opened Division
  import opened Strtod

  predicate Digits(d: string) {
    forall i :: 0 <= i < |d| ==> '0' <= d[i] <= '9'
  }

  predicate Blanks(b: string) {
    forall i :: 0 <= i < |b| ==>
      b[i] == ' ' || b[i] == '\t' || b[i] == '\n' || b[i] as int == 11 || b[i] as int == 12 || b[i] == '\r'
  }

  predicate Sign(g: string) {
    g == "" || g == "+" || g == "-"
  }

  predicate StartsDigit(r: string) {
    r != [] && '0' <= r[0] <= '9'
  }

  /** Begins with a whole exponent: the letter, perhaps a sign, and a digit. */
  predicate StartsExponent(r: string) {
    && r != [] && (r[0] == 'e' || r[0] == 'E')
    && (StartsDigit(r[1..]) || (|r| > 1 && (r[1] == '+' || r[1] == '-') && StartsDigit(r[2..])))
  }

  /** Begins with nan, inf or inity, each letter in either case. */
  predicate StartsNan(r: string) {
    |r| >= 3 && (r[0] == 'n' || r[0] == 'N') && (r[1] == 'a' || r[1] == 'A') && (r[2] == 'n' || r[2] == 'N')
  }

  predicate StartsInf(r: string) {
    |r| >= 3 && (r[0] == 'i' || r[0] == 'I') && (r[1] == 'n' || r[1] == 'N') && (r[2] == 'f' || r[2] == 'F')
  }

  predicate StartsInity(r: string) {
    && |r| >= 5 && (r[0] == 'i' || r[0] == 'I') && (r[1] == 'n' || r[1] == 'N') && (r[2] == 'i' || r[2] == 'I')
    && (r[3] == 't' || r[3] == 'T') && (r[4] == 'y' || r[4] == 'Y')
  }

  /** Blanks, a sign, digits around an optional point, an optional exponent, and what follows. */
  datatype Written = Written(blanks: string, sign: string, ip: string, point: bool, fp: string,
                             mark: string, esign: string, ed: string, rest: string)
  {
    function Point(): string {
      if point then "." + fp else ""
    }

    function Exponent(): string {
      mark + esign + ed
    }

    function Number(): string {
      blanks + sign + ip + Point() + Exponent()
    }

    function Text(): string {
      Number() + rest
    }

    predicate Spelled() {
      && Blanks(blanks) && Sign(sign) && Digits(ip) && Digits(fp) && (fp != "" ==> point) && ip + fp != ""
      && (mark == "" || mark == "e" || mark == "E") && Sign(esign) && Digits(ed)
      && (mark == "" ==> esign == "" && ed == "") && (mark != "" ==> ed != "")
    }

    /** What follows does not go on with the number. */
    predicate Ends() {
      && !StartsDigit(rest)
      && (mark == "" ==> !StartsExponent(rest) && (point || rest == [] || rest[0] != '.'))
      && !(ip == "0" && !point && mark == "" && rest != [] && (rest[0] == 'x' || rest[0] == 'X'))
    }

    /** The power of ten the digits, read as one integer, are multiplied with. */
    function Power(): int {
      (if esign == "-" then 0 - DecVal(ed) else DecVal(ed)) - |fp|
    }

    ghost function Value(): real {
      Decimal(DecVal(ip + fp), Power())
    }

    /** The value of the first 1100 digits; those past them are dropped, also in front of the point. */
    ghost function Taken(): real {
      if |ip + fp| <= 1100 then Value()
      else Decimal(DecVal((ip + fp)[..1100]), Power() + |fp| - (if |ip| >= 1100 then 0 else 1100 - |ip|))
    }
  }

  /** Every text there is: a number, a word, the start of a hexadecimal number, or none of these. */
  datatype Form =
    | Number(w: Written)
    | Infinity(blanks: string, sign: string, word: string, rest: string)
    | Nan(blanks: string, sign: string, word: string, rest: string)
    | Hex(blanks: string, sign: string, rest: string)
    | Nothing(blanks: string, sign: string, rest: string)
  {
    function Text(): string {
      match this
      case Number(w) => w.Text()
      case Infinity(blanks, sign, word, rest) => blanks + sign + word + rest
      case Nan(blanks, sign, word, rest) => blanks + sign + word + rest
      case Hex(blanks, sign, rest) => blanks + sign + rest
      case Nothing(blanks, sign, rest) => blanks + sign + rest
    }

    predicate Fits() {
      match this
      case Number(w) => w.Spelled() && w.Ends()
      case Infinity(blanks, sign, word, rest) =>
        && Blanks(blanks) && Sign(sign)
        && StartsInf(word) && (if StartsInity(word[3..]) then |word| == 8 else |word| == 3 && !StartsInity(rest))
      case Nan(blanks, sign, word, rest) => Blanks(blanks) && Sign(sign) && |word| == 3 && StartsNan(word)
      case Hex(blanks, sign, rest) =>
        Blanks(blanks) && Sign(sign) && |rest| > 1 && rest[0] == '0' && (rest[1] == 'x' || rest[1] == 'X')
      case Nothing(blanks, sign, rest) =>
        && Blanks(blanks) && Sign(sign)
        && !StartsDigit(rest) && !(rest != [] && rest[0] == '.' && StartsDigit(rest[1..]))
        && !StartsInf(rest) && !StartsNan(rest)
        && (sign == "" && rest != [] ==> rest[0] != '+' && rest[0] != '-' && !Blanks(rest[..1]))
    }
  }

  // ---- where the pieces stand ----

  lemma {:induction false} SpacesEndAt(s: string, i: nat, e: nat)
    requires i <= e && (forall j :: i <= j < e ==> IsSpace(CharAt(s, j))) && !IsSpace(CharAt(s, e))
    ensures SpacesEnd(s, i) == e
    decreases e - i
  {
    if i < e {
      assert IsSpace(CharAt(s, i));
      SpacesEndAt(s, i + 1, e);
    }
  }

  lemma BlanksPart(blanks: string, rest: string)
    requires Blanks(blanks) && !IsSpace(CharAt(rest, 0))
    ensures SpacesEnd(blanks + rest, 0) == |blanks|
  {
    var s := blanks + rest;
    forall j | 0 <= j < |blanks| ensures IsSpace(CharAt(s, j)) {
      assert s[j] == blanks[j];
    }
    CharPast(blanks, rest, 0);
    SpacesEndAt(s, 0, |blanks|);
  }

  lemma AsDigits(d: string)
    ensures Digits(d) <==> AllDigits(d)
  {
  }

  /** The exponent field, whole or absent, and where it ends. */
  lemma ExponentPart(w: Written, s: string, pre: string)
    requires w.Spelled() && w.Ends() && s == pre + (w.Exponent() + w.rest)
    ensures ParseExp(s, |pre|) == (w.Power() + |w.fp|, |pre + w.Exponent()|)
  {
    hide DigitsEnd, Slice, DecVal;
    if w.mark == "" {
      assert w.Exponent() + w.rest == w.rest;
      NoExponent(w.rest, s, pre);
      EmptyValue();
    } else {
      assert s == pre + w.mark + w.esign + w.ed + w.rest && pre + w.Exponent() == pre + w.mark + w.esign + w.ed;
      WholeExponent(s, pre, w.mark, w.esign, w.ed, w.rest);
    }
  }

  lemma WholeExponent(s: string, pre: string, mark: string, esign: string, ed: string, rest: string)
    requires (mark == "e" || mark == "E") && Sign(esign) && Digits(ed) && ed != "" && !StartsDigit(rest)
    requires s == pre + mark + esign + ed + rest
    ensures ParseExp(s, |pre|)
         == (if esign == "-" then 0 - DecVal(ed) else DecVal(ed), |pre + mark + esign + ed|)
  {
    hide DigitsEnd, Slice, DecVal, AllDigits, StartsDigit;
    AsDigits(ed);
    assert !IsDigit(CharAt(rest, 0)) by { NoDigit(rest); }
    DigitsPart(s, pre + mark + esign, ed, rest);
    MarkAndSign(s, pre, mark, esign, ed, rest);
  }

  lemma NoDigit(rest: string)
    ensures IsDigit(CharAt(rest, 0)) <==> StartsDigit(rest)
  {
  }

  lemma MarkAndSign(s: string, pre: string, mark: string, esign: string, ed: string, rest: string)
    requires |mark| == 1 && Sign(esign) && Digits(ed) && ed != "" && s == pre + mark + esign + ed + rest
    ensures CharAt(s, |pre|) == mark[0]
    ensures CharAt(s, |pre| + 1) == '-' <==> esign == "-"
    ensures CharAt(s, |pre| + 1) == '+' <==> esign == "+"
    ensures |pre + mark + esign| == if esign == "" then |pre| + 1 else |pre| + 2
  {
    assert s[|pre|] == mark[0];
    assert s[|pre| + 1] == if esign == "" then ed[0] else esign[0];
  }

  lemma NoExponent(rest: string, s: string, pre: string)
    requires !StartsExponent(rest) && s == pre + rest
    ensures ParseExp(s, |pre|) == (0, |pre|)
  {
    hide Slice, DecVal;
    CharPast(pre, rest, 0);
    CharPast(pre, rest, 1);
    CharPast(pre, rest, 2);
    if CharAt(s, |pre|) == 'e' || CharAt(s, |pre|) == 'E' {
      var q := if CharAt(s, |pre| + 1) == '+' || CharAt(s, |pre| + 1) == '-' then |pre| + 2 else |pre| + 1;
      assert !IsDigit(CharAt(s, q));
      DigitsEndAt(s, q, q);
    }
  }

  /** The digits on both sides of the point, and the exponent. */
  lemma DigitsAndExponent(w: Written, s: string, h: string, neg: bool)
    requires w.Spelled() && w.Ends() && s == h + (w.ip + w.Point() + w.Exponent() + w.rest)
    ensures ParseNumeral(s, |h|, neg)
         == Numeral(neg, w.ip, w.fp, w.Power() + |w.fp|, |h + w.ip + w.Point() + w.Exponent()|)
  {
    hide DigitsEnd, ParseExp, Slice, DecVal, ParseNumeral, Digits, AllDigits, Written.Power, Written.Exponent;
    hide StartsDigit, StartsExponent, Blanks;
    AsDigits(w.ip);
    AsDigits(w.fp);
    AfterDigits(w);
    var t, end := w.Exponent() + w.rest, h + w.ip + w.Point();
    assert s == end + t;
    ExponentPart(w, s, end);
    PointAndDigits(w, s, h, t);
    NumeralFrom(w, s, h, neg, w.Power() + |w.fp|, |end + w.Exponent()|);
  }

  /** The pieces found at their places make up the numeral. */
  lemma NumeralFrom(w: Written, s: string, h: string, neg: bool, exp: int, stop: nat)
    requires w.ip != "" || w.fp != ""
    requires ParseExp(s, |h + w.ip + w.Point()|) == (exp, stop) && (!w.point ==> w.fp == "")
    requires var a := |h + w.ip|;
            && DigitsEnd(s, |h|) == a && Slice(s, |h|, a) == w.ip && (w.point <==> CharAt(s, a) == '.')
            && (w.point ==> DigitsEnd(s, a + 1) == |h + w.ip + "." + w.fp|
                            && Slice(s, a + 1, |h + w.ip + "." + w.fp|) == w.fp)
    ensures ParseNumeral(s, |h|, neg) == Numeral(neg, w.ip, w.fp, exp, stop)
  {
    hide DigitsEnd, ParseExp, Slice;
    if w.point {
      assert h + w.ip + w.Point() == h + w.ip + "." + w.fp;
    } else {
      assert h + w.ip + w.Point() == h + w.ip;
    }
  }

  /** Neither a digit nor a second point stands where the digits end. */
  lemma AfterDigits(w: Written)
    requires w.Spelled() && w.Ends()
    ensures var t := w.Exponent() + w.rest;
            !IsDigit(CharAt(t, 0)) && (!w.point ==> w.fp == "" && CharAt(t, 0) != '.') && (w.ip != "" || w.fp != "")
  {
    if w.mark == "" {
      assert w.Exponent() + w.rest == w.rest;
    }
  }

  lemma PointAndDigits(w: Written, s: string, h: string, t: string)
    requires s == h + w.ip + w.Point() + t && AllDigits(w.ip) && AllDigits(w.fp) && !IsDigit(CharAt(t, 0))
    requires !w.point ==> w.fp == "" && CharAt(t, 0) != '.'
    ensures var a := |h + w.ip|;
            && DigitsEnd(s, |h|) == a && Slice(s, |h|, a) == w.ip && (w.point <==> CharAt(s, a) == '.')
            && (w.point ==> DigitsEnd(s, a + 1) == |h + w.ip + "." + w.fp|
                            && Slice(s, a + 1, |h + w.ip + "." + w.fp|) == w.fp)
  {
    hide DigitsEnd, Slice;
    if w.point {
      assert s == h + w.ip + ("." + w.fp + t);
      DigitsPart(s, h, w.ip, "." + w.fp + t);
      assert s == (h + w.ip + ".") + w.fp + t;
      DigitsPart(s, h + w.ip + ".", w.fp, t);
    } else {
      assert s == h + w.ip + t;
      DigitsPart(s, h, w.ip, t);
    }
  }

  // ---- every form is read as what it says ----

  /** Behind blanks and a sign the reader stands at the rest. */
  lemma Front(blanks: string, sign: string, rest: string)
    requires Blanks(blanks) && Sign(sign)
    requires sign == "" ==> !IsSpace(CharAt(rest, 0)) && CharAt(rest, 0) != '+' && CharAt(rest, 0) != '-'
    ensures var s := blanks + sign + rest;
            && SpacesEnd(s, 0) == |blanks| && (CharAt(s, |blanks|) == '-' <==> sign == "-")
            && (CharAt(s, |blanks|) == '+' || CharAt(s, |blanks|) == '-' <==> sign != "")
            && forall i: nat :: CharAt(s, |blanks + sign| + i) == CharAt(rest, i)
  {
    var s := blanks + sign + rest;
    assert s == blanks + (sign + rest);
    CharPast(blanks, sign + rest, 0);
    BlanksPart(blanks, sign + rest);
    forall i: nat ensures CharAt(s, |blanks + sign| + i) == CharAt(rest, i) {
      CharPast(blanks + sign, rest, i);
    }
  }

  lemma NumberParses(w: Written)
    requires w.Spelled() && w.Ends()
    ensures Parse(w.Text()) == Numeral(w.sign == "-", w.ip, w.fp, w.Power() + |w.fp|, |w.Number()|)
  {
    hide ParseNumeral, DecVal, SpacesEnd, Written.Power;
    var s, h := w.Text(), w.blanks + w.sign;
    var body := w.ip + w.Point() + w.Exponent() + w.rest;
    Pieces(w);
    NumberStart(w);
    Front(w.blanks, w.sign, body);
    DigitsAndExponent(w, s, h, w.sign == "-");
    hide Written.Spelled, Written.Ends, Written.Text, Written.Number, Written.Exponent, Written.Point;
    assert CharAt(s, |h| + 0) == CharAt(body, 0) && CharAt(s, |h| + 1) == CharAt(body, 1);
    NumeralBehind(s, |w.blanks|, |h|, w.sign == "-");
  }

  lemma NumeralBehind(s: string, i: nat, p: nat, neg: bool)
    requires SpacesEnd(s, 0) == i && (neg <==> CharAt(s, i) == '-')
    requires p == if CharAt(s, i) == '+' || CharAt(s, i) == '-' then i + 1 else i
    requires (IsDigit(CharAt(s, p)) || CharAt(s, p) == '.') && !(CharAt(s, p) == '0' && Letter(s, p + 1, 'x', 'X'))
    ensures Parse(s) == ParseNumeral(s, p, neg)
  {
    hide ParseNumeral, SpacesEnd;
  }

  lemma Pieces(w: Written)
    ensures w.Text() == w.blanks + w.sign + (w.ip + w.Point() + w.Exponent() + w.rest)
    ensures w.Number() == w.blanks + w.sign + w.ip + w.Point() + w.Exponent()
  {
  }

  /** A number starts with a digit or a point, and not like a hexadecimal one. */
  lemma NumberStart(w: Written)
    requires w.Spelled() && w.Ends()
    ensures var b := w.ip + w.Point() + w.Exponent() + w.rest;
            && (IsDigit(CharAt(b, 0)) || CharAt(b, 0) == '.')
            && !(CharAt(b, 0) == '0' && Letter(b, 1, 'x', 'X'))
  {
    var t := w.Point() + w.Exponent() + w.rest;
    assert w.ip + w.Point() + w.Exponent() + w.rest == w.ip + t;
    BehindDigits(w);
    hide Written.Point, Written.Exponent, Written.Ends;
    FirstOf(w.ip, t);
  }

  lemma FirstOf(ip: string, t: string)
    requires Digits(ip) && (ip == "" ==> CharAt(t, 0) == '.') && (ip == "0" ==> !Letter(t, 0, 'x', 'X'))
    ensures IsDigit(CharAt(ip + t, 0)) || CharAt(ip + t, 0) == '.'
    ensures !(CharAt(ip + t, 0) == '0' && Letter(ip + t, 1, 'x', 'X'))
  {
    CharPast(ip, t, 0);
    CharPast(ip, t, 1);
    if |ip| == 0 {
      assert CharAt(ip + t, 0) == CharAt(t, 0);
    } else if |ip| == 1 {
      assert CharAt(ip + t, 1) == CharAt(t, 0) && CharAt(ip + t, 0) == ip[0];
    } else {
      assert CharAt(ip + t, 0) == ip[0] && CharAt(ip + t, 1) == ip[1];
    }
  }

  lemma BehindDigits(w: Written)
    requires w.Spelled() && w.Ends()
    ensures var t := w.Point() + w.Exponent() + w.rest;
            (w.ip == "" ==> CharAt(t, 0) == '.') && (w.ip == "0" ==> !Letter(t, 0, 'x', 'X'))
  {
    var t := w.Point() + w.Exponent() + w.rest;
    if w.point {
      assert t[0] == '.';
    } else if w.mark != "" {
      assert t[0] == w.mark[0];
    } else {
      assert t == w.rest;
    }
  }

  lemma NumberValue(w: Written)
    requires w.Spelled()
    ensures KeptValue(w.ip, w.fp, w.Power() + |w.fp|) == w.Taken()
  {
    hide DecVal, Decimal;
  }

  /** The reader on any text: a number gives its nearest double, and the end is where the text stops being one. */
  method Read(f: Form, p5: Pow5Cache) returns (r: ReadResult, stop: nat, ghost mag: nat)
    requires p5.Valid() && f.Fits()
    modifies p5`k, p5.cache`n, p5.cache.l
    ensures p5.Valid()
    ensures match f
      case Number(w) =>
        && r == Bits((if w.sign == "-" then 0x8000_0000_0000_0000 else 0) + mag) && stop == |w.Number()|
        && Reads(mag, w.Taken()) && (|w.ip| + |w.fp| <= 1100 ==> Reads(mag, w.Value()))
      case Infinity(blanks, sign, word, _) =>
        r == Bits(if sign == "-" then 0xFFF0_0000_0000_0000 else 0x7FF0_0000_0000_0000)
        && stop == |blanks + sign + word|
      case Nan(blanks, sign, word, _) => r == NotANumber && stop == |blanks + sign + word|
      case Hex(blanks, sign, _) => r == HexFloat(sign == "-", |blanks + sign|)
      case Nothing(_, _, _) => r == Bits(0) && stop == 0
  {
    hide Parse, Reads, KeptValue, NumeralValue, Written.Taken, Written.Value;
    FormParses(f);
    if f.Number? {
      NumberValue(f.w);
      ShortTaken(f.w);
    }
    r, stop, mag := StrtodFull(f.Text(), p5);
  }

  lemma ShortTaken(w: Written)
    ensures |w.ip| + |w.fp| <= 1100 ==> w.Taken() == w.Value()
  {
  }

  /** What the reader makes of each form. */
  lemma FormParses(f: Form)
    requires f.Fits()
    ensures Parse(f.Text()) ==
      match f
      case Number(w) => Numeral(w.sign == "-", w.ip, w.fp, w.Power() + |w.fp|, |w.Number()|)
      case Infinity(blanks, sign, word, _) => InfText(sign == "-", |blanks + sign + word|)
      case Nan(blanks, sign, word, _) => NanText(|blanks + sign + word|)
      case Hex(blanks, sign, _) => HexText(sign == "-", |blanks + sign|)
      case Nothing(_, _, _) => NoNumber
  {
    hide Parse, Written.Text, Written.Number, Written.Power;
    match f
    case Number(w) => NumberParses(w);
    case Infinity(blanks, sign, word, rest) => InfinityParses(blanks, sign, word, rest);
    case Nan(blanks, sign, word, rest) => NanParses(blanks, sign, word, rest);
    case Hex(blanks, sign, rest) => HexParses(blanks, sign, rest);
    case Nothing(blanks, sign, rest) => NothingParses(blanks, sign, rest);
  }

  lemma WordAt(s: string, p: nat, word: string, rest: string)
    requires forall i: nat :: CharAt(s, p + i) == CharAt(word + rest, i)
    ensures forall i :: 0 <= i < |word| ==> CharAt(s, p + i) == word[i]
    ensures forall i: nat :: CharAt(s, p + |word| + i) == CharAt(rest, i)
  {
    forall i | 0 <= i < |word| ensures CharAt(s, p + i) == word[i] {
      assert CharAt(s, p + i) == CharAt(word + rest, i);
    }
    forall i: nat ensures CharAt(s, p + |word| + i) == CharAt(rest, i) {
      CharPast(word, rest, i);
      assert CharAt(s, p + (|word| + i)) == CharAt(word + rest, |word| + i);
    }
  }

  lemma InfinityParses(blanks: string, sign: string, word: string, rest: string)
    requires Infinity(blanks, sign, word, rest).Fits()
    ensures Parse(blanks + sign + word + rest) == InfText(sign == "-", |blanks + sign + word|)
  {
    hide SpacesEnd, ParseNumeral;
    var s := blanks + sign + word + rest;
    assert s == blanks + sign + (word + rest);
    Front(blanks, sign, word + rest);
    var p := |blanks + sign|;
    WordAt(s, p, word, rest);
    InfinityBehind(s, |blanks|, p, sign == "-", word, rest);
  }

  lemma InfinityBehind(s: string, i: nat, p: nat, neg: bool, word: string, rest: string)
    requires SpacesEnd(s, 0) == i && (neg <==> CharAt(s, i) == '-')
    requires p == if CharAt(s, i) == '+' || CharAt(s, i) == '-' then i + 1 else i
    requires Infinity("", "", word, rest).Fits()
    requires forall i :: 0 <= i < |word| ==> CharAt(s, p + i) == word[i]
    requires forall i: nat :: CharAt(s, p + |word| + i) == CharAt(rest, i)
    ensures Parse(s) == InfText(neg, p + |word|)
  {
    hide SpacesEnd, ParseNumeral;
    assert Letter(s, p, 'i', 'I') && Letter(s, p + 1, 'n', 'N') && Letter(s, p + 2, 'f', 'F') by {
      assert CharAt(s, p + 0) == word[0] && CharAt(s, p + 1) == word[1] && CharAt(s, p + 2) == word[2];
    }
    assert LongAt(s, p) <==> |word| == 8 by {
      if |word| == 3 {
        assert CharAt(s, p + 3 + 0) == CharAt(rest, 0) && CharAt(s, p + 3 + 1) == CharAt(rest, 1);
        assert CharAt(s, p + 3 + 2) == CharAt(rest, 2) && CharAt(s, p + 3 + 3) == CharAt(rest, 3);
        assert CharAt(s, p + 3 + 4) == CharAt(rest, 4);
      } else {
        assert CharAt(s, p + 3) == word[3] && CharAt(s, p + 4) == word[4] && CharAt(s, p + 5) == word[5];
        assert CharAt(s, p + 6) == word[6] && CharAt(s, p + 7) == word[7];
      }
    }
    hide Letter, CharAt, Form.Fits;
  }

  predicate LongAt(s: string, p: nat) {
    && Letter(s, p + 3, 'i', 'I') && Letter(s, p + 4, 'n', 'N') && Letter(s, p + 5, 'i', 'I')
    && Letter(s, p + 6, 't', 'T') && Letter(s, p + 7, 'y', 'Y')
  }

  lemma NanParses(blanks: string, sign: string, word: string, rest: string)
    requires Nan(blanks, sign, word, rest).Fits()
    ensures Parse(blanks + sign + word + rest) == NanText(|blanks + sign + word|)
  {
    hide SpacesEnd, ParseNumeral;
    var s := blanks + sign + word + rest;
    assert s == blanks + sign + (word + rest);
    Front(blanks, sign, word + rest);
    WordAt(s, |blanks + sign|, word, rest);
  }

  lemma HexParses(blanks: string, sign: string, rest: string)
    requires Hex(blanks, sign, rest).Fits()
    ensures Parse(blanks + sign + rest) == HexText(sign == "-", |blanks + sign|)
  {
    hide SpacesEnd, ParseNumeral;
    var s, p := blanks + sign + rest, |blanks + sign|;
    Front(blanks, sign, rest);
    assert CharAt(s, p + 0) == CharAt(rest, 0) && CharAt(s, p + 1) == CharAt(rest, 1);
  }

  lemma NothingParses(blanks: string, sign: string, rest: string)
    requires Nothing(blanks, sign, rest).Fits()
    ensures Parse(blanks + sign + rest) == NoNumber
  {
    hide SpacesEnd;
    var s, p := blanks + sign + rest, |blanks + sign|;
    Front(blanks, sign, rest);
    assert CharAt(s, p + 0) == CharAt(rest, 0) && CharAt(s, p + 1) == CharAt(rest, 1);
    DigitsEndAt(s, p, p);
    if CharAt(s, p) == '.' {
      DigitsEndAt(s, p + 1, p + 1);
    }
  }

  // ---- and there is no other text ----

  lemma {:induction false} LeadingBlanks(s: string) returns (b: string, t: string)
    ensures s == b + t && Blanks(b) && (t == [] || !Blanks(t[..1]))
  {
    if s == [] || !Blanks(s[..1]) {
      b, t := [], s;
    } else {
      b, t := LeadingBlanks(s[1..]);
      assert s[..1][0] == s[0];
      b := s[..1] + b;
    }
  }

  lemma {:induction false} LeadingDigits(s: string) returns (d: string, t: string)
    ensures s == d + t && Digits(d) && !StartsDigit(t) && (d == "" <==> !StartsDigit(s))
  {
    if !StartsDigit(s) {
      d, t := "", s;
    } else {
      d, t := LeadingDigits(s[1..]);
      d := s[..1] + d;
    }
  }

  lemma ExponentOf(s: string) returns (mark: string, esign: string, ed: string, rest: string)
    requires !StartsDigit(s)
    ensures s == mark + esign + ed + rest && (mark == "" || mark == "e" || mark == "E") && Sign(esign) && Digits(ed)
    ensures (mark == "" ==> esign == "" && ed == "" && !StartsExponent(rest)) && (mark != "" ==> ed != "")
    ensures !StartsDigit(rest)
  {
    if StartsExponent(s) {
      mark := s[..1];
      esign := if s[1] == '+' || s[1] == '-' then s[1..2] else "";
      ed, rest := LeadingDigits(s[1 + |esign|..]);
      assert s == mark + esign + s[1 + |esign|..];
    } else {
      mark, esign, ed, rest := "", "", "", s;
    }
  }

  lemma PointOf(t: string) returns (point: bool, fp: string, u: string)
    requires !StartsDigit(t)
    ensures t == (if point then "." + fp else "") + u && Digits(fp) && !StartsDigit(u)
    ensures if point then t != "" && t[0] == '.' && (fp == "" <==> !StartsDigit(t[1..]))
            else fp == "" && (u == "" || u[0] != '.')
  {
    point := t != "" && t[0] == '.';
    if point {
      fp, u := LeadingDigits(t[1..]);
      assert t == ['.'] + t[1..];
    } else {
      fp, u := "", t;
    }
  }

  /** The number a text begins with, behind its blanks and sign. */
  lemma NumberOf(blanks: string, sign: string, s: string) returns (w: Written)
    requires Blanks(blanks) && Sign(sign)
    requires StartsDigit(s) || (s != [] && s[0] == '.' && StartsDigit(s[1..]))
    requires !(|s| > 1 && s[0] == '0' && (s[1] == 'x' || s[1] == 'X'))
    ensures w.Spelled() && w.Ends() && w.Text() == blanks + sign + s
  {
    hide Blanks, Written.Text, Digits, Sign, StartsExponent;
    var ip, t := LeadingDigits(s);
    var point, fp, u := PointOf(t);
    var mark, esign, ed, rest := ExponentOf(u);
    w := Written(blanks, sign, ip, point, fp, mark, esign, ed, rest);
    Assembled(w, s, t, u);
  }

  lemma Assembled(w: Written, s: string, t: string, u: string)
    requires s == w.ip + t && t == w.Point() + u && u == w.Exponent() + w.rest
    ensures w.Text() == w.blanks + w.sign + s
  {
  }

  /** Every text has one of the forms. */
  lemma EveryText(s: string) returns (f: Form)
    ensures f.Fits() && f.Text() == s
  {
    hide Form.Fits, Form.Text, Blanks;
    var blanks, body := LeadingBlanks(s);
    var sign := if body != [] && (body[0] == '+' || body[0] == '-') then body[..1] else "";
    var rest := body[|sign|..];
    assert body == sign + rest;
    assert sign == "" ==> rest == body;
    f := FormOf(blanks, sign, rest);
    assert s == blanks + sign + rest;
  }

  lemma FormOf(blanks: string, sign: string, rest: string) returns (f: Form)
    requires Blanks(blanks) && Sign(sign)
    requires sign == "" && rest != [] ==> rest[0] != '+' && rest[0] != '-' && !Blanks(rest[..1])
    ensures f.Fits() && f.Text() == blanks + sign + rest
  {
    hide Blanks, Written.Text, Written.Spelled, Written.Ends;
    if StartsNan(rest) {
      f := Nan(blanks, sign, rest[..3], rest[3..]);
      Cut(blanks + sign, rest, 3);
    } else if StartsInf(rest) {
      var k := if StartsInity(rest[3..]) then 8 else 3;
      f := Infinity(blanks, sign, rest[..k], rest[k..]);
      Cut(blanks + sign, rest, |f.word|);
    } else if |rest| > 1 && rest[0] == '0' && (rest[1] == 'x' || rest[1] == 'X') {
      f := Hex(blanks, sign, rest);
    } else if StartsDigit(rest) || (rest != [] && rest[0] == '.' && StartsDigit(rest[1..])) {
      var w := NumberOf(blanks, sign, rest);
      f := Number(w);
    } else {
      f := Nothing(blanks, sign, rest);
    }
  }

  lemma Cut(h: string, s: string, k: nat)
    requires k <= |s|
    ensures h + s[..k] + s[k..] == h + s
  {
    assert s == s[..k] + s[k..];
  }
}

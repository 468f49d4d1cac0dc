/** Decimal numerals as text: what a C string read from a position says. */
module DecimalText {
  import opened Arith
  import opened Exact

  /** Character i of a C string, NUL from its end on. */
  function CharAt(s: string, i: nat): char {
    if i < |s| then s[i] else '\0'
  }

  predicate IsDigit(c: char) {
    '0' <= c <= '9'
  }

  function DigitValue(c: char): (d: nat)
    ensures d <= 9
  {
    if IsDigit(c) then c as int - '0' as int else 0
  }

  predicate AllDigits(d: string) {
    forall i :: 0 <= i < |d| ==> IsDigit(d[i])
  }

  /** The number a digit string denotes. */
  function DecVal(d: string): nat {
    if d == [] then 0 else DecVal(d[..|d| - 1]) * 10 + DigitValue(d[|d| - 1])
  }

  /** The first position from i on that is not a digit. */
  function DigitsEnd(s: string, i: nat): (e: nat)
    ensures e >= i && !IsDigit(CharAt(s, e))
    ensures i <= |s| ==> e <= |s|
    ensures forall j :: i <= j < e ==> IsDigit(CharAt(s, j))
    decreases |s| - i
  {
    if IsDigit(CharAt(s, i)) then DigitsEnd(s, i + 1) else i
  }

  function Slice(s: string, i: nat, j: nat): string {
    if i <= j <= |s| then s[i..j] else []
  }

  predicate IsSpace(c: char) {
    c == ' ' || c == '\t' || c == '\n' || c as int == 11 || c as int == 12 || c == '\r'
  }

  function SpacesEnd(s: string, i: nat): (e: nat)
    ensures e >= i && !IsSpace(CharAt(s, e))
    ensures i <= |s| ==> e <= |s|
    decreases |s| - i
  {
    if IsSpace(CharAt(s, i)) then SpacesEnd(s, i + 1) else i
  }

  /** Letter c in either case. */
  predicate Letter(s: string, i: nat, lower: char, upper: char) {
    CharAt(s, i) == lower || CharAt(s, i) == upper
  }

  datatype Text =
    | NanText(stop: nat)
    | InfText(neg: bool, stop: nat)
    | HexText(neg: bool, at: nat)
    | NoNumber
    | Numeral(neg: bool, ip: string, fp: string, exp: int, stop: nat)

  /** The exponent field at position i: its value and end; an incomplete one is not consumed. */
  function ParseExp(s: string, i: nat): (r: (int, nat)) {
    if !(CharAt(s, i) == 'e' || CharAt(s, i) == 'E') then (0, i)
    else
      var minus := CharAt(s, i + 1) == '-';
      var q := if CharAt(s, i + 1) == '+' || minus then i + 2 else i + 1;
      var e := DigitsEnd(s, q);
      if e == q then (0, i)
      else
        var v: int := DecVal(Slice(s, q, e));
        (if minus then -v else v, e)
  }

  /** The numeral at position p: integer digits, an optional point and fraction, an optional exponent. */
  function ParseNumeral(s: string, p: nat, neg: bool): Text {
    var a := DigitsEnd(s, p);
    var point := CharAt(s, a) == '.';
    var b := if point then DigitsEnd(s, a + 1) else a;
    var ip := Slice(s, p, a);
    var fp := if point then Slice(s, a + 1, b) else [];
    if ip == [] && fp == [] then NoNumber
    else
      var (e, stop) := ParseExp(s, b);
      Numeral(neg, ip, fp, e, stop)
  }

  /** What strtod_full sees in a string. */
  function Parse(s: string): Text {
    var i := SpacesEnd(s, 0);
    var neg := CharAt(s, i) == '-';
    var p := if CharAt(s, i) == '+' || neg then i + 1 else i;
    if Letter(s, p, 'n', 'N') && Letter(s, p + 1, 'a', 'A') && Letter(s, p + 2, 'n', 'N') then NanText(p + 3)
    else if Letter(s, p, 'i', 'I') && Letter(s, p + 1, 'n', 'N') && Letter(s, p + 2, 'f', 'F') then
      var long := Letter(s, p + 3, 'i', 'I') && Letter(s, p + 4, 'n', 'N') && Letter(s, p + 5, 'i', 'I')
                  && Letter(s, p + 6, 't', 'T') && Letter(s, p + 7, 'y', 'Y');
      InfText(neg, if long then p + 8 else p + 3)
    else if CharAt(s, p) == '0' && Letter(s, p + 1, 'x', 'X') then HexText(neg, p)
    else ParseNumeral(s, p, neg)
  }

  /** The exact value of a numeral, sign apart. */
  ghost function NumeralValue(ip: string, fp: string, exp: int): (v: real) {
    Decimal(DecVal(ip + fp), exp - |fp|)
  }

  // ---- facts about digit strings ----

  lemma DecValPush(d: string, c: char)
    ensures DecVal(d + [c]) == DecVal(d) * 10 + DigitValue(c)
  {
    assert (d + [c])[..|d|] == d;
  }

  lemma {:induction false} DecValBound(d: string)
    ensures DecVal(d) < Pow(10, |d|)
  {
    if d != [] {
      DecValBound(d[..|d| - 1]);
    }
  }

  lemma {:induction false} DecValConcat(a: string, b: string)
    ensures DecVal(a + b) == DecVal(a) * Pow(10, |b|) + DecVal(b)
  {
    if b == [] {
      assert a + b == a;
    } else {
      var c := b[..|b| - 1];
      DecValConcat(a, c);
      assert (a + b)[..|a + b| - 1] == a + c;
      ConcatStep(DecVal(a), Pow(10, |c|), DecVal(c), DigitValue(b[|b| - 1]));
    }
  }

  lemma ConcatStep(a: nat, p: nat, c: nat, d: nat)
    ensures (a * p + c) * 10 + d == a * (10 * p) + (c * 10 + d)
  {
  }

  function Zeros(n: nat): (z: string)
    ensures |z| == n && AllDigits(z)
  {
    seq(n, _ => '0')
  }

  lemma {:induction false} DecValZeros(n: nat)
    ensures DecVal(Zeros(n)) == 0
  {
    if n != 0 {
      DecValZeros(n - 1);
      assert Zeros(n)[..n - 1] == Zeros(n - 1);
    }
  }

  /** Leading zeros do not count; trailing ones multiply by ten. */
  lemma DecValPad(n: nat, d: string, m: nat)
    ensures DecVal(Zeros(n) + d) == DecVal(d)
    ensures DecVal(d + Zeros(m)) == DecVal(d) * Pow(10, m)
  {
    DecValConcat(Zeros(n), d);
    DecValZeros(n);
    DecValConcat(d, Zeros(m));
    DecValZeros(m);
  }

  function DigitChar(d: nat): (c: char)
    requires d < 10
    ensures IsDigit(c) && DigitValue(c) == d && (d > 0 ==> c != '0')
  {
    '0' + d as char
  }

  /** A number written out, without leading zeros. */
  function DigitText(n: nat): (d: string)
    ensures d != [] && AllDigits(d)
    ensures n > 0 ==> d[0] != '0'
  {
    if n < 10 then [DigitChar(n)] else DigitText(n / 10) + [DigitChar(n % 10)]
  }

  lemma {:induction false} DigitTextValue(n: nat)
    ensures DecVal(DigitText(n)) == n
  {
    hide DigitChar;
    if n < 10 {
      assert DigitText(n)[..0] == [];
    } else {
      DigitTextValue(n / 10);
      DecValPush(DigitText(n / 10), DigitChar(n % 10));
    }
  }

  lemma {:induction false} LeadingPositive(d: string)
    requires d != [] && AllDigits(d) && d[0] != '0'
    ensures DecVal(d) > 0
  {
    if |d| > 1 {
      LeadingPositive(d[..|d| - 1]);
    } else {
      assert d[..0] == [];
    }
  }

  /** There is no other way to write a number without leading zeros. */
  lemma {:induction false} DigitTextUnique(d: string, n: nat)
    requires d != [] && AllDigits(d) && DecVal(d) == n
    requires if n > 0 then d[0] != '0' else |d| == 1
    ensures d == DigitText(n)
    decreases |d|
  {
    hide DecVal, DigitText;
    var m := |d| - 1;
    var rest, c := d[..m], d[m];
    assert d == rest + [c];
    DecValPush(rest, c);
    if m == 0 {
      EmptyValue();
      ShortText(c);
    } else {
      LeadingPositive(rest);
      DigitTextUnique(rest, DecVal(rest));
      LongText(DecVal(rest), c);
    }
  }

  lemma ShortText(c: char)
    requires IsDigit(c)
    ensures DigitText(DigitValue(c)) == [c]
  {
  }

  lemma LongText(v: nat, c: char)
    requires v > 0 && IsDigit(c)
    ensures DigitText(v * 10 + DigitValue(c)) == DigitText(v) + [c]
  {
    var n := v * 10 + DigitValue(c);
    assert n / 10 == v && n % 10 == DigitValue(c);
    assert DigitChar(n % 10) == c;
  }

  /** A number below 10^k takes at most k digits. */
  lemma {:induction false} DigitTextLength(n: nat, k: nat)
    requires n < Pow(10, k) && k > 0
    ensures |DigitText(n)| <= k
  {
    if n >= 10 {
      assert k > 1;
      PowSucc(10, k - 1);
      assert n / 10 < Pow(10, k - 1);
      DigitTextLength(n / 10, k - 1);
    }
  }

  lemma {:induction false} DigitsEndAt(s: string, i: nat, e: nat)
    requires i <= e && (forall j :: i <= j < e ==> IsDigit(CharAt(s, j))) && !IsDigit(CharAt(s, e))
    ensures DigitsEnd(s, i) == e
    decreases e - i
  {
    if i < e {
      assert IsDigit(CharAt(s, i));
      DigitsEndAt(s, i + 1, e);
    }
  }

  // ---- rendered numerals ----

  /** Text of the shape the formatter emits: -ip.fp, with e+dd when an exponent is shown. */
  datatype Rendered = Rendered(neg: bool, ip: string, fp: string, mark: string, eneg: bool, ed: string)
  {
    ghost predicate Valid() {
      && AllDigits(ip) && AllDigits(fp) && AllDigits(ed) && ip != []
      && (mark == "" || mark == "e" || mark == "E")
      && (mark != "" ==> ed != [])
      && (mark == "" ==> ed == [] && !eneg)
    }

    function Text(): string {
      (if neg then "-" else "") + ip + Frac() + Tail()
    }

    function Frac(): string {
      if fp != [] then "." + fp else ""
    }

    function Tail(): string {
      if mark != "" then mark + (if eneg then "-" else "+") + ed else ""
    }

    function Exp(): int {
      var v: int := DecVal(ed);
      if eneg then -v else v
    }
  }

  lemma EmptyValue()
    ensures DecVal([]) == 0
  {
  }

  lemma CharPast(pre: string, rest: string, i: nat)
    ensures CharAt(pre + rest, |pre| + i) == CharAt(rest, i)
  {
  }

  /** A digit string between two others is read exactly. */
  lemma DigitsPart(s: string, pre: string, d: string, rest: string)
    requires s == pre + d + rest && AllDigits(d) && !IsDigit(CharAt(rest, 0))
    ensures DigitsEnd(s, |pre|) == |pre + d| && Slice(s, |pre|, |pre + d|) == d
    ensures CharAt(s, |pre + d|) == CharAt(rest, 0) && CharAt(s, |pre + d| + 1) == CharAt(rest, 1)
  {
    CharPast(pre + d, rest, 0);
    CharPast(pre + d, rest, 1);
    forall j | |pre| <= j < |pre + d| ensures IsDigit(CharAt(s, j)) {
      assert s[j] == d[j - |pre|];
    }
    DigitsEndAt(s, |pre|, |pre + d|);
    assert s[|pre|..|pre + d|] == d;
  }

  /** The exponent field of a rendered numeral. */
  lemma ParseMark(r: Rendered, s: string, pre: string)
    requires r.Valid() && s == pre + r.Tail()
    ensures ParseExp(s, |pre|) == (r.Exp(), |s|)
  {
    hide DigitsEnd, Slice, DecVal;
    CharPast(pre, r.Tail(), 0);
    if r.mark != "" {
      CharPast(pre, r.Tail(), 1);
      var sgn := if r.eneg then "-" else "+";
      assert s == (pre + r.mark + sgn) + r.ed + "";
      DigitsPart(s, pre + r.mark + sgn, r.ed, "");
    } else {
      assert s == pre;
      EmptyValue();
    }
  }

  /** The digits of a rendered numeral, its point, and what follows. */
  lemma ParseDigits(r: Rendered, s: string, h: string)
    requires r.Valid() && s == h + (r.ip + r.Frac() + r.Tail())
    ensures ParseNumeral(s, |h|, r.neg) == Numeral(r.neg, r.ip, r.fp, r.Exp(), |s|)
  {
    if r.fp != [] {
      ParseWithPoint(r, s, h);
    } else {
      ParseWhole(r, s, h);
    }
  }

  lemma ParseWithPoint(r: Rendered, s: string, h: string)
    requires r.Valid() && r.fp != [] && s == h + (r.ip + r.Frac() + r.Tail())
    ensures ParseNumeral(s, |h|, r.neg) == Numeral(r.neg, r.ip, r.fp, r.Exp(), |s|)
  {
    hide DigitsEnd, ParseExp, Slice, DecVal;
    var t := r.Tail();
    assert s == h + r.ip + "." + r.fp + t;
    ParseMark(r, s, h + r.ip + "." + r.fp);
    ParsePoint(s, h, r.ip, r.fp, t, r.neg, r.Exp());
  }

  lemma ParsePoint(s: string, h: string, ip: string, fp: string, t: string, neg: bool, exp: int)
    requires AllDigits(ip) && AllDigits(fp) && ip != [] && !IsDigit(CharAt(t, 0))
    requires s == h + ip + "." + fp + t && ParseExp(s, |h + ip + "." + fp|) == (exp, |s|)
    ensures ParseNumeral(s, |h|, neg) == Numeral(neg, ip, fp, exp, |s|)
  {
    hide DigitsEnd, ParseExp, Slice, DecVal, AllDigits;
    assert s == h + ip + ("." + fp + t);
    DigitsPart(s, h, ip, "." + fp + t);
    DigitsPart(s, h + ip + ".", fp, t);
  }

  lemma ParseWhole(r: Rendered, s: string, h: string)
    requires r.Valid() && r.fp == [] && s == h + (r.ip + r.Frac() + r.Tail())
    ensures ParseNumeral(s, |h|, r.neg) == Numeral(r.neg, r.ip, r.fp, r.Exp(), |s|)
  {
    hide DigitsEnd, ParseExp, Slice, DecVal;
    var a, t := h + r.ip, r.Tail();
    assert s == a + t;
    DigitsPart(s, h, r.ip, t);
    ParseMark(r, s, a);
  }

  lemma FirstChars(r: Rendered, s: string, h: string)
    requires r.Valid() && s == h + (r.ip + r.Frac() + r.Tail())
    ensures IsDigit(CharAt(s, |h|)) && !Letter(s, |h| + 1, 'x', 'X')
  {
    CharPast(h, r.ip + r.Frac() + r.Tail(), 0);
    CharPast(h, r.ip + r.Frac() + r.Tail(), 1);
    if |r.ip| == 1 {
      CharPast(r.ip, r.Frac() + r.Tail(), 0);
    }
  }

  /** Reading what was rendered gives its parts back. */
  lemma ParseRendered(r: Rendered)
    requires r.Valid()
    ensures Parse(r.Text()) == Numeral(r.neg, r.ip, r.fp, r.Exp(), |r.Text()|)
  {
    hide ParseNumeral;
    var s, h := r.Text(), if r.neg then "-" else "";
    assert s == h + (r.ip + r.Frac() + r.Tail());
    ParseDigits(r, s, h);
    FirstChars(r, s, h);
    if r.neg {
      assert CharAt(s, 0) == '-';
    }
    assert SpacesEnd(s, 0) == 0;
  }
}

/** The UTF-8 / UTF-16 conversion pair. */
module Utf {

  type Byte = x: int | 0 <= x < 0x100
  type Unit = x: int | 0 <= x < 0x1_0000

  const REPLACEMENT := 0xFFFD
  const LAST := 0x10FFFF
  const CP_UTF8 := 65001

  /** A code point as the decoder may yield it; surrogates included. */
  type Point = x: int | 0 <= x <= 0x10FFFF

  predicate Surrogate(c: int) {
    0xD800 <= c <= 0xDFFF
  }

  predicate Scalars(cs: seq<Point>) {
    forall i :: 0 <= i < |cs| ==> !Surrogate(cs[i])
  }

  // ---- One code point in either form (section 3 of RFC 3629, section 2.1 of RFC 2781) ----

  function Enc8(c: Point): (e: seq<Byte>)
    ensures 1 <= |e| <= 4
  {
    if c < 0x80 then [c]
    else if c < 0x800 then [0xC0 + c / 0x40, 0x80 + c % 0x40]
    else if c < 0x1_0000 then [0xE0 + c / 0x1000, 0x80 + c / 0x40 % 0x40, 0x80 + c % 0x40]
    else [0xF0 + c / 0x4_0000, 0x80 + c / 0x1000 % 0x40, 0x80 + c / 0x40 % 0x40, 0x80 + c % 0x40]
  }

  function Enc16(c: Point): (e: seq<Unit>)
    ensures 1 <= |e| <= 2
  {
    if c < 0x1_0000 then [c] else [0xD800 + (c - 0x1_0000) / 0x400, 0xDC00 + (c - 0x1_0000) % 0x400]
  }

  function Bytes(cs: seq<Point>): (s: seq<Byte>) {
    if cs == [] then [] else Enc8(cs[0]) + Bytes(cs[1..])
  }

  function Units(cs: seq<Point>): (w: seq<Unit>) {
    if cs == [] then [] else Enc16(cs[0]) + Units(cs[1..])
  }

  /** Valid UTF-8: encoded scalar values. */
  ghost predicate Valid8(s: seq<Byte>) {
    exists cs: seq<Point> :: Scalars(cs) && s == Bytes(cs)
  }

  /** Well-formed UTF-16. */
  ghost predicate Valid16(w: seq<Unit>) {
    exists cs: seq<Point> :: Scalars(cs) && w == Units(cs)
  }

  // ---- Reading UTF-8 ----

  /** The length a lead byte announces, 0 when it announces none. */
  function LeadLength(b: Byte): (n: nat)
    ensures n <= 4
  {
    if b < 0x80 then 1 else if b < 0xC0 then 0 else if b < 0xE0 then 2
    else if b < 0xF0 then 3 else if b < 0xF8 then 4 else 0
  }

  predicate Continuation(b: Byte) {
    0x80 <= b < 0xC0
  }

  /** The bits of the first k bytes of a sequence. */
  function Payload(s: seq<Byte>, k: nat): int
    requires 1 <= k <= |s|
  {
    if k > 1 then Payload(s, k - 1) * 0x40 + (s[k - 1] as int - 0x80)
    else
      var b: int := s[0];
      if b < 0x80 then b else if b < 0xE0 then b - 0xC0 else if b < 0xF0 then b - 0xE0 else b - 0xF0
  }

  predicate Shortest(n: nat, v: int) {
    (n == 2 ==> v >= 0x80) && (n == 3 ==> v >= 0x800) && (n == 4 ==> v >= 0x1_0000) && v <= LAST
  }

  predicate Continued(s: seq<Byte>, k: nat)
    requires k <= |s|
  {
    forall j :: 1 <= j < k ==> Continuation(s[j])
  }

  /** The code point at the start of s, -1 when there is none. */
  function Dec8(s: seq<Byte>): (d: int)
    requires s != []
  {
    var n := LeadLength(s[0]);
    if n == 0 || n > |s| || !Continued(s, n) || !Shortest(n, Payload(s, n)) then -1 else Payload(s, n)
  }

  /** What the decoder accepts, it accepts as a shortest-form encoding. */
  lemma DecodedForm(s: seq<Byte>)
    requires s != [] && Dec8(s) >= 0
    ensures Dec8(s) <= LAST
    ensures LeadLength(s[0]) <= |s| && Enc8(Dec8(s)) == s[..LeadLength(s[0])]
  {
    var n := LeadLength(s[0]);
    if n == 2 { Form2(s); } else if n == 3 { Form3(s); } else if n == 4 { Form4(s); }
  }

  lemma Form2(s: seq<Byte>)
    requires |s| >= 2 && LeadLength(s[0]) == 2 && Continued(s, 2) && Shortest(2, Payload(s, 2))
    ensures Payload(s, 2) >= 0 && Enc8(Payload(s, 2)) == s[..2]
  {
    assert Payload(s, 1) == s[0] - 0xC0;
    assert Continuation(s[1]);
    hide Enc8, Payload;
    Digits2(s[0] - 0xC0, s[1] - 0x80, Payload(s, 2));
    assert s[..2] == [s[0], s[1]];
  }

  lemma Digits2(a: int, b: int, v: int)
    requires 0 <= a < 0x20 && 0 <= b < 0x40 && v == a * 0x40 + b && v >= 0x80
    ensures 0 <= v < 0x800 && Enc8(v) == [0xC0 + a, 0x80 + b]
  {
    assert v / 0x40 == a && v % 0x40 == b;
  }

  lemma Form3(s: seq<Byte>)
    requires |s| >= 3 && LeadLength(s[0]) == 3 && Continued(s, 3) && Shortest(3, Payload(s, 3))
    ensures Payload(s, 3) >= 0 && Enc8(Payload(s, 3)) == s[..3]
  {
    assert Payload(s, 1) == s[0] as int - 0xE0;
    assert Payload(s, 2) == (s[0] as int - 0xE0) * 0x40 + (s[1] as int - 0x80);
    assert Payload(s, 3) == Payload(s, 2) * 0x40 + (s[2] as int - 0x80);
    assert Continuation(s[1]) && Continuation(s[2]);
    hide Enc8, Payload;
    Digits3(s[0] - 0xE0, s[1] - 0x80, s[2] - 0x80, Payload(s, 3));
    assert s[..3] == [s[0], s[1], s[2]];
  }

  lemma Digits3(a: int, b: int, c: int, v: int)
    requires 0 <= a < 0x10 && 0 <= b < 0x40 && 0 <= c < 0x40 && v == (a * 0x40 + b) * 0x40 + c && v >= 0x800
    ensures 0 <= v < 0x1_0000 && Enc8(v) == [0xE0 + a, 0x80 + b, 0x80 + c]
  {
    assert v / 0x40 == a * 0x40 + b;
    assert v / 0x1000 == a && v / 0x40 % 0x40 == b && v % 0x40 == c;
  }

  lemma Form4(s: seq<Byte>)
    requires |s| >= 4 && LeadLength(s[0]) == 4 && Continued(s, 4) && Shortest(4, Payload(s, 4))
    ensures Payload(s, 4) >= 0 && Enc8(Payload(s, 4)) == s[..4]
  {
    assert Payload(s, 1) == s[0] as int - 0xF0;
    assert Payload(s, 2) == (s[0] as int - 0xF0) * 0x40 + (s[1] as int - 0x80);
    assert Payload(s, 3) == Payload(s, 2) * 0x40 + (s[2] as int - 0x80);
    assert Payload(s, 4) == Payload(s, 3) * 0x40 + (s[3] as int - 0x80);
    assert Continuation(s[1]) && Continuation(s[2]) && Continuation(s[3]);
    hide Enc8, Payload;
    Digits4(s[0] - 0xF0, s[1] - 0x80, s[2] - 0x80, s[3] - 0x80, Payload(s, 4));
    assert s[..4] == [s[0], s[1], s[2], s[3]];
  }

  lemma Digits4(a: int, b: int, c: int, d: int, v: int)
    requires 0 <= a < 8 && 0 <= b < 0x40 && 0 <= c < 0x40 && 0 <= d < 0x40
    requires v == ((a * 0x40 + b) * 0x40 + c) * 0x40 + d && 0x1_0000 <= v <= LAST
    ensures Enc8(v) == [0xF0 + a, 0x80 + b, 0x80 + c, 0x80 + d]
  {
    assert v / 0x40 == (a * 0x40 + b) * 0x40 + c;
    assert v / 0x1000 == a * 0x40 + b;
    assert v / 0x4_0000 == a && v / 0x1000 % 0x40 == b && v / 0x40 % 0x40 == c && v % 0x40 == d;
  }

  /** The decoder reads back every encoded code point, surrogates too, whatever follows. */
  lemma DecodesEncoded(c: Point, rest: seq<Byte>)
    ensures Dec8(Enc8(c) + rest) == c && LeadLength(Enc8(c)[0]) == |Enc8(c)|
  {
    var s := Enc8(c) + rest;
    assert s[..|Enc8(c)|] == Enc8(c);
    if c < 0x80 {
      assert Payload(s, 1) == c;
    } else if c < 0x800 {
      assert Payload(s, 1) == c / 0x40;
    } else if c < 0x1_0000 {
      Decodes3(c, s);
    } else {
      Decodes4(c, s);
    }
  }

  lemma Decodes3(c: Point, s: seq<Byte>)
    requires 0x800 <= c < 0x1_0000 && |s| >= 3
    requires s[0] == 0xE0 + c / 0x1000 && s[1] == 0x80 + c / 0x40 % 0x40 && s[2] == 0x80 + c % 0x40
    ensures Dec8(s) == c && LeadLength(s[0]) == 3
  {
    assert Payload(s, 1) == c / 0x1000;
    assert Payload(s, 2) == c / 0x1000 * 0x40 + c / 0x40 % 0x40;
    Split3(c);
    assert Payload(s, 3) == c;
  }

  lemma Decodes4(c: Point, s: seq<Byte>)
    requires c >= 0x1_0000 && |s| >= 4
    requires s[0] == 0xF0 + c / 0x4_0000 && s[1] == 0x80 + c / 0x1000 % 0x40
    requires s[2] == 0x80 + c / 0x40 % 0x40 && s[3] == 0x80 + c % 0x40
    ensures Dec8(s) == c && LeadLength(s[0]) == 4
  {
    assert Payload(s, 1) == c / 0x4_0000;
    assert Payload(s, 2) == c / 0x4_0000 * 0x40 + c / 0x1000 % 0x40;
    assert Payload(s, 3) == Payload(s, 2) * 0x40 + c / 0x40 % 0x40;
    Split4(c);
    assert Payload(s, 4) == c;
  }

  lemma Split3(c: int)
    requires 0 <= c
    ensures (c / 0x1000 * 0x40 + c / 0x40 % 0x40) * 0x40 + c % 0x40 == c
  {
    assert c / 0x1000 == c / 0x40 / 0x40;
  }

  lemma Split4(c: int)
    requires 0 <= c
    ensures ((c / 0x4_0000 * 0x40 + c / 0x1000 % 0x40) * 0x40 + c / 0x40 % 0x40) * 0x40 + c % 0x40 == c
  {
    assert c / 0x4_0000 == c / 0x1000 / 0x40;
    assert c / 0x1000 == c / 0x40 / 0x40;
  }

  /** The decoder, byte by byte. */
  method Decode(s: seq<Byte>, i: nat) returns (d: int)
    requires i < |s|
    ensures d == Dec8(s[i..])
  {
    ghost var t := s[i..];
    var b0 := s[i];
    var cpw, adv;
    if b0 < 0x80 {
      assert Payload(t, 1) == b0;
      return b0;
    }
    if 0xC0 <= b0 < 0xE0 {
      cpw, adv := b0 - 0xC0, 2;
    } else if 0xE0 <= b0 < 0xF0 {
      cpw, adv := b0 - 0xE0, 3;
    } else if 0xF0 <= b0 < 0xF8 {
      cpw, adv := b0 - 0xF0, 4;
    } else {
      return -1;
    }
    if i + adv > |s| {
      return -1;
    }
    var k: nat := 1;
    while k < adv
      invariant 1 <= k <= adv == LeadLength(t[0]) && cpw == Payload(t, k) && Continued(t, k)
    {
      var bx := s[i + k];
      assert t[k] == bx;
      if !(0x80 <= bx < 0xC0) {
        return -1;
      }
      cpw := cpw * 0x40 + (bx - 0x80);
      k := k + 1;
    }
    if (adv == 2 && cpw < 0x80) || (adv == 3 && cpw < 0x800) || (adv == 4 && cpw < 0x1_0000) || cpw > LAST {
      return -1;
    }
    d := cpw;
  }

  /** What is read at the start of s: a code point, or the replacement for one bad byte. */
  function Point8(s: seq<Byte>): (c: Point)
    requires s != []
  {
    if Dec8(s) < 0 then REPLACEMENT else DecodedForm(s); Dec8(s)
  }

  function Used8(s: seq<Byte>): (n: nat)
    requires s != []
    ensures 1 <= n <= |s|
  {
    if Dec8(s) < 0 then 1 else LeadLength(s[0])
  }

  /** All code points read from s. */
  function Points8(s: seq<Byte>): (cs: seq<Point>)
    decreases |s|
  {
    if s == [] then [] else [Point8(s)] + Points8(s[Used8(s)..])
  }

  // ---- Reading UTF-16 ----

  predicate Pair(w: seq<Unit>) {
    |w| >= 2 && 0xD800 <= w[0] <= 0xDBFF && 0xDC00 <= w[1] <= 0xDFFF
  }

  function Point16(w: seq<Unit>): (c: Point)
    requires w != []
    ensures !Surrogate(c)
  {
    if Pair(w) then 0x1_0000 + (w[0] - 0xD800) * 0x400 + (w[1] - 0xDC00)
    else if Surrogate(w[0]) then REPLACEMENT else w[0]
  }

  function Used16(w: seq<Unit>): (n: nat)
    requires w != []
    ensures 1 <= n <= |w|
  {
    if Pair(w) then 2 else 1
  }

  function Points16(w: seq<Unit>): (cs: seq<Point>)
    decreases |w|
  {
    if w == [] then [] else [Point16(w)] + Points16(w[Used16(w)..])
  }

  lemma {:induction false} Points16Scalars(w: seq<Unit>)
    ensures Scalars(Points16(w))
    decreases |w|
  {
    if w != [] {
      Points16Scalars(w[Used16(w)..]);
    }
  }

  lemma DecodesPair(c: Point, rest: seq<Unit>)
    requires !Surrogate(c)
    ensures Point16(Enc16(c) + rest) == c && Used16(Enc16(c) + rest) == |Enc16(c)|
  {
  }

  // ---- The two conversions and their inverses ----

  /** What a conversion to UTF-16 writes. */
  function Wide(s: seq<Byte>): seq<Unit> {
    Units(Points8(s))
  }

  /** What a conversion to UTF-8 writes. */
  function Narrow(w: seq<Unit>): seq<Byte> {
    Bytes(Points16(w))
  }

  lemma {:induction false} ReadsBytes(cs: seq<Point>)
    ensures Points8(Bytes(cs)) == cs
  {
    hide Enc8, Dec8;
    if cs != [] {
      var e, rest := Enc8(cs[0]), Bytes(cs[1..]);
      DecodesEncoded(cs[0], rest);
      ReadsBytes(cs[1..]);
      assert (e + rest)[0] == e[0] && (e + rest)[|e|..] == rest;
      assert [cs[0]] + cs[1..] == cs;
    }
  }

  lemma {:induction false} ReadsUnits(cs: seq<Point>)
    requires Scalars(cs)
    ensures Points16(Units(cs)) == cs
  {
    hide Enc16, Point16, Used16;
    if cs != [] {
      var e, rest := Enc16(cs[0]), Units(cs[1..]);
      DecodesPair(cs[0], rest);
      ReadsUnits(cs[1..]);
      assert (e + rest)[|e|..] == rest;
      assert [cs[0]] + cs[1..] == cs;
    }
  }

  /** UTF-8 survives the way to UTF-16 and back exactly when it is valid. */
  lemma BytesSurvive(s: seq<Byte>)
    ensures Narrow(Wide(s)) == s <==> Valid8(s)
  {
    hide Bytes, Units, Points8, Points16;
    if Valid8(s) {
      var cs :| Scalars(cs) && s == Bytes(cs);
      ReadsBytes(cs);
      ReadsUnits(cs);
    }
    Points16Scalars(Wide(s));
  }

  /** UTF-16 survives the way to UTF-8 and back exactly when it is well-formed. */
  lemma UnitsSurvive(w: seq<Unit>)
    ensures Wide(Narrow(w)) == w <==> Valid16(w)
  {
    hide Bytes, Units, Points8, Points16;
    if Valid16(w) {
      var cs :| Scalars(cs) && w == Units(cs);
      ReadsUnits(cs);
      ReadsBytes(cs);
    }
    Points16Scalars(w);
    ReadsBytes(Points16(w));
  }

  /** A second trip changes nothing more: the bytes that come back are always valid. */
  lemma NarrowIsValid(w: seq<Unit>)
    ensures Valid8(Narrow(w)) && Narrow(Wide(Narrow(w))) == Narrow(w)
  {
    hide Bytes, Units, Points8, Points16;
    Points16Scalars(w);
    BytesSurvive(Narrow(w));
  }

  /** An encoded surrogate is read as such instead of being replaced, and does not come back. */
  lemma EncodedSurrogate()
    ensures Wide([0xED, 0xA0, 0x80]) == [0xD800]
    ensures Narrow([0xD800]) == [0xEF, 0xBF, 0xBD]
  {
    var s: seq<Byte> := [0xED, 0xA0, 0x80];
    assert Enc8(0xD800) + [] == s;
    DecodesEncoded(0xD800, []);
    assert s[3..] == [];
    assert Points8(s) == [0xD800];
    var w: seq<Unit> := [0xD800];
    assert w[1..] == [];
    assert Points16(w) == [0xFFFD];
  }

  // ---- what cannot be read ----

  lemma {:induction false} UnitsConcat(a: seq<Point>, b: seq<Point>)
    ensures Units(a + b) == Units(a) + Units(b)
  {
    hide Enc16;
    if a == [] {
      assert a + b == b;
    } else {
      UnitsConcat(a[1..], b);
      assert (a + b)[1..] == a[1..] + b;
      assert Enc16(a[0]) + (Units(a[1..]) + Units(b)) == Enc16(a[0]) + Units(a[1..]) + Units(b);
    }
  }

  lemma {:induction false} BytesConcat(a: seq<Point>, b: seq<Point>)
    ensures Bytes(a + b) == Bytes(a) + Bytes(b)
  {
    hide Enc8;
    if a == [] {
      assert a + b == b;
    } else {
      BytesConcat(a[1..], b);
      assert (a + b)[1..] == a[1..] + b;
      assert Enc8(a[0]) + (Bytes(a[1..]) + Bytes(b)) == Enc8(a[0]) + Bytes(a[1..]) + Bytes(b);
    }
  }

  lemma ReadsOne8(c: Point, t: seq<Byte>)
    ensures Points8(Enc8(c) + t) == [c] + Points8(t)
  {
    hide Enc8, Dec8;
    var e := Enc8(c);
    DecodesEncoded(c, t);
    assert (e + t)[0] == e[0] && (e + t)[|e|..] == t;
  }

  lemma ReadsOne16(c: Point, t: seq<Unit>)
    requires !Surrogate(c)
    ensures Points16(Enc16(c) + t) == [c] + Points16(t)
  {
    hide Enc16, Point16, Used16;
    var e := Enc16(c);
    DecodesPair(c, t);
    assert (e + t)[|e|..] == t;
  }

  /** An encoded front is read whatever follows it. */
  lemma {:induction false} ReadsFront8(cs: seq<Point>, rest: seq<Byte>)
    ensures Points8(Bytes(cs) + rest) == cs + Points8(rest)
  {
    hide Enc8, Points8;
    if cs == [] {
      assert Bytes(cs) + rest == rest && cs + Points8(rest) == Points8(rest);
    } else {
      var e, t := Enc8(cs[0]), Bytes(cs[1..]) + rest;
      assert Bytes(cs) + rest == e + t;
      ReadsOne8(cs[0], t);
      ReadsFront8(cs[1..], rest);
      assert [cs[0]] + (cs[1..] + Points8(rest)) == cs + Points8(rest);
    }
  }

  lemma {:induction false} ReadsFront16(cs: seq<Point>, rest: seq<Unit>)
    requires Scalars(cs)
    ensures Points16(Units(cs) + rest) == cs + Points16(rest)
  {
    hide Enc16, Points16;
    if cs == [] {
      assert Units(cs) + rest == rest && cs + Points16(rest) == Points16(rest);
    } else {
      var e, t := Enc16(cs[0]), Units(cs[1..]) + rest;
      assert Scalars(cs[1..]) && Units(cs) + rest == e + t;
      hide Scalars, Units;
      ReadsOne16(cs[0], t);
      ReadsFront16(cs[1..], rest);
      assert [cs[0]] + (cs[1..] + Points16(rest)) == cs + Points16(rest);
    }
  }

  /**
   * Behind any encoded front, a byte at which no encoded code point begins becomes one U+FFFD, and reading
   * goes on at the very next byte.
   */
  lemma BadByte(cs: seq<Point>, b: Byte, rest: seq<Byte>)
    requires forall c: Point :: !(Enc8(c) <= [b] + rest)
    ensures Wide(Bytes(cs) + ([b] + rest)) == Units(cs) + [0xFFFD] + Wide(rest)
  {
    var s := [b] + rest;
    NothingDecoded(s);
    hide Enc8, Dec8, Enc16;
    ReadsFront8(cs, s);
    assert s[1..] == rest && Points8(s) == [0xFFFD] + Points8(rest);
    hide Points8, Units;
    UnitsConcat(cs, [0xFFFD] + Points8(rest));
    UnitsConcat([0xFFFD], Points8(rest));
    OneUnit();
  }

  lemma NothingDecoded(s: seq<Byte>)
    requires s != [] && forall c: Point :: !(Enc8(c) <= s)
    ensures Dec8(s) < 0
  {
    hide Enc8, Payload, Shortest;
    if Dec8(s) >= 0 {
      DecodedForm(s);
    }
  }

  lemma OneUnit()
    ensures Units([0xFFFD]) == [0xFFFD] && Bytes([0xFFFD]) == [0xEF, 0xBF, 0xBD]
  {
    assert [0xFFFD][1..] == [];
  }

  /** In the other direction a surrogate without its partner becomes EF BF BD, alone. */
  lemma LoneSurrogate(cs: seq<Point>, u: Unit, rest: seq<Unit>)
    requires Scalars(cs) && 0xD800 <= u <= 0xDFFF
    requires !(u <= 0xDBFF && rest != [] && 0xDC00 <= rest[0] <= 0xDFFF)
    ensures Narrow(Units(cs) + ([u] + rest)) == Bytes(cs) + [0xEF, 0xBF, 0xBD] + Narrow(rest)
  {
    var w := [u] + rest;
    assert Point16(w) == 0xFFFD && w[1..] == rest;
    assert Points16(w) == [0xFFFD] + Points16(rest);
    hide Enc8, Enc16, Points16, Bytes;
    ReadsFront16(cs, w);
    BytesConcat(cs, [0xFFFD] + Points16(rest));
    BytesConcat([0xFFFD], Points16(rest));
    OneUnit();
  }

  /** Every read yields a scalar value: a check a caller can make on the bytes. */
  predicate ReadsClean(s: seq<Byte>)
    decreases |s|
  {
    s == [] || (Dec8(s) >= 0 && !Surrogate(Dec8(s)) && ReadsClean(s[Used8(s)..]))
  }

  lemma {:induction false} ValidIsClean(s: seq<Byte>)
    ensures Valid8(s) <==> ReadsClean(s)
  {
    if Valid8(s) {
      var cs :| Scalars(cs) && s == Bytes(cs);
      BytesReadClean(cs);
    }
    if ReadsClean(s) {
      CleanIsBytes(s);
    }
  }

  lemma {:induction false} BytesReadClean(cs: seq<Point>)
    requires Scalars(cs)
    ensures ReadsClean(Bytes(cs))
  {
    hide Enc8, Dec8;
    if cs != [] {
      var e, rest := Enc8(cs[0]), Bytes(cs[1..]);
      DecodesEncoded(cs[0], rest);
      BytesReadClean(cs[1..]);
      assert (e + rest)[0] == e[0] && (e + rest)[|e|..] == rest;
    }
  }

  lemma {:induction false} CleanIsBytes(s: seq<Byte>)
    requires ReadsClean(s)
    ensures Scalars(Points8(s)) && Bytes(Points8(s)) == s
    decreases |s|
  {
    hide Enc8, Dec8;
    if s != [] {
      DecodedForm(s);
      CleanIsBytes(s[Used8(s)..]);
      var cs := Points8(s);
      assert cs[1..] == Points8(s[Used8(s)..]);
      assert s == s[..Used8(s)] + s[Used8(s)..];
    }
  }

  // ---- The calls ----

  /** The text of a source buffer: `len` elements, or up to its terminator when `len` is negative. */
  predicate SourceOk(s: seq<int>, len: int) {
    if len < 0 then 0 in s else len <= |s|
  }

  function Terminator(s: seq<int>): (n: nat)
    requires 0 in s
    ensures n < |s| && s[n] == 0 && 0 !in s[..n]
  {
    if s[0] == 0 then 0 else 1 + Terminator(s[1..])
  }

  function TextLength(s: seq<int>, len: int): (n: nat)
    requires SourceOk(s, len)
    ensures n <= |s| && if len < 0 then n < |s| && s[n] == 0 && 0 !in s[..n] else n == len
  {
    if len < 0 then Terminator(s) else len
  }

  /** The number of elements before the terminator. */
  method Measure(s: seq<int>) returns (n: nat)
    requires 0 in s
    ensures n == Terminator(s)
  {
    n := 0;
    while s[n] != 0
      invariant n < |s| && 0 in s[n..] && n + Terminator(s[n..]) == Terminator(s)
      decreases |s| - n
    {
      assert s[n..][0] == s[n] && s[n..][1..] == s[n + 1..];
      n := n + 1;
    }
    assert s[n..][0] == 0;
  }

  /** A pointer to readable memory, or null. */
  datatype Source<T> = Null | Memory(cells: seq<T>)

  lemma WideStep(t: seq<Byte>)
    requires t != []
    ensures Units(Points8(t)) == Enc16(Point8(t)) + Units(Points8(t[Used8(t)..]))
  {
    assert Points8(t)[1..] == Points8(t[Used8(t)..]);
  }

  lemma NarrowStep(t: seq<Unit>)
    requires t != []
    ensures Bytes(Points16(t)) == Enc8(Point16(t)) + Bytes(Points16(t[Used16(t)..]))
  {
    assert Points16(t)[1..] == Points16(t[Used16(t)..]);
  }

  /** Write one code point at place `at`; nothing else changes. */
  method PutUnits(w: array<Unit>, at: nat, c: Point) returns (len: nat)
    requires at + |Enc16(c)| <= w.Length
    modifies w
    ensures len == |Enc16(c)|
    ensures w[..at + len] == old(w[..at]) + Enc16(c) && w[at + len..] == old(w[at + len..])
  {
    if c > 0xFFFF {
      var v := c - 0x1_0000;
      w[at], w[at + 1] := 0xD800 + v / 0x400, 0xDC00 + v % 0x400;
      len := 2;
    } else {
      w[at] := c;
      len := 1;
    }
  }

  method PutBytes(mb: array<Byte>, at: nat, c: Point) returns (len: nat)
    requires at + |Enc8(c)| <= mb.Length
    modifies mb
    ensures len == |Enc8(c)|
    ensures mb[..at + len] == old(mb[..at]) + Enc8(c) && mb[at + len..] == old(mb[at + len..])
  {
    if c < 0x80 {
      mb[at] := c;
      len := 1;
    } else if c < 0x800 {
      mb[at], mb[at + 1] := 0xC0 + c / 0x40, 0x80 + c % 0x40;
      len := 2;
    } else if c < 0x1_0000 {
      mb[at], mb[at + 1], mb[at + 2] := 0xE0 + c / 0x1000, 0x80 + c / 0x40 % 0x40, 0x80 + c % 0x40;
      len := 3;
    } else {
      mb[at], mb[at + 1] := 0xF0 + c / 0x4_0000, 0x80 + c / 0x1000 % 0x40;
      mb[at + 2], mb[at + 3] := 0x80 + c / 0x40 % 0x40, 0x80 + c % 0x40;
      len := 4;
    }
  }

  /** Elements a call delivers for a text: the conversion, and a terminator when the length was implied. */
  function WideOut(text: seq<Byte>, len: int): seq<Unit> {
    Wide(text) + if len < 0 then [0] else []
  }

  function NarrowOut(text: seq<Unit>, len: int): seq<Byte> {
    Narrow(text) + if len < 0 then [0] else []
  }

  /** Appending to a filled prefix. */
  lemma Filled<T>(done: seq<T>, e: seq<T>, rest: seq<T>, all: seq<T>, now: seq<T>)
    requires done + (e + rest) == all && now == done + e
    ensures now + rest == all && |done| + |e| <= |all|
  {
  }

  method MultiByteToWideChar(cp: int, s: Source<Byte>, sl: int, w: array?<Unit>, wl: int) returns (r: nat)
    requires s.Memory? ==> SourceOk(s.cells, sl)
    requires w != null ==> wl <= w.Length
    modifies w
    ensures cp != 65001 || s.Null? ==> r == 0
    ensures cp == 65001 && s.Memory? ==>
              var text := s.cells[..TextLength(s.cells, sl)];
              var out := Wide(text) + if sl < 0 then [0] else [];
              if text == [] then r == 0
              else if w == null || wl == 0 then r == |out|
              else if |out| <= wl then r == |out| && w[..r] == out
              else r == 0
    ensures w != null ==> var top := if wl < 0 then 0 else if r > 0 && wl > 0 then r else wl; w[top..] == old(w[top..])
  {
    hide Points8, Units, Enc16, Dec8, Terminator;
    if cp != CP_UTF8 || s.Null? {
      return 0;
    }
    var n := sl;
    if n < 0 {
      n := Measure(s.cells);
    }
    if n == 0 {
      return 0;
    }
    ghost var out := WideOut(s.cells[..n], sl);
    if w == null || wl == 0 {
      r := WideSize(s.cells[..n]);
      if sl < 0 {
        r := r + 1;
      }
      return;
    }
    var fits;
    fits, r := WideFill(s.cells[..n], w, wl);
    if !fits {
      return 0;
    }
    if sl < 0 {
      ghost var before, tail := w[..r], w[r..];
      r := r + 1;
      if r > wl {
        return 0;
      }
      w[r - 1] := 0;
      assert w[..r] == before + [0] == out;
      assert w[r..] == tail[1..] == old(w[r..]);
    }
  }

  /** The loop of a size query. */
  method WideSize(text: seq<Byte>) returns (units: nat)
    ensures units == |Wide(text)|
  {
    hide Points8, Units, Enc16, Dec8;
    units := 0;
    var i: nat := 0;
    assert text[0..] == text;
    while i < |text|
      invariant i <= |text| && units + |Units(Points8(text[i..]))| == |Wide(text)|
    {
      WideStep(text[i..]);
      var d := Decode(text, i);
      var c := if d < 0 then REPLACEMENT else d;
      var adv := if d < 0 then 1 else LeadLength(text[i]);
      assert text[i..][adv..] == text[i + adv..];
      units := units + if c > 0xFFFF then 2 else 1;
      assert |Enc16(c)| == if c > 0xFFFF then 2 else 1 by { Size16(c); }
      i := i + adv;
    }
    NoUnits(text[i..]);
  }

  lemma Size16(c: Point)
    ensures |Enc16(c)| == if c > 0xFFFF then 2 else 1
  {
  }

  lemma NoUnits(t: seq<Byte>)
    requires t == []
    ensures Units(Points8(t)) == []
  {
  }

  /** The loop of a conversion; false when the next code point does not fit. */
  method WideFill(text: seq<Byte>, w: array<Unit>, wl: int) returns (fits: bool, units: nat)
    requires wl <= w.Length && text != []
    modifies w
    ensures fits <==> |Wide(text)| <= wl
    ensures fits ==> units == |Wide(text)| && w[..units] == Wide(text) && w[units..] == old(w[units..])
    ensures var top := if wl < 0 then 0 else wl; w[top..] == old(w[top..])
  {
    hide Points8, Units, Enc16, Dec8;
    units := 0;
    var i: nat := 0;
    assert text[0..] == text;
    if wl < 0 {
      WideStep(text);
    }
    while i < |text|
      invariant i <= |text| && units <= w.Length && (i > 0 ==> units <= wl)
      invariant w[..units] + Units(Points8(text[i..])) == Wide(text)
      invariant w[units..] == old(w[units..]) && (wl >= 0 ==> units <= wl) && (wl < 0 ==> units == 0 && i == 0)
    {
      WideStep(text[i..]);
      var d := Decode(text, i);
      var c := if d < 0 then REPLACEMENT else d;
      var adv := if d < 0 then 1 else LeadLength(text[i]);
      assert text[i..][adv..] == text[i + adv..];
      var cu := if c > 0xFFFF then 2 else 1;
      Size16(c);
      ghost var rest := Units(Points8(text[i + adv..]));
      if units + cu > wl {
        assert |Wide(text)| == units + (|Enc16(c)| + |rest|);
        return false, units;
      }
      ghost var done, tail := w[..units], w[units..];
      var len := PutUnits(w, units, c);
      assert w[units + len..] == tail[len..] == old(w[units + len..]);
      Filled(done, Enc16(c), rest, Wide(text), w[..units + len]);
      units := units + len;
      i := i + adv;
    }
    NoUnits(text[i..]);
    assert w[..units] + [] == w[..units];
    fits := true;
  }

  /** One code point of UTF-16 text and the units it takes. */
  method ReadUnits(w: seq<Unit>, i: nat) returns (cpw: Point, adv: nat)
    requires i < |w|
    ensures cpw == Point16(w[i..]) && adv == Used16(w[i..])
  {
    var u: int := w[i];
    adv := 1;
    if u >= 0xD800 && u <= 0xDBFF && i + 1 < |w| {
      var u2: int := w[i + 1];
      if u2 >= 0xDC00 && u2 <= 0xDFFF {
        cpw := 0x1_0000 + (u - 0xD800) * 0x400 + (u2 - 0xDC00);
        adv := 2;
      } else {
        cpw := REPLACEMENT;
      }
    } else if u >= 0xD800 && u <= 0xDFFF {
      cpw := REPLACEMENT;
    } else {
      cpw := u;
    }
  }

  lemma Size8(c: Point)
    ensures |Enc8(c)| == if c < 0x80 then 1 else if c < 0x800 then 2 else if c < 0x1_0000 then 3 else 4
  {
  }

  lemma NoBytes(t: seq<Unit>)
    requires t == []
    ensures Bytes(Points16(t)) == []
  {
  }

  method NarrowSize(text: seq<Unit>) returns (bytes: nat)
    ensures bytes == |Narrow(text)|
  {
    hide Points16, Bytes, Enc8, Point16, Used16;
    bytes := 0;
    var i: nat := 0;
    assert text[0..] == text;
    while i < |text|
      invariant i <= |text| && bytes + |Bytes(Points16(text[i..]))| == |Narrow(text)|
    {
      NarrowStep(text[i..]);
      var cpw, adv := ReadUnits(text, i);
      assert text[i..][adv..] == text[i + adv..];
      Size8(cpw);
      bytes := bytes + if cpw < 0x80 then 1 else if cpw < 0x800 then 2 else if cpw < 0x1_0000 then 3 else 4;
      i := i + adv;
    }
    NoBytes(text[i..]);
  }

  method NarrowFill(text: seq<Unit>, mb: array<Byte>, mbl: int) returns (fits: bool, bytes: nat)
    requires mbl <= mb.Length && text != []
    modifies mb
    ensures fits <==> |Narrow(text)| <= mbl
    ensures fits ==> bytes == |Narrow(text)| && mb[..bytes] == Narrow(text) && mb[bytes..] == old(mb[bytes..])
    ensures var top := if mbl < 0 then 0 else mbl; mb[top..] == old(mb[top..])
  {
    hide Points16, Bytes, Enc8, Point16, Used16;
    bytes := 0;
    var i: nat := 0;
    assert text[0..] == text;
    if mbl < 0 {
      NarrowStep(text);
    }
    while i < |text|
      invariant i <= |text| && bytes <= mb.Length && (i > 0 ==> bytes <= mbl)
      invariant mb[..bytes] + Bytes(Points16(text[i..])) == Narrow(text)
      invariant mb[bytes..] == old(mb[bytes..]) && (mbl >= 0 ==> bytes <= mbl) && (mbl < 0 ==> bytes == 0 && i == 0)
    {
      NarrowStep(text[i..]);
      var cpw, adv := ReadUnits(text, i);
      assert text[i..][adv..] == text[i + adv..];
      var len := if cpw < 0x80 then 1 else if cpw < 0x800 then 2 else if cpw < 0x1_0000 then 3 else 4;
      Size8(cpw);
      ghost var rest := Bytes(Points16(text[i + adv..]));
      if bytes + len > mbl {
        assert |Narrow(text)| == bytes + (|Enc8(cpw)| + |rest|);
        return false, bytes;
      }
      ghost var done, tail := mb[..bytes], mb[bytes..];
      var put := PutBytes(mb, bytes, cpw);
      assert mb[bytes + put..] == tail[put..] == old(mb[bytes + put..]);
      Filled(done, Enc8(cpw), rest, Narrow(text), mb[..bytes + put]);
      bytes := bytes + put;
      i := i + adv;
    }
    NoBytes(text[i..]);
    assert mb[..bytes] + [] == mb[..bytes];
    fits := true;
  }

  /** Here only a null buffer asks for the size; a capacity of 0 is too small. */
  method WideCharToMultiByte(cp: int, w: Source<Unit>, wl: int, mb: array?<Byte>, mbl: int) returns (r: nat)
    requires w.Memory? ==> SourceOk(w.cells, wl)
    requires mb != null ==> mbl <= mb.Length
    modifies mb
    ensures cp != 65001 || w.Null? ==> r == 0
    ensures cp == 65001 && w.Memory? ==>
              var text := w.cells[..TextLength(w.cells, wl)];
              var out := Narrow(text) + if wl < 0 then [0] else [];
              if text == [] then r == 0
              else if mb == null then r == |out|
              else if |out| <= mbl then r == |out| && mb[..r] == out
              else r == 0
    ensures mb != null ==> var top := if mbl < 0 then 0 else if r > 0 then r else mbl; mb[top..] == old(mb[top..])
  {
    hide Points16, Bytes, Enc8, Point16, Terminator;
    if cp != CP_UTF8 || w.Null? {
      return 0;
    }
    var n := wl;
    if n < 0 {
      n := Measure(w.cells);
    }
    if n == 0 {
      return 0;
    }
    ghost var out := NarrowOut(w.cells[..n], wl);
    if mb == null {
      r := NarrowSize(w.cells[..n]);
      if wl < 0 {
        r := r + 1;
      }
      return;
    }
    var fits;
    fits, r := NarrowFill(w.cells[..n], mb, mbl);
    if !fits {
      return 0;
    }
    if wl < 0 {
      if r + 1 > mbl {
        return 0;
      }
      ghost var before, tail := mb[..r], mb[r..];
      mb[r] := 0;
      r := r + 1;
      assert mb[..r] == before + [0] == out;
      assert mb[r..] == tail[1..] == old(mb[r..]);
    }
  }
}

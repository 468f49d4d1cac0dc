/** Localizing symbols of an ELF object: rebinding, the stable partition of the symbol table, remapped relocations. */
module ElfLocalize {

  type Byte = x: int | 0 <= x < 256

  type Image = seq<Byte>

  /** A table of fixed-size records: the symbol table, or the entries of a relocation section. */
  datatype Table = Table(off: nat, ent: nat, count: nat)

  lemma NonNegative(i: nat, e: nat)
    ensures i * e >= 0
  {
  }

  function Times(n: nat, e: nat): (p: nat)
  {
    NonNegative(n, e);
    n * e
  }

  lemma JoinedLength(n: nat, e: nat)
    ensures Times(n, e) + e == Times(n + 1, e)
  {
  }

  lemma TimesBelow(i: nat, n: nat, e: nat)
    requires i < n
    ensures Times(i, e) + e <= Times(n, e)
  {
    NonNegative(n - i - 1, e);
    assert n * e == i * e + e + (n - i - 1) * e;
  }

  function At(t: Table, i: nat): (o: nat)
    ensures o >= t.off
  {
    t.off + Times(i, t.ent)
  }

  function End(t: Table): nat {
    At(t, t.count)
  }

  /** Records follow each other without overlap. */
  lemma RecordsApart(t: Table, i: nat, j: nat)
    requires i < j
    ensures At(t, i) + t.ent <= At(t, j)
  {
    TimesBelow(i, j, t.ent);
  }

  lemma RecordInside(t: Table, i: nat)
    requires i < t.count
    ensures At(t, i) + t.ent <= End(t)
  {
    RecordsApart(t, i, t.count);
  }

  predicate Apart(t: Table, u: Table) {
    End(t) <= u.off || End(u) <= t.off
  }

  function Record(b: Image, t: Table, i: nat): (r: seq<Byte>)
    requires i < t.count && End(t) <= |b|
    ensures |r| == t.ent
  {
    RecordInside(t, i);
    b[At(t, i)..At(t, i) + t.ent]
  }

  // ---- Binding edits ----

  /** Python's lstrip('_'). */
  function Plain(name: string): (p: string)
    ensures p == [] || p[0] != '_'
  {
    if name != [] && name[0] == '_' then Plain(name[1..]) else name
  }

  function Bind(rec: seq<Byte>): nat
    requires |rec| >= 24
  {
    rec[4] / 16
  }

  /** Defined globals with a name become weak or local unless they are kept. */
  function NewBind(rec: seq<Byte>, name: string, keeps: set<string>, weaks: set<string>): (n: nat)
    requires |rec| >= 24
    ensures n < 16
  {
    var defined := rec[6] != 0 || rec[7] != 0;
    if Bind(rec) == 1 && defined && name != "" then
      if Plain(name) in weaks then 2 else if Plain(name) !in keeps then 0 else Bind(rec)
    else Bind(rec)
  }

  /** A record with its binding edited: only the upper half of byte 4 may differ. */
  function Edited(rec: seq<Byte>, name: string, keeps: set<string>, weaks: set<string>): (r: seq<Byte>)
    requires |rec| >= 24
    ensures |r| == |rec| && Bind(r) == NewBind(rec, name, keeps, weaks) && r[4] % 16 == rec[4] % 16
    ensures forall k :: 0 <= k < |rec| && k != 4 ==> r[k] == rec[k]
  {
    rec[4 := NewBind(rec, name, keeps, weaks) * 16 + rec[4] % 16]
  }

  /** Rewriting byte 4 of record i changes that record alone. */
  lemma WriteInfo(b: Image, t: Table, i: nat, v: Byte)
    requires i < t.count && End(t) <= |b| && t.ent >= 24
    ensures At(t, i) + 4 < End(t)
    ensures var b' := b[At(t, i) + 4 := v];
            && Record(b', t, i) == Record(b, t, i)[4 := v]
            && forall j: nat :: j < t.count && j != i ==> Record(b', t, j) == Record(b, t, j)
  {
    RecordInside(t, i);
    var b' := b[At(t, i) + 4 := v];
    forall j: nat | j < t.count && j != i ensures Record(b', t, j) == Record(b, t, j) {
      RecordInside(t, j);
      if j < i { RecordsApart(t, j, i); } else { RecordsApart(t, i, j); }
    }
  }

  predicate SameOutside(b: Image, b': Image, lo: nat, hi: nat) {
    |b'| == |b| && forall k :: 0 <= k < |b| && !(lo <= k < hi) ==> b'[k] == b[k]
  }

  /** The first pass: edit the binding of every record in place. */
  method Rebind(b: Image, t: Table, names: seq<string>, keeps: set<string>, weaks: set<string>) returns (img: Image)
    requires End(t) <= |b| && t.ent >= 24 && |names| == t.count
    ensures SameOutside(b, img, t.off, End(t))
    ensures forall i: nat :: i < t.count ==> Record(img, t, i) == Edited(Record(b, t, i), names[i], keeps, weaks)
  {
    hide Record, At, NewBind, Edited, Plain;
    img := b;
    var i: nat := 0;
    while i < t.count
      invariant i <= t.count && SameOutside(b, img, t.off, End(t))
      invariant forall j: nat :: j < i ==> Record(img, t, j) == Edited(Record(b, t, j), names[j], keeps, weaks)
      invariant forall j: nat :: i <= j < t.count ==> Record(img, t, j) == Record(b, t, j)
    {
      var rec := Record(img, t, i);
      var nb := NewBind(rec, names[i], keeps, weaks);
      WriteInfo(img, t, i, nb * 16 + rec[4] % 16);
      EditIsWrite(rec, names[i], keeps, weaks);
      img := img[At(t, i) + 4 := nb * 16 + rec[4] % 16];
      i := i + 1;
    }
  }

  lemma EditIsWrite(rec: seq<Byte>, name: string, keeps: set<string>, weaks: set<string>)
    requires |rec| >= 24
    ensures Edited(rec, name, keeps, weaks) == rec[4 := NewBind(rec, name, keeps, weaks) * 16 + rec[4] % 16]
  {
  }

  // ---- The new order ----

  /** Indices 1 <= j < n whose record is local (or not), in table order. */
  function Pick(loc: seq<bool>, n: nat, want: bool): (p: seq<nat>)
    requires n <= |loc|
  {
    if n <= 1 then [] else if loc[n - 1] == want then Pick(loc, n - 1, want) + [n - 1] else Pick(loc, n - 1, want)
  }

  function Order(loc: seq<bool>): (o: seq<nat>)
    requires |loc| > 0
  {
    [0] + Pick(loc, |loc|, true) + Pick(loc, |loc|, false)
  }

  function Locals(loc: seq<bool>): nat
    requires |loc| > 0
  {
    1 + |Pick(loc, |loc|, true)|
  }

  predicate Increasing(p: seq<nat>) {
    forall i, j :: 0 <= i < j < |p| ==> p[i] < p[j]
  }

  /** What Pick picks: exactly the wanted indices, in increasing order. */
  lemma {:induction false} PickIs(loc: seq<bool>, n: nat, want: bool)
    requires n <= |loc|
    ensures forall j: nat :: j in Pick(loc, n, want) <==> 1 <= j < n && loc[j] == want
    ensures Increasing(Pick(loc, n, want))
  {
    if n > 1 {
      PickIs(loc, n - 1, want);
      var p := Pick(loc, n - 1, want);
      assert forall i :: 0 <= i < |p| ==> p[i] in p;
    }
  }

  /** Each index from 1 on is picked once, as local or as not. */
  lemma {:induction false} PickCounts(loc: seq<bool>, n: nat)
    requires n <= |loc|
    ensures |Pick(loc, n, true)| + |Pick(loc, n, false)| == if n == 0 then 0 else n - 1
  {
    if n > 1 {
      PickCounts(loc, n - 1);
    }
  }

  /** The entry at place i of the order. */
  lemma OrderAt(loc: seq<bool>, i: nat)
    requires |loc| > 0 && i < |Order(loc)|
    ensures Order(loc)[i] < |loc|
    ensures i == 0 ==> Order(loc)[i] == 0
    ensures 1 <= i < Locals(loc) ==> Order(loc)[i] == Pick(loc, |loc|, true)[i - 1] >= 1 && loc[Order(loc)[i]]
    ensures i >= Locals(loc) ==> Order(loc)[i] == Pick(loc, |loc|, false)[i - Locals(loc)] >= 1 && !loc[Order(loc)[i]]
  {
    var a, z := Pick(loc, |loc|, true), Pick(loc, |loc|, false);
    hide Pick;
    PickIs(loc, |loc|, true);
    PickIs(loc, |loc|, false);
    if i >= 1 {
      if i < Locals(loc) {
        assert a[i - 1] in a;
      } else {
        assert z[i - Locals(loc)] in z;
      }
    }
  }

  /** The order is a permutation of the table that starts with the null symbol. */
  predicate Permutes(o: seq<nat>, count: nat) {
    && |o| == count
    && (forall i :: 0 <= i < |o| ==> o[i] < count)
    && (forall i, j :: 0 <= i < j < |o| ==> o[i] != o[j])
    && (forall k: nat :: k < count ==> k in o)
  }

  lemma OrderSplits(loc: seq<bool>, i: nat, j: nat)
    requires |loc| > 0 && i < j < |Order(loc)|
    ensures Order(loc)[i] != Order(loc)[j]
    ensures j < Locals(loc) || i >= Locals(loc) ==> Order(loc)[i] < Order(loc)[j]
  {
    hide Pick;
    OrderAt(loc, i);
    OrderAt(loc, j);
    PickIs(loc, |loc|, true);
    PickIs(loc, |loc|, false);
  }

  lemma OrderHas(loc: seq<bool>, k: nat)
    requires k < |loc|
    ensures k in Order(loc)
  {
    hide Pick;
    PickIs(loc, |loc|, loc[k]);
    if k > 0 {
      assert k in Pick(loc, |loc|, loc[k]);
    }
  }

  lemma OrderPermutes(loc: seq<bool>)
    requires |loc| > 0
    ensures Permutes(Order(loc), |loc|) && Order(loc)[0] == 0
  {
    PickCounts(loc, |loc|);
    hide Pick;
    var o := Order(loc);
    assert |o| == |loc|;
    hide Order;
    OrderAt(loc, 0);
    forall i, j | 0 <= i < j < |o| ensures o[i] != o[j] { OrderSplits(loc, i, j); }
    forall k: nat | k < |loc| ensures k in o { OrderHas(loc, k); }
    forall i | 0 <= i < |o| ensures o[i] < |loc| { OrderAt(loc, i); }
  }

  /** Locals first, each part in table order. */
  lemma OrderIsStable(loc: seq<bool>)
    requires |loc| > 0
    ensures var o, n := Order(loc), Locals(loc);
            && n <= |o| == |loc|
            && (forall i :: 1 <= i < n ==> o[i] < |loc| && loc[o[i]])
            && (forall i :: n <= i < |o| ==> o[i] < |loc| && !loc[o[i]])
            && (forall i, j :: 0 <= i < j < n ==> o[i] < o[j])
            && (forall i, j :: n <= i < j < |o| ==> o[i] < o[j])
  {
    PickCounts(loc, |loc|);
    hide Pick;
    var o, n := Order(loc), Locals(loc);
    assert n <= |o| == |loc|;
    hide Order, Locals;
    forall i | 1 <= i < |o| ensures o[i] < |loc| && loc[o[i]] == (i < n) { OrderAt(loc, i); }
    forall i, j | 0 <= i < j < |o| && (j < n || n <= i) ensures o[i] < o[j] { OrderSplits(loc, i, j); }
  }

  /** Which records are local. */
  function LocalFlags(b: Image, t: Table): (loc: seq<bool>)
    requires End(t) <= |b| && t.ent >= 24
    ensures |loc| == t.count
  {
    seq(t.count, i requires 0 <= i < t.count => Bind(Record(b, t, i)) == 0)
  }

  /** Where each record goes; `remap` is the inverse of `order`. */
  method Partition(b: Image, t: Table) returns (order: seq<nat>, remap: map<nat, nat>, locals: nat)
    requires End(t) <= |b| && t.ent >= 24 && t.count > 0
    ensures order == Order(LocalFlags(b, t)) && locals == Locals(LocalFlags(b, t))
    ensures Permutes(order, t.count) && order[0] == 0
    ensures forall k: nat :: k in remap <==> k < t.count
    ensures forall k: nat :: k < t.count ==> remap[k] < t.count && order[remap[k]] == k
  {
    hide Record, At, LocalFlags, Bind, Pick;
    ghost var loc := LocalFlags(b, t);
    order := [0];
    var i: nat := 1;
    PickStep(loc, 1, true);
    while i < t.count
      invariant 1 <= i <= t.count && order == [0] + Pick(loc, i, true)
    {
      PickStep(loc, i + 1, true);
      FlagAt(b, t, i);
      if Bind(Record(b, t, i)) == 0 {
        order := order + [i];
      }
      i := i + 1;
    }
    locals := |order|;
    ghost var front := order;
    i := 1;
    PickStep(loc, 1, false);
    while i < t.count
      invariant 1 <= i <= t.count && order == front + Pick(loc, i, false)
    {
      PickStep(loc, i + 1, false);
      FlagAt(b, t, i);
      if Bind(Record(b, t, i)) != 0 {
        order := order + [i];
      }
      i := i + 1;
    }
    OrderPermutes(loc);
    remap := Inverse(order, t.count);
  }

  lemma PickStep(loc: seq<bool>, n: nat, want: bool)
    requires 1 <= n <= |loc|
    ensures Pick(loc, n, want) == if n == 1 then []
                                  else if loc[n - 1] == want then Pick(loc, n - 1, want) + [n - 1]
                                  else Pick(loc, n - 1, want)
  {
  }

  lemma FlagAt(b: Image, t: Table, i: nat)
    requires End(t) <= |b| && t.ent >= 24 && i < t.count
    ensures LocalFlags(b, t)[i] <==> Bind(Record(b, t, i)) == 0
  {
  }

  method Inverse(order: seq<nat>, count: nat) returns (remap: map<nat, nat>)
    requires Permutes(order, count)
    ensures forall k: nat :: k in remap <==> k < count
    ensures forall k: nat :: k < count ==> remap[k] < count && order[remap[k]] == k
  {
    remap := map[];
    var n: nat := 0;
    while n < |order|
      invariant n <= |order|
      invariant forall k :: 0 <= k < n ==> order[k] in remap
      invariant forall k: nat :: k in remap ==> k < count && remap[k] < n && order[remap[k]] == k
    {
      remap := remap[order[n] := n];
      n := n + 1;
    }
    forall k: nat | k < count ensures k in remap {
      assert k in order;
    }
  }

  // ---- Rewriting the table ----

  /** The records of a table in a given order, end to end. */
  function Joined(b: Image, t: Table, order: seq<nat>): (body: seq<Byte>)
    requires End(t) <= |b| && forall i :: 0 <= i < |order| ==> order[i] < t.count
    ensures |body| == Times(|order|, t.ent)
  {
    if order == [] then []
    else
      var n := |order| - 1;
      JoinedLength(n, t.ent);
      Joined(b, t, order[..n]) + Record(b, t, order[n])
  }

  lemma {:induction false} JoinedAt(b: Image, t: Table, order: seq<nat>, i: nat)
    requires End(t) <= |b| && (forall k :: 0 <= k < |order| ==> order[k] < t.count) && i < |order|
    ensures Times(i, t.ent) + t.ent <= Times(|order|, t.ent)
    ensures Joined(b, t, order)[Times(i, t.ent)..Times(i, t.ent) + t.ent] == Record(b, t, order[i])
    decreases |order|
  {
    hide Record, Times;
    var n := |order| - 1;
    JoinedLength(n, t.ent);
    TimesBelow(i, |order|, t.ent);
    var front := Joined(b, t, order[..n]);
    if i < n {
      JoinedAt(b, t, order[..n], i);
      Prefix(front, Record(b, t, order[n]), Times(i, t.ent), t.ent);
    }
  }

  lemma Prefix(a: seq<Byte>, z: seq<Byte>, lo: nat, n: nat)
    requires lo + n <= |a|
    ensures (a + z)[lo..lo + n] == a[lo..lo + n]
  {
  }

  method Rewrite(b: Image, t: Table, order: seq<nat>) returns (img: Image)
    requires End(t) <= |b| && Permutes(order, t.count)
    ensures SameOutside(b, img, t.off, End(t))
    ensures forall i: nat :: i < t.count ==> Record(img, t, i) == Record(b, t, order[i])
  {
    hide Record, At, Joined, Times;
    var body: seq<Byte> := [];
    var i: nat := 0;
    JoinedNil(b, t);
    while i < |order|
      invariant i <= |order| && body == Joined(b, t, order[..i])
    {
      assert order[..i + 1][..i] == order[..i];
      JoinedSnoc(b, t, order[..i + 1]);
      body := body + Record(b, t, order[i]);
      i := i + 1;
    }
    assert order[..i] == order;
    EndIs(t);
    img := b[..t.off] + body + b[End(t)..];
    forall k: nat | k < t.count ensures Record(img, t, k) == Record(b, t, order[k]) {
      JoinedAt(b, t, order, k);
      RecordOfBody(b, t, body, img, k);
    }
  }

  lemma EndIs(t: Table)
    ensures End(t) == t.off + Times(t.count, t.ent)
  {
  }

  lemma JoinedNil(b: Image, t: Table)
    requires End(t) <= |b|
    ensures Joined(b, t, []) == []
  {
  }

  lemma JoinedSnoc(b: Image, t: Table, order: seq<nat>)
    requires End(t) <= |b| && (forall k :: 0 <= k < |order| ==> order[k] < t.count) && |order| > 0
    ensures Joined(b, t, order) == Joined(b, t, order[..|order| - 1]) + Record(b, t, order[|order| - 1])
  {
  }

  lemma RecordOfBody(b: Image, t: Table, body: seq<Byte>, img: Image, k: nat)
    requires End(t) <= |b| && |body| == Times(t.count, t.ent) && img == b[..t.off] + body + b[End(t)..]
    requires k < t.count && Times(k, t.ent) + t.ent <= |body|
    ensures |img| == |b| && Record(img, t, k) == body[Times(k, t.ent)..Times(k, t.ent) + t.ent]
  {
    RecordInside(t, k);
    Window(b[..t.off], body, b[End(t)..], Times(k, t.ent), t.ent);
  }

  lemma Window(a: seq<Byte>, m: seq<Byte>, z: seq<Byte>, lo: nat, n: nat)
    requires lo + n <= |m|
    ensures (a + m + z)[|a| + lo..|a| + lo + n] == m[lo..lo + n]
  {
  }

  // ---- Relocations ----

  function Word(b0: int, b1: int, b2: int, b3: int): int {
    b0 + 0x100 * b1 + 0x1_0000 * b2 + 0x100_0000 * b3
  }

  lemma WordBytes(v: nat)
    requires v < 0x1_0000_0000
    ensures Word(v % 0x100, v / 0x100 % 0x100, v / 0x1_0000 % 0x100, v / 0x100_0000) == v
    ensures v / 0x100_0000 < 0x100
  {
    assert v / 0x100 / 0x100 == v / 0x1_0000;
    assert v / 0x1_0000 / 0x100 == v / 0x100_0000;
  }

  /** A little-endian 32-bit field; the symbol index of r_info is the one at offset 12 of an entry. */
  function Get32(b: Image, o: nat): (v: nat)
    requires o + 4 <= |b|
    ensures v < 0x1_0000_0000
  {
    Word(b[o], b[o + 1], b[o + 2], b[o + 3])
  }

  function Put32(b: Image, o: nat, v: nat): (b': Image)
    requires o + 4 <= |b| && v < 0x1_0000_0000
    ensures |b'| == |b| && SameOutside(b, b', o, o + 4) && Get32(b', o) == v
  {
    WordBytes(v);
    hide Word;
    b[o := v % 0x100][o + 1 := v / 0x100 % 0x100][o + 2 := v / 0x1_0000 % 0x100][o + 3 := v / 0x100_0000]
  }

  function Site(s: Table, i: nat): nat {
    At(s, i) + 12
  }

  /** A relocation section whose entries hold a symbol index. */
  predicate RelocOk(s: Table, len: nat) {
    s.ent >= 16 && End(s) <= len
  }

  function Ref(b: Image, s: Table, i: nat): (v: nat)
    requires RelocOk(s, |b|) && i < s.count
  {
    RecordInside(s, i);
    Get32(b, Site(s, i))
  }

  /** Index 0 names no symbol and stays; any other index follows its record. */
  function Moved(remap: map<nat, nat>, sym: nat): nat
    requires sym == 0 || sym in remap
  {
    if sym == 0 then 0 else remap[sym]
  }

  /** Writing one entry's index leaves every other entry's alone. */
  lemma WriteRef(b: Image, s: Table, i: nat, v: nat)
    requires RelocOk(s, |b|) && i < s.count && v < 0x1_0000_0000
    ensures Site(s, i) + 4 <= End(s)
    ensures var b' := Put32(b, Site(s, i), v);
            && SameOutside(b, b', s.off, End(s))
            && Ref(b', s, i) == v
            && forall j: nat :: j < s.count && j != i ==> Ref(b', s, j) == Ref(b, s, j)
  {
    hide Put32;
    RecordInside(s, i);
    var b' := Put32(b, Site(s, i), v);
    forall j: nat | j < s.count && j != i ensures Ref(b', s, j) == Ref(b, s, j) {
      RecordInside(s, j);
      if j < i { RecordsApart(s, j, i); } else { RecordsApart(s, i, j); }
    }
  }

  /** One of the four bytes of a symbol index. */
  predicate RefByte(s: Table, k: nat) {
    exists i: nat :: i < s.count && Site(s, i) <= k < Site(s, i) + 4
  }

  predicate OnlyRefs(b: Image, b': Image, s: Table) {
    |b'| == |b| && forall k: nat :: k < |b| && !RefByte(s, k) ==> b'[k] == b[k]
  }

  lemma RefsOnly(b: Image, before: Image, img: Image, s: Table, i: nat)
    requires OnlyRefs(b, before, s) && i < s.count && SameOutside(before, img, Site(s, i), Site(s, i) + 4)
    ensures OnlyRefs(b, img, s)
  {
    hide Site;
    forall k: nat | k < |b| && !RefByte(s, k) ensures img[k] == b[k] {
      assert !(Site(s, i) <= k < Site(s, i) + 4);
    }
  }

  /** Remap one section; false when an index has no place in the table (the script stops with a key error). */
  method RemapSection(b: Image, s: Table, remap: map<nat, nat>) returns (ok: bool, img: Image)
    requires RelocOk(s, |b|)
    requires forall k: nat :: k in remap ==> remap[k] < 0x1_0000_0000
    ensures SameOutside(b, img, s.off, End(s))
    ensures OnlyRefs(b, img, s)
    ensures ok <==> forall i: nat :: i < s.count ==> Ref(b, s, i) == 0 || Ref(b, s, i) in remap
    ensures ok ==> forall i: nat :: i < s.count ==> Ref(img, s, i) == Moved(remap, Ref(b, s, i))
  {
    hide Ref, At, Put32, Get32, Site, OnlyRefs;
    SameStart(b, s);
    img := b;
    var i: nat := 0;
    while i < s.count
      invariant i <= s.count && SameOutside(b, img, s.off, End(s)) && OnlyRefs(b, img, s)
      invariant forall j: nat :: j < i ==> Ref(b, s, j) == 0 || Ref(b, s, j) in remap
      invariant forall j: nat :: j < i ==> Ref(img, s, j) == Moved(remap, Ref(b, s, j))
      invariant forall j: nat :: i <= j < s.count ==> Ref(img, s, j) == Ref(b, s, j)
    {
      RecordInside(s, i);
      var sym := Ref(img, s, i);
      if sym != 0 {
        if sym !in remap {
          return false, img;
        }
        sym := remap[sym];
      }
      RefBound(img, s, i);
      WriteRef(img, s, i, sym);
      RefsOnly(b, img, Put32(img, Site(s, i), sym), s, i);
      img := Put32(img, Site(s, i), sym);
      i := i + 1;
    }
    ok := true;
  }

  lemma SameStart(b: Image, s: Table)
    ensures OnlyRefs(b, b, s)
  {
  }

  lemma RefBound(b: Image, s: Table, i: nat)
    requires RelocOk(s, |b|) && i < s.count
    ensures Ref(b, s, i) < 0x1_0000_0000
  {
  }

  // ---- The whole rewrite ----

  /** An object: its symbol table, its relocation sections, and where sh_info of the table's header is. */
  datatype Layout = Layout(tab: Table, rels: seq<Table>, info: nat)

  /** A well-formed object: a table with its null symbol, and parts that do not overlap. */
  predicate LayoutOk(l: Layout, len: nat) {
    && l.tab.count > 0 && l.tab.ent >= 24 && End(l.tab) <= len && l.tab.count < 0x1_0000_0000
    && l.info + 4 <= len && (End(l.tab) <= l.info || l.info + 4 <= l.tab.off)
    && (forall r :: 0 <= r < |l.rels| ==> SectionOk(l, l.rels[r], len))
    && (forall r, q :: 0 <= r < q < |l.rels| ==> Apart(l.rels[r], l.rels[q]))
  }

  predicate SectionOk(l: Layout, s: Table, len: nat) {
    RelocOk(s, len) && Apart(s, l.tab) && (End(s) <= l.info || l.info + 4 <= s.off)
  }

  /** A window outside the changed bytes reads the same. */
  lemma SameRecords(b: Image, b': Image, lo: nat, hi: nat, t: Table)
    requires SameOutside(b, b', lo, hi) && End(t) <= |b| && (hi <= t.off || End(t) <= lo)
    ensures forall i: nat :: i < t.count ==> Record(b', t, i) == Record(b, t, i)
  {
    forall i: nat | i < t.count ensures Record(b', t, i) == Record(b, t, i) {
      RecordInside(t, i);
    }
  }

  lemma SameRefs(b: Image, b': Image, lo: nat, hi: nat, s: Table)
    requires SameOutside(b, b', lo, hi) && RelocOk(s, |b|) && (hi <= s.off || End(s) <= lo)
    ensures forall i: nat :: i < s.count ==> Ref(b', s, i) == Ref(b, s, i)
  {
    forall i: nat | i < s.count ensures Ref(b', s, i) == Ref(b, s, i) {
      RecordInside(s, i);
    }
  }

  /** Every index of every relocation has a record. */
  predicate RefsOk(b: Image, l: Layout)
    requires LayoutOk(l, |b|)
  {
    forall r, i: nat :: 0 <= r < |l.rels| && i < l.rels[r].count ==> RefIn(b, l, r, i)
  }

  predicate RefIn(b: Image, l: Layout, r: int, i: nat)
    requires LayoutOk(l, |b|) && 0 <= r < |l.rels| && i < l.rels[r].count
  {
    Ref(b, l.rels[r], i) < l.tab.count
  }

  /** Section r with its indices moved. */
  predicate RefsMoved(b: Image, b': Image, s: Table, remap: map<nat, nat>)
  {
    RelocOk(s, |b|) && |b'| == |b| &&
    forall i: nat :: i < s.count ==>
      (Ref(b, s, i) == 0 || Ref(b, s, i) in remap) && Ref(b', s, i) == Moved(remap, Ref(b, s, i))
  }

  predicate RefsSame(b: Image, b': Image, s: Table)
  {
    RelocOk(s, |b|) && |b'| == |b| && forall i: nat :: i < s.count ==> Ref(b', s, i) == Ref(b, s, i)
  }

  predicate RecordsSame(b: Image, b': Image, t: Table)
  {
    End(t) <= |b| == |b'| && forall i: nat :: i < t.count ==> Record(b', t, i) == Record(b, t, i)
  }

  /** One of the bytes of a symbol index in the first n sections. */
  predicate SomeRefByte(l: Layout, n: nat, k: nat)
    requires n <= |l.rels|
  {
    exists r :: 0 <= r < n && RefByte(l.rels[r], k)
  }

  predicate OnlyAllRefs(b: Image, b': Image, l: Layout, n: nat)
    requires n <= |l.rels|
  {
    |b'| == |b| && forall k: nat :: k < |b| && !SomeRefByte(l, n, k) ==> b'[k] == b[k]
  }

  lemma OneMoreSection(b: Image, before: Image, img: Image, l: Layout, n: nat)
    requires n < |l.rels| && OnlyAllRefs(b, before, l, n) && OnlyRefs(before, img, l.rels[n])
    ensures OnlyAllRefs(b, img, l, n + 1)
  {
    hide RefByte;
    forall k: nat | k < |b| && !SomeRefByte(l, n + 1, k) ensures img[k] == b[k] {
      assert !RefByte(l.rels[n], k);
      assert !SomeRefByte(l, n, k);
    }
  }

  /** The loop over the relocation sections. */
  method RemapSections(b: Image, l: Layout, remap: map<nat, nat>) returns (ok: bool, img: Image)
    requires LayoutOk(l, |b|)
    requires forall k: nat :: k in remap <==> k < l.tab.count
    requires forall k: nat :: k in remap ==> remap[k] < l.tab.count
    ensures |img| == |b| && (ok <==> RefsOk(b, l))
    ensures ok ==> forall r :: 0 <= r < |l.rels| ==> RefsMoved(b, img, l.rels[r], remap)
    ensures RecordsSame(b, img, l.tab) && (ok ==> OnlyAllRefs(b, img, l, |l.rels|))
  {
    hide Ref, Record, RefsMoved, RefsSame, RecordsSame, RelocOk, End, At, Moved, SameOutside, OnlyRefs, OnlyAllRefs;
    img := b;
    var r := 0;
    StartSame(b, l);
    while r < |l.rels|
      invariant 0 <= r <= |l.rels| && |img| == |b| && RecordsSame(b, img, l.tab) && OnlyAllRefs(b, img, l, r)
      invariant forall q :: 0 <= q < r ==> RefsMoved(b, img, l.rels[q], remap)
      invariant forall q :: r <= q < |l.rels| ==> RefsSame(b, img, l.rels[q])
    {
      var before := img;
      SameLength(b, img, l);
      assert SectionOk(l, l.rels[r], |b|);
      ok, img := RemapSection(before, l.rels[r], remap);
      KeptLength(before, img, l.rels[r]);
      SectionDone(b, before, img, l, r, remap, ok);
      OneMoreSection(b, before, img, l, r);
      if !ok {
        return;
      }
      forall q | 0 <= q < |l.rels| && q != r
        ensures q < r ==> RefsMoved(b, img, l.rels[q], remap)
        ensures r < q ==> RefsSame(b, img, l.rels[q])
      {
        OtherSection(b, before, img, l, r, q, remap);
      }
      r := r + 1;
    }
    ok := true;
    AllIn(b, img, l, remap);
  }

  lemma KeptLength(b: Image, b': Image, s: Table)
    requires SameOutside(b, b', s.off, End(s))
    ensures |b'| == |b|
  {
  }

  lemma SameLength(b: Image, img: Image, l: Layout)
    requires LayoutOk(l, |b|) && |img| == |b|
    ensures LayoutOk(l, |img|)
  {
  }

  lemma StartSame(b: Image, l: Layout)
    requires LayoutOk(l, |b|)
    ensures RecordsSame(b, b, l.tab) && OnlyAllRefs(b, b, l, 0)
    ensures forall q :: 0 <= q < |l.rels| ==> RefsSame(b, b, l.rels[q])
  {
    hide Record, Ref, End, At, RelocOk, Apart;
    forall q | 0 <= q < |l.rels| ensures RefsSame(b, b, l.rels[q]) {
      assert SectionOk(l, l.rels[q], |b|);
    }
  }

  lemma SectionDone(b: Image, before: Image, img: Image, l: Layout, r: nat, remap: map<nat, nat>, ok: bool)
    requires LayoutOk(l, |b|) && r < |l.rels| && |before| == |b| && RefsSame(b, before, l.rels[r])
    requires RecordsSame(b, before, l.tab) && SameOutside(before, img, l.rels[r].off, End(l.rels[r]))
    requires forall k: nat :: k in remap <==> k < l.tab.count
    requires ok <==> forall i: nat :: i < l.rels[r].count ==>
               Ref(before, l.rels[r], i) == 0 || Ref(before, l.rels[r], i) in remap
    requires ok ==> forall i: nat :: i < l.rels[r].count ==>
               Ref(img, l.rels[r], i) == Moved(remap, Ref(before, l.rels[r], i))
    ensures RecordsSame(b, img, l.tab)
    ensures ok ==> RefsMoved(b, img, l.rels[r], remap)
    ensures !ok ==> !RefsOk(b, l)
  {
    assert SectionOk(l, l.rels[r], |b|);
    SameRecords(before, img, l.rels[r].off, End(l.rels[r]), l.tab);
    hide Record, Ref, End, At;
    if !ok {
      var i: nat :| i < l.rels[r].count && !(Ref(before, l.rels[r], i) == 0 || Ref(before, l.rels[r], i) in remap);
      assert !RefIn(b, l, r, i);
    }
  }

  lemma OtherSection(b: Image, before: Image, img: Image, l: Layout, r: nat, q: nat, remap: map<nat, nat>)
    requires LayoutOk(l, |b|) && r < |l.rels| && q < |l.rels| && q != r && |before| == |b|
    requires SameOutside(before, img, l.rels[r].off, End(l.rels[r]))
    requires q < r ==> RefsMoved(b, before, l.rels[q], remap)
    requires r < q ==> RefsSame(b, before, l.rels[q])
    ensures q < r ==> RefsMoved(b, img, l.rels[q], remap)
    ensures r < q ==> RefsSame(b, img, l.rels[q])
  {
    assert SectionOk(l, l.rels[q], |b|);
    assert Apart(l.rels[r], l.rels[q]) || Apart(l.rels[q], l.rels[r]);
    SameRefs(before, img, l.rels[r].off, End(l.rels[r]), l.rels[q]);
    hide Ref, End, At;
  }

  lemma AllIn(b: Image, img: Image, l: Layout, remap: map<nat, nat>)
    requires LayoutOk(l, |b|)
    requires forall k: nat :: k in remap <==> k < l.tab.count
    requires forall r :: 0 <= r < |l.rels| ==> RefsMoved(b, img, l.rels[r], remap)
    ensures RefsOk(b, l)
  {
    hide Ref, End, At;
    forall r, i: nat | 0 <= r < |l.rels| && i < l.rels[r].count ensures RefIn(b, l, r, i) {
      assert RefsMoved(b, img, l.rels[r], remap);
    }
  }

  /** What the new table is of the old one. */
  predicate Reordered(b: Image, b': Image, l: Layout, names: seq<string>, keeps: set<string>, weaks: set<string>,
                      order: seq<nat>)
    requires LayoutOk(l, |b|) && |names| == l.tab.count
  {
    |b'| == |b| && Permutes(order, l.tab.count) && order[0] == 0 &&
    forall i: nat :: i < l.tab.count ==>
      Record(b', l.tab, i) == Edited(Record(b, l.tab, order[i]), names[order[i]], keeps, weaks)
  }

  /** What a relocation names after the rewrite. */
  predicate Follows(b: Image, b': Image, l: Layout, order: seq<nat>)
    requires LayoutOk(l, |b|)
  {
    |b'| == |b| && |order| == l.tab.count &&
    forall r, i: nat :: 0 <= r < |l.rels| && i < l.rels[r].count ==> RefFollows(b, b', l, order, r, i)
  }

  predicate RefFollows(b: Image, b': Image, l: Layout, order: seq<nat>, r: int, i: nat)
    requires LayoutOk(l, |b|) && |b'| == |b| && 0 <= r < |l.rels| && i < l.rels[r].count
    requires |order| == l.tab.count
  {
    var was, now := Ref(b, l.rels[r], i), Ref(b', l.rels[r], i);
    now < l.tab.count && order[now] == was
  }

  /** The flags of the table after the binding edits. */
  predicate FlagsOf(b: Image, l: Layout, names: seq<string>, keeps: set<string>, weaks: set<string>, loc: seq<bool>)
    requires LayoutOk(l, |b|) && |names| == l.tab.count
  {
    |loc| == l.tab.count &&
    forall i: nat :: i < l.tab.count ==> (loc[i] <==> NewBind(Record(b, l.tab, i), names[i], keeps, weaks) == 0)
  }

  /** A byte of the table, of sh_info, or of a relocation's symbol index. */
  predicate Rewritten(l: Layout, k: nat) {
    l.tab.off <= k < End(l.tab) || l.info <= k < l.info + 4 || SomeRefByte(l, |l.rels|, k)
  }

  predicate OthersKept(b: Image, b': Image, l: Layout) {
    |b'| == |b| && forall k: nat :: k < |b| && !Rewritten(l, k) ==> b'[k] == b[k]
  }

  lemma OthersStay(b: Image, edited: Image, sorted: Image, img: Image, img': Image, l: Layout)
    requires SameOutside(b, edited, l.tab.off, End(l.tab)) && SameOutside(edited, sorted, l.tab.off, End(l.tab))
    requires OnlyAllRefs(sorted, img, l, |l.rels|) && SameOutside(img, img', l.info, l.info + 4)
    ensures OthersKept(b, img', l)
  {
    hide SomeRefByte, End;
  }

  /**
   * The rewrite of an object. It succeeds when every relocation names a record; then the table
   * holds the edited records in the new order, every relocation still names its own record,
   * sh_info counts the null symbol and the locals, and no other byte has changed.
   */
  method Localize(b: Image, l: Layout, names: seq<string>, keeps: set<string>, weaks: set<string>)
    returns (ok: bool, img: Image, ghost loc: seq<bool>)
    requires LayoutOk(l, |b|) && |names| == l.tab.count
    ensures ok <==> RefsOk(b, l)
    ensures FlagsOf(b, l, names, keeps, weaks, loc)
    ensures |img| == |b|
    ensures ok ==> Reordered(b, img, l, names, keeps, weaks, Order(loc)) && Follows(b, img, l, Order(loc))
    ensures ok ==> Get32(img, l.info) == Locals(loc) && OthersKept(b, img, l)
  {
    hide OnlyAllRefs, OthersKept;
    hide Record, Ref, End, At, Get32, Put32, Edited, NewBind, Bind, Pick, LayoutOk, Reordered, Follows, FlagsOf;
    hide RefsOk, RefsMoved, RecordsSame, Moved, LocalFlags, SameOutside, Order, Locals;
    TableOk(b, l);
    var edited := Rebind(b, l.tab, names, keeps, weaks);
    SameImage(b, edited, l);
    loc := LocalFlags(edited, l.tab);
    FlagsAfter(b, edited, l, names, keeps, weaks);
    var order, remap, locals := Partition(edited, l.tab);
    var sorted := Rewrite(edited, l.tab, order);
    SameImage(edited, sorted, l);
    RefsKept(b, edited, sorted, l);
    SmallMap(remap, order, l);
    ok, img := RemapSections(sorted, l, remap);
    if ok {
      LocalsSmall(loc);
      Finish(b, edited, sorted, img, l, names, keeps, weaks, loc, order, remap, locals);
      OthersStay(b, edited, sorted, img, Put32(img, l.info, locals), l);
      img := Put32(img, l.info, locals);
    }
  }

  lemma TableOk(b: Image, l: Layout)
    requires LayoutOk(l, |b|)
    ensures End(l.tab) <= |b| && l.tab.ent >= 24 && 0 < l.tab.count < 0x1_0000_0000 && l.info + 4 <= |b|
  {
  }

  lemma SameImage(b: Image, b': Image, l: Layout)
    requires LayoutOk(l, |b|) && SameOutside(b, b', l.tab.off, End(l.tab))
    ensures |b'| == |b| && LayoutOk(l, |b'|)
  {
  }

  lemma SmallMap(remap: map<nat, nat>, order: seq<nat>, l: Layout)
    requires forall k: nat :: k in remap <==> k < l.tab.count
    requires forall k: nat :: k < l.tab.count ==> remap[k] < l.tab.count
    ensures forall k: nat :: k in remap ==> remap[k] < l.tab.count
  {
  }

  lemma LocalsSmall(loc: seq<bool>)
    requires |loc| > 0
    ensures Locals(loc) <= |loc|
  {
    PickCounts(loc, |loc|);
  }

  lemma FlagsAfter(b: Image, edited: Image, l: Layout, names: seq<string>, keeps: set<string>, weaks: set<string>)
    requires LayoutOk(l, |b|) && |names| == l.tab.count && |edited| == |b|
    requires forall i: nat :: i < l.tab.count ==>
               Record(edited, l.tab, i) == Edited(Record(b, l.tab, i), names[i], keeps, weaks)
    ensures FlagsOf(b, l, names, keeps, weaks, LocalFlags(edited, l.tab))
  {
    hide Record, At, NewBind, Edited, LocalFlags;
    forall i: nat | i < l.tab.count
      ensures LocalFlags(edited, l.tab)[i] <==> NewBind(Record(b, l.tab, i), names[i], keeps, weaks) == 0
    {
      FlagAt(edited, l.tab, i);
    }
  }

  /** Editing and sorting the table leaves the relocations alone. */
  lemma RefsKept(b: Image, edited: Image, sorted: Image, l: Layout)
    requires LayoutOk(l, |b|) && SameOutside(b, edited, l.tab.off, End(l.tab))
    requires SameOutside(edited, sorted, l.tab.off, End(l.tab))
    ensures |sorted| == |b| && (RefsOk(b, l) <==> RefsOk(sorted, l))
    ensures forall r :: 0 <= r < |l.rels| ==> RefsSame(b, sorted, l.rels[r])
  {
    assert SameOutside(b, sorted, l.tab.off, End(l.tab));
    hide Ref, Record, At, End;
    forall r | 0 <= r < |l.rels| ensures RefsSame(b, sorted, l.rels[r]) {
      assert SectionOk(l, l.rels[r], |b|);
      SameRefs(b, sorted, l.tab.off, End(l.tab), l.rels[r]);
    }
    forall r, i: nat | 0 <= r < |l.rels| && i < l.rels[r].count ensures RefIn(b, l, r, i) == RefIn(sorted, l, r, i) {
      assert RefsSame(b, sorted, l.rels[r]);
    }
  }

  lemma Finish(b: Image, edited: Image, sorted: Image, img: Image, l: Layout, names: seq<string>,
               keeps: set<string>, weaks: set<string>, loc: seq<bool>, order: seq<nat>, remap: map<nat, nat>,
               locals: nat)
    requires LayoutOk(l, |b|) && |names| == l.tab.count && |edited| == |b| == |sorted| == |img| && |loc| == l.tab.count
    requires forall i: nat :: i < l.tab.count ==>
               Record(edited, l.tab, i) == Edited(Record(b, l.tab, i), names[i], keeps, weaks)
    requires order == Order(loc) && locals == Locals(loc) < 0x1_0000_0000
    requires Permutes(order, l.tab.count) && order[0] == 0
    requires forall i: nat :: i < l.tab.count ==> Record(sorted, l.tab, i) == Record(edited, l.tab, order[i])
    requires RecordsSame(sorted, img, l.tab)
    requires forall k: nat :: k in remap <==> k < l.tab.count
    requires forall k: nat :: k < l.tab.count ==> remap[k] < l.tab.count && order[remap[k]] == k
    requires forall r :: 0 <= r < |l.rels| ==>
               RefsSame(b, sorted, l.rels[r]) && RefsMoved(sorted, img, l.rels[r], remap)
    ensures var img' := Put32(img, l.info, locals);
            && Reordered(b, img', l, names, keeps, weaks, order) && Follows(b, img', l, order)
            && Get32(img', l.info) == locals
  {
    var img' := Put32(img, l.info, locals);
    hide Put32;
    SameRecords(img, img', l.info, l.info + 4, l.tab);
    FinishTable(b, edited, sorted, img, img', l, names, keeps, weaks, order);
    hide Record, Reordered;
    forall r, i: nat | 0 <= r < |l.rels| && i < l.rels[r].count ensures RefFollows(b, img', l, order, r, i) {
      FinishRef(b, sorted, img, img', l, order, remap, r, i);
    }
  }

  lemma FinishTable(b: Image, edited: Image, sorted: Image, img: Image, img': Image, l: Layout, names: seq<string>,
                    keeps: set<string>, weaks: set<string>, order: seq<nat>)
    requires LayoutOk(l, |b|) && |names| == l.tab.count && |edited| == |b| == |sorted| == |img| == |img'|
    requires Permutes(order, l.tab.count) && order[0] == 0
    requires forall i: nat :: i < l.tab.count ==>
               Record(edited, l.tab, i) == Edited(Record(b, l.tab, i), names[i], keeps, weaks)
    requires forall i: nat :: i < l.tab.count ==> Record(sorted, l.tab, i) == Record(edited, l.tab, order[i])
    requires RecordsSame(sorted, img, l.tab) && RecordsSame(img, img', l.tab)
    ensures Reordered(b, img', l, names, keeps, weaks, order)
  {
    hide Record, At, Edited;
  }

  lemma FinishRef(b: Image, sorted: Image, img: Image, img': Image, l: Layout, order: seq<nat>,
                  remap: map<nat, nat>, r: nat, i: nat)
    requires LayoutOk(l, |b|) && |b| == |sorted| == |img| && SameOutside(img, img', l.info, l.info + 4)
    requires r < |l.rels| && i < l.rels[r].count && |order| == l.tab.count && order[0] == 0
    requires RefsSame(b, sorted, l.rels[r]) && RefsMoved(sorted, img, l.rels[r], remap)
    requires forall k: nat :: k in remap <==> k < l.tab.count
    requires forall k: nat :: k < l.tab.count ==> remap[k] < l.tab.count && order[remap[k]] == k
    ensures RefFollows(b, img', l, order, r, i)
  {
    assert SectionOk(l, l.rels[r], |b|);
    SameRefs(img, img', l.info, l.info + 4, l.rels[r]);
    hide Ref, At;
  }

  /** After the rewrite a relocation names the record it named before, up to the binding edit. */
  lemma MeaningKept(b: Image, img: Image, l: Layout, names: seq<string>, keeps: set<string>, weaks: set<string>,
                    order: seq<nat>, r: nat, i: nat)
    requires LayoutOk(l, |b|) && |names| == l.tab.count && r < |l.rels| && i < l.rels[r].count
    requires Reordered(b, img, l, names, keeps, weaks, order) && Follows(b, img, l, order)
    ensures var was, now := Ref(b, l.rels[r], i), Ref(img, l.rels[r], i);
            && was < l.tab.count && now < l.tab.count && (was == 0 <==> now == 0)
            && Record(img, l.tab, now) == Edited(Record(b, l.tab, was), names[was], keeps, weaks)
  {
    hide Record, Ref, Edited, At;
    assert RefFollows(b, img, l, order, r, i);
  }

  /** Records below sh_info are local and the others are not; each part is in the old order. */
  lemma LocalsFirst(b: Image, img: Image, l: Layout, names: seq<string>, keeps: set<string>, weaks: set<string>,
                    loc: seq<bool>, i: nat)
    requires LayoutOk(l, |b|) && |names| == l.tab.count && FlagsOf(b, l, names, keeps, weaks, loc)
    requires Reordered(b, img, l, names, keeps, weaks, Order(loc)) && 1 <= i < l.tab.count
    ensures Bind(Record(img, l.tab, i)) == 0 <==> i < Locals(loc)
    ensures forall j: nat :: i < j < l.tab.count && (j < Locals(loc) || Locals(loc) <= i) ==>
              Order(loc)[i] < Order(loc)[j]
  {
    hide Record, Pick, Order, Edited, NewBind, At;
    OrderIsStable(loc);
  }
}

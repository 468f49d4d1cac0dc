/** The rewrite of an object, byte by byte. */
module ObjectBytes {
  import opened ElfLocalize

  /** Byte o of the file. */
  function ByteAt(b: Image, o: int): int {
    if 0 <= o < |b| then b[o] else 0
  }

  /** The little-endian 32-bit number at o. */
  function WordAt(b: Image, o: int): int {
    ByteAt(b, o) + 256 * ByteAt(b, o + 1) + 65536 * ByteAt(b, o + 2) + 16777216 * ByteAt(b, o + 3)
  }

  /** A defined global with a name: binding 1 in the upper half of byte 4, a section number, not anonymous. */
  predicate Exported(b: Image, o: int, name: string) {
    ByteAt(b, o + 4) / 16 == 1 && (ByteAt(b, o + 6) != 0 || ByteAt(b, o + 7) != 0) && name != ""
  }

  /** The name behind its leading underscores. */
  predicate Core(name: string, p: string) {
    |p| <= |name| && name[|name| - |p|..] == p && (p == "" || p[0] != '_')
    && forall i :: 0 <= i < |name| - |p| ==> name[i] == '_'
  }

  /** The record at n of the new image is the one at o of the old: exported ones become weak, local or stay. */
  ghost predicate Rebound(b: Image, o: int, img: Image, n: int, ent: nat, name: string,
                          keeps: set<string>, weaks: set<string>)
  {
    && (forall x :: o <= x < o + ent && x != o + 4 ==> ByteAt(img, x - o + n) == ByteAt(b, x))
    && ByteAt(img, n + 4) % 16 == ByteAt(b, o + 4) % 16
    && (!Exported(b, o, name) ==> ByteAt(img, n + 4) == ByteAt(b, o + 4))
    && (Exported(b, o, name) ==>
          exists p :: Core(name, p)
            && ByteAt(img, n + 4) / 16 == if p in weaks then 2 else if p in keeps then 1 else 0)
  }

  lemma {:induction false} CoreOf(name: string)
    ensures Core(name, Plain(name))
  {
    if name != [] && name[0] == '_' {
      CoreOf(name[1..]);
      var p := Plain(name[1..]);
      assert Plain(name) == p && name[|name| - |p|..] == name[1..][|name[1..]| - |p|..];
      forall i | 0 <= i < |name| - |p| ensures name[i] == '_' {
        assert i > 0 ==> name[1..][i - 1] == name[i];
      }
    } else {
      assert name[0..] == name;
    }
  }

  lemma RecordBytes(b: Image, t: Table, i: nat, o: int)
    requires i < t.count && End(t) <= |b| && o == t.off + i * t.ent
    ensures forall k :: 0 <= k < t.ent ==> Record(b, t, i)[k] == ByteAt(b, o + k)
  {
    RecordInside(t, i);
    assert At(t, i) == o;
    forall k | 0 <= k < t.ent ensures Record(b, t, i)[k] == ByteAt(b, o + k) {
      assert b[o..o + t.ent][k] == b[o + k];
    }
  }

  lemma RefBytes(b: Image, s: Table, i: nat)
    requires RelocOk(s, |b|) && i < s.count
    ensures Ref(b, s, i) == WordAt(b, s.off + i * s.ent + 12)
  {
    RecordInside(s, i);
  }

  /** The edit of one record, in bytes. */
  lemma EditedBytes(b: Image, o: int, img: Image, n: int, rec: seq<Byte>, name: string,
                    keeps: set<string>, weaks: set<string>)
    requires |rec| >= 24 && forall k :: 0 <= k < |rec| ==> rec[k] == ByteAt(b, o + k)
    requires forall k :: 0 <= k < |rec| ==> Edited(rec, name, keeps, weaks)[k] == ByteAt(img, n + k)
    ensures Rebound(b, o, img, n, |rec|, name, keeps, weaks)
  {
    CoreOf(name);
    var r := Edited(rec, name, keeps, weaks);
    hide Core, Plain;
    assert rec[4] == ByteAt(b, o + 4) && rec[6] == ByteAt(b, o + 6) && rec[7] == ByteAt(b, o + 7);
    assert r[4] == ByteAt(img, n + 4);
    forall x | o <= x < o + |rec| && x != o + 4 ensures ByteAt(img, x - o + n) == ByteAt(b, x) {
      var k := x - o;
      assert r[k] == ByteAt(img, n + k) && rec[k] == ByteAt(b, o + k);
    }
  }

  /** A byte of the table, of sh_info, or of the upper half of a relocation's r_info. */
  predicate InPlay(l: Layout, k: nat) {
    || l.tab.off <= k < l.tab.off + l.tab.count * l.tab.ent
    || l.info <= k < l.info + 4
    || exists r, i: nat :: 0 <= r < |l.rels| && i < l.rels[r].count && IndexByte(l.rels[r], i, k)
  }

  predicate IndexByte(s: Table, i: nat, k: nat) {
    s.off + i * s.ent + 12 <= k < s.off + i * s.ent + 16
  }

  lemma PlayedBytes(l: Layout, k: nat)
    ensures Rewritten(l, k) <==> InPlay(l, k)
  {
    if SomeRefByte(l, |l.rels|, k) {
      var r :| 0 <= r < |l.rels| && RefByte(l.rels[r], k);
      var i: nat :| i < l.rels[r].count && Site(l.rels[r], i) <= k < Site(l.rels[r], i) + 4;
      assert IndexByte(l.rels[r], i, k);
    }
    if r, i: nat :| 0 <= r < |l.rels| && i < l.rels[r].count && IndexByte(l.rels[r], i, k) {
      assert Site(l.rels[r], i) <= k < Site(l.rels[r], i) + 4;
      assert RefByte(l.rels[r], k);
    }
  }

  /** The symbol index of entry i of section r. */
  function Index(b: Image, l: Layout, r: nat, i: nat): int
    requires r < |l.rels|
  {
    WordAt(b, l.rels[r].off + i * l.rels[r].ent + 12)
  }

  predicate IndicesOk(b: Image, l: Layout) {
    forall r, i: nat :: 0 <= r < |l.rels| && i < l.rels[r].count ==> Index(b, l, r, i) < l.tab.count
  }

  /** Where record i of the table starts. */
  function Place(l: Layout, i: nat): int {
    l.tab.off + i * l.tab.ent
  }

  /**
   * The new image: record i is record order[i] of the old with its binding edited, null first, then the locals
   * and then the others, each part in the old order; sh_info counts null and locals; every relocation
   * names the record it named; no other byte has changed.
   */
  ghost predicate Localized(b: Image, img: Image, l: Layout, names: seq<string>, keeps: set<string>,
                            weaks: set<string>, order: seq<nat>)
    requires |names| == l.tab.count
  {
    var n := WordAt(img, l.info);
    && |img| == |b| && |order| == l.tab.count && 1 <= n <= l.tab.count && order[0] == 0
    && (forall i :: 0 <= i < |order| ==> order[i] < l.tab.count)
    && (forall i, j :: 0 <= i < j < |order| ==> order[i] != order[j])
    && (forall i: nat :: i < |order| ==>
          Rebound(b, Place(l, order[i]), img, Place(l, i), l.tab.ent, names[order[i]], keeps, weaks))
    && (forall i: nat :: 1 <= i < |order| ==> (ByteAt(img, Place(l, i) + 4) / 16 == 0 <==> i < n))
    && (forall i, j :: 1 <= i < j < |order| && (j < n || n <= i) ==> order[i] < order[j])
    && (forall r, i: nat :: 0 <= r < |l.rels| && i < l.rels[r].count ==> Renamed(b, img, l, order, r, i))
    && (forall k: nat :: k < |b| && !InPlay(l, k) ==> img[k] == b[k])
  }

  predicate Renamed(b: Image, img: Image, l: Layout, order: seq<nat>, r: nat, i: nat)
    requires r < |l.rels|
  {
    0 <= Index(img, l, r, i) < |order| && order[Index(img, l, r, i)] == Index(b, l, r, i)
  }

  /** It succeeds exactly when every relocation names a record of the table. */
  method LocalizeObject(b: Image, l: Layout, names: seq<string>, keeps: set<string>, weaks: set<string>)
    returns (ok: bool, img: Image, ghost order: seq<nat>)
    requires LayoutOk(l, |b|) && |names| == l.tab.count
    ensures ok <==> IndicesOk(b, l)
    ensures ok ==> Localized(b, img, l, names, keeps, weaks, order)
  {
    hide LayoutOk, RefsOk, IndicesOk, Reordered, Follows, FlagsOf, Localized, Order, Locals, Pick, Get32, OthersKept;
    ghost var loc;
    ok, img, loc := Localize(b, l, names, keeps, weaks);
    FlagsSome(b, l, names, keeps, weaks, loc);
    order := Order(loc);
    IndicesMean(b, l);
    if ok {
      AllBytes(b, img, l, names, keeps, weaks, loc);
    }
  }

  lemma FlagsSome(b: Image, l: Layout, names: seq<string>, keeps: set<string>, weaks: set<string>, loc: seq<bool>)
    requires LayoutOk(l, |b|) && |names| == l.tab.count && FlagsOf(b, l, names, keeps, weaks, loc)
    ensures |loc| == l.tab.count > 0
  {
  }

  lemma IndicesMean(b: Image, l: Layout)
    requires LayoutOk(l, |b|)
    ensures RefsOk(b, l) <==> IndicesOk(b, l)
  {
    hide Ref;
    forall r: nat, i: nat | r < |l.rels| && i < l.rels[r].count ensures Ref(b, l.rels[r], i) == Index(b, l, r, i) {
      assert SectionOk(l, l.rels[r], |b|);
      RefBytes(b, l.rels[r], i);
    }
    if RefsOk(b, l) {
      forall r, i: nat | 0 <= r < |l.rels| && i < l.rels[r].count ensures Index(b, l, r, i) < l.tab.count {
        assert RefIn(b, l, r, i);
      }
    }
  }

  lemma AllBytes(b: Image, img: Image, l: Layout, names: seq<string>, keeps: set<string>, weaks: set<string>,
                 loc: seq<bool>)
    requires LayoutOk(l, |b|) && |names| == l.tab.count && |img| == |b| && FlagsOf(b, l, names, keeps, weaks, loc)
    requires Reordered(b, img, l, names, keeps, weaks, Order(loc)) && Follows(b, img, l, Order(loc))
    requires Get32(img, l.info) == Locals(loc) && OthersKept(b, img, l)
    ensures Localized(b, img, l, names, keeps, weaks, Order(loc))
  {
    var order := Order(loc);
    OrderIsStable(loc);
    hide Record, Ref, Order, Locals, Pick, Edited, NewBind, Rebound, Rewritten, InPlay, Index, Bind;
    assert WordAt(img, l.info) == Locals(loc) by { InfoBytes(img, l); }
    forall i: nat | i < |order|
      ensures Rebound(b, Place(l, order[i]), img, Place(l, i), l.tab.ent, names[order[i]], keeps, weaks)
      ensures i >= 1 ==> (ByteAt(img, Place(l, i) + 4) / 16 == 0 <==> i < Locals(loc))
    {
      OneRecord(b, img, l, names, keeps, weaks, loc, i);
    }
    forall r, i: nat | 0 <= r < |l.rels| && i < l.rels[r].count ensures Renamed(b, img, l, order, r, i) {
      OneIndex(b, img, l, order, r, i);
    }
    forall k: nat | k < |b| && !InPlay(l, k) ensures img[k] == b[k] {
      PlayedBytes(l, k);
    }
  }

  lemma InfoBytes(img: Image, l: Layout)
    requires l.info + 4 <= |img|
    ensures WordAt(img, l.info) == Get32(img, l.info)
  {
  }

  lemma OneRecord(b: Image, img: Image, l: Layout, names: seq<string>, keeps: set<string>, weaks: set<string>,
                  loc: seq<bool>, i: nat)
    requires LayoutOk(l, |b|) && |names| == l.tab.count && |img| == |b| && FlagsOf(b, l, names, keeps, weaks, loc)
    requires Reordered(b, img, l, names, keeps, weaks, Order(loc)) && i < l.tab.count
    ensures Order(loc)[i] < l.tab.count
    ensures Rebound(b, Place(l, Order(loc)[i]), img, Place(l, i), l.tab.ent, names[Order(loc)[i]], keeps, weaks)
    ensures i >= 1 ==> (ByteAt(img, Place(l, i) + 4) / 16 == 0 <==> i < Locals(loc))
  {
    hide Record, Edited, NewBind, Rebound, Order, Locals, Pick, FlagsOf;
    FlagsSome(b, l, names, keeps, weaks, loc);
    var j := Order(loc)[i];
    var o, n := Place(l, j), Place(l, i);
    TableOk(b, l);
    RecordBytes(b, l.tab, j, o);
    RecordBytes(img, l.tab, i, n);
    if i >= 1 {
      LocalsFirst(b, img, l, names, keeps, weaks, loc, i);
    }
    hide Place, LayoutOk, Reordered, End, At;
    EditedBytes(b, o, img, n, Record(b, l.tab, j), names[j], keeps, weaks);
    assert Record(img, l.tab, i)[4] == ByteAt(img, n + 4);
  }

  lemma OneIndex(b: Image, img: Image, l: Layout, order: seq<nat>, r: nat, i: nat)
    requires LayoutOk(l, |b|) && |img| == |b| && Follows(b, img, l, order) && r < |l.rels| && i < l.rels[r].count
    ensures Renamed(b, img, l, order, r, i)
  {
    IndexIsRef(b, l, r, i);
    assert LayoutOk(l, |img|);
    IndexIsRef(img, l, r, i);
    hide Ref, Index, LayoutOk;
    assert RefFollows(b, img, l, order, r, i);
  }

  lemma IndexIsRef(b: Image, l: Layout, r: nat, i: nat)
    requires LayoutOk(l, |b|) && r < |l.rels| && i < l.rels[r].count
    ensures RelocOk(l.rels[r], |b|) && Ref(b, l.rels[r], i) == Index(b, l, r, i)
  {
    hide Ref, WordAt;
    assert SectionOk(l, l.rels[r], |b|);
    RefBytes(b, l.rels[r], i);
  }
}

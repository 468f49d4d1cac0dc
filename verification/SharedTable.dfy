/**
 * The by-key shared table: a chain of rows whose deleted and expired rows stay behind as
 * tombstones, and the lease and rate-limit calls built on it.
 */
module SharedTable {

  const MAX_LONG := 9223372036854775807

  /**
   * What a live row holds, column by column: a number for int and float columns, a string for text columns;
   * a column whose bytes are all zero holds 0 and the empty string.
   */
  datatype Entry = Entry(expiry: int, data: seq<int>, texts: seq<string>)

  predicate WidthOk(e: Entry, width: nat) {
    |e.data| == width && |e.texts| == width
  }

  datatype Row = Row(key: string, live: bool, entry: Entry)

  type Chain = seq<Row>

  // ---- The chain as a finite map ----

  /** The map a chain stands for: its live rows, by key. */
  function View(rows: Chain): (m: map<string, Entry>)
  {
    if rows == [] then map[]
    else if rows[0].live then View(rows[1..])[rows[0].key := rows[0].entry]
    else View(rows[1..])
  }

  /** No two live rows share a key. */
  predicate Distinct(rows: Chain)
  {
    rows == [] || (Distinct(rows[1..]) && (rows[0].live ==> rows[0].key !in View(rows[1..])))
  }

  function LiveCount(rows: Chain): (n: nat)
  {
    if rows == [] then 0 else (if rows[0].live then 1 else 0) + LiveCount(rows[1..])
  }

  /** Live rows of a chain without repeated keys are as many as the keys of its map. */
  lemma {:induction false} CountIsSize(rows: Chain)
    requires Distinct(rows)
    ensures LiveCount(rows) == |View(rows)|
  {
    if rows != [] {
      CountIsSize(rows[1..]);
    }
  }

  /** The first live row with key k from row i on, |rows| when there is none. */
  function Find(rows: Chain, k: string): (i: nat)
    ensures i <= |rows|
    ensures i < |rows| ==> rows[i].live && rows[i].key == k
  {
    if rows == [] then 0
    else if rows[0].live && rows[0].key == k then 0
    else 1 + Find(rows[1..], k)
  }

  lemma {:induction false} FindIsLookup(rows: Chain, k: string)
    ensures Find(rows, k) < |rows| <==> k in View(rows)
    ensures k in View(rows) ==> View(rows)[k] == rows[Find(rows, k)].entry
  {
    if rows != [] {
      FindIsLookup(rows[1..], k);
    }
  }

  /** Rewriting the entry of a live row rewrites one binding. */
  lemma {:induction false} PutView(rows: Chain, i: nat, e: Entry)
    requires i < |rows| && rows[i].live && Distinct(rows)
    ensures rows[i].key in View(rows)
    ensures View(rows[i := rows[i].(entry := e)]) == View(rows)[rows[i].key := e]
    ensures Distinct(rows[i := rows[i].(entry := e)])
    ensures LiveCount(rows[i := rows[i].(entry := e)]) == LiveCount(rows)
  {
    var rows' := rows[i := rows[i].(entry := e)];
    if i == 0 {
      assert rows'[1..] == rows[1..];
    } else {
      PutView(rows[1..], i - 1, e);
      assert rows'[1..] == rows[1..][i - 1 := rows[i].(entry := e)];
    }
  }

  /** Turning a live row into a tombstone removes its key. */
  lemma {:induction false} KillView(rows: Chain, i: nat)
    requires i < |rows| && rows[i].live && Distinct(rows)
    ensures rows[i].key in View(rows)
    ensures View(rows[i := rows[i].(live := false)]) == View(rows) - {rows[i].key}
    ensures Distinct(rows[i := rows[i].(live := false)])
    ensures LiveCount(rows[i := rows[i].(live := false)]) == LiveCount(rows) - 1
  {
    var rows' := rows[i := rows[i].(live := false)];
    if i == 0 {
      assert rows'[1..] == rows[1..];
    } else {
      KillView(rows[1..], i - 1);
      assert rows'[1..] == rows[1..][i - 1 := rows[i].(live := false)];
    }
  }

  /** A tombstone taken over by a new key adds exactly that key. */
  lemma {:induction false} ReviveView(rows: Chain, i: nat, r: Row)
    requires i < |rows| && !rows[i].live && r.live && Distinct(rows) && r.key !in View(rows)
    ensures View(rows[i := r]) == View(rows)[r.key := r.entry]
    ensures Distinct(rows[i := r]) && LiveCount(rows[i := r]) == LiveCount(rows) + 1
  {
    var rows' := rows[i := r];
    if i == 0 {
      assert rows'[1..] == rows[1..];
    } else {
      ReviveView(rows[1..], i - 1, r);
      assert rows'[1..] == rows[1..][i - 1 := r];
    }
  }

  lemma LinkView(rows: Chain, r: Row)
    requires r.live && Distinct(rows) && r.key !in View(rows)
    ensures View([r] + rows) == View(rows)[r.key := r.entry]
    ensures Distinct([r] + rows) && LiveCount([r] + rows) == LiveCount(rows) + 1
  {
    assert ([r] + rows)[1..] == rows;
  }

  // ---- Expiry ----

  predicate Gone(e: Entry, now: int) {
    e.expiry != 0 && e.expiry <= now
  }

  const UNLIMITED := -1

  /** The chain after the first `left` expired live rows became tombstones. */
  function PurgeRows(rows: Chain, now: int, left: int): (p: Chain)
    ensures |p| == |rows|
  {
    if rows == [] || left == 0 then rows
    else if rows[0].live && Gone(rows[0].entry, now) then
      [rows[0].(live := false)] + PurgeRows(rows[1..], now, if left > 0 then left - 1 else left)
    else
      [rows[0]] + PurgeRows(rows[1..], now, left)
  }

  /** What a purge may do to the map: forget expired bindings, and nothing else. */
  predicate Fades(m: map<string, Entry>, m': map<string, Entry>, now: int)
  {
    && (forall k :: k in m' ==> k in m && m'[k] == m[k])
    && (forall k :: k in m && k !in m' ==> Gone(m[k], now))
  }

  lemma {:induction false} PurgeFades(rows: Chain, now: int, left: int)
    requires Distinct(rows)
    ensures Distinct(PurgeRows(rows, now, left))
    ensures Fades(View(rows), View(PurgeRows(rows, now, left)), now)
    ensures LiveCount(PurgeRows(rows, now, left)) <= LiveCount(rows)
  {
    if rows != [] && left != 0 {
      var p := PurgeRows(rows, now, left);
      if rows[0].live && Gone(rows[0].entry, now) {
        var less := if left > 0 then left - 1 else left;
        PurgeFades(rows[1..], now, less);
        assert p[1..] == PurgeRows(rows[1..], now, less);
      } else {
        PurgeFades(rows[1..], now, left);
        assert p[1..] == PurgeRows(rows[1..], now, left);
      }
    }
  }

  /** A purge without a quota leaves no expired row alive. */
  lemma {:induction false} PurgeAllClears(rows: Chain, now: int)
    requires Distinct(rows)
    ensures forall k :: k in View(PurgeRows(rows, now, UNLIMITED)) ==>
              !Gone(View(PurgeRows(rows, now, UNLIMITED))[k], now)
  {
    if rows != [] {
      PurgeAllClears(rows[1..], now);
      var p := PurgeRows(rows, now, UNLIMITED);
      assert p[1..] == PurgeRows(rows[1..], now, UNLIMITED);
    }
  }

  /** Rows the chain has that a purge at `now` would take. */
  function ExpiredCount(rows: Chain, now: int): (n: nat)
  {
    if rows == [] then 0
    else (if rows[0].live && Gone(rows[0].entry, now) then 1 else 0) + ExpiredCount(rows[1..], now)
  }

  function Taken(expired: nat, left: int): int {
    if left >= 0 && left < expired then left else expired
  }

  /** A purge takes as many rows as there are expired ones, or its quota. */
  lemma {:induction false} PurgeCounts(rows: Chain, now: int, left: int)
    ensures LiveCount(PurgeRows(rows, now, left)) == LiveCount(rows) - Taken(ExpiredCount(rows, now), left)
  {
    if rows != [] && left != 0 {
      var p := PurgeRows(rows, now, left);
      if rows[0].live && Gone(rows[0].entry, now) {
        var less := if left > 0 then left - 1 else left;
        PurgeCounts(rows[1..], now, less);
        assert p[1..] == PurgeRows(rows[1..], now, less);
      } else {
        PurgeCounts(rows[1..], now, left);
        assert p[1..] == PurgeRows(rows[1..], now, left);
      }
    }
  }

  /** The expired rows are the bindings a full sweep takes. */
  lemma ExpiredIs(rows: Chain, now: int)
    requires Distinct(rows)
    ensures ExpiredCount(rows, now) == |View(rows)| - |Unexpired(View(rows), now)|
  {
    hide PurgeRows, View, Distinct, LiveCount, ExpiredCount, Unexpired;
    PurgeFades(rows, now, UNLIMITED);
    PurgeAllView(rows, now);
    PurgeCounts(rows, now, UNLIMITED);
    CountIsSize(rows);
    CountIsSize(PurgeRows(rows, now, UNLIMITED));
  }

  /** One row of a sweep. */
  lemma PurgeStep(rows: Chain, i: nat, now: int, left: int)
    requires i < |rows| && left != 0
    ensures PurgeRows(rows[i..], now, left) ==
            if rows[i].live && Gone(rows[i].entry, now)
            then [rows[i].(live := false)] + PurgeRows(rows[i + 1..], now, if left > 0 then left - 1 else left)
            else [rows[i]] + PurgeRows(rows[i + 1..], now, left)
  {
    assert rows[i..][1..] == rows[i + 1..];
  }

  /** A new row: no expiry, every column zero. */
  function Fresh(width: nat): (e: Entry)
    ensures e.expiry == 0 && WidthOk(e, width)
    ensures forall c: nat :: c < width ==> e.data[c] == 0 && e.texts[c] == ""
  {
    Entry(0, seq(width, _ => 0), seq(width, _ => ""))
  }

  /** The entry a call on `key` starts from: the row's own, or a new one. */
  function Base(m: map<string, Entry>, key: string, width: nat): Entry {
    if key in m then m[key] else Fresh(width)
  }

  function Limit(cap: nat): nat {
    cap - cap / 8
  }

  /** Two's-complement 64-bit result of an addition. */
  function Wrap64(x: int): (w: int)
    ensures -MAX_LONG - 1 <= w <= MAX_LONG && (w - x) % 0x1_0000_0000_0000_0000 == 0
    ensures -MAX_LONG - 1 <= x <= MAX_LONG ==> w == x
  {
    (x + MAX_LONG + 1) % 0x1_0000_0000_0000_0000 - MAX_LONG - 1
  }

  predicate HasExpiry(rows: Chain) {
    exists i :: 0 <= i < |rows| && rows[i].live && rows[i].entry.expiry != 0
  }

  /** The chain after the throttled sweep: at most 64 rows, at most once in 16 ms. */
  function Swept(rows: Chain, now: int, last: int): Chain {
    if HasExpiry(rows) && !(now - 16 < last <= now) then PurgeRows(rows, now, 64) else rows
  }

  lemma SweptFades(rows: Chain, now: int, last: int)
    requires Distinct(rows)
    ensures Distinct(Swept(rows, now, last)) && Fades(View(rows), View(Swept(rows, now, last)), now)
    ensures LiveCount(Swept(rows, now, last)) <= LiveCount(rows)
  {
    hide PurgeRows, View, Distinct, LiveCount;
    PurgeFades(rows, now, 64);
  }

  /** The bindings of a map that have not expired. */
  function Unexpired(m: map<string, Entry>, now: int): map<string, Entry> {
    map k | k in m && !Gone(m[k], now) :: m[k]
  }

  lemma PurgeAllView(rows: Chain, now: int)
    requires Distinct(rows)
    ensures View(PurgeRows(rows, now, UNLIMITED)) == Unexpired(View(rows), now)
  {
    hide PurgeRows, View, Distinct, LiveCount;
    PurgeFades(rows, now, UNLIMITED);
    PurgeAllClears(rows, now);
  }

  /** When the sweep was last attempted, by any table of the process. */
  class Throttle {
    var last: int
    constructor () { last := 0; }
  }

  class Table {
    const cap: nat
    const keyMax: nat
    const width: nat
    var rows: Chain
    var count: int

    ghost predicate Valid()
      reads this
    {
      && Distinct(rows) && count == LiveCount(rows) && count <= Limit(cap)
      && forall i :: 0 <= i < |rows| ==> WidthOk(rows[i].entry, width)
    }

    constructor (cap: nat, keyMax: nat, width: nat)
      ensures Valid() && View(rows) == map[]
      ensures this.cap == cap && this.keyMax == keyMax && this.width == width
    {
      this.cap := cap;
      this.keyMax := keyMax;
      this.width := width;
      rows := [];
      count := 0;
    }

    lemma EntryWidth(k: string)
      requires Valid() && k in View(rows)
      ensures WidthOk(View(rows)[k], width)
    {
      FindIsLookup(rows, k);
    }

    /** Row i stays in the chain but no longer counts. */
    method Tombstone(i: nat)
      requires Valid() && i < |rows| && rows[i].live
      modifies this
      ensures Valid() && rows == old(rows)[i := old(rows)[i].(live := false)]
      ensures View(rows) == old(View(rows)) - {old(rows)[i].key}
      ensures count == old(count) - 1
    {
      hide View, Distinct, LiveCount;
      KillView(rows, i);
      rows := rows[i := rows[i].(live := false)];
      count := count - 1;
    }

    /** Turn expired rows into tombstones in chain order, stopping after maxb of them when maxb > 0. */
    method PurgeBatch(now: int, maxb: int)
      requires Valid()
      modifies this
      ensures Valid() && rows == PurgeRows(old(rows), now, if maxb > 0 then maxb else UNLIMITED)
    {
      hide PurgeRows, View, Valid, Halfway, Gone;
      ghost var left := if maxb > 0 then maxb else UNLIMITED;
      ghost var goal := PurgeRows(rows, now, left);
      HalfwayStart(rows, now, left);
      var i: nat, batch := 0, 0;
      while i < |rows|
        invariant i <= |rows| && 0 <= batch && Valid()
        invariant left == (if maxb <= 0 then UNLIMITED else maxb - batch) && (maxb > 0 ==> left > 0)
        invariant Halfway(rows, i, now, left, goal)
      {
        HalfwayStep(rows, i, now, left, goal);
        if rows[i].live && Gone(rows[i].entry, now) {
          left := if left > 0 then left - 1 else left;
          Tombstone(i);
          batch := batch + 1;
          if maxb > 0 && batch >= maxb {
            HalfwayDone(rows, i + 1, now, left, goal);
            return;
          }
        }
        i := i + 1;
      }
      HalfwayDone(rows, i, now, left, goal);
    }

    /** The sweep most calls begin with. */
    method PurgeThrottled(throttle: Throttle, now: int)
      requires Valid()
      modifies this, throttle
      ensures Valid() && rows == Swept(old(rows), now, old(throttle.last))
      ensures throttle.last == if HasExpiry(old(rows)) && !(now - 16 < old(throttle.last) <= now) then now
                               else old(throttle.last)
      ensures now - 16 < old(throttle.last) <= now || (forall i :: 0 <= i < |old(rows)| && old(rows)[i].live ==>
                                                         old(rows)[i].entry.expiry == 0) ==>
                rows == old(rows) && throttle.last == old(throttle.last)
      ensures !(now - 16 < old(throttle.last) <= now) && HasExpiry(old(rows)) ==>
                var expired := |old(View(rows))| - |Unexpired(old(View(rows)), now)|;
                throttle.last == now && |View(rows)| == |old(View(rows))| - if expired < 64 then expired else 64
    {
      hide PurgeRows, View, Distinct, LiveCount, Gone, Unexpired, ExpiredCount;
      CountIsSize(rows);
      CountIsSize(PurgeRows(rows, now, 64)) by { PurgeFades(rows, now, 64); }
      ExpiredIs(rows, now);
      PurgeCounts(rows, now, 64);
      if HasExpiry(rows) {
        if throttle.last > now - 16 && throttle.last <= now {
          return;
        }
        throttle.last := now;
        PurgeBatch(now, 64);
      }
    }

    /** The live row of a key, |rows| when there is none. */
    method FindRow(key: string) returns (i: nat)
      requires Valid()
      ensures i <= |rows| && (i < |rows| <==> key in View(rows))
      ensures i < |rows| ==> rows[i].live && rows[i].key == key && View(rows)[key] == rows[i].entry
    {
      hide View, Distinct, LiveCount, Find;
      FindIsLookup(rows, key);
      i := 0;
      assert rows[0..] == rows;
      while i < |rows| && !(rows[i].live && rows[i].key == key)
        invariant i <= |rows| && Find(rows, key) == i + Find(rows[i..], key)
      {
        FindStep(rows, i, key);
        i := i + 1;
      }
      if i < |rows| {
        FindStep(rows, i, key);
      }
    }

    /**
     * The row of a key, made if need be: a tombstone is taken over before the chain grows.
     * Nothing of a taken-over row shows; a full table or missing memory refuses.
     */
    method RowFor(key: string, memory: bool) returns (i: int)
      requires Valid()
      modifies this
      ensures Valid()
      ensures i >= 0 <==> 1 <= |key| <= keyMax
                          && (key in old(View(rows)) || (|old(View(rows))| < cap - cap / 8 && memory))
      ensures i < 0 ==> rows == old(rows) && count == old(count)
      ensures i >= 0 ==> i < |rows| && rows[i].live && rows[i].key == key
      ensures i >= 0 ==> View(rows) == if key in old(View(rows)) then old(View(rows))
                                       else old(View(rows))[key := Fresh(width)]
      ensures i >= 0 ==> rows[i].entry == View(rows)[key]
    {
      hide View, Distinct, LiveCount, Find, Fresh;
      CountKeys();
      if |key| == 0 || |key| > keyMax {
        return -1;
      }
      var f := FindRow(key);
      if f < |rows| {
        return f;
      }
      if count >= cap - cap / 8 || !memory {
        return -1;
      }
      var row := Row(key, true, Fresh(width));
      var cur := 0;
      while cur < |rows| && rows[cur].live
        invariant 0 <= cur <= |rows|
      {
        cur := cur + 1;
      }
      if cur < |rows| {
        ReviveView(rows, cur, row);
        rows := rows[cur := row];
        i := cur;
      } else {
        LinkView(rows, row);
        rows := [row] + rows;
        i := 0;
      }
      count := count + 1;
    }

    /** Store an entry in a live row. */
    method SetEntry(i: nat, e: Entry)
      requires Valid() && i < |rows| && rows[i].live && WidthOk(e, width)
      modifies this`rows
      ensures Valid() && View(rows) == old(View(rows))[old(rows)[i].key := e]
    {
      hide View, Distinct, LiveCount;
      PutView(rows, i, e);
      rows := rows[i := rows[i].(entry := e)];
    }

    /** Whether a row for `key` can be had on map m. */
    ghost predicate Roomy(m: map<string, Entry>, key: string, memory: bool) {
      1 <= |key| <= keyMax && (key in m || (|m| < Limit(cap) && memory))
    }

    /** The stored count is the number of keys. */
    lemma CountKeys()
      requires Valid()
      ensures count == |View(rows)|
    {
      CountIsSize(rows);
    }

    /** Write an int or float column; col < 0 when the schema has no such column. */
    method SetColumn(throttle: Throttle, now: int, key: string, col: int, value: int, memory: bool) returns (ok: bool)
      requires Valid() && col < width
      modifies this, throttle
      ensures Valid()
      ensures var mid := View(Swept(old(rows), now, old(throttle.last)));
              && (ok <==> col >= 0 && Roomy(mid, key, memory))
              && View(rows) == if !ok then mid else
                   mid[key := Base(mid, key, width).(data := SetAt(Base(mid, key, width).data, col, value))]
    {
      hide View, Distinct, LiveCount, Swept, Fresh;
      PurgeThrottled(throttle, now);
      CountKeys();
      ok := false;
      if col >= 0 {
        var r := RowFor(key, memory);
        if r >= 0 {
          SetEntry(r, rows[r].entry.(data := SetAt(rows[r].entry.data, col, value)));
          ok := true;
        }
      }
    }

    /** Read an int or float column, 0 when the row or the column is missing. */
    method GetColumn(throttle: Throttle, now: int, key: string, col: int) returns (v: int)
      requires Valid() && col < width
      modifies this, throttle
      ensures Valid() && rows == Swept(old(rows), now, old(throttle.last))
      ensures key in View(rows) ==> WidthOk(View(rows)[key], width)
      ensures v == if col >= 0 && key in View(rows) then View(rows)[key].data[col] else 0
    {
      hide View, Distinct, LiveCount, Swept;
      PurgeThrottled(throttle, now);
      v := 0;
      var r := FindRow(key);
      if r < |rows| && col >= 0 {
        v := rows[r].entry.data[col];
      }
    }

    /** Write a text column of `size` bytes, terminator included; a string that does not fit is refused. */
    method SetText(throttle: Throttle, now: int, key: string, col: int, size: nat, value: string, memory: bool)
      returns (ok: bool)
      requires Valid() && col < width
      modifies this, throttle
      ensures Valid()
      ensures var mid := View(Swept(old(rows), now, old(throttle.last)));
              && (ok <==> col >= 0 && |value| < size && Roomy(mid, key, memory))
              && View(rows) == if !ok then mid else
                   mid[key := Base(mid, key, width).(texts := TextAt(Base(mid, key, width).texts, col, value))]
    {
      hide View, Distinct, LiveCount, Swept, Fresh;
      PurgeThrottled(throttle, now);
      CountKeys();
      ok := false;
      if col >= 0 && |value| < size {
        var r := RowFor(key, memory);
        if r >= 0 {
          SetEntry(r, rows[r].entry.(texts := TextAt(rows[r].entry.texts, col, value)));
          ok := true;
        }
      }
    }

    /** A copy of a text column, cut to size - 1 characters; empty for a missing row or column. */
    method GetText(throttle: Throttle, now: int, key: string, col: int, size: nat, memory: bool) returns (text: string)
      requires Valid() && col < width && size > 0
      modifies this, throttle
      ensures Valid() && rows == Swept(old(rows), now, old(throttle.last))
      ensures key in View(rows) ==> WidthOk(View(rows)[key], width)
      ensures text == if col >= 0 && key in View(rows) && memory then Cut(View(rows)[key].texts[col], size - 1) else ""
    {
      hide View, Distinct, LiveCount, Swept;
      PurgeThrottled(throttle, now);
      text := "";
      var r := FindRow(key);
      if r < |rows| && col >= 0 {
        var src := rows[r].entry.texts[col];
        var len := if |src| < size - 1 then |src| else size - 1;
        if memory {
          text := src[..len];
        }
      }
    }

    /** Add to an int column with 64-bit wrap-around; a missing row starts at 0. */
    method Increment(throttle: Throttle, now: int, key: string, col: int, delta: int, memory: bool) returns (v: int)
      requires Valid() && col < width
      modifies this, throttle
      ensures Valid()
      ensures var mid := View(Swept(old(rows), now, old(throttle.last)));
              var ok := col >= 0 && Roomy(mid, key, memory);
              && (ok ==> WidthOk(Base(mid, key, width), width) && v == Wrap64(Base(mid, key, width).data[col] + delta))
              && (!ok ==> v == 0)
              && View(rows) == if !ok then mid else
                   mid[key := Base(mid, key, width).(data := SetAt(Base(mid, key, width).data, col, v))]
    {
      hide View, Distinct, LiveCount, Swept, Fresh, Wrap64;
      PurgeThrottled(throttle, now);
      CountKeys();
      v := 0;
      if col >= 0 {
        var r := RowFor(key, memory);
        if r >= 0 {
          v := Wrap64(rows[r].entry.data[col] + delta);
          SetEntry(r, rows[r].entry.(data := SetAt(rows[r].entry.data, col, v)));
        }
      }
    }

    /** Give a row an absolute expiry time; 0 means never. */
    method ExpireAt(now: int, key: string, at: int) returns (ok: bool)
      requires Valid()
      modifies this
      ensures Valid()
      ensures var mid := if at < 0 then old(View(rows)) else View(PurgeRows(old(rows), now, 64));
              && (ok <==> at >= 0 && key in mid)
              && View(rows) == if ok then mid[key := mid[key].(expiry := at)] else mid
    {
      hide View, Distinct, LiveCount, PurgeRows;
      if at < 0 {
        return false;
      }
      PurgeBatch(now, 64);
      var r := FindRow(key);
      ok := r < |rows|;
      if ok {
        SetEntry(r, rows[r].entry.(expiry := at));
      }
    }

    /** The expiry of a bound key, -1 for an unbound one. */
    method ExpiresAt(throttle: Throttle, now: int, key: string) returns (at: int)
      requires Valid()
      modifies this, throttle
      ensures Valid() && rows == Swept(old(rows), now, old(throttle.last))
      ensures at == if key in View(rows) then View(rows)[key].expiry else -1
    {
      hide View, Distinct, LiveCount, Swept;
      PurgeThrottled(throttle, now);
      var r := FindRow(key);
      at := if r < |rows| then rows[r].entry.expiry else -1;
    }

    /** An expiry relative to the clock read first; `now` is the clock read by the sweep after it. */
    method ExpireIn(clock: int, now: int, key: string, ttl: int) returns (ok: bool)
      requires Valid() && clock >= 0
      modifies this
      ensures Valid()
      ensures var sound := 0 <= ttl <= MAX_LONG - clock;
              var mid := if sound then View(PurgeRows(old(rows), now, 64)) else old(View(rows));
              && (ok <==> sound && key in mid)
              && View(rows) == if ok then mid[key := mid[key].(expiry := clock + ttl)] else mid
    {
      hide View, Distinct, LiveCount, PurgeRows;
      if ttl < 0 || ttl > MAX_LONG - clock {
        return false;
      }
      ok := ExpireAt(now, key, clock + ttl);
    }

    method Delete(now: int, key: string) returns (ok: bool)
      requires Valid()
      modifies this
      ensures Valid()
      ensures var mid := View(PurgeRows(old(rows), now, 64));
              (ok <==> key in mid) && View(rows) == mid - {key}
    {
      hide View, Distinct, LiveCount, PurgeRows;
      PurgeBatch(now, 64);
      var r := FindRow(key);
      ok := r < |rows|;
      if ok {
        Tombstone(r);
      }
    }

    /** Remove every expired row; the number removed. */
    method PurgeExpired(now: int) returns (removed: int)
      requires Valid()
      modifies this
      ensures Valid() && View(rows) == Unexpired(old(View(rows)), now)
      ensures forall k: string :: k in View(rows) <==>
                k in old(View(rows)) && !(old(View(rows))[k].expiry != 0 && old(View(rows))[k].expiry <= now)
      ensures forall k: string :: k in View(rows) ==> View(rows)[k] == old(View(rows))[k]
      ensures removed == |old(View(rows))| - |View(rows)|
    {
      hide View, Distinct, LiveCount, PurgeRows;
      CountKeys();
      var before := count;
      PurgeAllView(rows, now);
      PurgeBatch(now, 0);
      CountKeys();
      removed := before - count;
    }

    /** Every row becomes a tombstone. */
    method Clear()
      requires Valid()
      modifies this
      ensures Valid() && View(rows) == map[]
    {
      hide View, Distinct, LiveCount;
      var i: nat := 0;
      while i < |rows|
        invariant i <= |rows| && forall j :: 0 <= j < i ==> !rows[j].live
        invariant forall j :: 0 <= j < |rows| ==> WidthOk(rows[j].entry, width)
      {
        rows := rows[i := rows[i].(live := false)];
        i := i + 1;
      }
      count := 0;
      NoneLive(rows);
    }
  }

  function SetAt(d: seq<int>, col: int, value: int): (d': seq<int>)
    ensures |d'| == |d|
    ensures forall c :: 0 <= c < |d| ==> d'[c] == if c == col then value else d[c]
  {
    if 0 <= col < |d| then d[col := value] else d
  }

  function TextAt(d: seq<string>, col: int, value: string): (d': seq<string>)
    ensures |d'| == |d|
    ensures forall c :: 0 <= c < |d| ==> d'[c] == if c == col then value else d[c]
  {
    if 0 <= col < |d| then d[col := value] else d
  }

  /** The first n characters of a string, all of it when it is shorter. */
  function Cut(s: string, n: nat): (c: string)
    ensures c <= s && |c| == if |s| <= n then |s| else n
  {
    if |s| <= n then s else s[..n]
  }

  lemma FindStep(rows: Chain, i: nat, key: string)
    requires i < |rows|
    ensures Find(rows[i..], key) == if rows[i].live && rows[i].key == key then 0 else 1 + Find(rows[i + 1..], key)
  {
    assert rows[i..][1..] == rows[i + 1..];
  }

  lemma {:induction false} NoneLive(rows: Chain)
    requires forall j :: 0 <= j < |rows| ==> !rows[j].live
    ensures View(rows) == map[] && Distinct(rows) && LiveCount(rows) == 0
  {
    if rows != [] {
      NoneLive(rows[1..]);
    }
  }

  /** Rows before i are as the purge leaves them, rows from i on are still to be swept. */
  ghost predicate Halfway(rows: Chain, i: nat, now: int, left: int, goal: Chain) {
    i <= |rows| && rows[..i] + PurgeRows(rows[i..], now, left) == goal
  }

  lemma HalfwayStart(rows: Chain, now: int, left: int)
    ensures Halfway(rows, 0, now, left, PurgeRows(rows, now, left))
  {
    assert rows[0..] == rows;
  }

  lemma HalfwayStep(rows: Chain, i: nat, now: int, left: int, goal: Chain)
    requires i < |rows| && left != 0 && Halfway(rows, i, now, left, goal)
    ensures if rows[i].live && Gone(rows[i].entry, now)
            then Halfway(rows[i := rows[i].(live := false)], i + 1, now, if left > 0 then left - 1 else left, goal)
            else Halfway(rows, i + 1, now, left, goal)
  {
    hide PurgeRows, Gone;
    PurgeStep(rows, i, now, left);
    var r := if rows[i].live && Gone(rows[i].entry, now) then rows[i].(live := false) else rows[i];
    assert rows[i := r][..i + 1] == rows[..i] + [r];
    assert rows[i := r][i + 1..] == rows[i + 1..];
    assert rows[i := rows[i]] == rows;
  }

  lemma HalfwayDone(rows: Chain, i: nat, now: int, left: int, goal: Chain)
    requires Halfway(rows, i, now, left, goal) && (left == 0 || i == |rows|)
    ensures rows == goal
  {
    assert rows[..i] + rows[i..] == rows;
  }
}

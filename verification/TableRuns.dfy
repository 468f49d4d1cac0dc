/** Runs of the by-key calls against the finite map they stand for. */
module TableRuns {
  import opened Basics
  import opened SharedTable

  datatype Op =
    | Set(key: string, col: nat, value: int)
    | Get(key: string, col: nat)
    | Add(key: string, col: nat, delta: int)
    | SetText(key: string, col: nat, size: nat, content: string)
    | GetText(key: string, col: nat, size: nat)
    | ExpireAt(key: string, at: int)
    | ExpireIn(key: string, ttl: int, clock: int)
    | ExpiresAt(key: string)
    | Delete(key: string)
    | Exists(key: string)
    | Count
    | Purge
    | Clear

  /**
   * One call: the map before it, after its sweep, and after it; `room` tells whether a row could be had, or for
   * GetText whether memory for the copy could.
   */
  datatype Step = Step(op: Op, now: int, room: bool, before: map<string, Entry>, mid: map<string, Entry>,
                       after: map<string, Entry>, result: int, text: string)

  predicate OpOk(op: Op, width: nat) {
    && (op.Set? || op.Get? || op.Add? || op.SetText? || op.GetText? ==> op.col < width)
    && (op.GetText? ==> op.size > 0) && (op.ExpireIn? ==> op.clock >= 0)
  }

  /** What a call on a finite map does, once the sweep before it has taken expired bindings away. */
  predicate MapStep(s: Step, width: nat)
  {
    && OpOk(s.op, width) && Fades(s.before, s.mid, s.now)
    && match s.op
       case Set(key, col, value) =>
         var e := Base(s.mid, key, width);
         && s.after == (if s.room then s.mid[key := e.(data := SetAt(e.data, col, value))] else s.mid)
         && s.result == Bit(s.room)
       case Get(key, col) =>
         && s.after == s.mid
         && (key in s.mid ==> WidthOk(s.mid[key], width) && s.result == s.mid[key].data[col])
         && (key !in s.mid ==> s.result == 0)
       case Add(key, col, delta) =>
         if s.room then
           var e := Base(s.mid, key, width);
           && WidthOk(e, width) && s.result == Wrap64(e.data[col] + delta)
           && s.after == s.mid[key := e.(data := SetAt(e.data, col, s.result))]
         else s.after == s.mid && s.result == 0
       case SetText(key, col, size, value) =>
         var e, ok := Base(s.mid, key, width), s.room && |value| < size;
         && s.after == (if ok then s.mid[key := e.(texts := TextAt(e.texts, col, value))] else s.mid)
         && s.result == Bit(ok)
       case GetText(key, col, size) =>
         && s.after == s.mid
         && (key in s.mid && s.room ==> WidthOk(s.mid[key], width) && s.text == Cut(s.mid[key].texts[col], size - 1))
         && (key !in s.mid || !s.room ==> s.text == "")
       case ExpireIn(key, ttl, clock) =>
         var ok := 0 <= ttl <= MAX_LONG - clock && key in s.mid;
         && s.after == (if ok then s.mid[key := s.mid[key].(expiry := clock + ttl)] else s.mid)
         && s.result == Bit(ok)
       case ExpiresAt(key) => s.after == s.mid && s.result == if key in s.mid then s.mid[key].expiry else -1
       case ExpireAt(key, at) =>
         s.after == (if at >= 0 && key in s.mid then s.mid[key := s.mid[key].(expiry := at)] else s.mid)
         && s.result == Bit(at >= 0 && key in s.mid)
       case Delete(key) => s.after == s.mid - {key} && s.result == Bit(key in s.mid)
       case Exists(key) => s.after == s.mid && s.result == Bit(key in s.mid)
       case Count => s.after == s.mid && s.result == |s.mid|
       case Purge => s.after == s.mid == Unexpired(s.before, s.now) && s.result == |s.before| - |s.mid|
       case Clear => s.after == map[]
  }

  predicate OnColumn(op: Op) {
    op.Set? || op.Get? || op.Add? || op.SetText? || op.GetText?
  }

  predicate OnExpiry(op: Op) {
    op.ExpireAt? || op.ExpireIn? || op.ExpiresAt?
  }

  /** What the parts of the dispatch promise. */
  twostate predicate Done(t: Table, op: Op, now: int, memory: bool, r: int, text: string, s: Step)
    reads t
  {
    && MapStep(s, t.width) && s.op == op && s.now == now && s.result == r && s.text == text
    && s.before == old(View(t.rows)) && s.after == View(t.rows)
    && (op.Set? || op.Add? || op.SetText? ==> (s.room <==> t.Roomy(s.mid, op.key, memory)))
  }

  /** Every call is the map's own step; the table is full or the row cannot be had exactly when it says so. */
  method Do(t: Table, throttle: Throttle, op: Op, now: int, memory: bool)
    returns (r: int, text: string, ghost s: Step)
    requires t.Valid() && OpOk(op, t.width)
    modifies t, throttle
    ensures t.Valid() && MapStep(s, t.width)
    ensures s.op == op && s.now == now && s.result == r && s.text == text
    ensures s.before == old(View(t.rows)) && s.after == View(t.rows)
    ensures op.Set? || op.Add? || op.SetText? ==> (s.room <==> t.Roomy(s.mid, op.key, memory))
  {
    hide View, MapStep;
    if OnColumn(op) {
      r, text, s := DoColumn(t, throttle, op, now, memory);
    } else if OnExpiry(op) {
      r, s := DoExpiry(t, throttle, op, now);
      text := "";
    } else {
      r, s := DoRow(t, throttle, op, now);
      text := "";
    }
  }

  method DoColumn(t: Table, throttle: Throttle, op: Op, now: int, memory: bool)
    returns (r: int, text: string, ghost s: Step)
    requires t.Valid() && OpOk(op, t.width) && OnColumn(op)
    modifies t, throttle
    ensures t.Valid() && Done(t, op, now, memory, r, text, s)
  {
    hide View, Distinct, LiveCount, PurgeRows, Swept, Fresh, SetAt, TextAt, Wrap64, Base;
    ghost var m := View(t.rows);
    ghost var mid := View(Swept(t.rows, now, throttle.last));
    SweptFades(t.rows, now, throttle.last);
    r, text := 0, "";
    match op {
      case Set(key, col, value) =>
        var ok := t.SetColumn(throttle, now, key, col, value, memory);
        r := Bit(ok);
        s := Step(op, now, ok, m, mid, View(t.rows), r, text);
      case Get(key, col) =>
        r := t.GetColumn(throttle, now, key, col);
        s := Step(op, now, true, m, mid, View(t.rows), r, text);
      case Add(key, col, delta) =>
        r := t.Increment(throttle, now, key, col, delta, memory);
        s := Step(op, now, t.Roomy(mid, key, memory), m, mid, View(t.rows), r, text);
      case SetText(key, col, size, value) =>
        var ok := t.SetText(throttle, now, key, col, size, value, memory);
        r := Bit(ok);
        s := Step(op, now, t.Roomy(mid, key, memory), m, mid, View(t.rows), r, text);
      case GetText(key, col, size) =>
        text := t.GetText(throttle, now, key, col, size, memory);
        s := Step(op, now, memory, m, mid, View(t.rows), r, text);
    }
  }

  method DoExpiry(t: Table, throttle: Throttle, op: Op, now: int) returns (r: int, ghost s: Step)
    requires t.Valid() && OpOk(op, t.width) && OnExpiry(op)
    modifies t, throttle
    ensures t.Valid() && Done(t, op, now, true, r, "", s)
  {
    hide View, Distinct, LiveCount, PurgeRows, Swept;
    ghost var m := View(t.rows);
    ghost var mid := View(Swept(t.rows, now, throttle.last));
    ghost var batch := View(PurgeRows(t.rows, now, 64));
    SweptFades(t.rows, now, throttle.last);
    PurgeFades(t.rows, now, 64);
    r := 0;
    match op {
      case ExpireIn(key, ttl, clock) =>
        var ok := t.ExpireIn(clock, now, key, ttl);
        r := Bit(ok);
        s := Step(op, now, true, m, if 0 <= ttl <= MAX_LONG - clock then batch else m, View(t.rows), r, "");
      case ExpiresAt(key) =>
        r := t.ExpiresAt(throttle, now, key);
        s := Step(op, now, true, m, mid, View(t.rows), r, "");
      case ExpireAt(key, at) =>
        var ok := t.ExpireAt(now, key, at);
        r := Bit(ok);
        s := Step(op, now, true, m, if at < 0 then m else batch, View(t.rows), r, "");
    }
  }

  method DoRow(t: Table, throttle: Throttle, op: Op, now: int) returns (r: int, ghost s: Step)
    requires t.Valid() && OpOk(op, t.width) && !OnColumn(op) && !OnExpiry(op)
    modifies t, throttle
    ensures t.Valid() && Done(t, op, now, true, r, "", s)
  {
    hide View, Distinct, LiveCount, PurgeRows, Swept;
    ghost var m := View(t.rows);
    ghost var mid := View(Swept(t.rows, now, throttle.last));
    ghost var batch := View(PurgeRows(t.rows, now, 64));
    SweptFades(t.rows, now, throttle.last);
    PurgeFades(t.rows, now, 64);
    r := 0;
    match op {
      case Delete(key) =>
        var ok := t.Delete(now, key);
        r := Bit(ok);
        s := Step(op, now, true, m, batch, View(t.rows), r, "");
      case Exists(key) =>
        t.PurgeThrottled(throttle, now);
        var i := t.FindRow(key);
        r := Bit(i < |t.rows|);
        s := Step(op, now, true, m, mid, View(t.rows), r, "");
      case Count =>
        t.PurgeThrottled(throttle, now);
        t.CountKeys();
        r := t.count;
        s := Step(op, now, true, m, mid, View(t.rows), r, "");
      case Purge =>
        r := t.PurgeExpired(now);
        s := Step(op, now, true, m, View(t.rows), View(t.rows), r, "");
      case Clear =>
        t.Clear();
        s := Step(op, now, true, m, m, View(t.rows), 0, "");
    }
  }

  // ---- Runs ----

  predicate Linked(steps: seq<Step>, width: nat) {
    && (forall i :: 0 <= i < |steps| ==> MapStep(steps[i], width))
    && (forall i, j :: 0 <= i < |steps| && j == i + 1 && j < |steps| ==> steps[j].before == steps[i].after)
  }

  /** Whether a call may change the binding of a key. */
  predicate Touches(op: Op, key: string) {
    || op.Clear?
    || ((op.Set? || op.Add? || op.SetText? || op.ExpireAt? || op.ExpireIn? || op.Delete?) && op.key == key)
  }

  predicate Creates(op: Op, key: string) {
    (op.Set? || op.Add? || op.SetText?) && op.key == key
  }

  /** A binding stays as it is through calls on other keys, for as long as it has not expired. */
  lemma {:induction false} Untouched(steps: seq<Step>, width: nat, key: string, e: Entry)
    requires Linked(steps, width) && |steps| > 0
    requires key in steps[0].before && steps[0].before[key] == e
    requires forall i :: 0 <= i < |steps| ==> !Touches(steps[i].op, key) && !Gone(e, steps[i].now)
    ensures var m := steps[|steps| - 1].after; key in m && m[key] == e
    decreases |steps|
  {
    var n := |steps| - 1;
    if n > 0 {
      Untouched(steps[..n], width, key, e);
      assert steps[n].before == steps[n - 1].after;
    }
    QuietStep(steps[n], width, key, e);
  }

  lemma QuietStep(s: Step, width: nat, key: string, e: Entry)
    requires MapStep(s, width) && key in s.before && s.before[key] == e && !Touches(s.op, key) && !Gone(e, s.now)
    ensures key in s.after && s.after[key] == e
  {
  }

  /** A key that is gone stays gone until a call writes it: no reused row brings it back. */
  lemma {:induction false} StaysGone(steps: seq<Step>, width: nat, key: string)
    requires Linked(steps, width) && |steps| > 0 && key !in steps[0].before
    requires forall i :: 0 <= i < |steps| ==> !Creates(steps[i].op, key)
    ensures key !in steps[|steps| - 1].after
    decreases |steps|
  {
    var n := |steps| - 1;
    if n > 0 {
      StaysGone(steps[..n], width, key);
      assert steps[n].before == steps[n - 1].after;
    }
    AbsentStep(steps[n], width, key);
  }

  lemma AbsentStep(s: Step, width: nat, key: string)
    requires MapStep(s, width) && key !in s.before && !Creates(s.op, key)
    ensures key !in s.after
  {
  }

  /** The first write to an absent key shows what was written and zeros besides, whatever row it took over. */
  lemma FirstWrite(s: Step, width: nat)
    requires MapStep(s, width) && s.op.Set? && s.op.key !in s.before && s.result == 1
    ensures s.op.key in s.after && s.after[s.op.key].expiry == 0 && WidthOk(s.after[s.op.key], width)
    ensures forall c: nat :: c < width ==> s.after[s.op.key].data[c] == if c == s.op.col then s.op.value else 0
    ensures forall c: nat :: c < width ==> s.after[s.op.key].texts[c] == ""
  {
  }

  /** A write to a bound key changes the one column written: no other column, no expiry, no other key. */
  lemma WritesOneCell(s: Step, width: nat, c: nat)
    requires MapStep(s, width) && (s.op.Set? || s.op.Add? || s.op.SetText?) && s.room
    requires s.op.key in s.mid && WidthOk(s.mid[s.op.key], width) && c < width
    ensures var k, col := s.op.key, s.op.col;
            && k in s.after && WidthOk(s.after[k], width) && s.after[k].expiry == s.mid[k].expiry
            && s.after - {k} == s.mid - {k}
            && (s.op.Set? ==> s.after[k].data[c] == if c == col then s.op.value else s.mid[k].data[c])
            && (s.op.Add? ==> s.after[k].data[c] == if c == col then s.result else s.mid[k].data[c])
            && (s.op.SetText? ==> s.after[k].data[c] == s.mid[k].data[c])
            && (if s.op.SetText? && |s.op.content| < s.op.size && c == col then s.after[k].texts[c] == s.op.content
                else s.after[k].texts[c] == s.mid[k].texts[c])
            && (s.op.Add? && -MAX_LONG - 1 <= s.mid[k].data[col] + s.op.delta <= MAX_LONG ==>
                  s.result == s.mid[k].data[col] + s.op.delta)
  {
    hide Wrap64;
    assert s.after - {s.op.key} == s.mid - {s.op.key};
  }

  /** A text written is the text read, for as long as only other keys are called and it has not expired. */
  lemma TextReadsBack(put: Step, between: seq<Step>, get: Step, width: nat, key: string, col: nat, size: nat,
                      text: string)
    requires MapStep(put, width) && put.op == SetText(key, col, size, text) && put.result == 1
    requires MapStep(get, width) && get.op == GetText(key, col, size) && get.room
    requires Linked([put] + between + [get], width)
    requires forall i :: 0 <= i < |between| ==> !Touches(between[i].op, key) && !Gone(put.after[key], between[i].now)
    requires !Gone(put.after[key], get.now)
    ensures key in put.after && get.text == text
  {
    var all := [put] + between + [get];
    var e := put.after[key];
    if between == [] {
      assert all[1] == get && get.before == all[0].after;
    } else {
      assert all[1] == between[0] && between[0].before == all[0].after;
      assert all[|between|] == between[|between| - 1] && all[|between| + 1] == get;
      assert get.before == all[|between|].after;
      Between(all, between, width);
      Untouched(between, width, key, e);
    }
    assert key in get.mid && get.mid[key] == e;
  }

  lemma Between(all: seq<Step>, between: seq<Step>, width: nat)
    requires |all| == |between| + 2 && all[1..|all| - 1] == between && Linked(all, width)
    ensures Linked(between, width)
  {
    forall i | 0 <= i < |between| ensures between[i] == all[i + 1] {
      assert between[i] == all[1..|all| - 1][i];
    }
  }
}

/** Leases kept in the shared table: a key is held by an owner until it is released or expires. */
module Leases {
  import opened SharedTable

  datatype Call =
    | Acquire(key: string, owner: int, now: int, lease: int)
    | Release(key: string, owner: int, now: int)

  /** One call: the map before it, after its sweep, and after it. */
  datatype Step = Step(call: Call, before: map<string, Entry>, mid: map<string, Entry>,
                       after: map<string, Entry>, ok: bool)

  predicate OwnedBy(e: Entry, col: nat, owner: int) {
    col < |e.data| && e.data[col] == owner
  }

  /** A lease handed out at `now`. */
  predicate Granted(m: map<string, Entry>, key: string, owner: int, until: int, col: nat) {
    key in m && m[key].expiry == until && OwnedBy(m[key], col, owner)
  }

  predicate StepOk(s: Step, col: nat)
  {
    && Fades(s.before, s.mid, s.call.now)
    && match s.call
       case Acquire(key, owner, now, lease) =>
         if s.ok then
           && s.mid == Unexpired(s.before, now) && key !in s.mid && lease > 0
           && Granted(s.after, key, owner, now + lease, col)
           && s.after == s.mid[key := s.after[key]]
         else s.after == s.mid
       case Release(key, owner, now) =>
         && (s.ok ==> key in s.mid && OwnedBy(s.mid[key], col, owner))
         && s.after == if s.ok then s.mid - {key} else s.mid
  }

  /** Take the lease on a key; `now` below 0 means the wall clock. */
  method LockAcquire(t: Table, col: int, key: string, owner: int, when: int, lease: int, wall: int, memory: bool)
    returns (ok: bool, ghost step: Step)
    requires t.Valid() && col < t.width && wall >= 0
    modifies t
    ensures t.Valid()
    ensures var now := if when < 0 then wall else when;
            && step.call == Acquire(key, owner, now, lease)
            && step.before == old(View(t.rows)) && step.after == View(t.rows) && step.ok == ok
            && (col >= 0 ==> StepOk(step, col))
            && (ok <==> owner != 0 && 0 < lease <= MAX_LONG - now && col >= 0
                        && key !in Unexpired(step.before, now)
                        && t.Roomy(Unexpired(step.before, now), key, memory))
            && (ok <==> owner != 0 && 0 < lease <= MAX_LONG - now && col >= 0
                        && (key in step.before ==> step.before[key].expiry != 0 && step.before[key].expiry <= now)
                        && t.Roomy(Unexpired(step.before, now), key, memory))
            && (col < 0 ==> step.after == step.before)
    ensures ok ==> key in View(t.rows) && |View(t.rows)[key].data| == t.width
                   && View(t.rows)[key].expiry == (if when < 0 then wall else when) + lease
                   && View(t.rows)[key].data[col] == owner
  {
    hide View, Distinct, LiveCount, PurgeRows, Fresh;
    var now := if when < 0 then wall else when;
    ghost var m := View(t.rows);
    ok := false;
    ghost var mid := m;
    if owner != 0 && lease > 0 && lease <= MAX_LONG - now && col >= 0 {
      PurgeAllView(t.rows, now);
      t.PurgeBatch(now, 0);
      mid := View(t.rows);
      var r := t.FindRow(key);
      if r == |t.rows| {
        t.CountKeys();
        var q := t.RowFor(key, memory);
        if q >= 0 {
          var e := t.rows[q].entry.(expiry := now + lease, data := SetAt(t.rows[q].entry.data, col, owner));
          t.SetEntry(q, e);
          ok := true;
        }
      }
    }
    step := Step(Acquire(key, owner, now, lease), m, mid, View(t.rows), ok);
  }

  /** Give a lease back; only its owner can. */
  method LockRelease(t: Table, col: int, key: string, owner: int, wall: int) returns (ok: bool, ghost step: Step)
    requires t.Valid() && col < t.width && wall >= 0
    modifies t
    ensures t.Valid()
    ensures step.call == Release(key, owner, wall) && step.ok == ok
    ensures step.before == old(View(t.rows)) && step.after == View(t.rows)
    ensures col >= 0 ==> StepOk(step, col)
    ensures owner != 0 && col >= 0 ==> step.mid == View(PurgeRows(old(t.rows), wall, 64))
    ensures ok <==> owner != 0 && col >= 0 && key in step.mid && OwnedBy(step.mid[key], col, owner)
    ensures owner == 0 || col < 0 ==> step.after == step.before
    ensures ok ==> key in old(View(t.rows)) && key !in View(t.rows)
                   && |old(View(t.rows))[key].data| == t.width && old(View(t.rows))[key].data[col] == owner
  {
    hide View, Distinct, LiveCount, PurgeRows;
    if key in View(t.rows) { t.EntryWidth(key); }
    ghost var m := View(t.rows);
    ghost var mid := m;
    ok := false;
    if owner != 0 && col >= 0 {
      PurgeFades(t.rows, wall, 64);
      t.PurgeBatch(wall, 64);
      mid := View(t.rows);
      var r := t.FindRow(key);
      if r < |t.rows| && t.rows[r].entry.data[col] == owner {
        t.Tombstone(r);
        ok := true;
      }
    }
    step := Step(Release(key, owner, wall), m, mid, View(t.rows), ok);
  }

  // ---- Runs ----

  /** Calls one after the other, on rows nothing else touches, under a clock that does not go back. */
  ghost predicate Run(steps: seq<Step>, col: nat)
  {
    && (forall i :: 0 <= i < |steps| ==> StepOk(steps[i], col) && steps[i].call.now > 0)
    && (forall i, j :: 0 <= i < |steps| && j == i + 1 && j < |steps| ==> steps[j].before == steps[i].after)
    && (forall i, j :: 0 <= i < j < |steps| ==> steps[i].call.now <= steps[j].call.now)
  }

  predicate Takes(s: Step, key: string, owner: int) {
    s.call.Acquire? && s.call.key == key && s.call.owner == owner && s.ok
  }

  predicate GivesBack(s: Step, key: string, owner: int) {
    s.call.Release? && s.call.key == key && s.call.owner == owner && s.ok
  }

  /** One call leaves an unexpired lease alone, unless its owner gives it back. */
  lemma StepKeeps(s: Step, col: nat, key: string, owner: int, until: int)
    requires StepOk(s, col) && !GivesBack(s, key, owner) && until > 0
    requires Granted(s.before, key, owner, until, col)
    ensures Granted(s.after, key, owner, until, col) || until <= s.call.now
  {
  }

  lemma {:induction false} HeldUntil(steps: seq<Step>, col: nat, i: nat, p: nat, key: string, owner: int)
    requires Run(steps, col) && i < p < |steps| && Takes(steps[i], key, owner)
    requires forall x :: i < x < p ==> !GivesBack(steps[x], key, owner)
    ensures var until := steps[i].call.now + steps[i].call.lease;
            Granted(steps[p].before, key, owner, until, col) || until <= steps[p].call.now
    decreases p
  {
    var until := steps[i].call.now + steps[i].call.lease;
    if p > i + 1 {
      HeldUntil(steps, col, i, p - 1, key, owner);
      if Granted(steps[p - 1].before, key, owner, until, col) {
        StepKeeps(steps[p - 1], col, key, owner, until);
      }
    }
    assert steps[p].before == steps[p - 1].after;
  }

  /**
   * Whoever takes a key after a first taker, with the first taker not having given it back in
   * between, does so at or after the end of the first lease.
   */
  lemma LeaseExcludes(steps: seq<Step>, col: nat, i: nat, j: nat, key: string, first: int, second: int)
    requires Run(steps, col) && i < j < |steps|
    requires Takes(steps[i], key, first) && Takes(steps[j], key, second)
    requires forall x :: i < x < j ==> !GivesBack(steps[x], key, first)
    ensures steps[j].call.now >= steps[i].call.now + steps[i].call.lease
  {
    HeldUntil(steps, col, i, j, key, first);
  }
}

/** The rate limiter kept in the shared table: a count and a window start per key. */
module RateLimit {
  import opened SharedTable

  /** A window of length W admits L calls; cc and sc are the count and the start column. */
  datatype Rule = Rule(window: int, limit: int, cc: nat, sc: nat, width: nat)

  predicate RuleOk(u: Rule) {
    u.window > 0 && u.limit > 0 && u.cc < u.width && u.sc < u.width && u.cc != u.sc
  }

  /** One call; `row` tells whether it got a row to count in. */
  datatype Step = Step(key: string, now: int, before: map<string, Entry>, mid: map<string, Entry>,
                       after: map<string, Entry>, row: bool, ok: bool)

  predicate Opens(u: Rule, e: Entry, now: int)
    requires RuleOk(u) && WidthOk(e, u.width)
  {
    e.data[u.sc] <= 0 || now - e.data[u.sc] >= u.window
  }

  function Counted(u: Rule, e: Entry, now: int): (e': Entry)
    requires RuleOk(u) && WidthOk(e, u.width)
    ensures WidthOk(e', u.width)
  {
    if Opens(u, e, now) then e.(expiry := now + u.window, data := e.data[u.cc := 1][u.sc := now])
    else if e.data[u.cc] < u.limit then e.(data := e.data[u.cc := e.data[u.cc] + 1])
    else e
  }

  predicate StepOk(u: Rule, s: Step)
    requires RuleOk(u)
  {
    && Fades(s.before, s.mid, s.now)
    && (s.key in s.mid ==> WidthOk(s.mid[s.key], u.width))
    && if s.row then
         var e := Base(s.mid, s.key, u.width);
         && s.after == s.mid[s.key := Counted(u, e, s.now)]
         && (s.ok <==> Opens(u, e, s.now) || e.data[u.cc] < u.limit)
       else !s.ok && s.after == s.mid
  }

  /** Whether a call under `key` may pass now; a limit of 0 or less admits everything. */
  method RateAllow(t: Table, countCol: int, startCol: int, key: string, when: int, wall: int,
                   window: int, limit: int, memory: bool)
    returns (allowed: bool, ghost step: Step)
    requires t.Valid() && countCol < t.width && startCol < t.width && wall >= 0
    requires countCol >= 0 && startCol >= 0 ==> countCol != startCol
    modifies t
    ensures t.Valid()
    ensures limit <= 0 || window <= 0 || countCol < 0 || startCol < 0 ==> allowed == (limit <= 0)
    ensures limit <= 0 || window <= 0 || countCol < 0 || startCol < 0 ==> t.rows == old(t.rows)
    ensures limit > 0 && window > 0 && countCol >= 0 && startCol >= 0 ==>
              var u := Rule(window, limit, countCol, startCol, t.width);
              var now := if when < 0 then wall else when;
              && RuleOk(u) && StepOk(u, step) && step.key == key && step.now == now && step.ok == allowed
              && step.before == old(View(t.rows)) && step.after == View(t.rows)
              && (step.row <==> window <= MAX_LONG - now && (key in step.mid || t.Roomy(step.mid, key, memory)))
  {
    hide View, Distinct, LiveCount, PurgeRows, Fresh;
    var now := if when < 0 then wall else when;
    ghost var m := View(t.rows);
    step := Step(key, now, m, m, m, false, false);
    if limit <= 0 {
      return true, step;
    }
    if window <= 0 || countCol < 0 || startCol < 0 {
      return false, step;
    }
    if key in m { t.EntryWidth(key); }
    if window > MAX_LONG - now {
      return false, step;
    }
    allowed := false;
    PurgeFades(t.rows, now, 64);
    t.PurgeBatch(now, 64);
    ghost var mid := View(t.rows);
    t.CountKeys();
    var f := t.FindRow(key);
    var r: int := f;
    if f == |t.rows| {
      r := t.RowFor(key, memory);
    }
    if r >= 0 {
      var e := t.rows[r].entry;
      if e.data[startCol] <= 0 || now - e.data[startCol] >= window {
        t.SetEntry(r, e.(expiry := now + window, data := e.data[countCol := 1][startCol := now]));
        allowed := true;
      } else if e.data[countCol] < limit {
        t.SetEntry(r, e.(data := e.data[countCol := e.data[countCol] + 1]));
        allowed := true;
      }
    }
    step := Step(key, now, m, mid, View(t.rows), r >= 0, allowed);
  }

  // ---- Runs under one rule ----

  /** Calls one after the other, on rows nothing else touches, under a clock that does not go back. */
  ghost predicate Run(u: Rule, steps: seq<Step>)
    requires RuleOk(u)
  {
    && (forall i :: 0 <= i < |steps| ==> StepOk(u, steps[i]) && steps[i].now > 0)
    && (forall i, j :: 0 <= i < |steps| && j == i + 1 && j < |steps| ==> steps[j].before == steps[i].after)
    && (forall i, j :: 0 <= i < j < |steps| ==> steps[i].now <= steps[j].now)
  }

  /** Calls for `key` admitted at times a <= time < a + W. */
  function Admitted(u: Rule, steps: seq<Step>, key: string, a: int): (n: nat)
  {
    if steps == [] then 0
    else
      var s := steps[|steps| - 1];
      Admitted(u, steps[..|steps| - 1], key, a) + (if s.key == key && s.ok && a <= s.now < a + u.window then 1 else 0)
  }

  /** The window a key was last admitted in, and how many it admitted. */
  datatype Window = Never | Since(start: int, count: int)

  function LastWindow(u: Rule, steps: seq<Step>, key: string): Window
  {
    if steps == [] then Never
    else
      var s := steps[|steps| - 1];
      Next(u, LastWindow(u, steps[..|steps| - 1], key), s.key == key && s.ok, s.now)
  }

  function Next(u: Rule, w: Window, admitted: bool, now: int): Window {
    if !admitted then w
    else if w.Never? || now - w.start >= u.window then Since(now, 1)
    else Since(w.start, w.count + 1)
  }

  /** The row of a key holds its last window; it may be missing only once that window is over. */
  predicate Tracks(u: Rule, m: map<string, Entry>, key: string, w: Window, clock: int) {
    match w
    case Never => key !in m
    case Since(start, count) =>
      && 0 < start <= clock && 1 <= count <= u.limit
      && if key in m then
           && RuleOk(u) && WidthOk(m[key], u.width) && m[key].expiry == start + u.window
           && m[key].data[u.sc] == start && m[key].data[u.cc] == count
         else start + u.window <= clock
  }

  lemma StepTracks(u: Rule, s: Step, key: string, w: Window, clock: int)
    requires RuleOk(u) && StepOk(u, s) && Tracks(u, s.before, key, w, clock) && clock <= s.now && s.now > 0
    ensures Tracks(u, s.after, key, Next(u, w, s.key == key && s.ok, s.now), s.now)
  {
    assert Tracks(u, s.mid, key, w, s.now);
  }

  /** The bound, window by window. */
  predicate Within(u: Rule, n: nat, w: Window, a: int, clock: int) {
    && (clock < a ==> n == 0)
    && match w
       case Never => n == 0
       case Since(start, count) =>
         if start < a then n <= count - 1
         else if start < a + u.window then n <= u.limit - 1 + count
         else n <= 2 * u.limit - 1
  }

  lemma StepWithin(u: Rule, n: nat, w: Window, a: int, clock: int, admitted: bool, now: int)
    requires RuleOk(u) && Within(u, n, w, a, clock) && clock <= now
    requires w.Since? ==> w.start <= clock && 1 <= w.count <= u.limit
    requires Next(u, w, admitted, now).Since? ==> Next(u, w, admitted, now).count <= u.limit
    ensures Within(u, n + (if admitted && a <= now < a + u.window then 1 else 0), Next(u, w, admitted, now), a, now)
  {
  }

  lemma {:induction false} RunTracks(u: Rule, steps: seq<Step>, key: string, a: int)
    requires RuleOk(u) && Run(u, steps) && |steps| > 0 && key !in steps[0].before
    ensures var s := steps[|steps| - 1];
            && Tracks(u, s.after, key, LastWindow(u, steps, key), s.now)
            && Within(u, Admitted(u, steps, key, a), LastWindow(u, steps, key), a, s.now)
  {
    var n := |steps| - 1;
    var s, before := steps[n], steps[..n];
    var clock := if n == 0 then 0 else steps[n - 1].now;
    var w := LastWindow(u, before, key);
    if n > 0 {
      RunTracks(u, before, key, a);
      assert s.before == steps[n - 1].after;
    }
    StepTracks(u, s, key, w, clock);
    StepWithin(u, Admitted(u, before, key, a), w, a, clock, s.key == key && s.ok, s.now);
  }

  /** The row a call leaves: a window opened now with one call in it, one call more, or as it was. */
  lemma RowAfter(u: Rule, s: Step)
    requires RuleOk(u) && StepOk(u, s) && s.row && s.now > 0
    ensures s.key in s.after && WidthOk(s.after[s.key], u.width) && s.after - {s.key} == s.mid - {s.key}
    ensures var e := s.after[s.key];
            if s.key !in s.mid || s.mid[s.key].data[u.sc] <= 0 || s.now - s.mid[s.key].data[u.sc] >= u.window then
              s.ok && e.expiry == s.now + u.window && e.data[u.sc] == s.now && e.data[u.cc] == 1
            else
              var was := s.mid[s.key];
              && (s.ok <==> was.data[u.cc] < u.limit)
              && e.expiry == was.expiry && e.data[u.sc] == was.data[u.sc]
              && e.data[u.cc] == was.data[u.cc] + if s.ok then 1 else 0
  {
    assert s.after - {s.key} == s.mid - {s.key};
  }

  /** Over every run: a call with a row passes exactly when no window is open or the open one has room. */
  lemma PassesWhen(u: Rule, steps: seq<Step>, key: string)
    requires RuleOk(u) && Run(u, steps) && |steps| > 0 && key !in steps[0].before
    requires steps[|steps| - 1].key == key
    ensures var s := steps[|steps| - 1];
            && (s.ok ==> s.row)
            && (s.row ==> (s.ok <==>
                  match LastWindow(u, steps[..|steps| - 1], key)
                  case Never => true
                  case Since(start, count) => s.now >= start + u.window || count < u.limit))
  {
    var n := |steps| - 1;
    var s, before := steps[n], steps[..n];
    var w := LastWindow(u, before, key);
    var clock := if n == 0 then 0 else steps[n - 1].now;
    if n > 0 {
      RunTracks(u, before, key, 0);
      assert s.before == steps[n - 1].after;
    }
    assert Tracks(u, s.before, key, w, clock);
    assert Tracks(u, s.mid, key, w, s.now);
  }

  /**
   * However the calls fall, a half-open interval of one window's length admits fewer than twice
   * the limit, for a key that had no row when the run began.
   */
  lemma FewerThanTwice(u: Rule, steps: seq<Step>, key: string, a: int)
    requires RuleOk(u) && Run(u, steps)
    requires |steps| > 0 ==> key !in steps[0].before
    ensures Admitted(u, steps, key, a) <= 2 * u.limit - 1
  {
    if |steps| > 0 {
      RunTracks(u, steps, key, a);
    }
  }

  // ---- the bound is reached ----

  /** One call at time 1, the rest of that window's at its last moment, and a full window right after it. */
  function BurstTime(u: Rule, i: nat): int {
    if i == 0 then 1 else if i < u.limit then u.window else 1 + u.window
  }

  function BurstEntry(u: Rule, i: nat): (e: Entry)
    requires RuleOk(u)
    ensures WidthOk(e, u.width)
  {
    var start := if i < u.limit then 1 else 1 + u.window;
    var count := if i < u.limit then i + 1 else i - u.limit + 1;
    Fresh(u.width).(expiry := start + u.window, data := Fresh(u.width).data[u.cc := count][u.sc := start])
  }

  function BurstMap(u: Rule, key: string, n: nat): map<string, Entry>
    requires RuleOk(u)
  {
    if n == 0 then map[] else map[key := BurstEntry(u, n - 1)]
  }

  function BurstStep(u: Rule, key: string, i: nat): Step
    requires RuleOk(u)
  {
    Step(key, BurstTime(u, i), BurstMap(u, key, i), BurstMap(u, key, i), BurstMap(u, key, i + 1), true, true)
  }

  lemma BurstStepOk(u: Rule, key: string, i: nat)
    requires RuleOk(u) && u.window > 1 && i < 2 * u.limit
    ensures StepOk(u, BurstStep(u, key, i))
  {
    var e, t := Base(BurstMap(u, key, i), key, u.width), BurstTime(u, i);
    var e' := BurstEntry(u, i);
    assert Counted(u, e, t).data == e'.data;
    assert BurstMap(u, key, i + 1) == BurstMap(u, key, i)[key := e'];
  }

  function Burst(u: Rule, key: string, n: nat): (steps: seq<Step>)
    requires RuleOk(u)
    ensures |steps| == n && forall i: nat :: i < n ==> steps[i] == BurstStep(u, key, i)
  {
    if n == 0 then [] else Burst(u, key, n - 1) + [BurstStep(u, key, n - 1)]
  }

  lemma {:induction false} BurstCount(u: Rule, key: string, n: nat)
    requires RuleOk(u) && u.window > 1 && n <= 2 * u.limit
    ensures Admitted(u, Burst(u, key, n), key, 2) == if n == 0 then 0 else n - 1
  {
    if n > 0 {
      BurstCount(u, key, n - 1);
      assert Burst(u, key, n)[..n - 1] == Burst(u, key, n - 1);
    }
  }

  /** For every limit, and every window longer than one tick, some run admits 2L - 1 calls in such an interval. */
  lemma BoundReached(u: Rule, key: string)
    requires RuleOk(u) && u.window > 1
    ensures var steps := Burst(u, key, 2 * u.limit);
            Run(u, steps) && steps[0].before == map[] && Admitted(u, steps, key, 2) == 2 * u.limit - 1
  {
    hide Admitted, StepOk, BurstMap;
    var steps := Burst(u, key, 2 * u.limit);
    BurstCount(u, key, 2 * u.limit);
    forall i: nat | i < |steps| ensures StepOk(u, steps[i]) && steps[i].now > 0 {
      BurstStepOk(u, key, i);
    }
    assert BurstMap(u, key, 0) == map[] by { BurstNone(u, key); }
  }

  lemma BurstNone(u: Rule, key: string)
    requires RuleOk(u)
    ensures BurstMap(u, key, 0) == map[]
  {
  }
}

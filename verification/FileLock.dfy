/**
 * The generation-tagged file-lock table: reservation, open, flock and registration are separate steps of
 * file_try_lock, and any other call may run its critical section in between.
 */
module FileLock {

  const SLOTS := 32
  const WORD := 0x1_0000_0000
  const HALF := 0x8000_0000

  /** A file_try_lock call in flight. */
  datatype Call =
    | Reserved(slot: nat)              // uv[slot] = 1, nothing opened yet
    | Opened(slot: nat, fd: int)
    | Flocked(slot: nat, fd: int)      // about to register
    | Failed(slot: nat)                // open or flock failed, the slot still to be freed
    | Returned(h: int)

  datatype Grant = Grant(slot: nat, gen: nat, fd: int)
  datatype Release = Release(h: int, fd: int)

  datatype State = State(
    used: seq<int>, gen: seq<nat>, fd: seq<int>,   // lk_used_tbl, lk_gen_tbl, lk_fd_tbl
    calls: seq<Call>,
    grants: seq<Grant>,                            // handles given out, oldest first
    releases: seq<Release>)                        // successful unlocks: the handle and the descriptor closed

  datatype Action =
    | Reserve
    | OpenOk(k: nat, f: int) | OpenFail(k: nat) | FlockOk(k: nat) | FlockFail(k: nat) | Free(k: nat) | Register(k: nat)
    | Unlock(h: int)

  predicate WellFormed(s: State) {
    |s.used| == SLOTS && |s.gen| == SLOTS && |s.fd| == SLOTS
  }

  /** The value returned: generation and slot in a signed 64-bit word. */
  function Handle(gen: nat, slot: nat): int {
    var h := gen * WORD + slot;
    if h >= HALF * WORD then h - WORD * WORD else h
  }

  /** The first free slot, SLOTS if there is none. */
  function FirstFree(used: seq<int>, i: nat): (r: nat)
    requires i <= |used|
    ensures i <= r <= |used| && (r < |used| ==> used[r] == 0) && forall k :: i <= k < r ==> used[k] != 0
    decreases |used| - i
  {
    if i == |used| || used[i] == 0 then i else FirstFree(used, i + 1)
  }

  /** The slot an unlock of h would act on, if it passes every test. */
  predicate UnlockHits(s: State, h: int)
    requires WellFormed(s)
  {
    && h > 0 && h % WORD < SLOTS
    && s.used[h % WORD] != 0 && s.gen[h % WORD] == h / WORD
  }

  predicate SlotOk(c: Call) {
    !c.Returned? ==> c.slot < SLOTS
  }

  predicate Enabled(s: State, a: Action)
    requires WellFormed(s)
  {
    match a
    case Reserve => true
    case OpenOk(k, f) => k < |s.calls| && s.calls[k].Reserved? && f >= 0 && SlotOk(s.calls[k])
    case OpenFail(k) => k < |s.calls| && s.calls[k].Reserved? && SlotOk(s.calls[k])
    case FlockOk(k) => k < |s.calls| && s.calls[k].Opened? && SlotOk(s.calls[k])
    case FlockFail(k) => k < |s.calls| && s.calls[k].Opened? && SlotOk(s.calls[k])
    case Free(k) => k < |s.calls| && s.calls[k].Failed? && SlotOk(s.calls[k])
    case Register(k) => k < |s.calls| && s.calls[k].Flocked? && SlotOk(s.calls[k])
    case Unlock(h) => -HALF * WORD <= h < HALF * WORD      // a long
  }

  function Apply(s: State, a: Action): (t: State)
    requires WellFormed(s) && Enabled(s, a)
    ensures WellFormed(t)
  {
    match a
    case Reserve =>
      var i := FirstFree(s.used, 0);
      if i == SLOTS then s.(calls := s.calls + [Returned(0)])
      else s.(used := s.used[i := 1], calls := s.calls + [Reserved(i)])
    case OpenOk(k, f) => s.(calls := s.calls[k := Opened(s.calls[k].slot, f)])
    case OpenFail(k) => s.(calls := s.calls[k := Failed(s.calls[k].slot)])
    case FlockOk(k) => s.(calls := s.calls[k := Flocked(s.calls[k].slot, s.calls[k].fd)])
    case FlockFail(k) => s.(calls := s.calls[k := Failed(s.calls[k].slot)])
    case Free(k) => s.(used := s.used[s.calls[k].slot := 0], calls := s.calls[k := Returned(0)])
    case Register(k) =>
      var i, f := s.calls[k].slot, s.calls[k].fd;
      var next := s.gen[i] + 1;
      if next == WORD then
        s.(used := s.used[i := 2], calls := s.calls[k := Returned(0)])
      else
        s.(gen := s.gen[i := next], fd := s.fd[i := f], calls := s.calls[k := Returned(Handle(next, i))],
           grants := s.grants + [Grant(i, next, f)])
    case Unlock(h) =>
      if !UnlockHits(s, h) then s
      else
        var i := h % WORD;
        var ng := if s.gen[i] + 1 == WORD then 1 else s.gen[i] + 1;
        s.(used := s.used[i := 0], gen := s.gen[i := ng], fd := s.fd[i := -1],
           releases := s.releases + [Release(h, s.fd[i])])
  }

  function Constant<T>(n: nat, x: T): (r: seq<T>)
    ensures |r| == n
  {
    seq(n, _ => x)
  }

  const START := State(Constant(SLOTS, 0), Constant(SLOTS, 0), Constant(SLOTS, 0), [], [], [])

  // ---- handles ----

  lemma HandleInjective(g: nat, i: nat, g': nat, i': nat)
    requires g < WORD && g' < WORD && i < SLOTS && i' < SLOTS
    requires Handle(g, i) == Handle(g', i')
    ensures g == g' && i == i'
  {
  }

  /** Only generations below 2^31 make a positive handle, and unlock takes it apart again. */
  lemma HandleParts(g: nat, i: nat)
    requires g < WORD && i < SLOTS && g >= 1
    ensures Handle(g, i) > 0 <==> g < HALF
    ensures g < HALF ==> Handle(g, i) / WORD == g && Handle(g, i) % WORD == i
  {
  }

  // ---- what holds whatever callers pass to file_unlock ----

  predicate Inv(s: State) {
    && WellFormed(s)
    && (forall i :: 0 <= i < SLOTS ==> s.gen[i] < WORD)
    && (forall k :: 0 <= k < |s.calls| ==> SlotOk(s.calls[k]))
    && (forall n :: 0 <= n < |s.grants| ==> GrantOk(s, s.grants[n]))
    && (forall m, n :: 0 <= m < n < |s.grants| && s.grants[m].slot == s.grants[n].slot
          ==> s.grants[m].gen < s.grants[n].gen)
    && (forall m, n :: 0 <= m < |s.releases| && 0 <= n < |s.grants| ==> ReleaseOk(s, s.releases[m], s.grants[n]))
    && (forall m :: 0 <= m < |s.releases| ==> ReleaseGen(s, s.releases[m]))
    && (forall m, n :: 0 <= m < n < |s.releases| ==> s.releases[m].h != s.releases[n].h)
  }

  /** The slot still carries the grant, or has moved on to a later generation. */
  predicate GrantOk(s: State, g: Grant)
    requires WellFormed(s)
  {
    && g.slot < SLOTS && 1 <= g.gen <= s.gen[g.slot]
    && (s.gen[g.slot] == g.gen ==> s.fd[g.slot] == g.fd)
  }

  /** A released handle's generation is behind its slot's. */
  predicate ReleaseGen(s: State, r: Release)
    requires WellFormed(s)
  {
    r.h > 0 && r.h % WORD < SLOTS && r.h / WORD < s.gen[r.h % WORD]
  }

  predicate ReleaseOk(s: State, r: Release, g: Grant) {
    Handle(g.gen, g.slot) == r.h ==> g.fd == r.fd
  }

  lemma StartInv()
    ensures Inv(START)
  {
  }

  lemma StepInv(s: State, a: Action)
    requires Inv(s) && Enabled(s, a)
    ensures Inv(Apply(s, a))
  {
    if a.Unlock? {
      UnlockInv(s, a.h);
    } else if a.Register? {
      RegisterInv(s, a.k);
    }
  }

  lemma RegisterInv(s: State, k: nat)
    requires Inv(s) && Enabled(s, Register(k))
    ensures Inv(Apply(s, Register(k)))
  {
    var t := Apply(s, Register(k));
    if |t.grants| > |s.grants| {
      var g := t.grants[|s.grants|];
      forall m | 0 <= m < |t.releases| ensures ReleaseOk(t, t.releases[m], g) {
        // the new generation is past every released one of that slot
        assert ReleaseGen(s, s.releases[m]);
        HandleParts(g.gen, g.slot);
      }
    }
  }

  lemma UnlockInv(s: State, h: int)
    requires Inv(s) && Enabled(s, Unlock(h))
    ensures Inv(Apply(s, Unlock(h)))
  {
    var t := Apply(s, Unlock(h));
    if UnlockHits(s, h) {
      var r := t.releases[|s.releases|];
      forall n | 0 <= n < |t.grants| ensures ReleaseOk(t, r, t.grants[n]) {
        var g := t.grants[n];
        assert GrantOk(s, g);
        HandleParts(g.gen, g.slot);
      }
      forall m | 0 <= m < |s.releases| ensures s.releases[m].h != h {
        assert ReleaseGen(s, s.releases[m]);
      }
    }
  }

  predicate Run(ss: seq<State>, acts: seq<Action>) {
    && |ss| == |acts| + 1
    && forall i :: 0 <= i < |acts| ==>
         WellFormed(ss[i]) && Enabled(ss[i], acts[i]) && ss[i + 1] == Apply(ss[i], acts[i])
  }

  lemma {:induction false} RunInv(ss: seq<State>, acts: seq<Action>)
    requires Run(ss, acts) && ss[0] == START
    ensures Inv(ss[|acts|])
    decreases |acts|
  {
    if |acts| == 0 {
      StartInv();
    } else {
      var n := |acts| - 1;
      RunInv(ss[..n + 1], acts[..n]);
      StepInv(ss[n], acts[n]);
    }
  }

  /** In every run, whatever handles are passed to unlock: no value is issued twice, none is unlocked twice, and
      unlocking an issued handle closes the descriptor registered under it. */
  lemma HandlesAreSafe(ss: seq<State>, acts: seq<Action>)
    requires Run(ss, acts) && ss[0] == START
    ensures var s := ss[|acts|];
      && (forall m, n :: 0 <= m < n < |s.grants| ==>
            Handle(s.grants[m].gen, s.grants[m].slot) != Handle(s.grants[n].gen, s.grants[n].slot))
      && (forall m, n :: 0 <= m < n < |s.releases| ==> s.releases[m].h != s.releases[n].h)
      && (forall m, n :: 0 <= m < |s.releases| && 0 <= n < |s.grants| ==> ReleaseOk(s, s.releases[m], s.grants[n]))
  {
    RunInv(ss, acts);
    var s := ss[|acts|];
    forall m, n | 0 <= m < n < |s.grants|
      ensures Handle(s.grants[m].gen, s.grants[m].slot) != Handle(s.grants[n].gen, s.grants[n].slot)
    {
      var g, g' := s.grants[m], s.grants[n];
      assert GrantOk(s, g) && GrantOk(s, g');
      if Handle(g.gen, g.slot) == Handle(g'.gen, g'.slot) {
        HandleInjective(g.gen, g.slot, g'.gen, g'.slot);
      }
    }
  }

  // ---- what holds when callers only unlock what they were given ----

  predicate Issued(s: State, h: int) {
    exists n :: 0 <= n < |s.grants| && Handle(s.grants[n].gen, s.grants[n].slot) == h
  }

  predicate ReleasedHandle(s: State, h: int) {
    exists m :: 0 <= m < |s.releases| && s.releases[m].h == h
  }

  predicate Disciplined(s: State, a: Action) {
    a.Unlock? ==> Issued(s, a.h)
  }

  /** A call that holds its slot's reservation. */
  predicate Active(c: Call) {
    !c.Returned?
  }

  /** Odd generations are granted, even ones free or reserved by one call. */
  predicate Order(s: State)
    requires WellFormed(s)
  {
    && (forall k :: 0 <= k < |s.calls| && Active(s.calls[k]) ==> Reserving(s, s.calls[k]))
    && (forall k, m :: 0 <= k < m < |s.calls| && Active(s.calls[k]) && Active(s.calls[m]) ==>
          s.calls[k].slot != s.calls[m].slot)
    && (forall i :: 0 <= i < SLOTS ==> SlotOrder(s, i))
    && (forall n :: 0 <= n < |s.grants| ==> GrantOrder(s, s.grants[n]))
  }

  predicate Reserving(s: State, c: Call)
    requires WellFormed(s) && Active(c)
  {
    c.slot < SLOTS && s.used[c.slot] == 1 && s.gen[c.slot] % 2 == 0
  }

  predicate SlotOrder(s: State, i: nat)
    requires WellFormed(s) && i < SLOTS
  {
    && (s.used[i] == 0 || s.used[i] == 1)
    && (s.gen[i] % 2 == 1 ==> s.used[i] == 1)
    && s.gen[i] <= (if s.gen[i] % 2 == 1 then HALF + 1 else HALF)
  }

  /** A grant is odd, and its slot has moved on exactly when it was released. */
  predicate GrantOrder(s: State, g: Grant)
    requires WellFormed(s)
  {
    g.slot < SLOTS && g.gen % 2 == 1 && (s.gen[g.slot] > g.gen <==> ReleasedHandle(s, Handle(g.gen, g.slot)))
  }

  lemma OrderStep(s: State, a: Action)
    requires Inv(s) && Order(s) && Enabled(s, a) && Disciplined(s, a)
    ensures Order(Apply(s, a))
  {
    if a.Unlock? {
      UnlockOrder(s, a.h);
    } else if a.Register? {
      RegisterOrder(s, a.k);
    } else if a.Free? {
      FreeOrder(s, a.k);
    } else {
      QuietOrder(s, a);
    }
  }

  lemma QuietOrder(s: State, a: Action)
    requires Inv(s) && Order(s) && Enabled(s, a) && !a.Unlock? && !a.Register? && !a.Free?
    ensures Order(Apply(s, a))
  {
    var t := Apply(s, a);
    assert t.releases == s.releases && t.grants == s.grants && t.gen == s.gen;
    if a.Reserve? && FirstFree(s.used, 0) < SLOTS {
      assert SlotOrder(s, FirstFree(s.used, 0));
    }
    forall k | 0 <= k < |t.calls| && Active(t.calls[k]) ensures Reserving(t, t.calls[k]) {
      if k < |s.calls| {
        assert Active(s.calls[k]) && Reserving(s, s.calls[k]);
      }
    }
    forall n | 0 <= n < |t.grants| ensures GrantOrder(t, t.grants[n]) {
      assert GrantOrder(s, s.grants[n]);
    }
    forall i | 0 <= i < SLOTS ensures SlotOrder(t, i) {
      assert SlotOrder(s, i);
    }
  }

  lemma FreeOrder(s: State, k: nat)
    requires Inv(s) && Order(s) && Enabled(s, Free(k))
    ensures Order(Apply(s, Free(k)))
  {
    var t := Apply(s, Free(k));
    forall n | 0 <= n < |t.grants| ensures GrantOrder(t, t.grants[n]) {
      assert GrantOrder(s, s.grants[n]);
    }
    forall i | 0 <= i < SLOTS ensures SlotOrder(t, i) {
      assert SlotOrder(s, i);
    }
  }

  /** Registration never meets the retirement branch. */
  lemma RegisterOrder(s: State, k: nat)
    requires Inv(s) && Order(s) && Enabled(s, Register(k))
    ensures s.gen[s.calls[k].slot] + 1 < WORD
    ensures Order(Apply(s, Register(k)))
  {
    var c := s.calls[k];
    assert Reserving(s, c) && SlotOrder(s, c.slot);
    var t := Apply(s, Register(k));
    assert t.releases == s.releases;
    var g := t.grants[|s.grants|];
    if ReleasedHandle(t, Handle(g.gen, g.slot)) {
      var m :| 0 <= m < |t.releases| && t.releases[m].h == Handle(g.gen, g.slot);
      assert ReleaseGen(s, s.releases[m]);
      HandleParts(g.gen, g.slot);
      assert false;
    }
    forall n | 0 <= n < |s.grants| ensures GrantOrder(t, t.grants[n]) {
      assert GrantOrder(s, s.grants[n]) && GrantOk(s, s.grants[n]);
    }
    forall i | 0 <= i < SLOTS ensures SlotOrder(t, i) {
      assert SlotOrder(s, i);
    }
  }

  lemma UnlockOrder(s: State, h: int)
    requires Inv(s) && Order(s) && Enabled(s, Unlock(h)) && Issued(s, h)
    ensures Order(Apply(s, Unlock(h)))
  {
    var t := Apply(s, Unlock(h));
    UnlockApplied(s, h);
    hide Apply, Inv, FirstFree;
    if UnlockHits(s, h) {
      var n0 :| 0 <= n0 < |s.grants| && Handle(s.grants[n0].gen, s.grants[n0].slot) == h;
      var g := s.grants[n0];
      assert GrantOrder(s, g) && GrantOk(s, g);
      HandleParts(g.gen, g.slot);
      forall n | 0 <= n < |t.grants| ensures GrantOrder(t, t.grants[n]) {
        UnlockGrant(s, h, g, s.grants[n]);
      }
      forall i | 0 <= i < SLOTS ensures SlotOrder(t, i) {
        assert SlotOrder(s, i);
      }
    }
  }

  lemma UnlockApplied(s: State, h: int)
    requires WellFormed(s) && Enabled(s, Unlock(h))
    ensures var t := Apply(s, Unlock(h));
            if !UnlockHits(s, h) then t == s
            else
              var i := h % WORD;
              && t.used == s.used[i := 0] && t.calls == s.calls && t.grants == s.grants && |t.gen| == SLOTS
              && t.gen == s.gen[i := if s.gen[i] + 1 == WORD then 1 else s.gen[i] + 1]
  {
  }

  lemma UnlockGrant(s: State, h: int, g: Grant, g': Grant)
    requires Inv(s) && UnlockHits(s, h) && Enabled(s, Unlock(h))
    requires GrantOk(s, g) && GrantOk(s, g') && GrantOrder(s, g') && Handle(g.gen, g.slot) == h
    ensures GrantOrder(Apply(s, Unlock(h)), g')
  {
    var t := Apply(s, Unlock(h));
    var h' := Handle(g'.gen, g'.slot);
    HandleParts(g.gen, g.slot);
    HandleParts(g'.gen, g'.slot);
    assert t.releases[|s.releases|].h == h;
    assert ReleasedHandle(t, h') <==> ReleasedHandle(s, h') || h' == h by {
      if ReleasedHandle(s, h') {
        var m :| 0 <= m < |s.releases| && s.releases[m].h == h';
        assert t.releases[m].h == h';
      }
      if h' == h {
        assert t.releases[|s.releases|].h == h';
      }
    }
    if h' == h {
      HandleInjective(g.gen, g.slot, g'.gen, g'.slot);
    }
  }

  predicate DisciplinedRun(ss: seq<State>, acts: seq<Action>) {
    Run(ss, acts) && forall i :: 0 <= i < |acts| ==> Disciplined(ss[i], acts[i])
  }

  lemma {:induction false} OrderRun(ss: seq<State>, acts: seq<Action>)
    requires DisciplinedRun(ss, acts) && ss[0] == START
    ensures Inv(ss[|acts|]) && Order(ss[|acts|])
    decreases |acts|
  {
    RunInv(ss, acts);
    if |acts| > 0 {
      var n := |acts| - 1;
      OrderRun(ss[..n + 1], acts[..n]);
      OrderStep(ss[n], acts[n]);
    }
  }

  /** An issued handle can be unlocked exactly while it is unreleased and its generation is below 2^31:
      later generations come out negative, and file_unlock refuses them for ever. */
  lemma UnlockableWhen(ss: seq<State>, acts: seq<Action>, n: nat)
    requires DisciplinedRun(ss, acts) && ss[0] == START && n < |ss[|acts|].grants|
    ensures var s := ss[|acts|];
      var g := s.grants[n];
      WellFormed(s)
      && (UnlockHits(s, Handle(g.gen, g.slot)) <==> g.gen < HALF && !ReleasedHandle(s, Handle(g.gen, g.slot)))
  {
    OrderRun(ss, acts);
    var s := ss[|acts|];
    var g := s.grants[n];
    assert GrantOrder(s, g) && GrantOk(s, g) && SlotOrder(s, g.slot);
    HandleParts(g.gen, g.slot);
  }

  // ---- which slots are in use ----

  predicate HeldByCall(s: State, i: nat) {
    exists k :: 0 <= k < |s.calls| && Active(s.calls[k]) && s.calls[k].slot == i
  }

  /** The slot's present generation was given out. */
  predicate HeldByGrant(s: State, i: nat)
    requires WellFormed(s) && i < SLOTS
  {
    exists n :: 0 <= n < |s.grants| && s.grants[n].slot == i && s.grants[n].gen == s.gen[i]
  }

  predicate UsedAreHeld(s: State)
    requires WellFormed(s)
  {
    forall i: nat :: i < SLOTS && s.used[i] != 0 ==> HeldByCall(s, i) || HeldByGrant(s, i)
  }

  lemma HeldStep(s: State, a: Action)
    requires Inv(s) && Order(s) && Enabled(s, a) && Disciplined(s, a) && UsedAreHeld(s)
    ensures UsedAreHeld(Apply(s, a))
  {
    var t := Apply(s, a);
    if a.Register? {
      RegisterOrder(s, a.k);
    }
    forall i: nat | i < SLOTS && t.used[i] != 0 ensures HeldByCall(t, i) || HeldByGrant(t, i) {
      HeldSlot(s, a, i);
    }
  }

  lemma HeldSlot(s: State, a: Action, i: nat)
    requires Inv(s) && Order(s) && Enabled(s, a) && i < SLOTS && Apply(s, a).used[i] != 0
    requires s.used[i] != 0 ==> HeldByCall(s, i) || HeldByGrant(s, i)
    requires a.Register? ==> s.gen[s.calls[a.k].slot] + 1 < WORD
    ensures HeldByCall(Apply(s, a), i) || HeldByGrant(Apply(s, a), i)
  {
    var t := Apply(s, a);
    if s.used[i] == 0 {
      assert t.calls[|s.calls|] == Reserved(i);
    } else if HeldByCall(s, i) {
      var k :| 0 <= k < |s.calls| && Active(s.calls[k]) && s.calls[k].slot == i;
      if a.Register? && a.k == k {
        assert t.grants[|s.grants|].slot == i && t.grants[|s.grants|].gen == t.gen[i];
      } else if a.Free? && a.k == k {
        assert false;
      } else {
        assert Active(t.calls[k]) && t.calls[k].slot == i;
      }
    } else {
      GrantStays(s, a, i);
    }
  }

  /** A slot held by a grant and by no call keeps its generation while it stays in use. */
  lemma GrantStays(s: State, a: Action, i: nat)
    requires Inv(s) && Order(s) && Enabled(s, a) && i < SLOTS && s.used[i] != 0 && Apply(s, a).used[i] != 0
    requires HeldByGrant(s, i) && !HeldByCall(s, i)
    ensures HeldByGrant(Apply(s, a), i)
  {
    var t := Apply(s, a);
    var n :| 0 <= n < |s.grants| && s.grants[n].slot == i && s.grants[n].gen == s.gen[i];
    if a.Register? {
      assert s.calls[a.k].slot != i;
    }
    assert t.grants[n] == s.grants[n] && t.gen[i] == s.gen[i];
  }

  lemma {:induction false} HeldRun(ss: seq<State>, acts: seq<Action>)
    requires DisciplinedRun(ss, acts) && ss[0] == START
    ensures WellFormed(ss[|acts|]) && UsedAreHeld(ss[|acts|])
    decreases |acts|
  {
    OrderRun(ss, acts);
    if |acts| > 0 {
      var n := |acts| - 1;
      HeldRun(ss[..n + 1], acts[..n]);
      OrderRun(ss[..n + 1], acts[..n]);
      HeldStep(ss[n], acts[n]);
    }
  }

  /**
   * Over every disciplined run a slot is in use exactly while a call holds it or a handle of it is out: a failed
   * attempt gives its slot back, and so does an unlock.
   */
  lemma InUseWhen(ss: seq<State>, acts: seq<Action>, i: nat)
    requires DisciplinedRun(ss, acts) && ss[0] == START && i < SLOTS
    ensures var s := ss[|acts|];
      WellFormed(s)
      && (s.used[i] != 0 <==>
            || (exists k :: 0 <= k < |s.calls| && !s.calls[k].Returned? && s.calls[k].slot == i)
            || (exists n :: 0 <= n < |s.grants| && s.grants[n].slot == i
                            && !ReleasedHandle(s, Handle(s.grants[n].gen, s.grants[n].slot))))
  {
    OrderRun(ss, acts);
    HeldRun(ss, acts);
    var s := ss[|acts|];
    if s.used[i] != 0 && !HeldByCall(s, i) {
      var n :| 0 <= n < |s.grants| && s.grants[n].slot == i && s.grants[n].gen == s.gen[i];
      assert GrantOrder(s, s.grants[n]);
    }
    if n :| 0 <= n < |s.grants| && s.grants[n].slot == i
            && !ReleasedHandle(s, Handle(s.grants[n].gen, s.grants[n].slot)) {
      assert GrantOrder(s, s.grants[n]) && GrantOk(s, s.grants[n]) && SlotOrder(s, i);
    }
    if k :| 0 <= k < |s.calls| && !s.calls[k].Returned? && s.calls[k].slot == i {
      assert Active(s.calls[k]) && Reserving(s, s.calls[k]);
    }
  }

  /** An attempt finds no slot exactly when all 32 are so in use. */
  lemma {:induction false} FullWhen(used: seq<int>, i: nat)
    requires i <= |used|
    ensures FirstFree(used, i) == |used| <==> forall k :: i <= k < |used| ==> used[k] != 0
    decreases |used| - i
  {
    if i < |used| && used[i] != 0 {
      FullWhen(used, i + 1);
    }
  }

  // ---- which descriptor a handle stands for ----

  /** Call k opened descriptor f. */
  predicate OpenedBy(acts: seq<Action>, k: int, f: int) {
    exists i :: 0 <= i < |acts| && acts[i].OpenOk? && acts[i].k == k && acts[i].f == f
  }

  /** Calls under way hold what they opened; every handle was returned by the call that opened its descriptor. */
  ghost predicate OpensTrue(acts: seq<Action>, s: State) {
    && (forall k :: 0 <= k < |s.calls| && (s.calls[k].Opened? || s.calls[k].Flocked?) ==>
          OpenedBy(acts, k, s.calls[k].fd))
    && (forall n :: 0 <= n < |s.grants| ==> GrantedTo(acts, s, s.grants[n]))
  }

  ghost predicate GrantedTo(acts: seq<Action>, s: State, g: Grant) {
    exists k :: 0 <= k < |s.calls| && s.calls[k] == Returned(Handle(g.gen, g.slot)) && OpenedBy(acts, k, g.fd)
  }

  lemma OpensStep(acts: seq<Action>, s: State, a: Action)
    requires WellFormed(s) && Enabled(s, a) && OpensTrue(acts, s)
    ensures OpensTrue(acts + [a], Apply(s, a))
  {
    hide Handle;
    var t, more := Apply(s, a), acts + [a];
    assert more[|acts|] == a;
    forall k, f | OpenedBy(acts, k, f) ensures OpenedBy(more, k, f) {
      var i :| 0 <= i < |acts| && acts[i].OpenOk? && acts[i].k == k && acts[i].f == f;
      assert more[i] == acts[i];
    }
    forall n | 0 <= n < |t.grants| ensures GrantedTo(more, t, t.grants[n]) {
      if n < |s.grants| {
        assert GrantedTo(acts, s, s.grants[n]);
        var k :| 0 <= k < |s.calls| && s.calls[k] == Returned(Handle(s.grants[n].gen, s.grants[n].slot))
                 && OpenedBy(acts, k, s.grants[n].fd);
        assert t.calls[k] == s.calls[k];
      } else {
        assert t.calls[a.k] == Returned(Handle(t.grants[n].gen, t.grants[n].slot));
      }
    }
  }

  lemma {:induction false} OpensRun(ss: seq<State>, acts: seq<Action>)
    requires Run(ss, acts) && ss[0] == START
    ensures WellFormed(ss[|acts|]) && OpensTrue(acts, ss[|acts|])
    decreases |acts|
  {
    if |acts| > 0 {
      var n := |acts| - 1;
      OpensRun(ss[..n + 1], acts[..n]);
      assert ss[..n + 1][n] == ss[n] && acts[..n] + [acts[n]] == acts;
      OpensStep(acts[..n], ss[n], acts[n]);
    }
  }

  /** Over every run, an unlock closes the very descriptor that the call which returned the handle had opened. */
  lemma ClosesWhatWasOpened(ss: seq<State>, acts: seq<Action>, m: nat)
    requires Run(ss, acts) && ss[0] == START && m < |ss[|acts|].releases|
    requires Issued(ss[|acts|], ss[|acts|].releases[m].h)
    ensures var r := ss[|acts|].releases[m];
            exists k :: 0 <= k < |ss[|acts|].calls| && ss[|acts|].calls[k] == Returned(r.h) && OpenedBy(acts, k, r.fd)
  {
    var s := ss[|acts|];
    OpensRun(ss, acts);
    HandlesAreSafe(ss, acts);
    var n :| 0 <= n < |s.grants| && Handle(s.grants[n].gen, s.grants[n].slot) == s.releases[m].h;
    assert ReleaseOk(s, s.releases[m], s.grants[n]);
    assert GrantedTo(acts, s, s.grants[n]);
  }

  // ---- a run that gets there ----

  lemma Extend(ss: seq<State>, acts: seq<Action>, a: Action) returns (ss': seq<State>, acts': seq<Action>)
    requires DisciplinedRun(ss, acts) && WellFormed(ss[|acts|]) && Enabled(ss[|acts|], a) && Disciplined(ss[|acts|], a)
    ensures DisciplinedRun(ss', acts') && ss'[0] == ss[0] && ss'[|acts'|] == Apply(ss[|acts|], a)
  {
    hide Enabled, Apply, Disciplined;
    ss', acts' := ss + [Apply(ss[|acts|], a)], acts + [a];
  }

  /** Slot 0 is free at generation g. */
  predicate FreeAt(s: State, g: nat) {
    WellFormed(s) && s.used[0] == 0 && s.gen[0] == g
  }

  predicate LockedAt(s: State, g: nat) {
    && WellFormed(s) && s.used[0] == 1 && s.gen[0] == g
    && |s.grants| > 0 && s.grants[|s.grants| - 1] == Grant(0, g, 5)
  }

  /** One file_try_lock: reserve, open, flock, register. */
  lemma LockOnce(ss: seq<State>, acts: seq<Action>, g: nat) returns (ss': seq<State>, acts': seq<Action>)
    requires DisciplinedRun(ss, acts) && FreeAt(ss[|acts|], g) && g + 1 < WORD
    ensures DisciplinedRun(ss', acts') && ss'[0] == ss[0] && LockedAt(ss'[|acts'|], g + 1)
  {
    var s := ss[|acts|];
    var k := |s.calls|;
    assert FirstFree(s.used, 0) == 0;
    ss', acts' := Extend(ss, acts, Reserve);
    assert ss'[|acts'|].calls[k] == Reserved(0);
    ss', acts' := Extend(ss', acts', OpenOk(k, 5));
    assert ss'[|acts'|].calls[k] == Opened(0, 5);
    ss', acts' := Extend(ss', acts', FlockOk(k));
    assert ss'[|acts'|].calls[k] == Flocked(0, 5);
    ss', acts' := Extend(ss', acts', Register(k));
  }

  lemma UnlockOnce(ss: seq<State>, acts: seq<Action>, g: nat) returns (ss': seq<State>, acts': seq<Action>)
    requires DisciplinedRun(ss, acts) && LockedAt(ss[|acts|], g) && 0 < g < HALF
    ensures DisciplinedRun(ss', acts') && ss'[0] == ss[0] && FreeAt(ss'[|acts'|], g + 1)
  {
    var s := ss[|acts|];
    HandleParts(g, 0);
    assert Handle(s.grants[|s.grants| - 1].gen, s.grants[|s.grants| - 1].slot) == Handle(g, 0);
    assert Issued(s, Handle(g, 0));
    ss', acts' := Extend(ss, acts, Unlock(Handle(g, 0)));
  }

  /** n times locked and unlocked, slot 0 is free at generation 2n. */
  lemma {:induction false} Cycles(n: nat) returns (ss: seq<State>, acts: seq<Action>)
    requires 2 * n <= HALF
    ensures DisciplinedRun(ss, acts) && ss[0] == START && FreeAt(ss[|acts|], 2 * n)
  {
    if n == 0 {
      ss, acts := [START], [];
    } else {
      ss, acts := Cycles(n - 1);
      ss, acts := LockOnce(ss, acts, 2 * (n - 1));
      ss, acts := UnlockOnce(ss, acts, 2 * n - 1);
    }
  }

  /** After 2^30 cycles of slot 0 the next lock is granted and can never be released by its handle. */
  lemma RefusedHandle() returns (ss: seq<State>, acts: seq<Action>)
    ensures DisciplinedRun(ss, acts) && ss[0] == START
    ensures var s := ss[|acts|];
            && |s.grants| > 0 && s.grants[|s.grants| - 1] == Grant(0, HALF + 1, 5) && WellFormed(s)
            && !ReleasedHandle(s, Handle(HALF + 1, 0)) && !UnlockHits(s, Handle(HALF + 1, 0))
            && Handle(HALF + 1, 0) < 0
  {
    ss, acts := Cycles(0x4000_0000);
    ss, acts := LockOnce(ss, acts, HALF);
    NeverReleased(ss, acts, |ss[|acts|].grants| - 1);
  }

  /** Handles of later generations have not been released: no unlock of theirs was ever accepted. */
  lemma NeverReleased(ss: seq<State>, acts: seq<Action>, n: nat)
    requires DisciplinedRun(ss, acts) && ss[0] == START && n < |ss[|acts|].grants| && ss[|acts|].grants[n].gen > HALF
    ensures var s := ss[|acts|]; var g := s.grants[n];
            WellFormed(s) && Handle(g.gen, g.slot) < 0 && !UnlockHits(s, Handle(g.gen, g.slot))
            && !ReleasedHandle(s, Handle(g.gen, g.slot))
  {
    UnlockableWhen(ss, acts, n);
    RunInv(ss, acts);
    var s := ss[|acts|];
    var g := s.grants[n];
    assert GrantOk(s, g);
    HandleParts(g.gen, g.slot);
    PositiveReleases(ss, acts);
  }

  /** Only positive handles are ever released. */
  lemma {:induction false} PositiveReleases(ss: seq<State>, acts: seq<Action>)
    requires Run(ss, acts) && ss[0] == START
    ensures forall m :: 0 <= m < |ss[|acts|].releases| ==> ss[|acts|].releases[m].h > 0
    decreases |acts|
  {
    if |acts| > 0 {
      var n := |acts| - 1;
      PositiveReleases(ss[..n + 1], acts[..n]);
      assert ss[..n + 1][n] == ss[n];
    }
  }

  /** The table keeps calls apart: two calls under way never hold the same slot, and none holds a granted one. */
  lemma ReservationsAreExclusive(ss: seq<State>, acts: seq<Action>)
    requires DisciplinedRun(ss, acts) && ss[0] == START
    ensures var s := ss[|acts|];
      && (forall k, m :: 0 <= k < m < |s.calls| && Active(s.calls[k]) && Active(s.calls[m]) ==>
            s.calls[k].slot != s.calls[m].slot)
      && (forall k, n | 0 <= k < |s.calls| && 0 <= n < |s.grants| && Active(s.calls[k])
                        && s.grants[n].slot == s.calls[k].slot ::
            ReleasedHandle(s, Handle(s.grants[n].gen, s.grants[n].slot)))
  {
    OrderRun(ss, acts);
    var s := ss[|acts|];
    forall k, n | 0 <= k < |s.calls| && 0 <= n < |s.grants| && Active(s.calls[k]) && s.grants[n].slot == s.calls[k].slot
      ensures ReleasedHandle(s, Handle(s.grants[n].gen, s.grants[n].slot))
    {
      assert Reserving(s, s.calls[k]) && GrantOrder(s, s.grants[n]) && GrantOk(s, s.grants[n]);
    }
  }

  /** Without that discipline a value never issued can pass: an unlock of slot 1 generation 0 during a reservation. */
  lemma ForgedHandle()
    ensures var s := Apply(Apply(START, Reserve), Reserve);
      !Issued(s, 1) && UnlockHits(s, 1)
  {
    var s := Apply(START, Reserve);
    assert FirstFree(START.used, 0) == 0;
    assert FirstFree(s.used, 0) == 1 by {
      assert FirstFree(s.used, 1) == 1;
    }
  }
}

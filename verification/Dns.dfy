/**
 * The hand-off between DNS worker threads and the poll thread: a done list under a mutex and a self-pipe
 * that wakes the poll thread. One step is one access to shared state; any enabled step may come next.
 * The mutex itself is made on first use: whoever finds the pointer null publishes it and then initialises it.
 */
module Dns {

  /** Jobs are numbered from 1 in the order they are submitted; 0 is the null pointer. */
  type Job = nat

  datatype WorkerPhase =
    | Resolving      // in the blocking lookup
    | WantLock       // in dns_mu_ensure or waiting for the mutex
    | Making         // has published the mutex, has not initialised it yet
    | Locked         // holds the mutex
    | Linked         // jv[0] = dns_done done
    | Published      // dns_done = job done, mutex still held
    | MustWrite      // mutex released, the wake byte not yet written
    | Finished

  datatype MainPhase =
    | Running        // outside io_poll: coroutines run, jobs may be submitted
    | Woken          // poll reported the pipe readable
    | Draining       // has read at least once
    | WantList       // read said would-block
    | MainMaking     // has published the mutex, has not initialised it yet
    | HasLock
    | Took(list: Job)
    | Cleared(list: Job)
    | Delivering(list: Job)

  datatype Holder = Free | Worker(j: Job) | Main

  /** dns_mu: null, allocated and visible but not initialised, or initialised. */
  datatype Pointer = Absent | Raw | Ready

  datatype State = State(
    phase: seq<WorkerPhase>,         // of job j at index j; index 0 stands for null
    next: seq<Job>,                  // the link field of each job record
    result: seq<int>,                // the result field of each job record
    head: Job,                       // dns_done
    pipe: nat,                       // bytes in the self-pipe
    mu: Pointer,
    mutex: Holder,                   // a zeroed mutex counts as free
    main: MainPhase,
    watch: bool,                     // a kind-6 watch is active
    log: seq<(Job, int)>)            // deliveries, oldest first

  datatype Action =
    | Submit                         // a worker thread was created
    | Inline(r: int)                 // no thread: looked up and resumed at once
    | Resolve(j: Job, r: int) | Create(j: Job) | Init(j: Job) | Lock(j: Job) | Link(j: Job) | Publish(j: Job)
    | Unlock(j: Job) | Write(j: Job)
    | Wake | Read(k: nat) | WouldBlock | MainCreate | MainInit | MainLock | Take | Clear | MainUnlock | Deliver
    | EndRound

  predicate InPhase(s: State, j: Job, p: WorkerPhase) {
    1 <= j < |s.phase| && s.phase[j] == p
  }

  predicate WellFormed(s: State) {
    |s.phase| == |s.next| == |s.result| && |s.phase| >= 1
  }

  predicate Enabled(s: State, a: Action)
    requires WellFormed(s)
  {
    match a
    case Submit => s.main == Running
    case Inline(r) => s.main == Running
    case Resolve(j, r) => InPhase(s, j, Resolving)
    case Create(j) => InPhase(s, j, WantLock) && s.mu == Absent
    case Init(j) => InPhase(s, j, Making)
    case Lock(j) => InPhase(s, j, WantLock) && s.mu != Absent && s.mutex == Free
    case Link(j) => InPhase(s, j, Locked)
    case Publish(j) => InPhase(s, j, Linked)
    case Unlock(j) => InPhase(s, j, Published)
    case Write(j) => InPhase(s, j, MustWrite)
    case Wake => s.main == Running && s.watch && s.pipe > 0
    case Read(k) => (s.main == Woken || s.main == Draining) && 0 < k <= 64 && k <= s.pipe
    case WouldBlock => (s.main == Woken || s.main == Draining) && s.pipe == 0
    case MainCreate => s.main == WantList && s.mu == Absent
    case MainInit => s.main == MainMaking
    case MainLock => s.main == WantList && s.mu != Absent && s.mutex == Free
    case Take => s.main == HasLock
    case Clear => s.main.Took?
    case MainUnlock => s.main.Cleared?
    case Deliver => s.main.Delivering? && 0 < s.main.list < |s.phase|
    case EndRound => s.main == Delivering(0)
  }

  function SetPhase(s: State, j: Job, p: WorkerPhase): State
    requires 1 <= j < |s.phase|
  {
    s.(phase := s.phase[j := p])
  }

  function Apply(s: State, a: Action): (t: State)
    requires WellFormed(s) && Enabled(s, a)
    ensures WellFormed(t)
  {
    match a
    case Submit =>
      s.(phase := s.phase + [Resolving], next := s.next + [0], result := s.result + [0], watch := true)
    case Inline(r) =>
      s.(phase := s.phase + [Finished], next := s.next + [0], result := s.result + [r], watch := true,
         log := s.log + [(|s.phase|, r)])
    case Resolve(j, r) => SetPhase(s, j, WantLock).(result := s.result[j := r])
    case Create(j) => SetPhase(s, j, Making).(mu := Raw, mutex := Free)
    case Init(j) => SetPhase(s, j, WantLock).(mu := Ready, mutex := Free)
    case Lock(j) => SetPhase(s, j, Locked).(mutex := Worker(j))
    case Link(j) => SetPhase(s, j, Linked).(next := s.next[j := s.head])
    case Publish(j) => SetPhase(s, j, Published).(head := j)
    case Unlock(j) => SetPhase(s, j, MustWrite).(mutex := Free)
    case Write(j) => SetPhase(s, j, Finished).(pipe := s.pipe + 1)
    case Wake => s.(main := Woken)
    case Read(k) => s.(main := Draining, pipe := s.pipe - k)
    case WouldBlock => s.(main := WantList)
    case MainCreate => s.(main := MainMaking, mu := Raw, mutex := Free)
    case MainInit => s.(main := WantList, mu := Ready, mutex := Free)
    case MainLock => s.(main := HasLock, mutex := Main)
    case Take => s.(main := Took(s.head))
    case Clear => s.(main := Cleared(s.main.list), head := 0)
    case MainUnlock => s.(main := Delivering(s.main.list), mutex := Free)
    case Deliver =>
      var j := s.main.list;
      s.(main := Delivering(s.next[j]), log := s.log + [(j, s.result[j])])
    case EndRound => s.(main := Running)
  }

  /** Nothing submitted yet; the mutex as given: Absent in the Zan runtime, Ready in the C one. */
  function StartWith(mu: Pointer): State {
    State([Finished], [0], [0], 0, 0, mu, Free, Running, false, [])
  }

  /** An initialisation that does not find the mutex held. */
  predicate Calm(s: State, a: Action) {
    a.Init? || a.MainInit? ==> s.mutex == Free
  }

  // ---- the invariant ----

  /** p points to the jobs of c in order, through the link fields. */
  predicate Chain(next: seq<Job>, p: Job, c: seq<Job>)
    decreases |c|
  {
    if c == [] then p == 0
    else p == c[0] && 1 <= p < |next| && Chain(next, next[p], c[1..])
  }

  /** The job is in the done list, taken or delivered. */
  predicate HandedOver(p: WorkerPhase) {
    p == Published || p == MustWrite || p == Finished
  }

  predicate Delivered(log: seq<(Job, int)>, j: Job) {
    exists i :: 0 <= i < |log| && log[i].0 == j
  }

  predicate NoDuplicates(c: seq<Job>) {
    forall i, k :: 0 <= i < k < |c| ==> c[i] != c[k]
  }

  predicate DeliveredOnce(log: seq<(Job, int)>) {
    forall i, k :: 0 <= i < k < |log| ==> log[i].0 != log[k].0
  }

  /** Each job past its publication is in exactly one of the done list, the taken list and the log; no other is. */
  predicate Placed(s: State, c: seq<Job>, l: seq<Job>) {
    && (forall j: Job :: 1 <= j < |s.phase| ==>
          (HandedOver(s.phase[j]) <==> j in c || j in l || Delivered(s.log, j)))
    && (forall j: Job :: j in c ==> 1 <= j < |s.phase| && j !in l && !Delivered(s.log, j))
    && (forall j: Job :: j in l ==> 1 <= j < |s.phase| && !Delivered(s.log, j))
    && NoDuplicates(c) && NoDuplicates(l) && DeliveredOnce(s.log)
  }

  /** The log only holds jobs, with the results their workers stored. */
  predicate LogTrue(s: State)
    requires WellFormed(s)
  {
    forall i :: 0 <= i < |s.log| ==> 1 <= s.log[i].0 < |s.phase| && s.log[i].1 == s.result[s.log[i].0]
  }

  predicate MutexTrue(s: State) {
    && (forall j: Job :: 1 <= j < |s.phase| ==>
          (s.mutex == Worker(j) <==> s.phase[j] == Locked || s.phase[j] == Linked || s.phase[j] == Published))
    && (s.mutex == Main <==> s.main == HasLock || s.main.Took? || s.main.Cleared?)
    && (s.mutex.Worker? ==> 1 <= s.mutex.j < |s.phase|)
  }

  /** At most one thread is making the mutex; nobody holds one that is not there. */
  predicate MakingTrue(s: State) {
    && (forall j, k: Job :: 1 <= j < |s.phase| && 1 <= k < |s.phase| && s.phase[j] == Making && s.phase[k] == Making
          ==> j == k)
    && (forall j: Job :: 1 <= j < |s.phase| && s.phase[j] == Making ==> s.mu == Raw && s.main != MainMaking)
    && (s.main == MainMaking ==> s.mu == Raw)
    && (s.mu == Absent ==> s.mutex == Free)
  }

  /** The lists the main thread holds: before clearing, the taken pointer still is the done list. */
  predicate Pointers(s: State, c: seq<Job>, l: seq<Job>)
    requires WellFormed(s)
  {
    && Chain(s.next, s.head, c)
    && (if s.main.Cleared? || s.main.Delivering? then Chain(s.next, s.main.list, l) else l == [])
    && (s.main.Took? ==> s.main.list == s.head)
    && (s.main.Cleared? ==> c == [])
    && (forall j: Job :: 1 <= j < |s.phase| && s.phase[j] == Linked ==> s.next[j] == s.head)
  }

  /** A published job whose wake byte is still to come. */
  predicate WakeComing(s: State) {
    exists j: Job :: 1 <= j < |s.phase| && (s.phase[j] == Published || s.phase[j] == MustWrite)
  }

  /** No lost wakeup: while jobs wait in the done list, something will make the poll thread look. */
  predicate NoLostWakeup(s: State, c: seq<Job>) {
    c != [] ==> s.pipe > 0 || WakeComing(s) || OnItsWay(s.main)
  }

  /** The poll thread is between its wake-up and the take. */
  predicate OnItsWay(m: MainPhase) {
    m == Woken || m == Draining || m == WantList || m == MainMaking || m == HasLock || m.Took?
  }

  predicate InvWith(s: State, c: seq<Job>, l: seq<Job>) {
    && WellFormed(s) && Placed(s, c, l) && LogTrue(s) && MutexTrue(s) && MakingTrue(s) && Pointers(s, c, l)
    && NoLostWakeup(s, c)
    && (|s.phase| > 1 ==> s.watch)
    && (s.main == Woken ==> s.pipe > 0)
    && (s.pipe > 0 ==> |s.phase| > 1)
  }

  ghost predicate Inv(s: State) {
    exists c, l :: InvWith(s, c, l)
  }

  lemma StartInv(mu: Pointer)
    requires mu != Raw
    ensures InvWith(StartWith(mu), [], [])
  {
  }

  // ---- every step keeps it ----

  /** A chain does not see changes to link fields outside it. */
  lemma {:induction false} ChainKept(next: seq<Job>, next': seq<Job>, p: Job, c: seq<Job>)
    requires Chain(next, p, c) && |next| <= |next'|
    requires forall j :: j in c && j < |next| ==> next'[j] == next[j]
    ensures Chain(next', p, c)
    decreases |c|
  {
    if c != [] {
      ChainKept(next, next', next[p], c[1..]);
    }
  }

  lemma ChainNull(next: seq<Job>, p: Job, c: seq<Job>)
    requires Chain(next, p, c)
    ensures p == 0 <==> c == []
    ensures c != [] ==> p == c[0] && p < |next|
  {
  }

  /** The lists after a step. */
  function NextLists(s: State, a: Action, c: seq<Job>, l: seq<Job>): (seq<Job>, seq<Job>) {
    match a
    case Publish(j) => ([j] + c, l)
    case Clear => ([], c)
    case Deliver => (c, if l == [] then [] else l[1..])
    case _ => (c, l)
  }

  lemma StepInv(s: State, a: Action, c: seq<Job>, l: seq<Job>)
    requires InvWith(s, c, l) && Enabled(s, a) && Calm(s, a)
    ensures InvWith(Apply(s, a), NextLists(s, a, c, l).0, NextLists(s, a, c, l).1)
  {
    PlacedKept(s, a, c, l);
    LogKept(s, a, c, l);
    MutexKept(s, a, c, l);
    MakingKept(s, a);
    PointersKept(s, a, c, l);
    WakeupKept(s, a, c, l);
  }

  lemma DeliveredPush(log: seq<(Job, int)>, e: (Job, int))
    ensures forall j: Job :: Delivered(log + [e], j) <==> Delivered(log, j) || j == e.0
  {
    var t := log + [e];
    forall j: Job ensures Delivered(t, j) <==> Delivered(log, j) || j == e.0 {
      if Delivered(log, j) {
        var i :| 0 <= i < |log| && log[i].0 == j;
        assert t[i].0 == j;
      }
      if j == e.0 {
        assert t[|log|].0 == j;
      }
    }
  }

  lemma PlacedKept(s: State, a: Action, c: seq<Job>, l: seq<Job>)
    requires InvWith(s, c, l) && Enabled(s, a) && Calm(s, a)
    ensures Placed(Apply(s, a), NextLists(s, a, c, l).0, NextLists(s, a, c, l).1)
  {
    match a
    case Publish(j) => PlacedPublish(s, j, c, l);
    case Deliver => PlacedDeliver(s, c, l);
    case Inline(r) => DeliveredPush(s.log, (|s.phase|, r));
    case Submit =>
    case _ => PlacedQuiet(s, a, c, l);
  }

  /** Steps that hand nothing over and deliver nothing. */
  lemma PlacedQuiet(s: State, a: Action, c: seq<Job>, l: seq<Job>)
    requires InvWith(s, c, l) && Enabled(s, a) && Calm(s, a)
    requires !a.Publish? && !a.Deliver? && !a.Inline? && !a.Submit?
    ensures Placed(Apply(s, a), NextLists(s, a, c, l).0, NextLists(s, a, c, l).1)
  {
    hide Delivered, DeliveredOnce, NoDuplicates, Chain;
  }

  lemma PlacedPublish(s: State, j: Job, c: seq<Job>, l: seq<Job>)
    requires InvWith(s, c, l) && Enabled(s, Publish(j))
    ensures Placed(Apply(s, Publish(j)), [j] + c, l)
  {
    assert forall k :: k in [j] + c <==> k == j || k in c;
  }

  lemma PlacedDeliver(s: State, c: seq<Job>, l: seq<Job>)
    requires InvWith(s, c, l) && Enabled(s, Deliver)
    ensures l != [] && Placed(Apply(s, Deliver), c, l[1..])
  {
    DeliveredPush(s.log, (s.main.list, s.result[s.main.list]));
    ChainNull(s.next, s.main.list, l);
    assert l == [l[0]] + l[1..];
    assert forall k :: k in l <==> k == l[0] || k in l[1..];
  }

  lemma LogKept(s: State, a: Action, c: seq<Job>, l: seq<Job>)
    requires InvWith(s, c, l) && Enabled(s, a) && Calm(s, a)
    ensures LogTrue(Apply(s, a))
  {
    hide MutexTrue, MakingTrue, Pointers, NoLostWakeup;
  }

  lemma MutexKept(s: State, a: Action, c: seq<Job>, l: seq<Job>)
    requires InvWith(s, c, l) && Enabled(s, a) && Calm(s, a)
    ensures MutexTrue(Apply(s, a))
  {
    hide Placed, LogTrue, Pointers, NoLostWakeup;
  }

  lemma MakingKept(s: State, a: Action)
    requires WellFormed(s) && MakingTrue(s) && Enabled(s, a)
    ensures MakingTrue(Apply(s, a))
  {
    if !Makes(a) {
      NobodyMakes(s, a);
    }
  }

  predicate Makes(a: Action) {
    a.Create? || a.Init? || a.MainCreate? || a.MainInit?
  }

  /** The other actions neither begin nor end the making. */
  lemma NobodyMakes(s: State, a: Action)
    requires WellFormed(s) && Enabled(s, a) && !Makes(a)
    ensures var t := Apply(s, a);
            && t.mu == s.mu && (t.main == MainMaking <==> s.main == MainMaking)
            && (forall j: Job :: 1 <= j < |t.phase| && t.phase[j] == Making ==> j < |s.phase| && s.phase[j] == Making)
            && (t.mutex == Free || s.mu != Absent || t.mutex == s.mutex)
  {
  }

  lemma PointersKept(s: State, a: Action, c: seq<Job>, l: seq<Job>)
    requires InvWith(s, c, l) && Enabled(s, a) && Calm(s, a)
    ensures Pointers(Apply(s, a), NextLists(s, a, c, l).0, NextLists(s, a, c, l).1)
  {
    match a
    case Link(j) => PointersLink(s, j, c, l);
    case Publish(j) => PointersPublish(s, j, c, l);
    case Submit => PointersGrow(s, a, c, l);
    case Inline(_) => PointersGrow(s, a, c, l);
    case _ => PointersQuiet(s, a, c, l);
  }

  /** A job that links itself is in neither list. */
  lemma PointersLink(s: State, j: Job, c: seq<Job>, l: seq<Job>)
    requires InvWith(s, c, l) && Enabled(s, Link(j))
    ensures Pointers(Apply(s, Link(j)), c, l)
  {
    assert j !in c && j !in l;
    assert s.mutex == Worker(j);
    hide Placed, LogTrue, MakingTrue, NoLostWakeup;
    ChainKept(s.next, s.next[j := s.head], s.head, c);
    if s.main.Cleared? || s.main.Delivering? {
      ChainKept(s.next, s.next[j := s.head], s.main.list, l);
    }
  }

  lemma PointersPublish(s: State, j: Job, c: seq<Job>, l: seq<Job>)
    requires InvWith(s, c, l) && Enabled(s, Publish(j))
    ensures Pointers(Apply(s, Publish(j)), [j] + c, l)
  {
    hide Placed, LogTrue, MakingTrue, NoLostWakeup;
    assert s.mutex == Worker(j);
    assert ([j] + c)[1..] == c;
  }

  lemma PointersGrow(s: State, a: Action, c: seq<Job>, l: seq<Job>)
    requires WellFormed(s) && Pointers(s, c, l) && Enabled(s, a) && (a.Submit? || a.Inline?)
    ensures Pointers(Apply(s, a), c, l)
  {
    ChainKept(s.next, s.next + [0], s.head, c);
    hide Chain;
  }

  /** Steps that leave the link fields and the lists' ends alone. */
  lemma PointersQuiet(s: State, a: Action, c: seq<Job>, l: seq<Job>)
    requires InvWith(s, c, l) && Enabled(s, a) && Calm(s, a)
    requires !a.Link? && !a.Publish? && !a.Submit? && !a.Inline?
    ensures Pointers(Apply(s, a), NextLists(s, a, c, l).0, NextLists(s, a, c, l).1)
  {
    hide Placed, LogTrue, MakingTrue, NoLostWakeup;
    if a.Deliver? {
      ChainNull(s.next, s.main.list, l);
    }
  }

  lemma WakeupKept(s: State, a: Action, c: seq<Job>, l: seq<Job>)
    requires InvWith(s, c, l) && Enabled(s, a) && Calm(s, a)
    ensures NoLostWakeup(Apply(s, a), NextLists(s, a, c, l).0)
  {
    var t := Apply(s, a);
    if a.Publish? {
      assert t.phase[a.j] == Published;
    } else if a.Unlock? {
      assert t.phase[a.j] == MustWrite;
    } else if !a.Write? && WakeComing(s) {
      var j: Job :| 1 <= j < |s.phase| && (s.phase[j] == Published || s.phase[j] == MustWrite);
      assert t.phase[j] == s.phase[j];
    }
  }

  // ---- runs ----

  /** A run: each state follows from the one before by an enabled action. */
  predicate Run(ss: seq<State>, acts: seq<Action>) {
    && |ss| == |acts| + 1
    && forall i :: 0 <= i < |acts| ==>
         WellFormed(ss[i]) && Enabled(ss[i], acts[i]) && ss[i + 1] == Apply(ss[i], acts[i])
  }

  /** A run in which no initialisation resets a mutex someone holds. */
  predicate CalmRun(ss: seq<State>, acts: seq<Action>) {
    Run(ss, acts) && forall i :: 0 <= i < |acts| ==> Calm(ss[i], acts[i])
  }

  lemma {:induction false} RunInv(ss: seq<State>, acts: seq<Action>, mu: Pointer)
    requires CalmRun(ss, acts) && ss[0] == StartWith(mu) && mu != Raw
    ensures Inv(ss[|acts|])
    decreases |acts|
  {
    if |acts| == 0 {
      StartInv(mu);
    } else {
      var n := |acts| - 1;
      RunInv(ss[..n + 1], acts[..n], mu);
      assert ss[..n + 1][n] == ss[n];
      var c, l :| InvWith(ss[n], c, l);
      StepInv(ss[n], acts[n], c, l);
    }
  }

  /** With the mutex initialised before the first submission every run is calm. */
  lemma {:induction false} ReadyIsCalm(ss: seq<State>, acts: seq<Action>)
    requires Run(ss, acts) && ss[0] == StartWith(Ready)
    ensures CalmRun(ss, acts) && WellFormed(ss[|acts|])
    ensures ss[|acts|].mu == Ready && ss[|acts|].main != MainMaking && Making !in ss[|acts|].phase
    decreases |acts|
  {
    if |acts| > 0 {
      var n := |acts| - 1;
      ReadyIsCalm(ss[..n + 1], acts[..n]);
      assert ss[..n + 1][n] == ss[n];
      assert forall i :: 0 <= i < n ==> acts[..n][i] == acts[i] && ss[..n + 1][i] == ss[i];
      ReadyStep(ss[n], acts[n]);
    }
  }

  lemma ReadyStep(s: State, a: Action)
    requires WellFormed(s) && Enabled(s, a) && s.mu == Ready && s.main != MainMaking && Making !in s.phase
    ensures Calm(s, a)
    ensures Apply(s, a).mu == Ready && Apply(s, a).main != MainMaking && Making !in Apply(s, a).phase
  {
  }

  /** So is every run in which nobody locks between publication and initialisation. */
  lemma {:induction false} NoEarlyLockIsCalm(ss: seq<State>, acts: seq<Action>, mu: Pointer)
    requires Run(ss, acts) && ss[0] == StartWith(mu) && mu != Raw
    requires forall i :: 0 <= i < |acts| && (acts[i].Lock? || acts[i].MainLock?) ==> ss[i].mu == Ready
    ensures CalmRun(ss, acts) && WellFormed(ss[|acts|]) && MakingTrue(ss[|acts|])
    ensures ss[|acts|].mu != Ready ==> ss[|acts|].mutex == Free
    decreases |acts|
  {
    if |acts| > 0 {
      var n := |acts| - 1;
      NoEarlyLockIsCalm(ss[..n + 1], acts[..n], mu);
      assert ss[..n + 1][n] == ss[n];
      assert forall i :: 0 <= i < n ==> acts[..n][i] == acts[i] && ss[..n + 1][i] == ss[i];
      MakingKept(ss[n], acts[n]);
      UnheldStep(ss[n], acts[n]);
    }
  }

  lemma UnheldStep(s: State, a: Action)
    requires WellFormed(s) && MakingTrue(s) && Enabled(s, a) && (s.mu != Ready ==> s.mutex == Free)
    requires a.Lock? || a.MainLock? ==> s.mu == Ready
    ensures Calm(s, a) && (Apply(s, a).mu != Ready ==> Apply(s, a).mutex == Free)
  {
  }

  // ---- whose result is delivered ----

  /** Action i looked job j's name up: its worker did, or the submitting thread in place. */
  predicate LooksUp(ss: seq<State>, acts: seq<Action>, i: nat, j: Job)
    requires |ss| == |acts| + 1 && i < |acts|
  {
    (acts[i].Resolve? && acts[i].j == j) || (acts[i].Inline? && j == |ss[i].phase|)
  }

  predicate NotLookedUp(ss: seq<State>, acts: seq<Action>, j: Job)
    requires |ss| == |acts| + 1
  {
    forall i :: 0 <= i < |acts| ==> !LooksUp(ss, acts, i, j)
  }

  /** Job j was looked up exactly once, and the lookup returned r. */
  ghost predicate LookedUpOnce(ss: seq<State>, acts: seq<Action>, j: Job, r: int)
    requires |ss| == |acts| + 1
  {
    exists i :: OnlyLookup(ss, acts, i, j, r)
  }

  predicate OnlyLookup(ss: seq<State>, acts: seq<Action>, i: int, j: Job, r: int)
    requires |ss| == |acts| + 1
  {
    && 0 <= i < |acts| && LooksUp(ss, acts, i, j) && acts[i].r == r
    && forall k :: 0 <= k < |acts| && LooksUp(ss, acts, k, j) ==> k == i
  }

  /** Null, or a job whose lookup is over. */
  predicate LookupOver(s: State, j: Job) {
    j == 0 || (j < |s.phase| && s.phase[j] != Resolving)
  }

  predicate ListsOver(s: State)
    requires WellFormed(s)
  {
    PointersOver(s) && LogOver(s)
  }

  predicate PointersOver(s: State) {
    && LookupOver(s, s.head)
    && (s.main.Took? || s.main.Cleared? || s.main.Delivering? ==> LookupOver(s, s.main.list))
    && (forall j: Job :: j < |s.next| ==> LookupOver(s, s.next[j]))
  }

  predicate LogOver(s: State)
    requires WellFormed(s)
  {
    && (forall k :: 0 <= k < |s.log| ==> LookupOver(s, s.log[k].0) && s.log[k].0 != 0)
    && LogTrue(s)
  }

  ghost predicate ResultsTrue(ss: seq<State>, acts: seq<Action>)
    requires |ss| == |acts| + 1 && WellFormed(ss[|acts|])
  {
    var s := ss[|acts|];
    && (forall j: Job :: 1 <= j < |s.phase| ==>
          if s.phase[j] == Resolving then NotLookedUp(ss, acts, j) else LookedUpOnce(ss, acts, j, s.result[j]))
    && (forall j: Job :: j >= |s.phase| ==> NotLookedUp(ss, acts, j))
  }

  lemma ListsStayOver(s: State, a: Action)
    requires WellFormed(s) && ListsOver(s) && Enabled(s, a)
    ensures ListsOver(Apply(s, a))
  {
    PointersStayOver(s, a);
    LogStaysOver(s, a);
  }

  lemma PointersStayOver(s: State, a: Action)
    requires WellFormed(s) && PointersOver(s) && Enabled(s, a)
    ensures PointersOver(Apply(s, a))
  {
    OverLater(s, a);
    hide LookupOver;
  }

  lemma OverLater(s: State, a: Action)
    requires WellFormed(s) && Enabled(s, a)
    ensures LookupOver(Apply(s, a), 0)
    ensures forall j: Job :: LookupOver(s, j) ==> LookupOver(Apply(s, a), j)
    ensures a.Publish? ==> LookupOver(Apply(s, a), a.j)
  {
  }

  lemma LogStaysOver(s: State, a: Action)
    requires WellFormed(s) && ListsOver(s) && Enabled(s, a)
    ensures LogOver(Apply(s, a))
  {
  }

  /** One more action: it looks up at most one job, which was not looked up before. */
  lemma ResultsStayTrue(ss: seq<State>, acts: seq<Action>)
    requires Run(ss, acts) && acts != []
    requires var n := |acts| - 1; WellFormed(ss[n]) && ResultsTrue(ss[..n + 1], acts[..n])
    ensures WellFormed(ss[|acts|]) && ResultsTrue(ss, acts)
  {
    var n := |acts| - 1;
    var s, t := ss[n], ss[n + 1];
    assert ss[..n + 1][n] == s && t == Apply(s, acts[n]);
    ResultsMove(s, acts[n]);
    hide NotLookedUp, LookedUpOnce, Enabled, Apply;
    forall j: Job | 1 <= j < |t.phase|
      ensures if t.phase[j] == Resolving then NotLookedUp(ss, acts, j) else LookedUpOnce(ss, acts, j, t.result[j])
    {
      OneMore(ss, acts, j);
    }
    forall j: Job | j >= |t.phase| ensures NotLookedUp(ss, acts, j) {
      OneMore(ss, acts, j);
    }
  }

  lemma OneMore(ss: seq<State>, acts: seq<Action>, j: Job)
    requires |ss| == |acts| + 1 && acts != []
    ensures var n := |acts| - 1;
            && (LooksUp(ss, acts, n, j) && NotLookedUp(ss[..n + 1], acts[..n], j)
                ==> LookedUpOnce(ss, acts, j, acts[n].r))
            && (!LooksUp(ss, acts, n, j) && NotLookedUp(ss[..n + 1], acts[..n], j) ==> NotLookedUp(ss, acts, j))
            && (forall r :: !LooksUp(ss, acts, n, j) && LookedUpOnce(ss[..n + 1], acts[..n], j, r)
                  ==> LookedUpOnce(ss, acts, j, r))
  {
    var n := |acts| - 1;
    forall i | 0 <= i < n ensures LooksUp(ss, acts, i, j) <==> LooksUp(ss[..n + 1], acts[..n], i, j) {
      assert ss[..n + 1][i] == ss[i] && acts[..n][i] == acts[i];
    }
    if LooksUp(ss, acts, n, j) && NotLookedUp(ss[..n + 1], acts[..n], j) {
      assert OnlyLookup(ss, acts, n, j, acts[n].r);
    }
    forall r | !LooksUp(ss, acts, n, j) && LookedUpOnce(ss[..n + 1], acts[..n], j, r)
      ensures LookedUpOnce(ss, acts, j, r)
    {
      var i :| OnlyLookup(ss[..n + 1], acts[..n], i, j, r);
      assert OnlyLookup(ss, acts, i, j, r);
    }
  }

  /** Phase and result of a job change only as its lookup ends. */
  lemma ResultsMove(s: State, a: Action)
    requires WellFormed(s) && Enabled(s, a)
    ensures var t := Apply(s, a);
      && |t.phase| >= |s.phase|
      && (forall j: Job :: 1 <= j < |t.phase| && !(a.Resolve? && a.j == j) && !(a.Inline? && j == |s.phase|) ==>
            if j < |s.phase| then (t.phase[j] == Resolving <==> s.phase[j] == Resolving) && t.result[j] == s.result[j]
            else t.phase[j] == Resolving)
      && (a.Resolve? ==> 1 <= a.j < |s.phase| && s.phase[a.j] == Resolving && t.phase[a.j] != Resolving
                         && t.result[a.j] == a.r && |t.phase| == |s.phase|)
      && (a.Inline? ==> |t.phase| == |s.phase| + 1 && t.phase[|s.phase|] != Resolving && t.result[|s.phase|] == a.r)
  {
  }

  /**
   * Over every run, calm or not, each delivery hands on what the one lookup of its job returned, and that
   * lookup was made before.
   */
  lemma {:induction false} ResultsAreLookups(ss: seq<State>, acts: seq<Action>, mu: Pointer)
    requires Run(ss, acts) && ss[0] == StartWith(mu)
    ensures var s := ss[|acts|];
      && WellFormed(s) && ListsOver(s) && ResultsTrue(ss, acts)
      && forall k :: 0 <= k < |s.log| ==> LookedUpOnce(ss, acts, s.log[k].0, s.log[k].1)
    decreases |acts|
  {
    if |acts| > 0 {
      var n := |acts| - 1;
      ResultsAreLookups(ss[..n + 1], acts[..n], mu);
      assert ss[..n + 1][n] == ss[n];
      ResultsStayTrue(ss, acts);
      ListsStayOver(ss[n], acts[n]);
    }
  }

  // ---- safety ----

  /** In every calm run no job is delivered twice, and each delivery carries what the job's one lookup returned. */
  lemma AtMostOnce(ss: seq<State>, acts: seq<Action>, mu: Pointer)
    requires CalmRun(ss, acts) && ss[0] == StartWith(mu) && mu != Raw
    ensures var s := ss[|acts|];
      WellFormed(s) && DeliveredOnce(s.log) && LogTrue(s)
      && (forall j: Job :: Delivered(s.log, j) ==> 1 <= j < |s.phase| && HandedOver(s.phase[j]))
      && forall k :: 0 <= k < |s.log| ==> LookedUpOnce(ss, acts, s.log[k].0, s.log[k].1)
  {
    RunInv(ss, acts, mu);
    ResultsAreLookups(ss, acts, mu);
    var s := ss[|acts|];
    var c, l :| InvWith(s, c, l);
    forall j: Job | Delivered(s.log, j) ensures 1 <= j < |s.phase| && HandedOver(s.phase[j]) {
      var i :| 0 <= i < |s.log| && s.log[i].0 == j;
    }
  }

  /** In calm runs a waiting done list has a byte in the pipe, a wake byte coming, or the poll thread on its way. */
  lemma NeverStranded(ss: seq<State>, acts: seq<Action>, mu: Pointer)
    requires CalmRun(ss, acts) && ss[0] == StartWith(mu) && mu != Raw
    ensures var s := ss[|acts|];
      s.head != 0 ==> s.pipe > 0 || WakeComing(s) || OnItsWay(s.main)
  {
    RunInv(ss, acts, mu);
    var c, l :| InvWith(ss[|acts|], c, l);
    ChainNull(ss[|acts|].next, ss[|acts|].head, c);
  }

  // ---- progress ----

  /** Nothing is left to do: all workers are through, the pipe is empty, the poll thread sleeps or runs coroutines. */
  predicate Quiet(s: State) {
    && (forall j: Job :: 1 <= j < |s.phase| ==> s.phase[j] == Finished)
    && s.pipe == 0 && s.main == Running
  }

  /** Actions of the hand-off itself, as against new submissions. */
  predicate Internal(a: Action) {
    !a.Submit? && !a.Inline?
  }

  /** At rest every submitted job has been delivered. */
  lemma QuietDelivered(s: State)
    requires Inv(s) && Quiet(s)
    ensures s.head == 0 && forall j: Job :: 1 <= j < |s.phase| ==> Delivered(s.log, j)
  {
    var c, l :| InvWith(s, c, l);
    ChainNull(s.next, s.head, c);
  }

  /** The next step of a worker. */
  function WorkerStep(s: State, j: Job): Action
    requires 1 <= j < |s.phase|
  {
    match s.phase[j]
    case Resolving => Resolve(j, 0)
    case WantLock => if s.mu == Absent then Create(j) else Lock(j)
    case Making => Init(j)
    case Locked => Link(j)
    case Linked => Publish(j)
    case Published => Unlock(j)
    case MustWrite => Write(j)
    case Finished => EndRound
  }

  /** The next step of the poll thread, once it is in io_poll. */
  function MainStep(s: State): Action {
    match s.main
    case Running => Wake
    case Woken => Read(1)
    case Draining => if s.pipe > 0 then Read(1) else WouldBlock
    case WantList => if s.mu == Absent then MainCreate else MainLock
    case MainMaking => MainInit
    case HasLock => Take
    case Took(_) => Clear
    case Cleared(_) => MainUnlock
    case Delivering(p) => if p == 0 then EndRound else Deliver
  }

  /** Until then some internal step can always be taken: nobody waits for ever. */
  lemma NoDeadlock(s: State, c: seq<Job>, l: seq<Job>) returns (a: Action)
    requires InvWith(s, c, l) && !Quiet(s)
    ensures Internal(a) && Enabled(s, a) && Calm(s, a)
  {
    if s.mutex.Worker? {
      a := WorkerStep(s, s.mutex.j);
    } else if s.main != Running {
      if s.main.Delivering? {
        ChainNull(s.next, s.main.list, l);
      }
      a := MainStep(s);
    } else if j: Job :| 1 <= j < |s.phase| && s.phase[j] != Finished {
      a := WorkerStep(s, j);
    } else {
      a := Wake;
    }
  }

  function Rank(p: WorkerPhase): nat {
    match p
    case Resolving => 6
    case WantLock => 5
    case Making => 5
    case Locked => 4
    case Linked => 3
    case Published => 2
    case MustWrite => 1
    case Finished => 0
  }

  function RankSum(ps: seq<WorkerPhase>): nat {
    if ps == [] then 0 else RankSum(ps[..|ps| - 1]) + Rank(ps[|ps| - 1])
  }

  lemma {:induction false} RankUpdate(ps: seq<WorkerPhase>, j: nat, p: WorkerPhase)
    requires j < |ps|
    ensures RankSum(ps[j := p]) == RankSum(ps) - Rank(ps[j]) + Rank(p)
  {
    var n := |ps| - 1;
    if j < n {
      RankUpdate(ps[..n], j, p);
      assert ps[j := p][..n] == ps[..n][j := p];
    } else {
      assert ps[j := p][..n] == ps[..n];
    }
  }

  function MainRank(m: MainPhase): nat {
    match m
    case Running => 9
    case Woken => 8
    case Draining => 15
    case WantList => 14
    case MainMaking => 14
    case HasLock => 13
    case Took(_) => 12
    case Cleared(_) => 11
    case Delivering(_) => 10
  }

  function PointerRank(mu: Pointer): nat {
    match mu case Absent => 2 case Raw => 1 case Ready => 0
  }

  /** Work left: worker steps, pipe bytes, the poll round, the mutex and the jobs on either list. */
  function Work(s: State, c: seq<Job>, l: seq<Job>): nat {
    11 * RankSum(s.phase) + 10 * s.pipe + MainRank(s.main) + PointerRank(s.mu) + |c| + |l|
  }

  /** Every internal step uses some of it up. */
  lemma StepWork(s: State, a: Action, c: seq<Job>, l: seq<Job>)
    requires InvWith(s, c, l) && Enabled(s, a) && Internal(a)
    ensures Work(Apply(s, a), NextLists(s, a, c, l).0, NextLists(s, a, c, l).1) < Work(s, c, l)
  {
    hide RankSum, Placed, LogTrue, MutexTrue, NoLostWakeup;
    if a.Resolve? || a.Lock? || a.Link? || a.Publish? || a.Unlock? || a.Write? {
      WorkerRank(s, a);
    } else if a.Create? || a.Init? {
      RankUpdate(s.phase, a.j, Apply(s, a).phase[a.j]);
    } else if a.Deliver? {
      ChainNull(s.next, s.main.list, l);
    }
  }

  /** A worker step lowers the rank sum by one. */
  lemma WorkerRank(s: State, a: Action)
    requires WellFormed(s) && Enabled(s, a)
    requires a.Resolve? || a.Lock? || a.Link? || a.Publish? || a.Unlock? || a.Write?
    ensures RankSum(Apply(s, a).phase) == RankSum(s.phase) - 1
  {
    hide RankSum;
    RankUpdate(s.phase, a.j, Apply(s, a).phase[a.j]);
  }

  lemma TailRun(ss: seq<State>, acts: seq<Action>)
    requires CalmRun(ss, acts) && acts != []
    ensures CalmRun(ss[1..], acts[1..]) && ss[1..][0] == Apply(ss[0], acts[0])
  {
    forall i | 0 <= i < |acts[1..]|
      ensures WellFormed(ss[1..][i]) && Enabled(ss[1..][i], acts[1..][i])
              && ss[1..][i + 1] == Apply(ss[1..][i], acts[1..][i]) && Calm(ss[1..][i], acts[1..][i])
    {
      assert ss[1..][i] == ss[i + 1] && ss[1..][i + 1] == ss[i + 2] && acts[1..][i] == acts[i + 1];
    }
  }

  predicate AllInternal(acts: seq<Action>) {
    forall i :: 0 <= i < |acts| ==> Internal(acts[i])
  }

  /** No schedule of internal steps goes on for ever: its length is bounded by the work left at its start. */
  lemma {:induction false} InternalRunBounded(ss: seq<State>, acts: seq<Action>, c: seq<Job>, l: seq<Job>)
    requires CalmRun(ss, acts) && AllInternal(acts) && InvWith(ss[0], c, l)
    ensures |acts| <= Work(ss[0], c, l)
    decreases |acts|
  {
    if acts != [] {
      StepInv(ss[0], acts[0], c, l);
      StepWork(ss[0], acts[0], c, l);
      var (c', l') := NextLists(ss[0], acts[0], c, l);
      TailRun(ss, acts);
      InternalRunBounded(ss[1..], acts[1..], c', l');
    }
  }

  ghost predicate Stuck(s: State) {
    WellFormed(s) && forall a :: Internal(a) ==> !Enabled(s, a)
  }

  /** Nothing internal can happen exactly when nothing is left to do. */
  lemma StuckIsQuiet(s: State)
    requires Inv(s)
    ensures Stuck(s) <==> Quiet(s)
  {
    var c, l :| InvWith(s, c, l);
    if !Quiet(s) {
      var a := NoDeadlock(s, c, l);
    } else {
      forall a | Internal(a) ensures !Enabled(s, a) {
        QuietBlocks(s, a);
      }
    }
  }

  lemma QuietBlocks(s: State, a: Action)
    requires WellFormed(s) && Quiet(s) && Internal(a)
    ensures !Enabled(s, a)
  {
  }

  predicate AllDelivered(s: State) {
    forall j: Job :: 1 <= j < |s.phase| ==> Delivered(s.log, j)
  }

  /**
   * A calm run whose schedule cannot be continued has delivered every job submitted, each exactly once and
   * with what its lookup returned.
   */
  lemma EveryJobDelivered(ss: seq<State>, acts: seq<Action>, mu: Pointer)
    requires CalmRun(ss, acts) && ss[0] == StartWith(mu) && mu != Raw
    ensures var s := ss[|acts|];
      && WellFormed(s) && DeliveredOnce(s.log) && LogTrue(s)
      && (Stuck(s) ==> AllDelivered(s))
      && forall k :: 0 <= k < |s.log| ==> LookedUpOnce(ss, acts, s.log[k].0, s.log[k].1)
  {
    RunInv(ss, acts, mu);
    ResultsAreLookups(ss, acts, mu);
    var s := ss[|acts|];
    var c, l :| InvWith(s, c, l);
    StuckIsQuiet(s);
    if Stuck(s) {
      QuietDelivered(s);
    }
  }

  // ---- the race on the first use ----

  /** Carrying out a list of actions from a state. */
  ghost predicate Leads(s: State, acts: seq<Action>, t: State)
    decreases |acts|
  {
    if acts == [] then s == t
    else WellFormed(s) && Enabled(s, acts[0]) && Leads(Apply(s, acts[0]), acts[1..], t)
  }

  lemma {:induction false} LeadsOn(s: State, a: seq<Action>, t: State, b: seq<Action>, u: State)
    requires Leads(s, a, t) && Leads(t, b, u)
    ensures Leads(s, a + b, u)
    decreases |a|
  {
    if a == [] {
      assert a + b == b;
    } else {
      LeadsOn(Apply(s, a[0]), a[1..], t, b, u);
      assert (a + b)[1..] == a[1..] + b;
    }
  }

  lemma {:induction false} LeadsIsRun(s: State, acts: seq<Action>, t: State) returns (ss: seq<State>)
    requires Leads(s, acts, t)
    ensures Run(ss, acts) && ss[0] == s && ss[|acts|] == t
    decreases |acts|
  {
    if acts == [] {
      ss := [s];
    } else {
      var rest := LeadsIsRun(Apply(s, acts[0]), acts[1..], t);
      ss := [s] + rest;
      forall i | 0 <= i < |acts|
        ensures WellFormed(ss[i]) && Enabled(ss[i], acts[i]) && ss[i + 1] == Apply(ss[i], acts[i])
      {
        if i > 0 {
          assert acts[1..][i - 1] == acts[i] && rest[i - 1] == ss[i] && rest[i] == ss[i + 1];
        }
      }
    }
  }

  lemma LeadsThree(s: State, a: Action, b: Action, c: Action, t: State)
    requires WellFormed(s) && Enabled(s, a) && Enabled(Apply(s, a), b) && Enabled(Apply(Apply(s, a), b), c)
    requires t == Apply(Apply(Apply(s, a), b), c)
    ensures Leads(s, [a, b, c], t)
  {
    hide Apply, Enabled;
    var s1 := Apply(s, a);
    var s2 := Apply(s1, b);
    assert Leads(t, [], t);
    assert [c][1..] == [] && Leads(s2, [c], t);
    assert [b, c][1..] == [c] && Leads(s1, [b, c], t);
    assert [a, b, c][1..] == [b, c];
  }

  // Job 1's worker publishes the mutex; job 2's worker locks it and reads the list before it is initialised.
  const BOTH_RESOLVING :=
    State([Finished, Resolving, WantLock], [0, 0, 0], [0, 0, 8], 0, 0, Absent, Free, Running, true, [])
  const EARLY_LOCK := State([Finished, Making, Locked], [0, 0, 0], [0, 7, 8], 0, 0, Raw, Worker(2), Running, true, [])
  // Both are inside: the initialisation left the mutex free.
  const BOTH_INSIDE :=
    State([Finished, Locked, Linked], [0, 0, 0], [0, 7, 8], 0, 0, Ready, Worker(1), Running, true, [])
  const HANDED_OVER := State([Finished, MustWrite, Linked], [0, 0, 0], [0, 7, 8], 1, 0, Ready, Free, Running, true, [])
  // Job 2's worker overwrites the list with itself.
  const OVERWRITTEN :=
    State([Finished, Finished, MustWrite], [0, 0, 0], [0, 7, 8], 2, 1, Ready, Free, Running, true, [])
  const DRAINED := State([Finished, Finished, Finished], [0, 0, 0], [0, 7, 8], 2, 0, Ready, Free, Draining, true, [])
  const TAKEN := State([Finished, Finished, Finished], [0, 0, 0], [0, 7, 8], 2, 0, Ready, Main, Took(2), true, [])
  const DELIVERED :=
    State([Finished, Finished, Finished], [0, 0, 0], [0, 7, 8], 0, 0, Ready, Free, Delivering(0), true, [(2, 8)])

  lemma LeadsFour(s: State, a: seq<Action>, t: State, b: seq<Action>, u: State, c: seq<Action>, v: State,
                  d: seq<Action>, w: State)
    requires Leads(s, a, t) && Leads(t, b, u) && Leads(u, c, v) && Leads(v, d, w)
    ensures Leads(s, a + b + c + d, w)
  {
    hide Leads;
    LeadsOn(s, a, t, b, u);
    LeadsOn(s, a + b, u, c, v);
    LeadsOn(s, a + b + c, v, d, w);
  }

  lemma Step1()
    ensures Leads(StartWith(Absent), [Submit, Submit, Resolve(2, 8)], BOTH_RESOLVING)
  {
    hide Leads;
    LeadsThree(StartWith(Absent), Submit, Submit, Resolve(2, 8), BOTH_RESOLVING);
  }

  lemma Step2()
    ensures Leads(BOTH_RESOLVING, [Resolve(1, 7), Create(1), Lock(2)], EARLY_LOCK)
  {
    hide Leads;
    LeadsThree(BOTH_RESOLVING, Resolve(1, 7), Create(1), Lock(2), EARLY_LOCK);
  }

  lemma Step3()
    ensures Leads(EARLY_LOCK, [Link(2), Init(1), Lock(1)], BOTH_INSIDE)
  {
    hide Leads;
    LeadsThree(EARLY_LOCK, Link(2), Init(1), Lock(1), BOTH_INSIDE);
  }

  lemma Step4()
    ensures Leads(BOTH_INSIDE, [Link(1), Publish(1), Unlock(1)], HANDED_OVER)
  {
    hide Leads;
    LeadsThree(BOTH_INSIDE, Link(1), Publish(1), Unlock(1), HANDED_OVER);
  }

  lemma Step5()
    ensures Leads(HANDED_OVER, [Write(1), Publish(2), Unlock(2)], OVERWRITTEN)
  {
    hide Leads;
    LeadsThree(HANDED_OVER, Write(1), Publish(2), Unlock(2), OVERWRITTEN);
  }

  lemma Step6()
    ensures Leads(OVERWRITTEN, [Write(2), Wake, Read(2)], DRAINED)
  {
    hide Leads;
    LeadsThree(OVERWRITTEN, Write(2), Wake, Read(2), DRAINED);
  }

  lemma Step7()
    ensures Leads(DRAINED, [WouldBlock, MainLock, Take], TAKEN)
  {
    hide Leads;
    LeadsThree(DRAINED, WouldBlock, MainLock, Take, TAKEN);
  }

  lemma Step8()
    ensures Leads(TAKEN, [Clear, MainUnlock, Deliver], DELIVERED)
  {
    hide Leads;
    LeadsThree(TAKEN, Clear, MainUnlock, Deliver, DELIVERED);
  }

  /** Both workers hand over, and the second loses what the first did. */
  lemma LosingSteps() returns (acts: seq<Action>)
    ensures Leads(StartWith(Absent), acts, HANDED_OVER)
  {
    hide Leads, StartWith;
    Step1();
    Step2();
    Step3();
    Step4();
    var a, b := [Submit, Submit, Resolve(2, 8)], [Resolve(1, 7), Create(1), Lock(2)];
    var c, d := [Link(2), Init(1), Lock(1)], [Link(1), Publish(1), Unlock(1)];
    LeadsFour(StartWith(Absent), a, BOTH_RESOLVING, b, EARLY_LOCK, c, BOTH_INSIDE, d, HANDED_OVER);
    acts := a + b + c + d;
  }

  lemma PollingSteps() returns (acts: seq<Action>)
    ensures Leads(HANDED_OVER, acts, DELIVERED)
  {
    hide Leads;
    Step5();
    Step6();
    Step7();
    Step8();
    var a, b := [Write(1), Publish(2), Unlock(2)], [Write(2), Wake, Read(2)];
    var c, d := [WouldBlock, MainLock, Take], [Clear, MainUnlock, Deliver];
    LeadsFour(HANDED_OVER, a, OVERWRITTEN, b, DRAINED, c, TAKEN, d, DELIVERED);
    acts := a + b + c + d;
  }

  /** The round is over: nothing is left to do, and job 1 is in no list. */
  lemma LostForGood() returns (t: State)
    ensures Leads(DELIVERED, [EndRound], t)
    ensures Stuck(t) && 1 < |t.phase| && !Delivered(t.log, 1)
  {
    t := Apply(DELIVERED, EndRound);
    assert [EndRound][1..] == [];
    forall a | Internal(a) ensures !Enabled(t, a) {
      QuietBlocks(t, a);
    }
  }

  /** A run of the lazily created mutex that ends with nothing left to do and job 1 never delivered. */
  lemma FirstUseLosesJob() returns (ss: seq<State>, acts: seq<Action>)
    ensures Run(ss, acts) && ss[0] == StartWith(Absent)
    ensures Stuck(ss[|acts|]) && 1 < |ss[|acts|].phase| && !Delivered(ss[|acts|].log, 1)
  {
    hide Leads, Stuck, Delivered, Run, StartWith;
    var a := LosingSteps();
    var b := PollingSteps();
    var t := LostForGood();
    LeadsOn(StartWith(Absent), a, HANDED_OVER, b, DELIVERED);
    LeadsOn(StartWith(Absent), a + b, DELIVERED, [EndRound], t);
    acts := a + b + [EndRound];
    ss := LeadsIsRun(StartWith(Absent), acts, t);
    assert |ss| == |acts| + 1 by { RunLength(ss, acts); }
  }

  lemma RunLength(ss: seq<State>, acts: seq<Action>)
    requires Run(ss, acts)
    ensures |ss| == |acts| + 1
  {
  }

  /** Every schedule that cannot be continued delivers everything, from this start. */
  ghost predicate Reliable(start: State) {
    forall ss, acts :: Run(ss, acts) && ss[0] == start && Stuck(ss[|acts|]) ==> AllDelivered(ss[|acts|])
  }

  /** The hand-off is reliable exactly when the mutex is initialised before the first job is submitted. */
  lemma ReliableExactlyWhenReady(mu: Pointer)
    requires mu != Raw
    ensures Reliable(StartWith(mu)) <==> mu == Ready
  {
    if mu == Ready {
      forall ss, acts | Run(ss, acts) && ss[0] == StartWith(mu) && Stuck(ss[|acts|]) ensures AllDelivered(ss[|acts|]) {
        ReadyIsCalm(ss, acts);
        EveryJobDelivered(ss, acts, mu);
      }
    } else {
      var ss, acts := FirstUseLosesJob();
    }
  }

  /** In general: an initialisation that finds a worker between its lock and its publication can cost a job. */
  lemma ResetLosesJob(s: State, c: seq<Job>, l: seq<Job>, maker: Job, holder: Job) returns (t: State)
    requires InvWith(s, c, l) && InPhase(s, maker, Making) && InPhase(s, holder, Linked)
    ensures Leads(s, [Init(maker), Lock(maker), Link(maker)] + [Publish(maker), Publish(holder), Unlock(maker)], t)
    ensures InPhase(t, maker, MustWrite) && WellFormed(t) && Chain(t.next, t.head, [holder] + c)
    ensures maker !in [holder] + c && maker !in l && !Delivered(t.log, maker)
  {
    assert s.next[holder] == s.head && maker !in c && maker !in l && !Delivered(s.log, maker);
    hide Leads, Placed, LogTrue, MutexTrue, MakingTrue, NoLostWakeup, Chain, Delivered, Apply;
    var mid := ResetEnters(s, maker, holder);
    t := ResetLeaves(mid, maker, holder);
    LeadsOn(s, [Init(maker), Lock(maker), Link(maker)], mid, [Publish(maker), Publish(holder), Unlock(maker)], t);
    AddHolder(s.next, t.next, s.head, c, maker, holder);
  }

  lemma ResetEnters(s: State, maker: Job, holder: Job) returns (mid: State)
    requires WellFormed(s) && InPhase(s, maker, Making) && InPhase(s, holder, Linked)
    ensures Leads(s, [Init(maker), Lock(maker), Link(maker)], mid)
    ensures WellFormed(mid) && InPhase(mid, maker, Linked) && InPhase(mid, holder, Linked)
    ensures mid.next == s.next[maker := s.head] && mid.head == s.head && mid.log == s.log
  {
    hide Leads;
    mid := Apply(Apply(Apply(s, Init(maker)), Lock(maker)), Link(maker));
    LeadsThree(s, Init(maker), Lock(maker), Link(maker), mid);
  }

  lemma ResetLeaves(s: State, maker: Job, holder: Job) returns (t: State)
    requires WellFormed(s) && InPhase(s, maker, Linked) && InPhase(s, holder, Linked) && maker != holder
    ensures Leads(s, [Publish(maker), Publish(holder), Unlock(maker)], t)
    ensures WellFormed(t) && InPhase(t, maker, MustWrite) && t.next == s.next && t.head == holder && t.log == s.log
  {
    hide Leads;
    t := Apply(Apply(Apply(s, Publish(maker)), Publish(holder)), Unlock(maker));
    LeadsThree(s, Publish(maker), Publish(holder), Unlock(maker), t);
  }

  /** The list with the holder in front of it, whatever became of the maker's link. */
  lemma AddHolder(next: seq<Job>, next': seq<Job>, head: Job, c: seq<Job>, maker: Job, holder: Job)
    requires Chain(next, head, c) && 1 <= maker < |next| && 1 <= holder < |next| && maker != holder
    requires next' == next[maker := head] && next[holder] == head && maker !in c
    ensures Chain(next', holder, [holder] + c)
  {
    ChainKept(next, next', head, c);
    assert ([holder] + c)[1..] == c;
  }
}

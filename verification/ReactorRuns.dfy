/**
 * Runs of the reactor. Every call gets a number; a parked watch, a job record and an answer carry the number
 * of the call they belong to, so that each answer can be traced to its call and to what the system said.
 */
module ReactorRuns {
  import opened Basics
  import opened Reactor
  import Dns

  /** How a name lookup goes: answered without a worker, answered in place for want of a thread, or by a worker. */
  datatype Lookup = Early | Inline | Worker

  /** One call into the reactor, with what the system said during it. */
  datatype Call =
    | Wait(fd: int, alive: bool, interest: int, frame: int, step: int, slot: int)
    | Recv(fd: int, alive: bool, probe: bool, n: int, len: int, frame: int, step: int, slot: int)
    | RecvTo(fd: int, alive: bool, probe: bool, n: int, len: int, tmo: int, clock: int,
             frame: int, step: int, slot: int)
    | Accept(fd: int, alive: bool, probe: bool, c: int, frame: int, step: int, slot: int)
    | Resolve(rfd: int, how: Lookup, r: int, frame: int, step: int, slot: int)
    | Round(es: seq<Event>, now: int)
    | Close(fd: int)

  /** A call made by a coroutine that waits for its answer; io_wait_co has no slot. */
  predicate IsCo(c: Call) {
    !c.Round? && !c.Close?
  }

  predicate CallOk(c: Call) {
    c.Wait? ==> c.slot == 0
  }

  predicate Watches(c: Call) {
    c.Wait? || c.Recv? || c.RecvTo? || c.Accept?
  }

  function Deadline(c: Call): int
    requires c.RecvTo?
  {
    if c.tmo > 0 then c.clock + c.tmo * 1000000 else 0
  }

  /** The watch a call parks. */
  function WatchOf(c: Call): Watch
    requires Watches(c)
  {
    match c
    case Wait(fd, _, interest, frame, step, slot) =>
      Watch(fd, if interest == 2 then WRITE else READ, true, 0, 0, frame, step, slot)
    case Recv(fd, _, _, _, len, frame, step, slot) => Watch(fd, RECV, true, len, 0, frame, step, slot)
    case RecvTo(fd, _, _, _, len, _, _, frame, step, slot) =>
      Watch(fd, RECV_TO, true, len, Deadline(c), frame, step, slot)
    case Accept(fd, _, _, _, frame, step, slot) => Watch(fd, ACCEPT, true, 0, 0, frame, step, slot)
  }

  /** The result a call gets without parking, if any. */
  function AtOnce(c: Call): Option<int>
    requires IsCo(c)
  {
    match c
    case Wait(_, alive, _, _, _, _) => if alive then None else Some(0)
    case Recv(_, alive, probe, n, len, _, _, _) =>
      Unless(-2, if !alive then 0 else if probe then RecvTry(len, n) else -2)
    case RecvTo(_, alive, probe, n, len, _, _, _, _, _) =>
      Unless(-2, if !alive then 0 else if probe then RecvTry(len, n) else -2)
    case Accept(_, alive, probe, r, _, _, _) => Unless(-2, if !alive then -1 else if probe then r else -2)
    case Resolve(_, how, r, _, _, _) => if how == Worker then None else Some(r)
  }

  function Unless(none: int, r: int): Option<int> {
    if r == none then None else Some(r)
  }

  /** The resumption a call asked for, with its result. */
  function Reply(c: Call, result: int): Resumption
    requires IsCo(c)
  {
    Resumption(c.frame, c.step, c.slot, result)
  }

  // ---- the abstract state ----

  /** A parked watch and the call that parked it, -1 for the DNS pipe's own watch. */
  datatype Ticket = Ticket(w: Watch, asked: int)

  /** A resumption, the call it answers, the call during which it happened, and the place in a round. */
  datatype Answer = Answer(x: Resumption, asked: int, at: nat, event: nat)

  /** A job record: the frame to resume, and the call that submitted it. */
  datatype Record = Record(x: Resumption, asked: nat)

  /** Job j of the hand-off is jobs[j - 1]; log holds the deliveries so far. */
  datatype View = View(parked: seq<Ticket>, ready: seq<Answer>, jobs: seq<Record>, log: seq<(Dns.Job, int)>)

  const EMPTY := View([], [], [], [])

  function Parked(p: seq<Ticket>): (ws: seq<Watch>)
    ensures |ws| == |p| && forall k :: 0 <= k < |p| ==> ws[k] == p[k].w
  {
    seq(|p|, k requires 0 <= k < |p| => p[k].w)
  }

  function Resumed(r: seq<Answer>): (xs: seq<Resumption>)
    ensures |xs| == |r| && forall k :: 0 <= k < |r| ==> xs[k] == r[k].x
  {
    seq(|r|, k requires 0 <= k < |r| => r[k].x)
  }

  function Pairs(js: seq<Done>): (ps: seq<(Dns.Job, int)>)
    ensures |ps| == |js| && forall k :: 0 <= k < |js| ==> ps[k] == (js[k].job, js[k].x.result)
  {
    seq(|js|, k requires 0 <= k < |js| => (js[k].job, js[k].x.result))
  }

  /** The deliveries of a round. */
  function RoundLog(p: seq<Ticket>, es: seq<Event>): seq<(Dns.Job, int)>
    requires |p| == |es|
  {
    if p == [] then []
    else
      var m := |p| - 1;
      RoundLog(p[..m], es[..m]) + (if Drains(p[m].w, es[m]) then Pairs(es[m].jobs) else [])
  }

  function Origin(jobs: seq<Record>, j: nat): int {
    if 1 <= j <= |jobs| then jobs[j - 1].asked else -1
  }

  function JobAnswers(js: seq<Done>, at: nat, k: nat, jobs: seq<Record>): (r: seq<Answer>)
    ensures |r| == |js| && forall i :: 0 <= i < |js| ==> r[i] == Answer(js[i].x, Origin(jobs, js[i].job), at, k)
  {
    seq(|js|, i requires 0 <= i < |js| => Answer(js[i].x, Origin(jobs, js[i].job), at, k))
  }

  /** The answers a round gives, and the tickets it leaves. */
  function TicketAnswers(t: Ticket, e: Event, now: int, at: nat, k: nat, jobs: seq<Record>): seq<Answer> {
    (if Outcome(t.w, e, now).Some? then [Answer(Resume(t.w, Outcome(t.w, e, now).value), t.asked, at, k)] else [])
    + (if Drains(t.w, e) then JobAnswers(e.jobs, at, k, jobs) else [])
  }

  function RoundAnswers(p: seq<Ticket>, es: seq<Event>, now: int, at: nat, jobs: seq<Record>): seq<Answer>
    requires |p| == |es|
  {
    if p == [] then []
    else
      var m := |p| - 1;
      RoundAnswers(p[..m], es[..m], now, at, jobs) + TicketAnswers(p[m], es[m], now, at, m, jobs)
  }

  function RoundTickets(p: seq<Ticket>, es: seq<Event>, now: int): seq<Ticket>
    requires |p| == |es|
  {
    if p == [] then []
    else
      var m := |p| - 1;
      RoundTickets(p[..m], es[..m], now) + (if Outcome(p[m].w, es[m], now).None? then [p[m]] else [])
  }

  function CloseAnswers(p: seq<Ticket>, fd: int, at: nat): seq<Answer> {
    if p == [] then []
    else
      var m := |p| - 1;
      CloseAnswers(p[..m], fd, at)
      + (if p[m].w.fd == fd then [Answer(Resume(p[m].w, ClosedResult(p[m].w.kind)), p[m].asked, at, m)] else [])
  }

  function CloseTickets(p: seq<Ticket>, fd: int): seq<Ticket> {
    if p == [] then []
    else CloseTickets(p[..|p| - 1], fd) + (if p[|p| - 1].w.fd != fd then [p[|p| - 1]] else [])
  }

  /** A finished lookup is one of a submitted job, with that job's frame. */
  predicate JobsMatch(jobs: seq<Record>, js: seq<Done>) {
    forall i :: 0 <= i < |js| ==>
      1 <= js[i].job <= |jobs| && js[i].x == jobs[js[i].job - 1].x.(result := js[i].x.result)
  }

  /** What the system may do: one event per watch, and lookups delivered as the hand-off delivers them, never twice. */
  predicate Possible(v: View, c: Call) {
    && CallOk(c)
    && (c.Round? ==>
          && |c.es| == |v.parked|
          && (forall k :: 0 <= k < |c.es| && Drains(v.parked[k].w, c.es[k]) ==> JobsMatch(v.jobs, c.es[k].jobs))
          && Dns.DeliveredOnce(v.log + RoundLog(v.parked, c.es)))
    && (c.Resolve? && c.how == Inline ==> Dns.DeliveredOnce(v.log + [(|v.jobs| + 1, c.r)]))
  }

  function WithPipe(p: seq<Ticket>, rfd: int): seq<Ticket> {
    p + (if WatchesPipe(Parked(p)) then [] else [Ticket(PipeWatch(rfd), -1)])
  }

  /** Call number `at` on the abstract state. */
  function Apply(v: View, c: Call, at: nat): View
    requires Possible(v, c)
  {
    match c
    case Round(es, now) =>
      View(RoundTickets(v.parked, es, now), v.ready + RoundAnswers(v.parked, es, now, at, v.jobs), v.jobs,
           v.log + RoundLog(v.parked, es))
    case Close(fd) =>
      v.(parked := CloseTickets(v.parked, fd), ready := v.ready + CloseAnswers(v.parked, fd, at))
    case Resolve(rfd, how, r, _, _, _) =>
      var a := [Answer(Reply(c, r), at, at, 0)];
      if how == Early then v.(ready := v.ready + a)
      else if how == Inline then
        View(WithPipe(v.parked, rfd), v.ready + a, v.jobs + [Record(Reply(c, 0), at)], v.log + [(|v.jobs| + 1, r)])
      else v.(parked := WithPipe(v.parked, rfd), jobs := v.jobs + [Record(Reply(c, 0), at)])
    case _ =>
      if AtOnce(c).Some? then v.(ready := v.ready + [Answer(Reply(c, AtOnce(c).value), at, at, 0)])
      else v.(parked := v.parked + [Ticket(WatchOf(c), at)])
  }

  // ---- the table does it ----

  lemma {:induction false} RoundErased(p: seq<Ticket>, es: seq<Event>, now: int, at: nat, jobs: seq<Record>)
    requires |p| == |es|
    ensures Parked(RoundTickets(p, es, now)) == RoundKept(Parked(p), es, now)
    ensures Resumed(RoundAnswers(p, es, now, at, jobs)) == RoundReady(Parked(p), es, now)
  {
    if p != [] {
      hide Outcome;
      var m := |p| - 1;
      RoundErased(p[..m], es[..m], now, at, jobs);
      assert Parked(p)[..m] == Parked(p[..m]);
      TicketErased(p[m], es[m], now, at, m, jobs);
    }
  }

  lemma TicketErased(t: Ticket, e: Event, now: int, at: nat, k: nat, jobs: seq<Record>)
    ensures Resumed(TicketAnswers(t, e, now, at, k, jobs)) == Woken(t.w, e, now)
  {
    hide Outcome;
  }

  lemma {:induction false} CloseErased(p: seq<Ticket>, fd: int, at: nat)
    ensures Parked(CloseTickets(p, fd)) == ClosedKept(Parked(p), fd)
    ensures Resumed(CloseAnswers(p, fd, at)) == ClosedReady(Parked(p), fd)
  {
    if p != [] {
      var m := |p| - 1;
      CloseErased(p[..m], fd, at);
      assert Parked(p)[..m] == Parked(p[..m]);
    }
  }

  predicate Stands(ws: seq<Watch>, ready: seq<Resumption>, v: View) {
    ws == Parked(v.parked) && ready == Resumed(v.ready)
  }

  /** One call on the table is the abstract step, tickets apart. */
  method Do(t: Table, c: Call, ghost v: View, ghost at: nat)
    requires t.Valid() && Stands(t.Parked(), t.ready, v) && Possible(v, c)
    modifies t, t.ws
    ensures t.Valid() && (t.ws == old(t.ws) || fresh(t.ws))
    ensures Stands(t.Parked(), t.ready, Apply(v, c, at))
  {
    hide Active, RoundReady, RoundKept, ClosedReady, ClosedKept, RoundTickets, RoundAnswers, CloseTickets, CloseAnswers;
    match c
    case Resolve(rfd, how, r, frame, step, slot) => ResolveCo(t, rfd, how, r, frame, step, slot);
    case Round(es, now) =>
      RoundErased(v.parked, es, now, at, v.jobs);
      var _ := t.Poll(es, now);
    case Close(fd) =>
      CloseErased(v.parked, fd, at);
      t.CloseNotify(fd);
    case _ => DoWatch(t, c, v, at);
  }

  method DoWatch(t: Table, c: Call, ghost v: View, ghost at: nat)
    requires t.Valid() && Stands(t.Parked(), t.ready, v) && Possible(v, c) && Watches(c)
    modifies t, t.ws
    ensures t.Valid() && (t.ws == old(t.ws) || fresh(t.ws))
    ensures Stands(t.Parked(), t.ready, Apply(v, c, at))
  {
    hide Active, RecvTry;
    match c {
      case Wait(fd, alive, interest, frame, step, _) => t.WaitCo(fd, alive, interest, frame, step);
      case Recv(fd, alive, probe, n, len, frame, step, slot) => t.RecvCo(fd, alive, probe, n, len, frame, step, slot);
      case RecvTo(fd, alive, probe, n, len, tmo, clock, frame, step, slot) =>
        t.RecvToCo(fd, alive, probe, n, len, tmo, clock, frame, step, slot);
      case Accept(fd, alive, probe, n, frame, step, slot) => t.AcceptCo(fd, alive, probe, n, frame, step, slot);
    }
  }

  /** resolve_sa_co: the pipe is watched before the worker is tried; without a worker the frame resumes at once. */
  method ResolveCo(t: Table, rfd: int, how: Lookup, r: int, frame: int, step: int, slot: int)
    requires t.Valid()
    modifies t, t.ws
    ensures t.Valid() && (t.ws == old(t.ws) || fresh(t.ws))
    ensures t.Parked() == old(t.Parked())
                          + (if how == Early || WatchesPipe(old(t.Parked())) then [] else [PipeWatch(rfd)])
    ensures t.ready == old(t.ready) + (if how == Worker then [] else [Resumption(frame, step, slot, r)])
  {
    hide Active;
    assert t.Parked() + [] == t.Parked() && t.ready + [] == t.ready;
    if how == Early {
      t.ready := t.ready + [Resumption(frame, step, slot, r)];
      return;
    }
    t.EnsurePipe(rfd);
    if how == Inline {
      t.ready := t.ready + [Resumption(frame, step, slot, r)];
    }
  }

  // ---- runs from the empty table ----

  predicate Legal(cs: seq<Call>)
    decreases |cs|, 0
  {
    cs == [] || (Legal(cs[..|cs| - 1]) && Possible(After(cs[..|cs| - 1]), cs[|cs| - 1]))
  }

  function After(cs: seq<Call>): View
    requires Legal(cs)
    decreases |cs|, 1
  {
    if cs == [] then EMPTY else Apply(After(cs[..|cs| - 1]), cs[|cs| - 1], |cs| - 1)
  }

  lemma {:induction false} LegalPrefix(cs: seq<Call>, i: nat)
    requires Legal(cs) && i <= |cs|
    ensures Legal(cs[..i])
    decreases |cs|
  {
    if i < |cs| {
      LegalPrefix(cs[..|cs| - 1], i);
      assert cs[..|cs| - 1][..i] == cs[..i];
    } else {
      assert cs[..i] == cs;
    }
  }

  /** The last call of a run. */
  lemma AfterLast(cs: seq<Call>, i: nat)
    requires Legal(cs) && i < |cs|
    ensures Legal(cs[..i]) && Legal(cs[..i + 1]) && Possible(After(cs[..i]), cs[i])
    ensures After(cs[..i + 1]) == Apply(After(cs[..i]), cs[i], i)
  {
    LegalPrefix(cs, i);
    LegalPrefix(cs, i + 1);
    assert cs[..i + 1][..i] == cs[..i];
  }

  /** Any run, carried out on the table. */
  method Serve(cs: seq<Call>) returns (t: Table)
    requires Legal(cs)
    ensures t.Valid() && Stands(t.Parked(), t.ready, After(cs))
  {
    hide Active, Apply, Possible, Legal, After;
    t := new Table();
    var i := 0;
    EmptyRun(cs[..0]);
    while i < |cs|
      invariant 0 <= i <= |cs| && t.Valid() && fresh(t) && fresh(t.ws)
      invariant Legal(cs[..i]) && Stands(t.Parked(), t.ready, After(cs[..i]))
    {
      AfterLast(cs, i);
      Do(t, cs[i], After(cs[..i]), i);
      i := i + 1;
    }
    assert cs[..i] == cs;
  }

  lemma EmptyRun(cs: seq<Call>)
    requires cs == []
    ensures Legal(cs) && After(cs) == EMPTY && Stands([], [], EMPTY)
  {
  }

  // ---- every answer traced to its call ----

  /** The call the number stands for parked this very watch. */
  predicate TicketTrue(cs: seq<Call>, t: Ticket) {
    if t.asked < 0 then t.w.kind == DNS
    else t.asked < |cs| && Watches(cs[t.asked]) && AtOnce(cs[t.asked]).None? && t.w == WatchOf(cs[t.asked])
  }

  predicate RecordTrue(cs: seq<Call>, r: Record) {
    r.asked < |cs| && cs[r.asked].Resolve? && r.x == Reply(cs[r.asked], 0)
  }

  /** Why call c got its answer during the later call d. */
  predicate Explains(c: Call, d: Call, a: Answer)
    requires IsCo(c)
  {
    match d
    case Round(es, now) =>
      && a.event < |es|
      && (Watches(c) ==> Outcome(WatchOf(c), es[a.event], now) == Some(a.x.result))
      && (c.Resolve? ==> exists i :: 0 <= i < |es[a.event].jobs| && es[a.event].jobs[i].x == a.x)
    case Close(fd) => Watches(c) && WatchOf(c).fd == fd && a.x.result == ClosedResult(WatchOf(c).kind)
    case _ => false
  }

  /** An answer goes to the frame that asked, with the result of the call itself or of what woke it. */
  predicate AnswerTrue(cs: seq<Call>, a: Answer) {
    && a.at < |cs|
    && (a.asked >= 0 ==>
          && a.asked <= a.at && IsCo(cs[a.asked]) && a.x == Reply(cs[a.asked], a.x.result)
          && if a.asked == a.at then AtOnce(cs[a.asked]) == Some(a.x.result)
             else AtOnce(cs[a.asked]).None? && Explains(cs[a.asked], cs[a.at], a))
  }

  /** A lookup answered in place counts as delivered. */
  predicate InlineDone(cs: seq<Call>, v: View) {
    forall j: Dns.Job :: 1 <= j <= |v.jobs| && RecordTrue(cs, v.jobs[j - 1]) && AtOnce(cs[v.jobs[j - 1].asked]).Some?
      ==> Dns.Delivered(v.log, j)
  }

  predicate TicketsTrue(cs: seq<Call>, p: seq<Ticket>) {
    forall k :: 0 <= k < |p| ==> TicketTrue(cs, p[k])
  }

  predicate AnswersTrue(cs: seq<Call>, r: seq<Answer>) {
    forall k :: 0 <= k < |r| ==> AnswerTrue(cs, r[k])
  }

  predicate RecordsTrue(cs: seq<Call>, jobs: seq<Record>) {
    forall k :: 0 <= k < |jobs| ==> RecordTrue(cs, jobs[k])
  }

  predicate ViewTrue(cs: seq<Call>, v: View) {
    TicketsTrue(cs, v.parked) && AnswersTrue(cs, v.ready) && RecordsTrue(cs, v.jobs) && InlineDone(cs, v)
  }

  /** What is true of a run stays true when it goes on. */
  lemma TrueLater(cs: seq<Call>, n: nat, v: View)
    requires n <= |cs| && ViewTrue(cs[..n], v)
    ensures ViewTrue(cs, v)
    ensures forall k :: 0 <= k < |v.parked| ==> v.parked[k].asked < n
    ensures forall k :: 0 <= k < |v.jobs| ==> v.jobs[k].asked < n
  {
    hide WatchOf, AtOnce, Reply, Explains;
    assert forall i :: 0 <= i < n ==> cs[..n][i] == cs[i];
    forall k | 0 <= k < |v.ready| ensures AnswerTrue(cs, v.ready[k]) {
      assert AnswerTrue(cs[..n], v.ready[k]);
    }
    forall k | 0 <= k < |v.parked| ensures TicketTrue(cs, v.parked[k]) {
      assert TicketTrue(cs[..n], v.parked[k]);
    }
    forall k | 0 <= k < |v.jobs| ensures RecordTrue(cs, v.jobs[k]) {
      assert RecordTrue(cs[..n], v.jobs[k]);
    }
    forall j: Dns.Job | 1 <= j <= |v.jobs| && AtOnce(cs[v.jobs[j - 1].asked]).Some? ensures Dns.Delivered(v.log, j) {
      assert RecordTrue(cs[..n], v.jobs[j - 1]);
    }
  }

  /** A lookup delivered now was not delivered before. */
  lemma {:induction false} RoundLogHas(p: seq<Ticket>, es: seq<Event>, k: nat, i: nat)
    requires |p| == |es| && k < |p| && Drains(p[k].w, es[k]) && i < |es[k].jobs|
    ensures exists q :: 0 <= q < |RoundLog(p, es)| && RoundLog(p, es)[q].0 == es[k].jobs[i].job
    decreases |p|
  {
    var m := |p| - 1;
    if k < m {
      RoundLogHas(p[..m], es[..m], k, i);
      var q :| 0 <= q < |RoundLog(p[..m], es[..m])| && RoundLog(p[..m], es[..m])[q].0 == es[k].jobs[i].job;
      assert RoundLog(p, es)[q].0 == es[k].jobs[i].job;
    } else {
      assert RoundLog(p, es)[|RoundLog(p[..m], es[..m])| + i].0 == es[k].jobs[i].job;
    }
  }

  lemma NotBefore(log: seq<(Dns.Job, int)>, more: seq<(Dns.Job, int)>, q: nat)
    requires Dns.DeliveredOnce(log + more) && q < |more|
    ensures !Dns.Delivered(log, more[q].0)
  {
    var all := log + more;
    assert all[|log| + q] == more[q];
    forall i | 0 <= i < |log| ensures log[i].0 != more[q].0 {
      assert all[i] == log[i];
    }
  }

  /** The lookups of one drained event: each has a worker's record, whose call is still waiting. */
  predicate Waiting(cs: seq<Call>, at: nat, jobs: seq<Record>, js: seq<Done>) {
    && RecordsTrue(cs, jobs) && JobsMatch(jobs, js)
    && forall i :: 0 <= i < |js| && 1 <= js[i].job <= |jobs| ==>
         jobs[js[i].job - 1].asked < at && AtOnce(cs[jobs[js[i].job - 1].asked]).None?
  }

  lemma DrainedWait(cs: seq<Call>, n: nat, v: View, es: seq<Event>, now: int, k: nat)
    requires n < |cs| && ViewTrue(cs[..n], v) && Possible(v, Round(es, now)) && k < |es|
    requires Drains(v.parked[k].w, es[k])
    ensures Waiting(cs, n, v.jobs, es[k].jobs)
  {
    hide AtOnce, Reply, WatchOf, Explains;
    TrueLater(cs, n, v);
    var js := es[k].jobs;
    forall i | 0 <= i < |js| ensures AtOnce(cs[v.jobs[js[i].job - 1].asked]).None? {
      RoundLogHas(v.parked, es, k, i);
      var q :| 0 <= q < |RoundLog(v.parked, es)| && RoundLog(v.parked, es)[q].0 == js[i].job;
      NotBefore(v.log, RoundLog(v.parked, es), q);
      assert RecordTrue(cs, v.jobs[js[i].job - 1]);
    }
  }

  lemma JobAnswersTrue(cs: seq<Call>, es: seq<Event>, now: int, at: nat, k: nat, jobs: seq<Record>)
    requires at + 1 == |cs| && cs[at] == Round(es, now) && k < |es| && Waiting(cs, at, jobs, es[k].jobs)
    ensures AnswersTrue(cs, JobAnswers(es[k].jobs, at, k, jobs))
  {
    hide AtOnce, WatchOf;
    var js := es[k].jobs;
    var r := JobAnswers(js, at, k, jobs);
    forall i | 0 <= i < |r| ensures AnswerTrue(cs, r[i]) {
      var rec := jobs[js[i].job - 1];
      assert RecordTrue(cs, rec);
      assert es[k].jobs[i].x == r[i].x;
    }
  }

  lemma {:induction false} RoundTrue(cs: seq<Call>, p: seq<Ticket>, es: seq<Event>, now: int, at: nat,
                                     jobs: seq<Record>)
    requires at + 1 == |cs| && cs[at] == Round(es, now) && |p| <= |es|
    requires TicketsTrue(cs, p) && forall k :: 0 <= k < |p| ==> p[k].asked < at
    requires forall k :: 0 <= k < |p| && Drains(p[k].w, es[k]) ==> Waiting(cs, at, jobs, es[k].jobs)
    ensures TicketsTrue(cs, RoundTickets(p, es[..|p|], now))
    ensures AnswersTrue(cs, RoundAnswers(p, es[..|p|], now, at, jobs))
    decreases |p|
  {
    hide AtOnce, WatchOf, Outcome, Reply, Waiting;
    if p != [] {
      var m := |p| - 1;
      RoundTrue(cs, p[..m], es, now, at, jobs);
      assert es[..|p|][..m] == es[..m];
      assert TicketTrue(cs, p[m]);
      TicketAnswersTrue(cs, p[m], es, now, at, m, jobs);
    }
  }

  lemma TicketAnswersTrue(cs: seq<Call>, t: Ticket, es: seq<Event>, now: int, at: nat, k: nat, jobs: seq<Record>)
    requires at + 1 == |cs| && cs[at] == Round(es, now) && k < |es|
    requires TicketTrue(cs, t) && t.asked < at
    requires Drains(t.w, es[k]) ==> Waiting(cs, at, jobs, es[k].jobs)
    ensures AnswersTrue(cs, TicketAnswers(t, es[k], now, at, k, jobs))
  {
    hide AtOnce, Outcome, Waiting;
    if Drains(t.w, es[k]) {
      JobAnswersTrue(cs, es, now, at, k, jobs);
    }
    if Outcome(t.w, es[k], now).Some? {
      var a := Answer(Resume(t.w, Outcome(t.w, es[k], now).value), t.asked, at, k);
      assert AnswerTrue(cs, a);
    }
  }

  lemma {:induction false} CloseTrue(cs: seq<Call>, p: seq<Ticket>, fd: int, at: nat)
    requires at + 1 == |cs| && cs[at] == Close(fd)
    requires TicketsTrue(cs, p) && forall k :: 0 <= k < |p| ==> p[k].asked < at
    ensures TicketsTrue(cs, CloseTickets(p, fd)) && AnswersTrue(cs, CloseAnswers(p, fd, at))
    decreases |p|
  {
    hide AtOnce;
    if p != [] {
      var m := |p| - 1;
      CloseTrue(cs, p[..m], fd, at);
      assert TicketTrue(cs, p[m]);
    }
  }

  lemma DeliveredLater(log: seq<(Dns.Job, int)>, more: seq<(Dns.Job, int)>)
    ensures forall j: Dns.Job :: Dns.Delivered(log, j) ==> Dns.Delivered(log + more, j)
  {
    forall j: Dns.Job | Dns.Delivered(log, j) ensures Dns.Delivered(log + more, j) {
      var i :| 0 <= i < |log| && log[i].0 == j;
      assert (log + more)[i].0 == j;
    }
  }

  lemma StepTrue(cs: seq<Call>, n: nat, v: View)
    requires n + 1 == |cs| && ViewTrue(cs[..n], v) && Possible(v, cs[n])
    ensures ViewTrue(cs, Apply(v, cs[n], n))
  {
    TrueLater(cs, n, v);
    match cs[n]
    case Round(es, now) =>
      forall k | 0 <= k < |es| && Drains(v.parked[k].w, es[k]) ensures Waiting(cs, n, v.jobs, es[k].jobs) {
        DrainedWait(cs, n, v, es, now, k);
      }
      RoundTrue(cs, v.parked, es, now, n, v.jobs);
      assert es[..|v.parked|] == es;
      DeliveredLater(v.log, RoundLog(v.parked, es));
    case Close(fd) => CloseTrue(cs, v.parked, fd, n);
    case Resolve(_, _, _, _, _, _) => ResolveTrue(cs, n, v);
    case _ =>
  }

  lemma ResolveTrue(cs: seq<Call>, n: nat, v: View)
    requires n + 1 == |cs| && ViewTrue(cs, v) && cs[n].Resolve? && Possible(v, cs[n])
    ensures ViewTrue(cs, Apply(v, cs[n], n))
  {
    hide WatchOf, Explains;
    var t, c := Apply(v, cs[n], n), cs[n];
    assert TicketsTrue(cs, WithPipe(v.parked, c.rfd));
    if c.how != Early {
      if c.how == Inline {
        DeliveredLater(v.log, [(|v.jobs| + 1, c.r)]);
        assert t.log[|v.log|].0 == |v.jobs| + 1;
      }
      forall j: Dns.Job | 1 <= j <= |t.jobs| && AtOnce(cs[t.jobs[j - 1].asked]).Some? ensures Dns.Delivered(t.log, j) {
        assert j <= |v.jobs| ==> RecordTrue(cs, v.jobs[j - 1]);
      }
    }
  }

  /** Over every run each ticket, record and answer is what its number says. */
  lemma {:induction false} RunTrue(cs: seq<Call>)
    requires Legal(cs)
    ensures ViewTrue(cs, After(cs))
    decreases |cs|
  {
    hide ViewTrue, Apply, Possible;
    if cs == [] {
      NothingYet();
    } else {
      RunTrue(cs[..|cs| - 1]);
      StepTrue(cs, |cs| - 1, After(cs[..|cs| - 1]));
    }
  }

  lemma NothingYet()
    ensures ViewTrue([], EMPTY)
  {
  }

  // ---- the timed receive ----

  /** The receive tried during the call failed. */
  predicate FailsAtOnce(c: Call)
    requires c.RecvTo?
  {
    c.alive && c.probe && RecvTry(c.len, c.n) == -1
  }

  /** The receive tried in a round failed. */
  predicate FailsInRound(c: Call, e: Event)
    requires c.RecvTo?
  {
    !e.nval && e.ready && RecvTry(c.len, e.n) == -1
  }

  /** The deadline of the call has passed, and its descriptor gave neither data nor end of file in that round. */
  predicate TimesOut(c: Call, e: Event, now: int)
    requires c.RecvTo?
  {
    && c.tmo > 0 && c.clock + c.tmo * 1000000 != 0 && now >= c.clock + c.tmo * 1000000
    && !e.nval && (!e.ready || RecvTry(c.len, e.n) == -2)
  }

  predicate AnswersWatch(cs: seq<Call>, a: Answer) {
    0 <= a.asked < |cs| && Watches(cs[a.asked])
  }

  predicate AnswersRecvTo(cs: seq<Call>, a: Answer) {
    0 <= a.asked < |cs| && cs[a.asked].RecvTo?
  }

  predicate InRound(cs: seq<Call>, a: Answer) {
    0 <= a.asked < a.at < |cs| && cs[a.at].Round? && a.event < |cs[a.at].es|
  }

  predicate IsTimeout(cs: seq<Call>, a: Answer)
    requires AnswersRecvTo(cs, a)
  {
    InRound(cs, a) && TimesOut(cs[a.asked], cs[a.at].es[a.event], cs[a.at].now)
  }

  predicate IsFailure(cs: seq<Call>, a: Answer)
    requires AnswersRecvTo(cs, a)
  {
    || (a.at == a.asked && FailsAtOnce(cs[a.asked]))
    || (InRound(cs, a) && FailsInRound(cs[a.asked], cs[a.at].es[a.event]))
  }

  /**
   * Over every run, an answer to a timed receive goes to the frame that asked, and is -1 exactly when the
   * receive failed, at once or in a round, or the deadline of that very call passed in a round without data
   * or end of file.
   */
  lemma TimedReceive(cs: seq<Call>, q: nat)
    requires Legal(cs) && q < |After(cs).ready| && AnswersRecvTo(cs, After(cs).ready[q])
    ensures var a := After(cs).ready[q];
            && a.asked <= a.at < |cs| && a.x == Reply(cs[a.asked], a.x.result)
            && (a.x.result == -1 <==> IsFailure(cs, a) || IsTimeout(cs, a))
  {
    hide Legal, After;
    RunTrue(cs);
    TimedAnswer(cs, After(cs).ready[q]);
  }

  lemma TimedAnswer(cs: seq<Call>, a: Answer)
    requires AnswersRecvTo(cs, a) && AnswerTrue(cs, a)
    ensures a.x.result == -1 <==> IsFailure(cs, a) || IsTimeout(cs, a)
  {
    hide RecvTry;
  }

  predicate TimeoutsOnly(cs: seq<Call>)
    requires Legal(cs)
  {
    forall q :: 0 <= q < |After(cs).ready| && AnswersRecvTo(cs, After(cs).ready[q]) && After(cs).ready[q].x.result == -1
      ==> IsTimeout(cs, After(cs).ready[q])
  }

  /** No timed receive met a failing recv: neither at its call nor while it was parked. */
  predicate NoFailure(cs: seq<Call>)
    requires Legal(cs)
  {
    && (forall i :: 0 <= i < |cs| && cs[i].RecvTo? ==> !FailsAtOnce(cs[i]))
    && (forall j :: 0 <= j < |cs| && cs[j].Round? ==> RoundClean(cs, j))
  }

  predicate RoundClean(cs: seq<Call>, j: nat)
    requires Legal(cs) && j < |cs| && cs[j].Round?
  {
    AfterLast(cs, j);
    var p := After(cs[..j]).parked;
    forall k :: 0 <= k < |p| && 0 <= p[k].asked < |cs| && cs[p[k].asked].RecvTo? ==>
      !FailsInRound(cs[p[k].asked], cs[j].es[k])
  }

  /** Answers are only ever appended. */
  lemma {:induction false} ReadyGrows(cs: seq<Call>, i: nat)
    requires Legal(cs) && i <= |cs|
    ensures Legal(cs[..i]) && After(cs[..i]).ready <= After(cs).ready
    decreases |cs|
  {
    LegalPrefix(cs, i);
    if i < |cs| {
      var n := |cs| - 1;
      AfterLast(cs, n);
      assert cs[..n + 1] == cs && cs[..n][..i] == cs[..i];
      ReadyGrows(cs[..n], i);
      StepGrows(After(cs[..n]), cs[n], n);
    } else {
      assert cs[..i] == cs;
    }
  }

  lemma StepGrows(v: View, c: Call, at: nat)
    requires Possible(v, c)
    ensures v.ready <= Apply(v, c, at).ready
  {
    hide Possible, RoundAnswers, CloseAnswers;
  }

  /** The answer a parked watch gets in a round is among the round's answers. */
  lemma {:induction false} RoundGives(p: seq<Ticket>, es: seq<Event>, now: int, at: nat, jobs: seq<Record>, k: nat)
    requires |p| == |es| && k < |p| && Outcome(p[k].w, es[k], now).Some?
    ensures Answer(Resume(p[k].w, Outcome(p[k].w, es[k], now).value), p[k].asked, at, k)
            in RoundAnswers(p, es, now, at, jobs)
    decreases |p|
  {
    hide Outcome;
    var m := |p| - 1;
    if k < m {
      RoundGives(p[..m], es[..m], now, at, jobs, k);
    } else {
      assert TicketAnswers(p[m], es[m], now, at, m, jobs)[0].event == m;
    }
  }

  /** A failing recv answers its call with -1. */
  lemma FailureAnswers(cs: seq<Call>, j: nat, k: nat)
    requires Legal(cs) && j < |cs| && cs[j].Round? && Legal(cs[..j]) && k < |After(cs[..j]).parked| == |cs[j].es|
    requires var i := After(cs[..j]).parked[k].asked; 0 <= i < |cs| && cs[i].RecvTo? && FailsInRound(cs[i], cs[j].es[k])
    ensures !TimeoutsOnly(cs)
  {
    hide Legal, After, Possible, RoundAnswers, RoundTickets;
    AfterLast(cs, j);
    var v, c := After(cs[..j]), cs[j];
    var t := v.parked[k];
    RunTrue(cs[..j]);
    assert TicketTrue(cs[..j], t);
    var a := Answer(Resume(t.w, -1), t.asked, j, k);
    assert Outcome(t.w, c.es[k], c.now) == Some(-1);
    RoundGives(v.parked, c.es, c.now, j, v.jobs, k);
    ReadyGrows(cs, j + 1);
    FoundIn(a, v.ready, RoundAnswers(v.parked, c.es, c.now, j, v.jobs), After(cs).ready);
    var q :| 0 <= q < |After(cs).ready| && After(cs).ready[q] == a;
    assert !IsTimeout(cs, a);
  }

  lemma FoundIn(a: Answer, r: seq<Answer>, more: seq<Answer>, all: seq<Answer>)
    requires a in more && r + more <= all
    ensures exists q :: 0 <= q < |all| && all[q] == a
  {
    var i :| 0 <= i < |more| && more[i] == a;
    assert (r + more)[|r| + i] == a;
    assert all[|r| + i] == a;
  }

  lemma FailureAtOnce(cs: seq<Call>, i: nat)
    requires Legal(cs) && i < |cs| && cs[i].RecvTo? && FailsAtOnce(cs[i])
    ensures !TimeoutsOnly(cs)
  {
    hide Legal, After, Possible;
    AfterLast(cs, i);
    var a := Answer(Reply(cs[i], -1), i, i, 0);
    assert AtOnce(cs[i]) == Some(-1);
    ReadyGrows(cs, i + 1);
    FoundIn(a, After(cs[..i]).ready, [a], After(cs).ready);
    var q :| 0 <= q < |After(cs).ready| && After(cs).ready[q] == a;
    assert !IsTimeout(cs, a);
  }

  /** The answer comes from the watch at its place in the round, or from a lookup. */
  predicate From(p: seq<Ticket>, jobs: seq<Record>, a: Answer) {
    && a.event < |p|
    && (a.asked == p[a.event].asked || a.asked == -1 || exists j :: 0 <= j < |jobs| && jobs[j].asked == a.asked)
  }

  lemma {:induction false} RoundFrom(p: seq<Ticket>, es: seq<Event>, now: int, at: nat, jobs: seq<Record>)
    requires |p| == |es|
    ensures forall i :: 0 <= i < |RoundAnswers(p, es, now, at, jobs)| ==>
              RoundAnswers(p, es, now, at, jobs)[i].at == at && From(p, jobs, RoundAnswers(p, es, now, at, jobs)[i])
    decreases |p|
  {
    hide Outcome;
    if p != [] {
      var m := |p| - 1;
      RoundFrom(p[..m], es[..m], now, at, jobs);
      var r := RoundAnswers(p[..m], es[..m], now, at, jobs);
      var all := RoundAnswers(p, es, now, at, jobs);
      forall i | 0 <= i < |all| ensures all[i].at == at && From(p, jobs, all[i]) {
        if i < |r| {
          assert From(p[..m], jobs, r[i]);
        } else {
          TicketFrom(p, es[m], now, at, jobs, i - |r|);
        }
      }
    }
  }

  lemma TicketFrom(p: seq<Ticket>, e: Event, now: int, at: nat, jobs: seq<Record>, i: nat)
    requires p != [] && i < |TicketAnswers(p[|p| - 1], e, now, at, |p| - 1, jobs)|
    ensures var a := TicketAnswers(p[|p| - 1], e, now, at, |p| - 1, jobs)[i]; a.at == at && From(p, jobs, a)
  {
    hide Outcome;
    var a := TicketAnswers(p[|p| - 1], e, now, at, |p| - 1, jobs)[i];
    if a.asked != p[|p| - 1].asked && a.asked != -1 {
      var o := |TicketAnswers(p[|p| - 1], e, now, at, |p| - 1, jobs)| - |e.jobs|;
      assert a == JobAnswers(e.jobs, at, |p| - 1, jobs)[i - o];
      assert jobs[e.jobs[i - o].job - 1].asked == a.asked;
    }
  }

  /** The answer a watch got in a round stands at that watch's place in it. */
  lemma {:induction false} AnsweredAtPlace(cs: seq<Call>, q: nat)
    requires Legal(cs) && q < |After(cs).ready| && AnswersWatch(cs, After(cs).ready[q])
    requires InRound(cs, After(cs).ready[q])
    ensures var a := After(cs).ready[q];
            Legal(cs[..a.at]) && a.event < |After(cs[..a.at]).parked|
            && After(cs[..a.at]).parked[a.event].asked == a.asked
    decreases |cs|
  {
    hide Legal, After, Possible, RoundAnswers, RoundTickets, CloseAnswers, ViewTrue;
    RunTrue(cs);
    var a := After(cs).ready[q];
    assert AnswerTrue(cs, a) by { ViewAnswer(cs, After(cs), q); }
    LegalPrefix(cs, a.at);
    var n := |cs| - 1;
    AfterLast(cs, n);
    assert cs[..n + 1] == cs;
    var v := After(cs[..n]);
    RunTrue(cs[..n]);
    if q < |v.ready| {
      assert v.ready[q] == a by { StepGrows(v, cs[n], n); }
      ViewAnswer(cs[..n], v, q);
      AnsweredAtPlace(cs[..n], q);
      assert cs[..n][..a.at] == cs[..a.at];
    } else {
      NewAnswer(cs, v, n, q);
    }
  }

  lemma ViewAnswer(cs: seq<Call>, v: View, q: nat)
    requires ViewTrue(cs, v) && q < |v.ready|
    ensures AnswerTrue(cs, v.ready[q])
  {
  }

  lemma NewAnswer(cs: seq<Call>, v: View, n: nat, q: nat)
    requires n + 1 == |cs| && ViewTrue(cs[..n], v) && Possible(v, cs[n])
    requires |v.ready| <= q < |Apply(v, cs[n], n).ready|
    requires var a := Apply(v, cs[n], n).ready[q]; AnswersWatch(cs, a) && InRound(cs, a)
    ensures var a := Apply(v, cs[n], n).ready[q];
            a.at == n && a.event < |v.parked| && v.parked[a.event].asked == a.asked
  {
    var c := cs[n];
    var a := Apply(v, c, n).ready[q];
    TrueLater(cs, n, v);
    if c.Round? {
      RoundFrom(v.parked, c.es, c.now, n, v.jobs);
      assert a == RoundAnswers(v.parked, c.es, c.now, n, v.jobs)[q - |v.ready|];
      forall j | 0 <= j < |v.jobs| ensures v.jobs[j].asked != a.asked {
        assert RecordTrue(cs, v.jobs[j]);
      }
    } else if c.Close? {
      CloseAt(v.parked, c.fd, n);
    }
  }

  lemma {:induction false} CloseAt(p: seq<Ticket>, fd: int, at: nat)
    ensures forall i :: 0 <= i < |CloseAnswers(p, fd, at)| ==> CloseAnswers(p, fd, at)[i].at == at
  {
    if p != [] {
      CloseAt(p[..|p| - 1], fd, at);
    }
  }

  lemma CleanAnswer(cs: seq<Call>, q: nat)
    requires Legal(cs) && NoFailure(cs) && q < |After(cs).ready| && AnswersRecvTo(cs, After(cs).ready[q])
    requires After(cs).ready[q].x.result == -1
    ensures IsTimeout(cs, After(cs).ready[q])
  {
    hide Legal, After, FailsAtOnce, FailsInRound, TimesOut;
    var a := After(cs).ready[q];
    TimedReceive(cs, q);
    if InRound(cs, a) {
      AnsweredAtPlace(cs, q);
      PlaceClean(cs, a.at, a.event);
    }
  }

  lemma PlaceClean(cs: seq<Call>, j: nat, k: nat)
    requires Legal(cs) && NoFailure(cs) && j < |cs| && cs[j].Round? && Legal(cs[..j])
    requires k < |After(cs[..j]).parked| && k < |cs[j].es|
    requires var i := After(cs[..j]).parked[k].asked; 0 <= i < |cs| && cs[i].RecvTo?
    ensures !FailsInRound(cs[After(cs[..j]).parked[k].asked], cs[j].es[k])
  {
    hide Legal, After, FailsInRound;
    AfterLast(cs, j);
    assert RoundClean(cs, j);
  }

  /** A -1 always means a timeout exactly when no timed receive met a failing recv. */
  lemma TimeoutsOnlyWhen(cs: seq<Call>)
    requires Legal(cs)
    ensures TimeoutsOnly(cs) <==> NoFailure(cs)
  {
    if !NoFailure(cs) {
      if i :| 0 <= i < |cs| && cs[i].RecvTo? && FailsAtOnce(cs[i]) {
        FailureAtOnce(cs, i);
      } else {
        var j :| 0 <= j < |cs| && cs[j].Round? && !RoundClean(cs, j);
        AfterLast(cs, j);
        var p := After(cs[..j]).parked;
        var k :| 0 <= k < |p| && 0 <= p[k].asked < |cs| && cs[p[k].asked].RecvTo?
                 && FailsInRound(cs[p[k].asked], cs[j].es[k]);
        FailureAnswers(cs, j, k);
      }
    } else {
      forall q | 0 <= q < |After(cs).ready| && AnswersRecvTo(cs, After(cs).ready[q])
                 && After(cs).ready[q].x.result == -1
        ensures IsTimeout(cs, After(cs).ready[q])
      {
        CleanAnswer(cs, q);
      }
    }
  }

  lemma LegalPush(cs: seq<Call>, c: Call)
    requires Legal(cs) && Possible(After(cs), c)
    ensures Legal(cs + [c]) && After(cs + [c]) == Apply(After(cs), c, |cs|)
  {
    hide Possible, Apply;
    assert (cs + [c])[..|cs|] == cs;
  }

  const TIMED := RecvTo(3, true, false, 0, 16, 1000, 5, 70, 1, 80)
  const FAILING := Round([Event(false, true, -1, [])], 10)

  lemma FirstCall()
    ensures Possible(EMPTY, TIMED) && Apply(EMPTY, TIMED, 0) == View([Ticket(WatchOf(TIMED), 0)], [], [], [])
  {
  }

  lemma SecondCall(v: View)
    requires v == View([Ticket(WatchOf(TIMED), 0)], [], [], [])
    ensures Possible(v, FAILING)
    ensures Apply(v, FAILING, 1).ready == [Answer(Resumption(70, 1, 80, -1), 0, 1, 0)]
  {
    OneEvent(v.parked[0], FAILING.es, 10);
    assert v.parked == [v.parked[0]];
  }

  /** A run in which a failing recv gives -1 before the deadline. */
  lemma ErrorBeforeDeadline() returns (cs: seq<Call>)
    ensures Legal(cs) && cs == [TIMED, FAILING]
    ensures After(cs).ready == [Answer(Resumption(70, 1, 80, -1), 0, 1, 0)]
    ensures cs[1].now < Deadline(cs[0]) && !TimeoutsOnly(cs)
  {
    hide Apply, Possible, Legal, After;
    EmptyRun([]);
    FirstCall();
    LegalPush([], TIMED);
    SecondCall(Apply(EMPTY, TIMED, 0));
    LegalPush([] + [TIMED], FAILING);
    cs := [TIMED, FAILING];
    assert [] + [TIMED] + [FAILING] == cs;
    assert !IsTimeout(cs, After(cs).ready[0]);
  }

  lemma OneEvent(t: Ticket, es: seq<Event>, now: int)
    requires |es| == 1 && t.w.kind == RECV_TO
    ensures RoundLog([t], es) == [] && RoundAnswers([t], es, now, 1, []) == TicketAnswers(t, es[0], now, 1, 0, [])
  {
    assert [t][..0] == [] && es[..0] == [];
    assert [] + TicketAnswers(t, es[0], now, 1, 0, []) == TicketAnswers(t, es[0], now, 1, 0, []);
  }
}

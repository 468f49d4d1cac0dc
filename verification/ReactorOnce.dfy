/** Every co call is answered exactly once: by itself, through its watch, or through its lookup. */
module ReactorOnce {
  import opened Basics
  import opened Reactor
  import opened ReactorRuns
  import Dns

  /** Watches parked, answers given, job records made and lookups delivered for call i. */
  function TicketCount(p: seq<Ticket>, i: nat): nat {
    if p == [] then 0 else TicketCount(p[..|p| - 1], i) + Bit(p[|p| - 1].asked == i)
  }

  function AnswerCount(r: seq<Answer>, i: nat): nat {
    if r == [] then 0 else AnswerCount(r[..|r| - 1], i) + Bit(r[|r| - 1].asked == i)
  }

  function RecordCount(jobs: seq<Record>, i: nat): nat {
    if jobs == [] then 0 else RecordCount(jobs[..|jobs| - 1], i) + Bit(jobs[|jobs| - 1].asked == i)
  }

  function LogCount(jobs: seq<Record>, log: seq<(Dns.Job, int)>, i: nat): nat {
    if log == [] then 0
    else LogCount(jobs, log[..|log| - 1], i) + Bit(Origin(jobs, log[|log| - 1].0) == i)
  }

  lemma TicketPush(p: seq<Ticket>, t: Ticket, i: nat)
    ensures TicketCount(p + [t], i) == TicketCount(p, i) + Bit(t.asked == i)
  {
    assert (p + [t])[..|p|] == p;
  }

  lemma AnswerPush(r: seq<Answer>, a: Answer, i: nat)
    ensures AnswerCount(r + [a], i) == AnswerCount(r, i) + Bit(a.asked == i)
  {
    assert (r + [a])[..|r|] == r;
  }

  lemma {:induction false} AnswerConcat(r: seq<Answer>, x: seq<Answer>, i: nat)
    ensures AnswerCount(r + x, i) == AnswerCount(r, i) + AnswerCount(x, i)
  {
    if x == [] {
      assert r + x == r;
    } else {
      var y, a := x[..|x| - 1], x[|x| - 1];
      AnswerConcat(r, y, i);
      assert r + x == (r + y) + [a];
      AnswerPush(r + y, a, i);
    }
  }

  lemma {:induction false} LogConcat(jobs: seq<Record>, a: seq<(Dns.Job, int)>, b: seq<(Dns.Job, int)>, i: nat)
    ensures LogCount(jobs, a + b, i) == LogCount(jobs, a, i) + LogCount(jobs, b, i)
  {
    if b == [] {
      assert a + b == a;
    } else {
      LogConcat(jobs, a, b[..|b| - 1], i);
      assert (a + b)[..|a + b| - 1] == a + b[..|b| - 1];
    }
  }

  /** Records added later do not change whose jobs the earlier ones are. */
  lemma {:induction false} LogKept(jobs: seq<Record>, r: Record, log: seq<(Dns.Job, int)>, i: nat)
    requires forall q :: 0 <= q < |log| ==> 1 <= log[q].0 <= |jobs|
    ensures LogCount(jobs + [r], log, i) == LogCount(jobs, log, i)
  {
    if log != [] {
      LogKept(jobs, r, log[..|log| - 1], i);
    }
  }

  // ---- what a call does to the counts ----

  lemma {:induction false} JobsCounted(js: seq<Done>, at: nat, k: nat, jobs: seq<Record>, i: nat)
    ensures AnswerCount(JobAnswers(js, at, k, jobs), i) == LogCount(jobs, Pairs(js), i)
  {
    if js != [] {
      var m := |js| - 1;
      JobsCounted(js[..m], at, k, jobs, i);
      assert JobAnswers(js, at, k, jobs)[..m] == JobAnswers(js[..m], at, k, jobs);
      assert Pairs(js)[..m] == Pairs(js[..m]);
    }
  }

  lemma TicketCounted(t: Ticket, e: Event, now: int, at: nat, k: nat, jobs: seq<Record>, i: nat)
    ensures AnswerCount(TicketAnswers(t, e, now, at, k, jobs), i)
         == Bit(Outcome(t.w, e, now).Some? && t.asked == i)
            + (if Drains(t.w, e) then LogCount(jobs, Pairs(e.jobs), i) else 0)
  {
    hide Outcome, AnswerCount, LogCount, JobAnswers;
    var o := Outcome(t.w, e, now);
    var a := if o.Some? then [Answer(Resume(t.w, o.value), t.asked, at, k)] else [];
    var b := if Drains(t.w, e) then JobAnswers(e.jobs, at, k, jobs) else [];
    AnswerConcat(a, b, i);
    NoAnswers(i);
    if a != [] {
      AnswerPush([], a[0], i);
      assert [] + [a[0]] == a;
    }
    JobsCounted(e.jobs, at, k, jobs, i);
  }

  lemma NoAnswers(i: nat)
    ensures AnswerCount([], i) == 0 && TicketCount([], i) == 0
  {
  }

  lemma {:induction false} RoundCounted(p: seq<Ticket>, es: seq<Event>, now: int, at: nat, jobs: seq<Record>, i: nat)
    requires |p| == |es|
    ensures TicketCount(RoundTickets(p, es, now), i) + AnswerCount(RoundAnswers(p, es, now, at, jobs), i)
         == TicketCount(p, i) + LogCount(jobs, RoundLog(p, es), i)
  {
    if p != [] {
      hide Outcome, AnswerCount, TicketCount, LogCount, TicketAnswers, Drains;
      var m := |p| - 1;
      RoundCounted(p[..m], es[..m], now, at, jobs, i);
      RoundUnfold(p, es, now, at, jobs);
      hide RoundTickets, RoundAnswers, RoundLog;
      TicketCounted(p[m], es[m], now, at, m, jobs, i);
      NoLog(jobs, i);
      assert p[..m] + [p[m]] == p;
      CountStep(p[..m], p[m], RoundTickets(p[..m], es[..m], now), Outcome(p[m].w, es[m], now).None?,
                RoundAnswers(p[..m], es[..m], now, at, jobs), TicketAnswers(p[m], es[m], now, at, m, jobs),
                RoundLog(p[..m], es[..m]), if Drains(p[m].w, es[m]) then Pairs(es[m].jobs) else [], jobs, i);
    }
  }

  /** One more watch in a round: it stays or is answered, and may bring lookups. */
  lemma CountStep(p: seq<Ticket>, t: Ticket, ts: seq<Ticket>, kept: bool, r: seq<Answer>, more: seq<Answer>,
                  log: seq<(Dns.Job, int)>, drained: seq<(Dns.Job, int)>, jobs: seq<Record>, i: nat)
    requires TicketCount(ts, i) + AnswerCount(r, i) == TicketCount(p, i) + LogCount(jobs, log, i)
    requires AnswerCount(more, i) == Bit(!kept && t.asked == i) + LogCount(jobs, drained, i)
    ensures TicketCount(ts + (if kept then [t] else []), i) + AnswerCount(r + more, i)
         == TicketCount(p + [t], i) + LogCount(jobs, log + drained, i)
  {
    hide AnswerCount, TicketCount, LogCount;
    AnswerConcat(r, more, i);
    LogConcat(jobs, log, drained, i);
    TicketPush(p, t, i);
    KeptOrNot(ts, t, kept, i);
  }

  lemma RoundUnfold(p: seq<Ticket>, es: seq<Event>, now: int, at: nat, jobs: seq<Record>)
    requires |p| == |es| > 0
    ensures var m := |p| - 1;
            && RoundTickets(p, es, now)
               == RoundTickets(p[..m], es[..m], now) + (if Outcome(p[m].w, es[m], now).None? then [p[m]] else [])
            && RoundAnswers(p, es, now, at, jobs)
               == RoundAnswers(p[..m], es[..m], now, at, jobs) + TicketAnswers(p[m], es[m], now, at, m, jobs)
            && RoundLog(p, es) == RoundLog(p[..m], es[..m]) + (if Drains(p[m].w, es[m]) then Pairs(es[m].jobs) else [])
  {
    hide Outcome, TicketAnswers, Drains;
  }

  lemma NoLog(jobs: seq<Record>, i: nat)
    ensures LogCount(jobs, [], i) == 0
  {
  }

  lemma KeptOrNot(p: seq<Ticket>, t: Ticket, kept: bool, i: nat)
    ensures TicketCount(p + (if kept then [t] else []), i) == TicketCount(p, i) + Bit(kept && t.asked == i)
  {
    if kept {
      TicketPush(p, t, i);
    } else {
      assert p + [] == p;
    }
  }

  /** One more watch when a descriptor closes: it stays or is answered. */
  lemma CloseStep(p: seq<Ticket>, t: Ticket, ts: seq<Ticket>, kept: bool, r: seq<Answer>, a: Answer, i: nat)
    requires TicketCount(ts, i) + AnswerCount(r, i) == TicketCount(p, i) && a.asked == t.asked
    ensures TicketCount(ts + (if kept then [t] else []), i) + AnswerCount(r + (if kept then [] else [a]), i)
         == TicketCount(p + [t], i)
  {
    hide AnswerCount, TicketCount;
    TicketPush(p, t, i);
    if kept {
      TicketPush(ts, t, i);
      assert r + [] == r;
    } else {
      AnswerPush(r, a, i);
      assert ts + [] == ts;
    }
  }

  lemma CloseUnfold(p: seq<Ticket>, fd: int, at: nat) returns (a: Answer)
    requires p != []
    ensures a.asked == p[|p| - 1].asked
    ensures var m, kept := |p| - 1, p[|p| - 1].w.fd != fd;
            && CloseTickets(p, fd) == CloseTickets(p[..m], fd) + (if kept then [p[m]] else [])
            && CloseAnswers(p, fd, at) == CloseAnswers(p[..m], fd, at) + (if kept then [] else [a])
  {
    a := Answer(Resume(p[|p| - 1].w, ClosedResult(p[|p| - 1].w.kind)), p[|p| - 1].asked, at, |p| - 1);
  }

  lemma CloseMore(p: seq<Ticket>, fd: int, at: nat, i: nat)
    requires p != []
    requires var q := p[..|p| - 1];
             TicketCount(CloseTickets(q, fd), i) + AnswerCount(CloseAnswers(q, fd, at), i) == TicketCount(q, i)
    ensures TicketCount(CloseTickets(p, fd), i) + AnswerCount(CloseAnswers(p, fd, at), i) == TicketCount(p, i)
  {
    hide AnswerCount, TicketCount, CloseTickets, CloseAnswers;
    var m := |p| - 1;
    var a := CloseUnfold(p, fd, at);
    assert p[..m] + [p[m]] == p;
    CloseStep(p[..m], p[m], CloseTickets(p[..m], fd), p[m].w.fd != fd, CloseAnswers(p[..m], fd, at), a, i);
  }

  lemma {:induction false} CloseCounted(p: seq<Ticket>, fd: int, at: nat, i: nat)
    ensures TicketCount(CloseTickets(p, fd), i) + AnswerCount(CloseAnswers(p, fd, at), i) == TicketCount(p, i)
  {
    hide AnswerCount, TicketCount;
    if p == [] {
      NoAnswers(i);
    } else {
      hide CloseTickets, CloseAnswers;
      CloseCounted(p[..|p| - 1], fd, at, i);
      CloseMore(p, fd, at, i);
    }
  }

  /** Parked, answered, or owed by the hand-off. */
  function Held(v: View, i: nat): int {
    TicketCount(v.parked, i) + AnswerCount(v.ready, i) + RecordCount(v.jobs, i) - LogCount(v.jobs, v.log, i)
  }

  predicate LogInside(v: View) {
    forall q :: 0 <= q < |v.log| ==> 1 <= v.log[q].0 <= |v.jobs|
  }

  lemma {:induction false} RoundLogInside(p: seq<Ticket>, es: seq<Event>, jobs: seq<Record>)
    requires |p| == |es| && forall k :: 0 <= k < |p| && Drains(p[k].w, es[k]) ==> JobsMatch(jobs, es[k].jobs)
    ensures forall q :: 0 <= q < |RoundLog(p, es)| ==> 1 <= RoundLog(p, es)[q].0 <= |jobs|
  {
    if p != [] {
      RoundLogInside(p[..|p| - 1], es[..|p| - 1], jobs);
    }
  }

  lemma StepInside(v: View, c: Call, at: nat)
    requires Possible(v, c) && LogInside(v)
    ensures LogInside(Apply(v, c, at))
  {
    if c.Round? {
      RoundLogInside(v.parked, c.es, v.jobs);
    }
  }

  lemma PipeCounted(p: seq<Ticket>, rfd: int, i: nat)
    ensures TicketCount(WithPipe(p, rfd), i) == TicketCount(p, i)
  {
    hide TicketCount;
    KeptOrNot(p, Ticket(PipeWatch(rfd), -1), !WatchesPipe(Parked(p)), i);
  }

  lemma RecordPush(jobs: seq<Record>, r: Record, i: nat)
    ensures RecordCount(jobs + [r], i) == RecordCount(jobs, i) + Bit(r.asked == i)
  {
    assert (jobs + [r])[..|jobs|] == jobs;
  }

  lemma LogPush(jobs: seq<Record>, log: seq<(Dns.Job, int)>, e: (Dns.Job, int), i: nat)
    ensures LogCount(jobs, log + [e], i) == LogCount(jobs, log, i) + Bit(Origin(jobs, e.0) == i)
  {
    assert (log + [e])[..|log|] == log;
  }

  lemma ResolveCounted(v: View, c: Call, at: nat, i: nat)
    requires c.Resolve? && Possible(v, c) && LogInside(v)
    ensures Held(Apply(v, c, at), i) == Held(v, i) + Bit(at == i)
  {
    hide TicketCount, AnswerCount, RecordCount, LogCount;
    var a, r := Answer(Reply(c, c.r), at, at, 0), Record(Reply(c, 0), at);
    AnswerPush(v.ready, a, i);
    PipeCounted(v.parked, c.rfd, i);
    RecordPush(v.jobs, r, i);
    LogKept(v.jobs, r, v.log, i);
    LogPush(v.jobs + [r], v.log, (|v.jobs| + 1, c.r), i);
  }

  lemma StepCounted(v: View, c: Call, at: nat, i: nat)
    requires Possible(v, c) && LogInside(v)
    ensures Held(Apply(v, c, at), i) == Held(v, i) + Bit(at == i && IsCo(c))
  {
    hide TicketCount, AnswerCount, RecordCount, LogCount;
    hide RoundTickets, RoundAnswers, RoundLog, CloseTickets, CloseAnswers;
    match c
    case Round(es, now) =>
      RoundCounted(v.parked, es, now, at, v.jobs, i);
      AnswerConcat(v.ready, RoundAnswers(v.parked, es, now, at, v.jobs), i);
      LogConcat(v.jobs, v.log, RoundLog(v.parked, es), i);
    case Close(fd) =>
      CloseCounted(v.parked, fd, at, i);
      AnswerConcat(v.ready, CloseAnswers(v.parked, fd, at), i);
    case Resolve(_, _, _, _, _, _) => ResolveCounted(v, c, at, i);
    case _ => WatchCounted(v, c, at, i);
  }

  lemma WatchCounted(v: View, c: Call, at: nat, i: nat)
    requires Watches(c) && Possible(v, c)
    ensures Held(Apply(v, c, at), i) == Held(v, i) + Bit(at == i)
  {
    hide TicketCount, AnswerCount, RecordCount, LogCount, AtOnce, WatchOf;
    if AtOnce(c).Some? {
      AnswerPush(v.ready, Answer(Reply(c, AtOnce(c).value), at, at, 0), i);
    } else {
      TicketPush(v.parked, Ticket(WatchOf(c), at), i);
    }
  }

  /** Over every run each co call is held once, and nothing else is. */
  lemma {:induction false} RunCounted(cs: seq<Call>, i: nat)
    requires Legal(cs)
    ensures LogInside(After(cs))
    ensures Held(After(cs), i) == Bit(i < |cs| && IsCo(cs[i]))
    decreases |cs|
  {
    if cs != [] {
      hide Held, Apply, Possible, LogInside;
      var n := |cs| - 1;
      RunCounted(cs[..n], i);
      StepInside(After(cs[..n]), cs[n], n);
      StepCounted(After(cs[..n]), cs[n], n, i);
    }
  }

  // ---- jobs ----

  /** Calls submit their jobs one after the other. */
  predicate Increasing(jobs: seq<Record>) {
    forall j, k :: 0 <= j < k < |jobs| ==> jobs[j].asked < jobs[k].asked
  }

  lemma {:induction false} JobsIncrease(cs: seq<Call>)
    requires Legal(cs)
    ensures Increasing(After(cs).jobs) && Dns.DeliveredOnce(After(cs).log)
    ensures forall j :: 0 <= j < |After(cs).jobs| ==> After(cs).jobs[j].asked < |cs|
    decreases |cs|
  {
    if cs != [] {
      JobsIncrease(cs[..|cs| - 1]);
    }
  }

  /** A call has at most one record. */
  lemma {:induction false} RecordOnce(jobs: seq<Record>, i: nat)
    requires Increasing(jobs)
    ensures RecordCount(jobs, i) == Bit(exists j :: 0 <= j < |jobs| && jobs[j].asked == i)
    decreases |jobs|
  {
    if jobs != [] {
      var m := |jobs| - 1;
      RecordOnce(jobs[..m], i);
      if j :| 0 <= j < m && jobs[j].asked == i {
        assert jobs[..m][j].asked == i;
      }
      assert jobs[m].asked == i ==> exists j :: 0 <= j < |jobs| && jobs[j].asked == i;
    }
  }

  /** A job of call i, delivered or not. */
  predicate JobOf(jobs: seq<Record>, j: Dns.Job, i: nat) {
    1 <= j <= |jobs| && jobs[j - 1].asked == i
  }

  /** A job delivered once counts once for its call. */
  lemma {:induction false} LogOnce(jobs: seq<Record>, log: seq<(Dns.Job, int)>, j: Dns.Job, i: nat)
    requires Increasing(jobs) && Dns.DeliveredOnce(log) && JobOf(jobs, j, i)
    ensures LogCount(jobs, log, i) == Bit(Dns.Delivered(log, j))
    decreases |log|
  {
    if log != [] {
      var m := |log| - 1;
      LogOnce(jobs, log[..m], j, i);
      assert Origin(jobs, log[m].0) == i <==> log[m].0 == j;
      Dns.DeliveredPush(log[..m], log[m]);
      assert log[..m] + [log[m]] == log;
      if k :| 0 <= k < |log[..m]| && log[..m][k].0 == j {
        assert log[k].0 == j;
      }
    }
  }

  lemma {:induction false} NoJobNoLog(jobs: seq<Record>, log: seq<(Dns.Job, int)>, i: nat)
    requires forall j :: 0 <= j < |jobs| ==> jobs[j].asked != i
    ensures LogCount(jobs, log, i) == 0
    decreases |log|
  {
    if log != [] {
      NoJobNoLog(jobs, log[..|log| - 1], i);
    }
  }

  // ---- the results ----

  lemma {:induction false} NoTickets(cs: seq<Call>, p: seq<Ticket>, i: nat)
    requires TicketsTrue(cs, p) && i < |cs| && !Watches(cs[i])
    ensures TicketCount(p, i) == 0
    decreases |p|
  {
    if p != [] {
      assert TicketTrue(cs, p[|p| - 1]);
      NoTickets(cs, p[..|p| - 1], i);
    }
  }

  /** A call on a descriptor is parked or answered, once, and never both. */
  lemma WatchAnsweredOnce(cs: seq<Call>, i: nat)
    requires Legal(cs) && i < |cs| && Watches(cs[i])
    ensures TicketCount(After(cs).parked, i) + AnswerCount(After(cs).ready, i) == 1
  {
    hide Legal, After;
    var v := After(cs);
    RunTrue(cs);
    RunCounted(cs, i);
    forall j | 0 <= j < |v.jobs| ensures v.jobs[j].asked != i {
      assert RecordTrue(cs, v.jobs[j]);
    }
    JobsIncrease(cs);
    RecordOnce(v.jobs, i);
    NoJobNoLog(v.jobs, v.log, i);
  }

  /** A lookup is answered once, exactly when it needed no job or its job has been delivered. */
  lemma LookupAnsweredOnce(cs: seq<Call>, i: nat)
    requires Legal(cs) && i < |cs| && cs[i].Resolve?
    ensures var v := After(cs);
            && TicketCount(v.parked, i) == 0 && AnswerCount(v.ready, i) <= 1
            && (AnswerCount(v.ready, i) == 1 <==> forall j: Dns.Job :: JobOf(v.jobs, j, i) ==> Dns.Delivered(v.log, j))
  {
    hide Legal, After;
    var v := After(cs);
    RunTrue(cs);
    NoTickets(cs, v.parked, i);
    RunCounted(cs, i);
    JobsIncrease(cs);
    RecordOnce(v.jobs, i);
    if k :| 0 <= k < |v.jobs| && v.jobs[k].asked == i {
      assert JobOf(v.jobs, k + 1, i);
      LogOnce(v.jobs, v.log, k + 1, i);
      forall j: Dns.Job | JobOf(v.jobs, j, i) ensures j == k + 1 {
      }
    } else {
      NoJobNoLog(v.jobs, v.log, i);
    }
  }

  /** The reactor's jobs and deliveries are those of this run of the hand-off. */
  ghost predicate SameHandOff(v: View, s: Dns.State) {
    v.log == s.log && |s.phase| == |v.jobs| + 1
  }

  /**
   * With the hand-off at rest, every co call of the run has been answered exactly once or still waits on its
   * descriptor, lookups included.
   */
  lemma EveryCallAnsweredOnce(cs: seq<Call>, ss: seq<Dns.State>, acts: seq<Dns.Action>, mu: Dns.Pointer, i: nat)
    requires Legal(cs) && i < |cs| && IsCo(cs[i])
    requires Dns.CalmRun(ss, acts) && ss[0] == Dns.StartWith(mu) && mu != Dns.Raw
    requires SameHandOff(After(cs), ss[|acts|]) && Dns.Stuck(ss[|acts|])
    ensures TicketCount(After(cs).parked, i) + AnswerCount(After(cs).ready, i) == 1
    ensures cs[i].Resolve? ==> AnswerCount(After(cs).ready, i) == 1
  {
    hide Legal, After;
    if Watches(cs[i]) {
      WatchAnsweredOnce(cs, i);
    } else {
      LookupAnsweredOnce(cs, i);
      Dns.EveryJobDelivered(ss, acts, mu);
    }
  }
}

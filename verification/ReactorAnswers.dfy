/** What every call into the reactor is answered with, from the call and what the system said. */
module ReactorAnswers {
  import opened Basics
  import opened Reactor
  import opened ReactorRuns
  import opened ReactorOnce
  import Dns

  /** The deadline of a timed receive has passed. */
  predicate Late(c: Call, now: int) {
    c.RecvTo? && c.tmo > 0 && c.clock + c.tmo * 1000000 != 0 && now >= c.clock + c.tmo * 1000000
  }

  /** A receive or accept on a ready descriptor that found nothing to take after all. */
  predicate WouldBlock(c: Call, n: int) {
    match c
    case Recv(_, _, _, _, len, _, _, _) => len > 0 && n == -2
    case RecvTo(_, _, _, _, len, _, _, _, _, _) => len > 0 && n == -2
    case Accept(_, _, _, _, _, _, _) => n == -2
    case _ => false
  }

  /** What a ready descriptor gives: nothing to a wait, the bytes or error to a receive, the descriptor to an accept. */
  function Taken(c: Call, n: int): int {
    match c
    case Recv(_, _, _, _, len, _, _, _) => if len <= 0 then 0 else n
    case RecvTo(_, _, _, _, len, _, _, _, _, _) => if len <= 0 then 0 else n
    case Accept(_, _, _, _, _, _, _) => n
    case _ => 0
  }

  /** A descriptor that is closed or gone: -1 to an accept, 0 to the others. */
  function Gone(c: Call): int {
    if c.Accept? then -1 else 0
  }

  /** The answer a parked call gets from an event of a round. */
  predicate RoundReply(c: Call, e: Event, now: int, r: int) {
    if e.nval then r == Gone(c)
    else if e.ready && !WouldBlock(c, e.n) then r == Taken(c, e.n)
    else Late(c, now) && r == -1
  }

  /** A parked call is left parked by this event. */
  predicate Stays(c: Call, e: Event, now: int) {
    !e.nval && (e.ready ==> WouldBlock(c, e.n)) && !Late(c, now)
  }

  /** The probe made during the call found something to take, and what. */
  function Probed(c: Call): (r: (bool, int)) {
    match c
    case Recv(_, _, probe, n, _, _, _, _) => (probe && !WouldBlock(c, n), n)
    case RecvTo(_, _, probe, n, _, _, _, _, _, _) => (probe && !WouldBlock(c, n), n)
    case Accept(_, _, probe, n, _, _, _) => (probe && !WouldBlock(c, n), n)
    case _ => (false, 0)
  }

  /** The answer a call gets without parking. */
  predicate StartReply(c: Call, r: int)
    requires Watches(c)
  {
    if !c.alive then r == Gone(c) else Probed(c).0 && r == Taken(c, Probed(c).1)
  }

  // ---- the answers ----

  /** Every answer to a call on a descriptor, from the call and the event at its place in the round. */
  predicate Explained(cs: seq<Call>, a: Answer)
    requires AnswersWatch(cs, a)
  {
    var c := cs[a.asked];
    && a.asked <= a.at < |cs| && a.x == Resumption(c.frame, c.step, c.slot, a.x.result)
    && if a.at == a.asked then StartReply(c, a.x.result)
       else match cs[a.at]
         case Round(es, now) => a.event < |es| && RoundReply(c, es[a.event], now, a.x.result)
         case Close(fd) => c.fd == fd && a.x.result == Gone(c)
         case _ => false
  }

  lemma AtOnceMeans(c: Call, r: int)
    requires Watches(c) && AtOnce(c) == Some(r)
    ensures StartReply(c, r)
  {
  }

  lemma ParkedMeans(c: Call)
    requires Watches(c)
    ensures AtOnce(c).None? <==> c.alive && !Probed(c).0
  {
  }

  lemma OutcomeMeans(c: Call, e: Event, now: int)
    requires Watches(c)
    ensures Outcome(WatchOf(c), e, now).None? <==> Stays(c, e, now)
    ensures Outcome(WatchOf(c), e, now).Some? ==> RoundReply(c, e, now, Outcome(WatchOf(c), e, now).value)
  {
  }

  lemma AnswerMeans(cs: seq<Call>, a: Answer)
    requires AnswersWatch(cs, a) && AnswerTrue(cs, a)
    ensures Explained(cs, a)
  {
    hide Outcome, AtOnce, StartReply, RoundReply;
    var c := cs[a.asked];
    if a.at == a.asked {
      AtOnceMeans(c, a.x.result);
    } else if cs[a.at].Round? {
      OutcomeMeans(c, cs[a.at].es[a.event], cs[a.at].now);
    }
  }

  /** The event that answered a call in a round is the one at the place where the call was parked. */
  predicate AtItsPlace(cs: seq<Call>, a: Answer)
    requires a.at < |cs|
  {
    && Legal(cs[..a.at]) && a.event < |After(cs[..a.at]).parked|
    && After(cs[..a.at]).parked[a.event].asked == a.asked
  }

  /**
   * Over every run, each answer to a call on a descriptor goes to the frame that asked, with what the call
   * itself found, what the event at its place in a later round gave, or the sign that the descriptor closed.
   */
  lemma EveryAnswer(cs: seq<Call>, q: nat)
    requires Legal(cs) && q < |After(cs).ready| && AnswersWatch(cs, After(cs).ready[q])
    ensures var a := After(cs).ready[q];
            Explained(cs, a) && (a.at != a.asked && cs[a.at].Round? ==> AtItsPlace(cs, a))
  {
    hide Legal, After, Explained, RoundReply, StartReply;
    var a := After(cs).ready[q];
    RunTrue(cs);
    ViewAnswer(cs, After(cs), q);
    AnswerMeans(cs, a);
    if a.at != a.asked && cs[a.at].Round? {
      AnsweredAtPlace(cs, q);
    }
  }

  // ---- who stays parked ----

  /** A call parks exactly when its descriptor is alive and gave nothing yet. */
  lemma ParksWhen(cs: seq<Call>, i: nat)
    requires Legal(cs) && i < |cs| && Watches(cs[i])
    ensures Legal(cs[..i + 1])
    ensures TicketCount(After(cs[..i + 1]).parked, i) == Bit(cs[i].alive && !Probed(cs[i]).0)
  {
    hide TicketCount, Legal, After, AtOnce, Probed;
    AfterLast(cs, i);
    LegalPrefix(cs, i + 1);
    var v, c := After(cs[..i]), cs[i];
    NotYet(cs[..i], i);
    ParkedMeans(c);
    if AtOnce(c).None? {
      TicketPush(v.parked, Ticket(WatchOf(c), i), i);
    }
  }

  /** No watch is parked for a call still to come. */
  lemma NotYet(cs: seq<Call>, i: nat)
    requires Legal(cs) && |cs| <= i
    ensures TicketCount(After(cs).parked, i) == 0
  {
    hide Legal, After;
    RunTrue(cs);
    NoTicketFor(cs, After(cs).parked, i);
  }

  lemma {:induction false} NoTicketFor(cs: seq<Call>, p: seq<Ticket>, i: nat)
    requires TicketsTrue(cs, p) && |cs| <= i
    ensures TicketCount(p, i) == 0
    decreases |p|
  {
    if p != [] {
      assert TicketTrue(cs, p[|p| - 1]);
      NoTicketFor(cs, p[..|p| - 1], i);
    }
  }

  lemma {:induction false} CountedIn(p: seq<Ticket>, k: nat)
    requires k < |p| && p[k].asked >= 0
    ensures TicketCount(p, p[k].asked) > 0
    decreases |p|
  {
    if k < |p| - 1 {
      CountedIn(p[..|p| - 1], k);
    }
  }

  lemma {:induction false} AnsweredIn(r: seq<Answer>, q: nat)
    requires q < |r| && r[q].asked >= 0
    ensures AnswerCount(r, r[q].asked) > 0
    decreases |r|
  {
    if q < |r| - 1 {
      AnsweredIn(r[..|r| - 1], q);
    }
  }

  /** A watch whose event brings nothing is among the watches the round leaves. */
  lemma {:induction false} RoundLeaves(p: seq<Ticket>, es: seq<Event>, now: int, k: nat)
    requires |p| == |es| && k < |p| && Outcome(p[k].w, es[k], now).None?
    ensures exists m :: 0 <= m < |RoundTickets(p, es, now)| && RoundTickets(p, es, now)[m] == p[k]
    decreases |p|
  {
    hide Outcome;
    var n := |p| - 1;
    var left := RoundTickets(p[..n], es[..n], now);
    if k < n {
      RoundLeaves(p[..n], es[..n], now, k);
      var m :| 0 <= m < |left| && left[m] == p[..n][k];
      assert RoundTickets(p, es, now)[m] == p[k];
    } else {
      assert RoundTickets(p, es, now)[|left|] == p[k];
    }
  }

  /** In a round a parked call stays parked exactly when its event brings nothing and no deadline has passed. */
  lemma StaysWhen(cs: seq<Call>, j: nat, k: nat)
    requires Legal(cs) && j < |cs| && cs[j].Round? && Legal(cs[..j]) && k < |After(cs[..j]).parked|
    requires After(cs[..j]).parked[k].asked >= 0
    ensures Legal(cs[..j + 1]) && k < |cs[j].es|
    ensures var i := After(cs[..j]).parked[k].asked;
            && i < j && Watches(cs[i])
            && TicketCount(After(cs[..j + 1]).parked, i) == Bit(Stays(cs[i], cs[j].es[k], cs[j].now))
  {
    hide Legal, After, TicketCount, AnswerCount, RoundTickets, RoundAnswers, Outcome, Stays, WatchOf;
    AfterLast(cs, j);
    LegalPrefix(cs, j + 1);
    var v, c := After(cs[..j]), cs[j];
    var t := v.parked[k];
    var i := t.asked;
    RunTrue(cs[..j]);
    assert TicketTrue(cs[..j], t);
    assert cs[..j + 1][i] == cs[i];
    OutcomeMeans(cs[i], c.es[k], c.now);
    WatchAnsweredOnce(cs[..j + 1], i);
    if Stays(cs[i], c.es[k], c.now) {
      RoundLeaves(v.parked, c.es, c.now, k);
      var m :| 0 <= m < |RoundTickets(v.parked, c.es, c.now)| && RoundTickets(v.parked, c.es, c.now)[m] == t;
      CountedIn(After(cs[..j + 1]).parked, m);
    } else {
      var a := Answer(Resume(t.w, Outcome(t.w, c.es[k], c.now).value), i, j, k);
      RoundGives(v.parked, c.es, c.now, j, v.jobs, k);
      FoundIn(a, v.ready, RoundAnswers(v.parked, c.es, c.now, j, v.jobs), After(cs[..j + 1]).ready);
      var q :| 0 <= q < |After(cs[..j + 1]).ready| && After(cs[..j + 1]).ready[q] == a;
      AnsweredIn(After(cs[..j + 1]).ready, q);
    }
  }

  /** The round's own test on accept: error number 35 alone counts as would-block, whatever the target's is. */
  function RoundAccept(result: int, error: int): int {
    if result >= 0 || error != 35 then result else -2
  }

  /**
   * An accept woken for nothing, so that it would block, stays parked exactly on targets whose number for that
   * is 35; on the others its frame resumes with -1, as if accept had failed.
   */
  lemma SpuriousAccept(cs: seq<Call>, j: nat, k: nat, again: int)
    requires Legal(cs) && j < |cs| && cs[j].Round? && Legal(cs[..j]) && k < |After(cs[..j]).parked| == |cs[j].es|
    requires var i := After(cs[..j]).parked[k].asked; 0 <= i < |cs| && cs[i].Accept?
    requires var e := cs[j].es[k]; !e.nval && e.ready && e.n == RoundAccept(-1, again)
    ensures Legal(cs[..j + 1])
    ensures var i := After(cs[..j]).parked[k].asked;
            && TicketCount(After(cs[..j + 1]).parked, i) == Bit(again == 35)
            && (RoundReply(cs[i], cs[j].es[k], cs[j].now, -1) <==> again != 35)
  {
    hide Legal, After, TicketCount;
    StaysWhen(cs, j, k);
  }

  /** Closing takes exactly the calls parked on the descriptor. */
  lemma CloseTakes(cs: seq<Call>, j: nat, k: nat)
    requires Legal(cs) && j < |cs| && cs[j].Close? && Legal(cs[..j]) && k < |After(cs[..j]).parked|
    requires After(cs[..j]).parked[k].asked >= 0
    ensures Legal(cs[..j + 1])
    ensures var i := After(cs[..j]).parked[k].asked;
            && i < j && Watches(cs[i]) && TicketCount(After(cs[..j + 1]).parked, i) == Bit(cs[i].fd != cs[j].fd)
  {
    hide Legal, After, TicketCount, AnswerCount, CloseTickets, CloseAnswers;
    AfterLast(cs, j);
    LegalPrefix(cs, j + 1);
    var v, c := After(cs[..j]), cs[j];
    var t := v.parked[k];
    var i := t.asked;
    RunTrue(cs[..j]);
    assert TicketTrue(cs[..j], t);
    assert cs[..j + 1][i] == cs[i];
    WatchAnsweredOnce(cs[..j + 1], i);
    if t.w.fd != c.fd {
      CloseLeaves(v.parked, c.fd, k);
      var m :| 0 <= m < |CloseTickets(v.parked, c.fd)| && CloseTickets(v.parked, c.fd)[m] == t;
      CountedIn(After(cs[..j + 1]).parked, m);
    } else {
      var a := Answer(Resume(t.w, ClosedResult(t.w.kind)), i, j, k);
      CloseGives(v.parked, c.fd, j, k);
      FoundIn(a, v.ready, CloseAnswers(v.parked, c.fd, j), After(cs[..j + 1]).ready);
      var q :| 0 <= q < |After(cs[..j + 1]).ready| && After(cs[..j + 1]).ready[q] == a;
      AnsweredIn(After(cs[..j + 1]).ready, q);
    }
  }

  lemma {:induction false} CloseLeaves(p: seq<Ticket>, fd: int, k: nat)
    requires k < |p| && p[k].w.fd != fd
    ensures exists m :: 0 <= m < |CloseTickets(p, fd)| && CloseTickets(p, fd)[m] == p[k]
    decreases |p|
  {
    var n := |p| - 1;
    var left := CloseTickets(p[..n], fd);
    if k < n {
      CloseLeaves(p[..n], fd, k);
      var m :| 0 <= m < |left| && left[m] == p[..n][k];
      assert CloseTickets(p, fd)[m] == p[k];
    } else {
      assert CloseTickets(p, fd)[|left|] == p[k];
    }
  }

  lemma {:induction false} CloseGives(p: seq<Ticket>, fd: int, at: nat, k: nat)
    requires k < |p| && p[k].w.fd == fd
    ensures Answer(Resume(p[k].w, ClosedResult(p[k].w.kind)), p[k].asked, at, k) in CloseAnswers(p, fd, at)
    decreases |p|
  {
    if k < |p| - 1 {
      CloseGives(p[..|p| - 1], fd, at, k);
    }
  }

  // ---- lookups ----

  /** The answer is the delivery of a job of the call it answers. */
  predicate Logged(jobs: seq<Record>, log: seq<(Dns.Job, int)>, a: Answer) {
    a.asked >= 0 && exists q :: 0 <= q < |log| && JobOf(jobs, log[q].0, a.asked) && log[q].1 == a.x.result
  }

  predicate NeedsJob(cs: seq<Call>, a: Answer) {
    0 <= a.asked < |cs| && cs[a.asked].Resolve? && cs[a.asked].how != Early
  }

  lemma LoggedLater(jobs: seq<Record>, log: seq<(Dns.Job, int)>, a: Answer, more: seq<Record>,
                    rest: seq<(Dns.Job, int)>)
    requires Logged(jobs, log, a)
    ensures Logged(jobs + more, log + rest, a)
  {
    var q :| 0 <= q < |log| && JobOf(jobs, log[q].0, a.asked) && log[q].1 == a.x.result;
    assert (log + rest)[q] == log[q] && JobOf(jobs + more, log[q].0, a.asked);
  }

  lemma LoggedBehind(jobs: seq<Record>, front: seq<(Dns.Job, int)>, log: seq<(Dns.Job, int)>, a: Answer)
    requires Logged(jobs, log, a)
    ensures Logged(jobs, front + log, a)
  {
    var q :| 0 <= q < |log| && JobOf(jobs, log[q].0, a.asked) && log[q].1 == a.x.result;
    assert (front + log)[|front| + q] == log[q];
  }

  predicate OfTicket(p: seq<Ticket>, a: Answer) {
    exists k :: 0 <= k < |p| && p[k].asked == a.asked
  }

  /** An answer of a round belongs to a parked watch, to no call, or to a job the round delivers. */
  lemma {:induction false} RoundBrings(p: seq<Ticket>, es: seq<Event>, now: int, at: nat, jobs: seq<Record>, i: nat)
    requires |p| == |es| && i < |RoundAnswers(p, es, now, at, jobs)|
    requires RoundAnswers(p, es, now, at, jobs)[i].asked >= 0
    ensures var a := RoundAnswers(p, es, now, at, jobs)[i]; OfTicket(p, a) || Logged(jobs, RoundLog(p, es), a)
    decreases |p|
  {
    hide Outcome, Logged, TicketAnswers;
    var m := |p| - 1;
    var r, log := RoundAnswers(p[..m], es[..m], now, at, jobs), RoundLog(p[..m], es[..m]);
    var a := RoundAnswers(p, es, now, at, jobs)[i];
    var more := if Drains(p[m].w, es[m]) then Pairs(es[m].jobs) else [];
    if i < |r| {
      RoundBrings(p[..m], es[..m], now, at, jobs, i);
      if OfTicket(p[..m], r[i]) {
        var k :| 0 <= k < m && p[..m][k].asked == a.asked;
        assert p[k].asked == a.asked;
      } else {
        LoggedLater(jobs, log, a, [], more);
        assert jobs + [] == jobs;
      }
    } else {
      TicketBrings(p[m], es[m], now, at, m, jobs, i - |r|);
      if p[m].asked != a.asked {
        LoggedBehind(jobs, log, more, a);
      }
    }
  }

  lemma TicketBrings(t: Ticket, e: Event, now: int, at: nat, k: nat, jobs: seq<Record>, i: nat)
    requires i < |TicketAnswers(t, e, now, at, k, jobs)| && TicketAnswers(t, e, now, at, k, jobs)[i].asked >= 0
    ensures var a := TicketAnswers(t, e, now, at, k, jobs)[i];
            t.asked == a.asked || (Drains(t.w, e) && Logged(jobs, Pairs(e.jobs), a))
  {
    hide Outcome;
    var r := TicketAnswers(t, e, now, at, k, jobs);
    if t.asked != r[i].asked {
      var o := |r| - |e.jobs|;
      assert r[i] == JobAnswers(e.jobs, at, k, jobs)[i - o];
      assert Pairs(e.jobs)[i - o] == (e.jobs[i - o].job, r[i].x.result);
      assert JobOf(jobs, Pairs(e.jobs)[i - o].0, r[i].asked);
    }
  }

  lemma {:induction false} CloseBrings(p: seq<Ticket>, fd: int, at: nat, i: nat)
    requires i < |CloseAnswers(p, fd, at)|
    ensures OfTicket(p, CloseAnswers(p, fd, at)[i])
    decreases |p|
  {
    var m := |p| - 1;
    if i < |CloseAnswers(p[..m], fd, at)| {
      CloseBrings(p[..m], fd, at, i);
      var k :| 0 <= k < m && p[..m][k].asked == CloseAnswers(p, fd, at)[i].asked;
      assert p[k].asked == CloseAnswers(p, fd, at)[i].asked;
    } else {
      assert p[m].asked == CloseAnswers(p, fd, at)[i].asked;
    }
  }

  /** Over every run, the answer to a lookup that made a job is the delivery of that job. */
  lemma {:induction false} AnswersAreDeliveries(cs: seq<Call>, q: nat)
    requires Legal(cs) && q < |After(cs).ready| && NeedsJob(cs, After(cs).ready[q])
    ensures Logged(After(cs).jobs, After(cs).log, After(cs).ready[q])
    decreases |cs|
  {
    hide Legal, After, Logged, Possible, RoundAnswers, RoundTickets, RoundLog, CloseTickets, CloseAnswers;
    var n := |cs| - 1;
    RunTrue(cs);
    ViewAnswer(cs, After(cs), q);
    NoneYet(cs);
    AfterLast(cs, n);
    assert cs[..n + 1] == cs;
    var v, w := After(cs[..n]), After(cs);
    var a := w.ready[q];
    StepAppends(v, cs[n], n);
    if q < |v.ready| {
      RunTrue(cs[..n]);
      ViewAnswer(cs[..n], v, q);
      AnswersAreDeliveries(cs[..n], q);
      LoggedLater(v.jobs, v.log, a, w.jobs[|v.jobs|..], w.log[|v.log|..]);
    } else {
      RunTrue(cs[..n]);
      NewDelivery(cs, v, n, q);
    }
  }

  lemma NoneYet(cs: seq<Call>)
    requires Legal(cs)
    ensures cs == [] ==> After(cs).ready == []
  {
  }

  /** Answers, records and deliveries are only ever appended. */
  lemma StepAppends(v: View, c: Call, at: nat)
    requires Possible(v, c)
    ensures var w := Apply(v, c, at);
            && v.ready <= w.ready && v.jobs + w.jobs[|v.jobs|..] == w.jobs && v.log + w.log[|v.log|..] == w.log
  {
    hide Possible, RoundAnswers, RoundTickets, RoundLog, CloseTickets, CloseAnswers;
  }

  lemma NewDelivery(cs: seq<Call>, v: View, n: nat, q: nat)
    requires n + 1 == |cs| && ViewTrue(cs[..n], v) && Possible(v, cs[n])
    requires |v.ready| <= q < |Apply(v, cs[n], n).ready| && NeedsJob(cs, Apply(v, cs[n], n).ready[q])
    ensures var w := Apply(v, cs[n], n); Logged(w.jobs, w.log, w.ready[q])
  {
    hide RoundAnswers, RoundTickets, RoundLog, CloseTickets, CloseAnswers, Outcome, WatchOf;
    var c, w := cs[n], Apply(v, cs[n], n);
    var a := w.ready[q];
    TrueLater(cs, n, v);
    forall k | 0 <= k < |v.parked| ensures v.parked[k].asked != a.asked {
      assert TicketTrue(cs, v.parked[k]);
    }
    if c.Round? {
      RoundBrings(v.parked, c.es, c.now, n, v.jobs, q - |v.ready|);
      LoggedBehind(v.jobs, v.log, RoundLog(v.parked, c.es), a);
    } else if c.Close? {
      CloseBrings(v.parked, c.fd, n, q - |v.ready|);
    } else {
      assert w.log[|v.log|] == (|v.jobs| + 1, c.r) && JobOf(w.jobs, w.log[|v.log|].0, n);
    }
  }

  /**
   * Joined with a run of the hand-off: a lookup's frame resumes with what the lookup of its own job returned,
   * which was made exactly once; without a job it resumes with what the call itself found.
   */
  lemma LookupAnswer(cs: seq<Call>, ss: seq<Dns.State>, acts: seq<Dns.Action>, mu: Dns.Pointer, q: nat)
    requires Legal(cs) && q < |After(cs).ready|
    requires var i := After(cs).ready[q].asked; 0 <= i < |cs| && cs[i].Resolve?
    requires Dns.Run(ss, acts) && ss[0] == Dns.StartWith(mu) && SameHandOff(After(cs), ss[|acts|])
    ensures var a := After(cs).ready[q];
            var c, r := cs[a.asked], a.x.result;
            && a.x == Resumption(c.frame, c.step, c.slot, r) && (c.how != Worker ==> r == c.r)
            && (c.how != Early ==>
                  exists j: Dns.Job :: JobOf(After(cs).jobs, j, a.asked) && Dns.LookedUpOnce(ss, acts, j, r))
  {
    hide Legal, After;
    RunTrue(cs);
    var v := After(cs);
    ViewAnswer(cs, v, q);
    if cs[v.ready[q].asked].how != Early {
      AnswersAreDeliveries(cs, q);
      Dns.ResultsAreLookups(ss, acts, mu);
      var k :| 0 <= k < |v.log| && JobOf(v.jobs, v.log[k].0, v.ready[q].asked) && v.log[k].1 == v.ready[q].x.result;
      assert ss[|acts|].log[k] == v.log[k];
      assert Dns.LookedUpOnce(ss, acts, v.log[k].0, v.log[k].1);
    }
  }
}

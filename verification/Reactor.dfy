/** The I/O reactor: coroutines parked on descriptors, resumed by poll rounds and by closing. */
module Reactor {
  import opened Basics

  const READ := 1
  const WRITE := 2
  const RECV := 3
  const RECV_TO := 4
  const ACCEPT := 5
  const DNS := 6

  /** One entry of the watch table. */
  datatype Watch = Watch(fd: int, kind: int, active: bool, len: int, deadline: int, frame: int, step: int, slot: int)

  /** A call of the resume hook; the result is what the frame finds in its slot (none when slot is 0). */
  datatype Resumption = Resumption(frame: int, step: int, slot: int, result: int)

  /** What one poll round finds on a descriptor: POLLNVAL, any of IN|OUT|ERR|HUP, and the outcome of the
      recv or accept tried then (-2 for would-block); on the DNS pipe, the finished jobs taken off its list. */
  datatype Event = Event(nval: bool, ready: bool, n: int, jobs: seq<Done>)

  /** A finished lookup: the number of its job, and its frame with the result. */
  datatype Done = Done(job: nat, x: Resumption)

  /** recv on a length that cannot be served returns at once. */
  function RecvTry(len: int, n: int): int {
    if len <= 0 then 0 else n
  }

  /** The close-shaped result of a kind. */
  function ClosedResult(kind: int): int {
    if kind == ACCEPT then -1 else 0
  }

  /** What a poll round delivers to a watch, if anything. */
  function Outcome(w: Watch, e: Event, now: int): Option<int> {
    var expired := w.kind == RECV_TO && w.deadline != 0 && now >= w.deadline;
    if e.nval then Some(ClosedResult(w.kind))
    else if e.ready then
      if w.kind == READ || w.kind == WRITE then Some(0)
      else if w.kind == RECV then
        if RecvTry(w.len, e.n) != -2 then Some(RecvTry(w.len, e.n)) else None
      else if w.kind == RECV_TO then
        if RecvTry(w.len, e.n) == -2 then if expired then Some(-1) else None
        else Some(RecvTry(w.len, e.n))
      else if w.kind == ACCEPT then
        if e.n != -2 then Some(e.n) else None
      else None
    else if expired then Some(-1)
    else None
  }

  /** The watches still active, in table order. */
  function Active(s: seq<Watch>): seq<Watch> {
    if s == [] then []
    else if s[|s| - 1].active then Active(s[..|s| - 1]) + [s[|s| - 1]]
    else Active(s[..|s| - 1])
  }

  function Resume(w: Watch, result: int): Resumption {
    Resumption(w.frame, w.step, w.slot, result)
  }

  function Frames(js: seq<Done>): (xs: seq<Resumption>)
    ensures |xs| == |js|
  {
    seq(|js|, i requires 0 <= i < |js| => js[i].x)
  }

  /** The watch is the DNS pipe's and poll reported it readable. */
  predicate Drains(w: Watch, e: Event) {
    w.kind == DNS && !e.nval && e.ready
  }

  /** What one watch contributes to the ready queue in a round. */
  function Woken(w: Watch, e: Event, now: int): seq<Resumption> {
    (if Outcome(w, e, now).Some? then [Resume(w, Outcome(w, e, now).value)] else [])
    + (if Drains(w, e) then Frames(e.jobs) else [])
  }

  /** The ready queue of a round, and the watches it leaves. */
  function RoundReady(p: seq<Watch>, es: seq<Event>, now: int): seq<Resumption>
    requires |p| == |es|
  {
    if p == [] then []
    else RoundReady(p[..|p| - 1], es[..|p| - 1], now) + Woken(p[|p| - 1], es[|p| - 1], now)
  }

  function RoundKept(p: seq<Watch>, es: seq<Event>, now: int): seq<Watch>
    requires |p| == |es|
  {
    if p == [] then []
    else RoundKept(p[..|p| - 1], es[..|p| - 1], now)
         + (if Outcome(p[|p| - 1], es[|p| - 1], now).None? then [p[|p| - 1]] else [])
  }

  function ClosedReady(p: seq<Watch>, fd: int): seq<Resumption> {
    if p == [] then []
    else ClosedReady(p[..|p| - 1], fd)
         + (if p[|p| - 1].fd == fd then [Resume(p[|p| - 1], ClosedResult(p[|p| - 1].kind))] else [])
  }

  function ClosedKept(p: seq<Watch>, fd: int): seq<Watch> {
    if p == [] then []
    else ClosedKept(p[..|p| - 1], fd) + (if p[|p| - 1].fd != fd then [p[|p| - 1]] else [])
  }

  lemma ActivePush(s: seq<Watch>, w: Watch)
    ensures Active(s + [w]) == if w.active then Active(s) + [w] else Active(s)
  {
    assert (s + [w])[..|s|] == s;
  }

  lemma {:induction false} AllActive(s: seq<Watch>)
    requires forall i :: 0 <= i < |s| ==> s[i].active
    ensures Active(s) == s
  {
    if s != [] {
      AllActive(s[..|s| - 1]);
    }
  }

  function PipeWatch(rfd: int): Watch {
    Watch(rfd, DNS, true, 0, 0, 0, 0, 0)
  }

  predicate WatchesPipe(p: seq<Watch>) {
    exists k :: 0 <= k < |p| && p[k].kind == DNS
  }

  lemma NoneActive()
    ensures Active([]) == []
  {
  }

  /** An active watch of the table is among the parked ones. */
  lemma {:induction false} PipeFound(s: seq<Watch>, i: nat)
    requires i < |s| && s[i].active && s[i].kind == DNS
    ensures WatchesPipe(Active(s))
    decreases |s|
  {
    var m := |s| - 1;
    if i < m {
      PipeFound(s[..m], i);
      var k :| 0 <= k < |Active(s[..m])| && Active(s[..m])[k].kind == DNS;
      assert Active(s)[k].kind == DNS;
    } else {
      assert Active(s)[|Active(s)| - 1].kind == DNS;
    }
  }

  class Table {
    var ws: array<Watch>
    var n: nat
    var ready: seq<Resumption>       // calls of the resume hook, oldest first

    ghost predicate Valid()
      reads this, ws
    {
      n <= ws.Length
    }

    /** The parked watches. */
    ghost function Parked(): seq<Watch>
      requires Valid()
      reads this, ws
    {
      Active(ws[..n])
    }

    constructor ()
      ensures Valid() && Parked() == [] && ready == [] && fresh(ws)
    {
      ws := new Watch[0];
      n := 0;
      ready := [];
    }

    /** Append an entry, doubling the table when it is full. */
    method Push(fd: int, kind: int, len: int, deadline: int, frame: int, step: int, slot: int)
      requires Valid()
      modifies this`ws, this`n, ws
      ensures Valid() && (ws == old(ws) || fresh(ws))
      ensures Parked() == old(Parked()) + [Watch(fd, kind, true, len, deadline, frame, step, slot)]
    {
      ghost var s := ws[..n];
      var w := Watch(fd, kind, true, len, deadline, frame, step, slot);
      if n == ws.Length {
        var ncap := if ws.Length != 0 then ws.Length * 2 else 8;
        var nu := new Watch[ncap](_ => w);
        var i := 0;
        while i < n
          invariant 0 <= i <= n && Valid() && ws == old(ws) && ws[..n] == s && n < nu.Length && fresh(nu)
          invariant forall j :: 0 <= j < i ==> nu[j] == ws[j]
        {
          nu[i] := ws[i];
          i := i + 1;
        }
        ws := nu;
        assert ws[..n] == s;
      }
      ws[n] := w;
      n := n + 1;
      assert ws[..n] == s + [w];
      ActivePush(s, w);
    }

    // ---- the co calls: at once, or parked ----

    method WaitCo(fd: int, alive: bool, interest: int, frame: int, step: int)
      requires Valid()
      modifies this, ws
      ensures Valid() && (ws == old(ws) || fresh(ws))
      ensures if !alive then Parked() == old(Parked()) && ready == old(ready) + [Resumption(frame, step, 0, 0)]
              else ready == old(ready)
                   && Parked() == old(Parked())
                        + [Watch(fd, if interest == 2 then WRITE else READ, true, 0, 0, frame, step, 0)]
    {
      if !alive {
        ready := ready + [Resumption(frame, step, 0, 0)];
        return;
      }
      Push(fd, if interest == 2 then WRITE else READ, 0, 0, frame, step, 0);
    }

    /** The probe finds data ready or not; n is what recv then says. */
    method RecvCo(fd: int, alive: bool, probe: bool, n0: int, len: int, frame: int, step: int, slot: int)
      requires Valid()
      modifies this, ws
      ensures Valid() && (ws == old(ws) || fresh(ws))
      ensures var r := if !alive then 0 else if probe then RecvTry(len, n0) else -2;
        if r != -2 then Parked() == old(Parked()) && ready == old(ready) + [Resumption(frame, step, slot, r)]
        else ready == old(ready) && Parked() == old(Parked()) + [Watch(fd, RECV, true, len, 0, frame, step, slot)]
    {
      var r := -2;
      if !alive {
        r := 0;
      } else if probe {
        r := RecvTry(len, n0);
      }
      if r == -2 {
        Push(fd, RECV, len, 0, frame, step, slot);
        return;
      }
      ready := ready + [Resumption(frame, step, slot, r)];
    }

    method RecvToCo(fd: int, alive: bool, probe: bool, n0: int, len: int, tmo: int, clock: int,
                    frame: int, step: int, slot: int)
      requires Valid()
      modifies this, ws
      ensures Valid() && (ws == old(ws) || fresh(ws))
      ensures var r := if !alive then 0 else if probe then RecvTry(len, n0) else -2;
        if r != -2 then Parked() == old(Parked()) && ready == old(ready) + [Resumption(frame, step, slot, r)]
        else ready == old(ready)
             && Parked() == old(Parked())
                + [Watch(fd, RECV_TO, true, len, if tmo > 0 then clock + tmo * 1000000 else 0, frame, step, slot)]
    {
      var r := -2;
      if !alive {
        r := 0;
      } else if probe {
        r := RecvTry(len, n0);
      }
      if r == -2 {
        var dl := if tmo > 0 then clock + tmo * 1000000 else 0;
        Push(fd, RECV_TO, len, dl, frame, step, slot);
        return;
      }
      ready := ready + [Resumption(frame, step, slot, r)];
    }

    method AcceptCo(fd: int, alive: bool, probe: bool, c0: int, frame: int, step: int, slot: int)
      requires Valid()
      modifies this, ws
      ensures Valid() && (ws == old(ws) || fresh(ws))
      ensures var r := if !alive then -1 else if probe then c0 else -2;
        if r != -2 then Parked() == old(Parked()) && ready == old(ready) + [Resumption(frame, step, slot, r)]
        else ready == old(ready) && Parked() == old(Parked()) + [Watch(fd, ACCEPT, true, 0, 0, frame, step, slot)]
    {
      var r := -2;
      if !alive {
        r := -1;
      } else if probe {
        r := c0;
      }
      if r == -2 {
        Push(fd, ACCEPT, 0, 0, frame, step, slot);
        return;
      }
      ready := ready + [Resumption(frame, step, slot, r)];
    }

    /** Watch the DNS pipe unless it is being watched already. */
    method EnsurePipe(rfd: int)
      requires Valid()
      modifies this`ws, this`n, ws
      ensures Valid() && (ws == old(ws) || fresh(ws))
      ensures Parked() == old(Parked()) + (if WatchesPipe(old(Parked())) then [] else [PipeWatch(rfd)])
    {
      hide Active;
      var i := 0;
      assert ws[..0] == [];
      NoneActive();
      while i < n
        invariant 0 <= i <= n && Valid() && ws == old(ws) && n == old(n) && ws[..n] == old(ws[..n])
        invariant !WatchesPipe(Active(ws[..i]))
      {
        assert ws[..i + 1] == ws[..i] + [ws[i]];
        ActivePush(ws[..i], ws[i]);
        if ws[i].active && ws[i].kind == DNS {
          PipeFound(ws[..n], i);
          assert Parked() + [] == Parked();
          return;
        }
        i := i + 1;
      }
      Push(rfd, DNS, 0, 0, 0, 0, 0);
    }

    // ---- a poll round ----

    /** Move the active entries to the front, in order. */
    method Compact()
      requires Valid()
      modifies this`n, ws
      ensures Valid() && ws[..n] == old(Parked())
      ensures forall i :: 0 <= i < n ==> ws[i].active
    {
      hide Active;
      ghost var s := ws[..n];
      var k, i := 0, 0;
      NoneActive();
      assert ws[..0] == [] && s[..0] == [];
      while i < n
        invariant 0 <= k <= i <= n && n == old(n)
        invariant ws[..k] == Active(s[..i])
        invariant forall j :: 0 <= j < k ==> ws[j].active
        invariant forall j :: i <= j < n ==> ws[j] == s[j]
      {
        ghost var before := ws[..k];
        assert s[..i + 1] == s[..i] + [s[i]];
        ActivePush(s[..i], s[i]);
        if ws[i].active {
          if k != i {
            ws[k] := ws[i];
          }
          k := k + 1;
          assert ws[..k] == before + [s[i]];
        }
        i := i + 1;
      }
      assert s[..n] == s;
      n := k;
    }

    /** io_poll: compact, then serve each watch once. Returns whether there was anything to watch. */
    method Poll(es: seq<Event>, now: int) returns (more: bool)
      requires Valid() && |es| == |Parked()|
      modifies this`n, this`ready, ws
      ensures Valid() && (more <==> old(Parked()) != [])
      ensures ready == old(ready) + RoundReady(old(Parked()), es, now)
      ensures Parked() == RoundKept(old(Parked()), es, now)
    {
      hide Active, RoundReady, RoundKept, Woken, Outcome;
      ghost var p := Parked();
      Compact();
      AllActive(ws[..n]);
      RoundNone(now);
      ghost var r0 := ready;
      if n == 0 {
        assert p == [] && es == [] && ready == r0 + [];
        return false;
      }
      var i := 0;
      assert p[..0] == [] && es[..0] == [] && ws[..0] == [] && r0 == r0 + [];
      while i < n
        invariant 0 <= i <= n == |p| && Valid()
        invariant forall j :: i <= j < n ==> ws[j] == p[j] && ws[j].active
        invariant Active(ws[..i]) == RoundKept(p[..i], es[..i], now)
        invariant ready == r0 + RoundReady(p[..i], es[..i], now)
      {
        ghost var before := ws[..i];
        assert p[..i + 1] == p[..i] + [p[i]] && es[..i + 1] == es[..i] + [es[i]];
        RoundPush(p[..i], es[..i], p[i], es[i], now);
        Serve(i, es[i], now);
        assert ws[..i + 1] == before + [ws[i]];
        ActivePush(before, ws[i]);
        i := i + 1;
      }
      assert p[..n] == p && es[..n] == es;
      return true;
    }

    /** The dispatch on one watch of a round. */
    method Serve(i: nat, e: Event, now: int)
      requires Valid() && i < n && ws[i].active
      modifies this`ready, ws
      ensures Valid()
      ensures ready == old(ready) + Woken(old(ws[i]), e, now)
      ensures ws[i] == old(ws[i]).(active := Outcome(old(ws[i]), e, now).None?)
      ensures forall j :: 0 <= j < ws.Length && j != i ==> ws[j] == old(ws[j])
    {
      var w := ws[i];
      if e.nval {
        Deliver(i, if w.kind == ACCEPT then -1 else 0);
      } else if e.ready {
        if w.kind == READ || w.kind == WRITE {
          Deliver(i, 0);
        } else if w.kind == RECV {
          var n0 := RecvTry(w.len, e.n);
          if n0 != -2 {
            Deliver(i, n0);
          }
        } else if w.kind == RECV_TO {
          var n0 := RecvTry(w.len, e.n);
          if n0 == -2 {
            if w.deadline != 0 && now >= w.deadline {
              Deliver(i, -1);
            }
          } else {
            Deliver(i, n0);
          }
        } else if w.kind == ACCEPT {
          if e.n != -2 {
            Deliver(i, e.n);
          }
        } else if w.kind == DNS {
          ServeJobs(e.jobs);
        }
      } else if w.kind == RECV_TO && w.deadline != 0 && now >= w.deadline {
        Deliver(i, -1);
      }
    }

    /** Resume the frame of every finished lookup, in list order. */
    method ServeJobs(jobs: seq<Done>)
      modifies this`ready
      ensures ready == old(ready) + Frames(jobs)
    {
      var i := 0;
      while i < |jobs|
        invariant 0 <= i <= |jobs| && ready == old(ready) + Frames(jobs[..i])
      {
        assert Frames(jobs[..i + 1]) == Frames(jobs[..i]) + [jobs[i].x];
        ready := ready + [jobs[i].x];
        i := i + 1;
      }
      assert jobs[..i] == jobs;
    }

    /** Retire a watch and hand its frame the result. */
    method Deliver(i: nat, result: int)
      requires Valid() && i < n
      modifies this`ready, ws
      ensures Valid() && ws[i] == old(ws[i]).(active := false)
      ensures forall j :: 0 <= j < ws.Length && j != i ==> ws[j] == old(ws[j])
      ensures ready == old(ready) + [Resume(old(ws[i]), result)]
    {
      var w := ws[i];
      ws[i] := w.(active := false);
      ready := ready + [Resumption(w.frame, w.step, w.slot, result)];
    }

    /** io_close_notify: wake everything parked on the descriptor. */
    method CloseNotify(fd: int)
      requires Valid()
      modifies this`ready, ws
      ensures Valid()
      ensures ready == old(ready) + ClosedReady(old(Parked()), fd)
      ensures Parked() == ClosedKept(old(Parked()), fd)
    {
      hide Active, ClosedReady, ClosedKept;
      ghost var s := ws[..n];
      ghost var r0 := ready;
      ClosedNone(fd);
      var i := 0;
      assert s[..0] == [] && ws[..0] == [] && r0 == r0 + [];
      while i < n
        invariant 0 <= i <= n == |s| && Valid()
        invariant forall j :: i <= j < n ==> ws[j] == s[j]
        invariant Active(ws[..i]) == ClosedKept(Active(s[..i]), fd)
        invariant ready == r0 + ClosedReady(Active(s[..i]), fd)
      {
        ghost var before := ws[..i];
        assert s[..i + 1] == s[..i] + [s[i]];
        ActivePush(s[..i], s[i]);
        ClosedPush(Active(s[..i]), s[i], fd);
        CloseOne(i, fd);
        assert ws[..i + 1] == before + [ws[i]];
        ActivePush(before, ws[i]);
        i := i + 1;
      }
      assert s[..n] == s && ws[..n] == ws[..i];
    }

    method CloseOne(i: nat, fd: int)
      requires Valid() && i < n
      modifies this`ready, ws
      ensures Valid()
      ensures var w := old(ws[i]);
        && ws[i] == (if w.active && w.fd == fd then w.(active := false) else w)
        && ready == old(ready) + (if w.active && w.fd == fd then [Resume(w, ClosedResult(w.kind))] else [])
      ensures forall j :: 0 <= j < ws.Length && j != i ==> ws[j] == old(ws[j])
    {
      if ws[i].active && ws[i].fd == fd {
        Deliver(i, if ws[i].kind == ACCEPT then -1 else 0);
      }
    }
  }

  lemma RoundNone(now: int)
    ensures RoundReady([], [], now) == [] && RoundKept([], [], now) == [] && Active([]) == []
  {
  }

  lemma RoundPush(p: seq<Watch>, es: seq<Event>, w: Watch, e: Event, now: int)
    requires |p| == |es|
    ensures RoundReady(p + [w], es + [e], now) == RoundReady(p, es, now) + Woken(w, e, now)
    ensures RoundKept(p + [w], es + [e], now)
         == RoundKept(p, es, now) + (if Outcome(w, e, now).None? then [w] else [])
  {
    assert (p + [w])[..|p|] == p && (es + [e])[..|es|] == es;
  }

  lemma ClosedNone(fd: int)
    ensures ClosedReady([], fd) == [] && ClosedKept([], fd) == [] && Active([]) == []
  {
  }

  lemma ClosedPush(p: seq<Watch>, w: Watch, fd: int)
    ensures ClosedKept(p + [w], fd) == ClosedKept(p, fd) + (if w.fd != fd then [w] else [])
    ensures ClosedReady(p + [w], fd)
         == ClosedReady(p, fd) + (if w.fd == fd then [Resume(w, ClosedResult(w.kind))] else [])
  {
    assert (p + [w])[..|p|] == p;
  }

  /** Closing leaves nothing parked on the descriptor. */
  lemma {:induction false} CloseKeepsOthers(p: seq<Watch>, fd: int)
    ensures forall i :: 0 <= i < |ClosedKept(p, fd)| ==> ClosedKept(p, fd)[i].fd != fd
  {
    if p != [] {
      CloseKeepsOthers(p[..|p| - 1], fd);
    }
  }

  /** A round leaves the others parked in their order: what is kept is a subsequence of what was there. */
  predicate Subsequence(a: seq<Watch>, b: seq<Watch>) {
    if a == [] then true
    else if b == [] then false
    else if a[|a| - 1] == b[|b| - 1] && Subsequence(a[..|a| - 1], b[..|b| - 1]) then true
    else Subsequence(a, b[..|b| - 1])
  }

  lemma {:induction false} RoundKeepsOrder(p: seq<Watch>, es: seq<Event>, now: int)
    requires |p| == |es|
    ensures Subsequence(RoundKept(p, es, now), p)
  {
    if p != [] {
      var m := |p| - 1;
      RoundKeepsOrder(p[..m], es[..m], now);
      if Outcome(p[m], es[m], now).None? {
        var k, r := RoundKept(p[..m], es[..m], now), RoundKept(p, es, now);
        assert r == k + [p[m]] && r[..|r| - 1] == k;
      } else {
        assert RoundKept(p[..m], es[..m], now) + [] == RoundKept(p[..m], es[..m], now);
      }
    }
  }
}

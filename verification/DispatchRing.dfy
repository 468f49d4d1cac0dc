/** The UI-thread dispatch ring: a growable circular buffer of delegate pointers. */
module DispatchRing {

  const MAX_CAP := 1048576           // 2^20

  /** The slot i places after h on a ring of cap slots. */
  function Slot(h: nat, i: nat, cap: nat): (k: nat)
    requires h < cap && i <= cap
    ensures k < cap && k == (h + i) % cap
  {
    OneLap(h + i, cap);
    if h + i < cap then h + i else h + i - cap
  }

  /** Reducing an index at most one lap ahead. */
  lemma OneLap(x: nat, cap: nat)
    requires cap > 0 && x < 2 * cap
    ensures x % cap == if x < cap then x else x - cap
  {
  }

  /** n entries of r from position h on, around the end. */
  function Wrapped(r: seq<int>, h: nat, n: nat): (q: seq<int>)
    requires h < |r| && n <= |r|
    ensures |q| == n && forall i: nat :: i < n ==> q[i] == r[Slot(h, i, |r|)]
  {
    seq(n, i requires 0 <= i < n => r[Slot(h, i, |r|)])
  }

  /** How far t is ahead of h, going round. */
  function Ahead(h: nat, t: nat, cap: nat): (n: nat)
    requires h < cap && t < cap
    ensures n < cap && Slot(h, n, cap) == t
  {
    if h <= t then t - h else t + cap - h
  }

  /** Capacities start at 64 and double up to 2^20. */
  predicate CapOk(cap: nat) {
    cap == 64 || (cap % 2 == 0 && 64 < cap <= MAX_CAP && CapOk(cap / 2))
  }

  /** Below the limit there is room to double. */
  lemma CapDouble(cap: nat)
    requires CapOk(cap) && cap < MAX_CAP
    ensures CapOk(2 * cap)
  {
    CapList(cap);
  }

  lemma CapList(cap: nat)
    requires CapOk(cap) && cap < MAX_CAP
    ensures 2 * cap <= MAX_CAP
  {
    // 2^20 / 64 = 2^14: fourteen halvings reach 64
    CapHalves(cap, MAX_CAP);
  }

  /** A smaller capacity is at most half of a larger one. */
  lemma {:induction false} CapHalves(a: nat, b: nat)
    requires CapOk(a) && b >= 64 && a < b && IsMax(b)
    ensures 2 * a <= b
    decreases b
  {
    if b > 64 && a > 64 {
      CapHalves(a / 2, b / 2);
    }
  }

  predicate IsMax(b: nat) {
    b == 64 || (b % 2 == 0 && b > 64 && IsMax(b / 2))
  }

  /** One more entry behind the last. */
  lemma WrappedPush(r: seq<int>, r': seq<int>, h: nat, n: nat, x: int)
    requires h < |r| == |r'| && n < |r|
    requires r' == r[Slot(h, n, |r|) := x]
    ensures Wrapped(r', h, n + 1) == Wrapped(r, h, n) + [x]
  {
    hide Wrapped;
    var a, b := Wrapped(r', h, n + 1), Wrapped(r, h, n) + [x];
    forall i: nat | i < n + 1 ensures a[i] == b[i] {
      if i < n {
        assert a[i] == r[Slot(h, i, |r|)];
      }
    }
  }

  /** The first entry leaves. */
  lemma WrappedPop(r: seq<int>, h: nat, n: nat)
    requires h < |r| && 0 < n <= |r|
    ensures Wrapped(r, h, n) == [r[h]] + Wrapped(r, Slot(h, 1, |r|), n - 1)
  {
    hide Wrapped;
    var a, b := Wrapped(r, h, n), [r[h]] + Wrapped(r, Slot(h, 1, |r|), n - 1);
    forall i: nat | i < n ensures a[i] == b[i] {
      if i > 0 {
        assert Slot(h, i, |r|) == Slot(Slot(h, 1, |r|), i - 1, |r|);
      }
    }
  }

  /** A ring that starts at slot 0 holds its entries in place. */
  lemma Unwrapped(r: seq<int>, n: nat)
    requires 0 < |r| && n <= |r|
    ensures Wrapped(r, 0, n) == r[..n]
  {
    hide Wrapped;
    forall i: nat | i < n ensures Wrapped(r, 0, n)[i] == r[..n][i] {
      assert Slot(0, i, |r|) == i;
    }
  }

  /** Head and tail one step apart on the ring: full. */
  lemma FullWhen(h: nat, t: nat, cap: nat)
    requires h < cap && t < cap && cap > 1
    ensures Slot(t, 1, cap) == h <==> Ahead(h, t, cap) == cap - 1
  {
  }

  lemma AheadStep(h: nat, t: nat, cap: nat)
    requires h < cap && t < cap && cap > 1 && Slot(t, 1, cap) != h
    ensures Ahead(h, Slot(t, 1, cap), cap) == Ahead(h, t, cap) + 1
  {
  }

  lemma AheadPop(h: nat, t: nat, cap: nat)
    requires h < cap && t < cap && cap > 1 && h != t
    ensures Ahead(Slot(h, 1, cap), t, cap) == Ahead(h, t, cap) - 1
  {
  }

  lemma ApartWhen(h: nat, t: nat, cap: nat)
    requires h < cap && t < cap
    ensures Ahead(h, t, cap) == 0 <==> h == t
  {
  }

  class Ring {
    var cap: nat
    var head: nat
    var tail: nat
    var ring: array<int>

    ghost predicate Valid()
      reads this, ring
    {
      CapOk(cap) && ring.Length == cap && cap > 1 && cap <= MAX_CAP && head < cap && tail < cap
    }

    /** The queued entries, oldest first. */
    ghost function Queue(): seq<int>
      requires Valid()
      reads this, ring
    {
      Wrapped(ring[..], head, Ahead(head, tail, cap))
    }

    constructor ()
      ensures Valid() && Queue() == [] && fresh(ring)
    {
      cap := 64;
      head := 0;
      tail := 0;
      ring := new int[64](_ => 0);
    }

    /** Copy the live entries, oldest first, to the front of a larger ring. */
    method CopyLive(nring: array<int>) returns (count: nat)
      requires Valid() && nring != ring && nring.Length > cap
      modifies nring
      ensures count == |Queue()| && count < nring.Length && nring[..count] == Queue()
    {
      hide Wrapped, Ahead, Slot, CapOk;
      ghost var q := Queue();
      count := 0;
      var i: nat := head;
      while i != tail
        invariant i < cap && count <= |q| && Ahead(i, tail, cap) == |q| - count
        invariant nring[..count] == q[..count]
        invariant Wrapped(ring[..], i, |q| - count) == q[count..]
        decreases |q| - count
      {
        AheadPop(i, tail, cap);
        assert |q| - count > 0 by { ApartWhen(i, tail, cap); }
        WrappedPop(ring[..], i, |q| - count);
        assert ring[i] == q[count] && Wrapped(ring[..], Slot(i, 1, cap), |q| - count - 1) == q[count..][1..];
        nring[count] := ring[i];
        assert nring[..count + 1] == nring[..count] + [ring[i]];
        assert q[count..][1..] == q[count + 1..];
        count := count + 1;
        i := (i + 1) % cap;
      }
      assert Ahead(i, tail, cap) == 0 by { ApartWhen(i, tail, cap); }
      assert q[..count] == q;
    }

    /** Double the ring and move the live entries to its front; fails at 2^20 or without memory. */
    method Grow(memory: bool) returns (grown: bool)
      requires Valid()
      modifies this
      ensures Valid() && (grown <==> cap != old(cap)) && (ring == old(ring) || fresh(ring))
      ensures grown <==> old(cap) < 0x10_0000 && memory
      ensures Queue() == old(Queue())
      ensures grown ==> cap == 2 * old(cap) && head == 0
      ensures !grown ==> head == old(head) && tail == old(tail) && ring == old(ring)
    {
      if cap >= MAX_CAP || !memory {
        return false;
      }
      var ncap := cap * 2;
      CapDouble(cap);
      var nring := new int[ncap](_ => 0);
      var count := CopyLive(nring);
      cap := ncap;
      head := 0;
      tail := count;
      ring := nring;
      Unwrapped(ring[..], count);
      return true;
    }

    /** Queue a delegate; null is refused, a full ring grows first. */
    method Post(fn: int, memory: bool) returns (ok: bool)
      requires Valid()
      modifies this, ring
      ensures Valid() && (ring == old(ring) || fresh(ring))
      ensures ok <==> fn != 0 && (|old(Queue())| < old(cap) - 1 || (old(cap) < 0x10_0000 && memory))
      ensures Queue() == if ok then old(Queue()) + [fn] else old(Queue())
      ensures !ok && fn != 0 ==> |old(Queue())| == 0xF_FFFF || !memory
      ensures cap == if ok && |old(Queue())| == old(cap) - 1 then 2 * old(cap) else old(cap)
    {
      hide Wrapped, Ahead, Slot, CapOk;
      if fn == 0 {
        return false;
      }
      ok := false;
      var next := (tail + 1) % cap;
      FullWhen(head, tail, cap);
      if next == head {
        var grown := Grow(memory);
        if grown {
          next := (tail + 1) % cap;
          FullWhen(head, tail, cap);
        }
      }
      if next != head {
        AheadStep(head, tail, cap);
        WrappedPush(ring[..], ring[..][tail := fn], head, Ahead(head, tail, cap), fn);
        ring[tail] := fn;
        tail := next;
        ok := true;
      }
    }

    /** The oldest entry, null when there is none. */
    method Take() returns (fn: int)
      requires Valid()
      modifies this`head
      ensures Valid()
      ensures if old(Queue()) == [] then fn == 0 && Queue() == []
              else fn == old(Queue())[0] && Queue() == old(Queue())[1..]
    {
      fn := 0;
      if head != tail {
        AheadPop(head, tail, cap);
        WrappedPop(ring[..], head, Ahead(head, tail, cap));
        fn := ring[head];
        head := (head + 1) % cap;
      }
    }

    method Clear()
      requires Valid()
      modifies this`head, this`tail
      ensures Valid() && Queue() == []
    {
      head := 0;
      tail := 0;
    }

    /** Any run of posts, takes and clears is the run of a FIFO with the same answers. */
    method Run(calls: seq<Call>) returns (answers: seq<int>)
      requires Valid()
      modifies this, ring
      ensures Valid() && (ring == old(ring) || fresh(ring))
      ensures Fifo(Queue(), cap) == After(old(Fifo(Queue(), cap)), calls)
      ensures answers == Answers(old(Fifo(Queue(), cap)), calls)
    {
      hide Valid, Queue, Step, Answer;
      ghost var f0 := Fifo(Queue(), cap);
      answers := [];
      var i := 0;
      assert calls[..0] == [];
      while i < |calls|
        invariant 0 <= i <= |calls| && Valid() && (ring == old(ring) || fresh(ring))
        invariant Fifo(Queue(), cap) == After(f0, calls[..i]) && answers == Answers(f0, calls[..i])
      {
        assert calls[..i + 1][..i] == calls[..i];
        var r := Serve(calls[i]);
        answers := answers + [r];
        i := i + 1;
      }
      assert calls[..i] == calls;
    }

    method Serve(c: Call) returns (r: int)
      requires Valid()
      modifies this, ring
      ensures Valid() && (ring == old(ring) || fresh(ring))
      ensures Fifo(Queue(), cap) == Step(old(Fifo(Queue(), cap)), c)
      ensures r == Answer(old(Fifo(Queue(), cap)), c)
    {
      hide Wrapped, Ahead, Slot, CapOk;
      match c
      case PostCall(fn, memory) =>
        var ok := Post(fn, memory);
        r := if ok then 1 else 0;
      case TakeCall =>
        r := Take();
      case ClearCall =>
        Clear();
        r := 0;
    }
  }

  // ---- the FIFO it stands for ----

  /** ClearCall also stands for dispatch_init, which has the same effect. */
  datatype Call = PostCall(fn: int, memory: bool) | TakeCall | ClearCall

  /** A queue and the room it has before it must grow. */
  datatype Fifo = Fifo(q: seq<int>, cap: nat)

  /** Delegates are accepted while there is room or the room can be doubled; null never is. */
  predicate Accepts(f: Fifo, c: Call) {
    c.PostCall? && c.fn != 0 && (|f.q| < f.cap - 1 || (f.cap < MAX_CAP && c.memory))
  }

  function Step(f: Fifo, c: Call): Fifo {
    match c
    case PostCall(fn, _) =>
      if Accepts(f, c) then Fifo(f.q + [fn], if |f.q| == f.cap - 1 then 2 * f.cap else f.cap) else f
    case TakeCall => if f.q == [] then f else f.(q := f.q[1..])
    case ClearCall => f.(q := [])
  }

  function Answer(f: Fifo, c: Call): int {
    match c
    case PostCall(_, _) => if Accepts(f, c) then 1 else 0
    case TakeCall => if f.q == [] then 0 else f.q[0]
    case ClearCall => 0
  }

  function After(f: Fifo, calls: seq<Call>): Fifo {
    if calls == [] then f else Step(After(f, calls[..|calls| - 1]), calls[|calls| - 1])
  }

  function Answers(f: Fifo, calls: seq<Call>): seq<int> {
    if calls == [] then []
    else Answers(f, calls[..|calls| - 1]) + [Answer(After(f, calls[..|calls| - 1]), calls[|calls| - 1])]
  }

  /** What a run accepted, and what left the queue: taken, or dropped by a clear. */
  datatype Exit = Taken(fn: int) | Dropped(fn: int)

  function Posted(f: Fifo, calls: seq<Call>): seq<int> {
    if calls == [] then []
    else
      var n := |calls| - 1;
      Posted(f, calls[..n]) + if Accepts(After(f, calls[..n]), calls[n]) then [calls[n].fn] else []
  }

  function Exits(f: Fifo, calls: seq<Call>): seq<Exit> {
    if calls == [] then []
    else Exits(f, calls[..|calls| - 1]) + Leaving(After(f, calls[..|calls| - 1]).q, calls[|calls| - 1])
  }

  function Leaving(q: seq<int>, c: Call): seq<Exit> {
    match c
    case PostCall(_, _) => []
    case TakeCall => if q == [] then [] else [Taken(q[0])]
    case ClearCall => seq(|q|, i requires 0 <= i < |q| => Dropped(q[i]))
  }

  function Names(es: seq<Exit>): (ns: seq<int>)
    ensures |ns| == |es|
  {
    seq(|es|, i requires 0 <= i < |es| => es[i].fn)
  }

  /** First in, first out: what was queued and accepted is what left, in order, followed by what is queued. */
  lemma {:induction false} FirstInFirstOut(f: Fifo, calls: seq<Call>)
    ensures f.q + Posted(f, calls) == Names(Exits(f, calls)) + After(f, calls).q
  {
    if calls == [] {
      assert f.q + [] == [] + f.q;
    } else {
      var n := |calls| - 1;
      FirstInFirstOut(f, calls[..n]);
      LeavesInOrder(After(f, calls[..n]), calls[n]);
      JoinStep(f.q, Posted(f, calls[..n]), Exits(f, calls[..n]), After(f, calls[..n]), calls[n]);
    }
  }

  lemma LeavesInOrder(f: Fifo, c: Call)
    ensures f.q + (if Accepts(f, c) then [c.fn] else []) == Names(Leaving(f.q, c)) + Step(f, c).q
  {
  }

  lemma JoinStep(q0: seq<int>, posted: seq<int>, exits: seq<Exit>, f: Fifo, c: Call)
    requires q0 + posted == Names(exits) + f.q
    requires f.q + (if Accepts(f, c) then [c.fn] else []) == Names(Leaving(f.q, c)) + Step(f, c).q
    ensures q0 + (posted + if Accepts(f, c) then [c.fn] else [])
         == Names(exits + Leaving(f.q, c)) + Step(f, c).q
  {
    hide Step, Leaving;
    var more := if Accepts(f, c) then [c.fn] else [];
    var out := Leaving(f.q, c);
    assert Names(exits + out) == Names(exits) + Names(out);
    assert q0 + (posted + more) == (q0 + posted) + more;
    assert (Names(exits) + f.q) + more == Names(exits) + (f.q + more);
    assert Names(exits) + (Names(out) + Step(f, c).q) == (Names(exits) + Names(out)) + Step(f, c).q;
  }

  /** Null is never queued: a take answers null exactly when the queue is empty. */
  lemma {:induction false} NeverNull(f: Fifo, calls: seq<Call>)
    requires 0 !in f.q
    ensures 0 !in After(f, calls).q
    ensures Answer(After(f, calls), TakeCall) == 0 <==> After(f, calls).q == []
  {
    if calls != [] {
      NeverNull(f, calls[..|calls| - 1]);
      KeepsNonNull(After(f, calls[..|calls| - 1]), calls[|calls| - 1]);
    }
    var q := After(f, calls).q;
    assert q != [] ==> q[0] in q;
  }

  lemma KeepsNonNull(f: Fifo, c: Call)
    requires 0 !in f.q
    ensures 0 !in Step(f, c).q
  {
    if c.TakeCall? && f.q != [] {
      assert f.q == [f.q[0]] + f.q[1..];
      assert 0 in f.q[1..] ==> 0 in f.q;
    }
  }
}

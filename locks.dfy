/**
  The per-item FIFO lock. The lock keeps two maps: a held flag per key and a
  queue of waiters per key. A waiter is a suspended caller; here it is a ticket
  that the caller supplies, and the lock hands tickets the lock in queue order.
  The lock records no holder, so it cannot tell a holder's second request from
  anyone else's.
*/
module Locks {
  import opened Optional

  type Key = string
  type Ticket = nat

  datatype Grant = Granted | Queued

  datatype LockState = LockState(locks: map<Key, bool>, queues: map<Key, seq<Ticket>>)

  /** `this.locks.get(key)` is truthy. */
  predicate IsHeld(st: LockState, k: Key)
  {
    k in st.locks && st.locks[k]
  }

  /** The waiters of a key; an absent queue has none. */
  function Waiters(st: LockState, k: Key): seq<Ticket>
  {
    if k in st.queues then st.queues[k] else []
  }

  /** A key with waiters is held. */
  ghost predicate Inv(st: LockState)
  {
    forall k :: k in st.queues && st.queues[k] != [] ==> IsHeld(st, k)
  }

  /** Held flags and queues of every key other than `k` agree. */
  ghost predicate SameElsewhere(a: LockState, b: LockState, k: Key)
  {
    forall k' :: k' != k ==> IsHeld(a, k') == IsHeld(b, k') && Waiters(a, k') == Waiters(b, k')
  }

  /** `acquireLock(key)`: grant a free key at once, otherwise queue at the tail. */
  function Acquire(st: LockState, k: Key, t: Ticket): (r: (Grant, LockState))
    ensures r.0 == Granted <==> !IsHeld(st, k)
    ensures IsHeld(r.1, k)
    ensures r.0 == Granted ==> Waiters(r.1, k) == Waiters(st, k)
    ensures r.0 == Queued ==> Waiters(r.1, k) == Waiters(st, k) + [t]
    ensures SameElsewhere(st, r.1, k)
    ensures Inv(st) ==> Inv(r.1)
  {
    if !IsHeld(st, k) then
      (Granted, st.(locks := st.locks[k := true]))
    else
      (Queued, st.(queues := st.queues[k := Waiters(st, k) + [t]]))
  }

  /** `releaseLock(key)`: hand the key to the head waiter, or mark it free. */
  function Release(st: LockState, k: Key): (r: (Option<Ticket>, LockState))
    ensures Waiters(st, k) != [] ==>
      r.0 == Some(Waiters(st, k)[0]) && Waiters(r.1, k) == Waiters(st, k)[1..] &&
      IsHeld(r.1, k) == IsHeld(st, k)
    ensures Waiters(st, k) == [] ==> r.0 == None && !IsHeld(r.1, k) && Waiters(r.1, k) == []
    ensures Inv(st) && Waiters(st, k) != [] ==> IsHeld(r.1, k)
    ensures SameElsewhere(st, r.1, k)
    ensures Inv(st) ==> Inv(r.1)
  {
    if k in st.queues && |st.queues[k]| > 0 then
      (Some(st.queues[k][0]), st.(queues := st.queues[k := st.queues[k][1..]]))
    else
      (None, st.(locks := st.locks[k := false]))
  }

  /** Whether to grant does not depend on who asks: there is no reentrancy. */
  lemma GrantIgnoresCaller(st: LockState, k: Key, t1: Ticket, t2: Ticket)
    ensures Acquire(st, k, t1).0 == Acquire(st, k, t2).0
  {
  }

  /**
    A holder that asks again for the key it holds is queued behind itself: its
    request can only be granted by a release of that same key.
  */
  lemma ReacquireQueuesBehindHolder(st: LockState, k: Key, outer: Ticket, inner: Ticket)
    requires Inv(st) && Acquire(st, k, outer).0 == Granted
    ensures var held := Acquire(st, k, outer).1;
      var waiting := Acquire(held, k, inner).1;
      && Acquire(held, k, inner).0 == Queued
      && Waiters(waiting, k) == [inner]
      && (forall t :: Acquire(waiting, k, t).0 == Queued)
      && Release(waiting, k).0 == Some(inner)
  {
  }

  // ---------------------------------------------------------------------------
  // FIFO order over any run of requests on one key

  datatype LockOp = AcquireOp(ticket: Ticket) | ReleaseOp

  /** What a run of operations did: tickets granted at once, tickets queued, tickets handed the lock. */
  datatype Trace = Trace(immediate: seq<Ticket>, queued: seq<Ticket>, handedOff: seq<Ticket>)

  function Step(st: LockState, k: Key, op: LockOp): (LockState, Trace)
  {
    match op
    case AcquireOp(t) =>
      var (g, st') := Acquire(st, k, t);
      if g == Granted then (st', Trace([t], [], [])) else (st', Trace([], [t], []))
    case ReleaseOp =>
      var (next, st') := Release(st, k);
      match next
      case Some(t) => (st', Trace([], [], [t]))
      case None => (st', Trace([], [], []))
  }

  function Then(a: Trace, b: Trace): Trace
  {
    Trace(a.immediate + b.immediate, a.queued + b.queued, a.handedOff + b.handedOff)
  }

  function Run(st: LockState, k: Key, ops: seq<LockOp>): (LockState, Trace)
    decreases |ops|
  {
    if ops == [] then (st, Trace([], [], []))
    else
      var first := Step(st, k, ops[0]);
      var rest := Run(first.0, k, ops[1..]);
      (rest.0, Then(first.1, rest.1))
  }

  /**
    The queue is a FIFO channel: the waiters at the start followed by the
    tickets queued during the run are exactly the tickets handed the lock,
    in that order, followed by the waiters left at the end. So no waiter is
    ever overtaken by one that queued after it.
  */
  lemma {:induction false} RunIsFifo(st: LockState, k: Key, ops: seq<LockOp>)
    ensures Waiters(st, k) + Run(st, k, ops).1.queued ==
            Run(st, k, ops).1.handedOff + Waiters(Run(st, k, ops).0, k)
    decreases |ops|
  {
    if ops != [] {
      var first := Step(st, k, ops[0]);
      var rest := Run(first.0, k, ops[1..]);
      assert Run(st, k, ops) == (rest.0, Then(first.1, rest.1));
      RunIsFifo(first.0, k, ops[1..]);
      StepIsFifo(st, k, ops[0]);
      var w0, w1, w2 := Waiters(st, k), Waiters(first.0, k), Waiters(rest.0, k);
      var q1, q2, h1, h2 := first.1.queued, rest.1.queued, first.1.handedOff, rest.1.handedOff;
      Splice(w0, q1, q2, h1, h2, w1, w2);
    }
  }

  lemma Splice(w0: seq<Ticket>, q1: seq<Ticket>, q2: seq<Ticket>, h1: seq<Ticket>, h2: seq<Ticket>,
               w1: seq<Ticket>, w2: seq<Ticket>)
    requires w0 + q1 == h1 + w1 && w1 + q2 == h2 + w2
    ensures w0 + (q1 + q2) == (h1 + h2) + w2
  {
    assert w0 + (q1 + q2) == (w0 + q1) + q2;
    assert (h1 + w1) + q2 == h1 + (w1 + q2);
    assert h1 + (h2 + w2) == (h1 + h2) + w2;
  }

  /** One operation keeps the FIFO balance of the queue. */
  lemma StepIsFifo(st: LockState, k: Key, op: LockOp)
    ensures Waiters(st, k) + Step(st, k, op).1.queued ==
            Step(st, k, op).1.handedOff + Waiters(Step(st, k, op).0, k)
  {
    if op.ReleaseOp? && Waiters(st, k) != [] {
      assert Waiters(st, k) == [Waiters(st, k)[0]] + Waiters(st, k)[1..];
    }
  }

  /** A run on one key leaves every other key as it was. */
  lemma {:induction false} RunKeepsOtherKeys(st: LockState, k: Key, ops: seq<LockOp>)
    ensures SameElsewhere(st, Run(st, k, ops).0, k)
    decreases |ops|
  {
    if ops != [] {
      RunKeepsOtherKeys(Step(st, k, ops[0]).0, k, ops[1..]);
    }
  }

  /** A run keeps the invariant that a key with waiters is held. */
  lemma {:induction false} RunKeepsInv(st: LockState, k: Key, ops: seq<LockOp>)
    requires Inv(st)
    ensures Inv(Run(st, k, ops).0)
    decreases |ops|
  {
    if ops != [] {
      RunKeepsInv(Step(st, k, ops[0]).0, k, ops[1..]);
    }
  }

  // ---------------------------------------------------------------------------
  // The lock manager object

  class LockManager {
    var locks: map<Key, bool>
    var queues: map<Key, seq<Ticket>>

    function State(): LockState
      reads this
    {
      LockState(locks, queues)
    }

    ghost predicate Valid()
      reads this
    {
      Inv(State())
    }

    function Held(k: Key): bool
      reads this
    {
      IsHeld(State(), k)
    }

    constructor ()
      ensures State() == LockState(map[], map[])
      ensures Valid()
    {
      locks := map[];
      queues := map[];
    }

    method AcquireLock(k: Key, t: Ticket) returns (g: Grant)
      requires Valid()
      modifies this
      ensures Valid()
      ensures (g, State()) == Acquire(old(State()), k, t)
    {
      if !(k in locks && locks[k]) {
        locks := locks[k := true];
        return Granted;
      }
      ghost var before := queues;
      if k !in queues {
        queues := queues[k := []];
      }
      queues := queues[k := queues[k] + [t]];
      assert queues == before[k := Waiters(old(State()), k) + [t]];
      g := Queued;
    }

    method ReleaseLock(k: Key) returns (next: Option<Ticket>)
      requires Valid()
      modifies this
      ensures Valid()
      ensures (next, State()) == Release(old(State()), k)
    {
      if k in queues && |queues[k]| > 0 {
        next := Some(queues[k][0]);
        queues := queues[k := queues[k][1..]];
      } else {
        locks := locks[k := false];
        next := None;
      }
    }
  }
}

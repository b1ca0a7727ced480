/** The access gate of mutex/mutex.go: one slot (the sync.Mutex) and the earliest time
    the next request may go out. The clock is explicit: every call carries the time it
    happens at, and whether the caller's context is done when the select runs is a flag
    the caller supplies. A Lock on a held slot would wait for an Unlock by someone else;
    in this sequential model it answers Blocked and changes nothing. */
module Gate {
  /** The zero time.Time that a new Mutex holds in next; every clock reading is at or after it. */
  const ZeroTime: int := 0

  datatype State = State(next: int, held: bool)

  datatype Call = LockCall(now: int, cancelled: bool) | UnlockCall(now: int)

  /** Admitted(at): Lock returned nil at time at. Cancelled: Lock returned Cancel.
      Blocked: Lock is still waiting for the slot. Released: Unlock freed the slot.
      Fault: Unlock of a free sync.Mutex, which stops the Go program. */
  datatype Reply = Admitted(at: int) | Cancelled | Blocked | Released | Fault

  function Max(a: int, b: int): int
  {
    if a < b then b else a
  }

  /** One call against the gate. Lock takes the slot before it looks at the clock, and
      keeps it even when the context wins the select; it never writes next. Unlock
      always sets next to now + d. */
  function Step(s: State, d: int, c: Call): (r: (Reply, State))
    ensures c.LockCall? ==> r.1.next == s.next
    ensures c.LockCall? ==> (r.0 == Blocked <==> s.held)
    ensures c.LockCall? ==> r.1.held
    ensures r.0.Admitted? ==> c.LockCall? && !c.cancelled && r.0.at >= s.next && r.0.at >= c.now
    ensures c.LockCall? && !s.held && !c.cancelled && c.now >= s.next ==> r.0 == Admitted(c.now)
    ensures c.LockCall? && !s.held && !c.cancelled ==> r.0 == Admitted(Max(c.now, s.next))
    ensures c.LockCall? && !s.held ==> (r.0 == Cancelled <==> c.cancelled)
    ensures c.UnlockCall? ==> r.1 == State(c.now + d, false)
    ensures c.UnlockCall? ==> (r.0 == Released <==> s.held) && (r.0 == Fault <==> !s.held)
  {
    match c
    case LockCall(now, cancelled) =>
      if s.held then (Blocked, s)
      else if cancelled then (Cancelled, s.(held := true))
      else (Admitted(Max(now, s.next)), s.(held := true))
    case UnlockCall(now) =>
      (if s.held then Released else Fault, State(now + d, false))
  }

  /** The state before calls[n], starting from s. */
  function StateAt(s: State, d: int, calls: seq<Call>, n: nat): State
    requires n <= |calls|
  {
    if n == 0 then s else Step(StateAt(s, d, calls, n - 1), d, calls[n - 1]).1
  }

  /** The reply to calls[n]. */
  function ReplyAt(s: State, d: int, calls: seq<Call>, n: nat): Reply
    requires n < |calls|
  {
    Step(StateAt(s, d, calls, n), d, calls[n]).0
  }

  function TimeOf(c: Call): int
  {
    match c
    case LockCall(now, _) => now
    case UnlockCall(now) => now
  }

  /** Once the slot is held, only an Unlock frees it: every Lock in between is Blocked. */
  lemma {:induction false} HeldPersists(s: State, d: int, calls: seq<Call>, i: nat, j: nat)
    requires i <= j <= |calls|
    requires StateAt(s, d, calls, i).held
    requires forall k :: i <= k < j ==> !calls[k].UnlockCall?
    ensures StateAt(s, d, calls, j).held
    ensures forall k :: i <= k < j ==> ReplyAt(s, d, calls, k) == Blocked
    decreases j
  {
    if j > i {
      HeldPersists(s, d, calls, i, j - 1);
    }
  }

  /** Mutual exclusion: after Lock has taken the slot (admitted or cancelled), no later Lock
      is admitted unless an Unlock comes in between. */
  lemma Exclusion(s: State, d: int, calls: seq<Call>, i: nat, j: nat)
    requires i < j < |calls|
    requires ReplyAt(s, d, calls, i).Admitted? || ReplyAt(s, d, calls, i) == Cancelled
    requires ReplyAt(s, d, calls, j).Admitted?
    ensures exists k :: i < k < j && calls[k].UnlockCall?
  {
    if forall k :: i < k < j ==> !calls[k].UnlockCall? {
      HeldPersists(s, d, calls, i + 1, j);
      assert false;
    }
  }

  /** A cancelled Lock leaves the slot taken for good: with no Unlock after it, every later
      Lock is Blocked. */
  lemma CancelStarves(s: State, d: int, calls: seq<Call>, i: nat, j: nat)
    requires i < j < |calls|
    requires ReplyAt(s, d, calls, i) == Cancelled
    requires forall k :: i < k <= j ==> calls[k].LockCall?
    ensures ReplyAt(s, d, calls, j) == Blocked
  {
    HeldPersists(s, d, calls, i + 1, j + 1);
  }

  /** next never drops below t + d once an Unlock at t has run, while the clock does not
      go back before t. */
  lemma {:induction false} NextAfterUnlock(s: State, d: int, calls: seq<Call>, i: nat, j: nat)
    requires i < j <= |calls|
    requires calls[i].UnlockCall?
    requires forall k :: i < k < j ==> TimeOf(calls[k]) >= calls[i].now
    ensures StateAt(s, d, calls, j).next >= calls[i].now + d
    decreases j
  {
    if j > i + 1 {
      NextAfterUnlock(s, d, calls, i, j - 1);
    }
  }

  /** Spacing: a Lock admitted after an Unlock at t is admitted no earlier than t + d. */
  lemma Spacing(s: State, d: int, calls: seq<Call>, i: nat, j: nat)
    requires i < j < |calls|
    requires calls[i].UnlockCall?
    requires forall k :: i < k <= j ==> TimeOf(calls[k]) >= calls[i].now
    requires ReplyAt(s, d, calls, j).Admitted?
    ensures ReplyAt(s, d, calls, j).at >= calls[i].now + d
  {
    NextAfterUnlock(s, d, calls, i, j);
  }

  /** The first Lock on a new gate, at any time from the zero time on and with the context
      not done, is admitted at once. */
  lemma FirstLockImmediate(d: int, calls: seq<Call>)
    requires |calls| >= 1 && calls[0].LockCall? && !calls[0].cancelled
    requires calls[0].now >= ZeroTime
    ensures ReplyAt(State(ZeroTime, false), d, calls, 0) == Admitted(calls[0].now)
  {
  }

  /** mutex.Mutex: the interval d, the next admission time and whether mu is locked. */
  class Mutex {
    const d: int
    var next: int
    var held: bool

    /** mutex.New(d). */
    constructor (d: int)
      ensures this.d == d && next == ZeroTime && !held
    {
      this.d := d;
      next := ZeroTime;
      held := false;
    }

    function Current(): State
      reads this
    {
      State(next, held)
    }

    /** Mutex.Lock: takes mu, then either the context is done (Cancel, mu kept) or the
        wait until next ends (nil). On a held mu it keeps waiting. */
    method Lock(now: int, cancelled: bool) returns (r: Reply)
      modifies this
      ensures (r, Current()) == Step(old(Current()), d, LockCall(now, cancelled))
    {
      if held {
        r := Blocked;
      } else if cancelled {
        held := true;
        r := Cancelled;
      } else {
        held := true;
        r := Admitted(Max(now, next));
      }
    }

    /** Mutex.Unlock: next becomes now + d and mu is released; Go stops the program when
        mu is not locked, so the caller must hold it. */
    method Unlock(now: int)
      requires held
      modifies this
      ensures next == now + d && !held
      ensures (Released, Current()) == Step(old(Current()), d, UnlockCall(now))
    {
      next := now + d;
      held := false;
    }
  }
}

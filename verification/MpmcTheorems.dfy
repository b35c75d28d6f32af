/** What the queue promises, over every run of every number of threads. */
module MpmcTheorems {
  import opened Arith
  import opened Wrappers
  import opened Mpmc
  import opened MpmcInvariant
  import opened MpmcRing
  import opened MpmcSafety

  lemma InitInv<T>(n: nat, nthreads: nat)
    requires n > 0
    ensures Inv(Init<T>(n, nthreads))
  {
    var s := Init<T>(n, nthreads);
    TotalZero(Claimed, s.threads);
    TotalZero(Unfilled, s.threads);
    TotalZero(Waiting(Empty), s.threads);
    TotalZero(Waiting(Filled), s.threads);
    assert Shape(s);
    forall k: nat | s.w <= k < s.n ensures FreshSlot(s, k) {}
  }

  lemma StepInv<T>(s: State<T>, t: nat, c: Choice<T>)
    requires Inv(s) && t < |s.threads|
    ensures Inv(Step(s, t, c))
  {
    StepRing(s, t, c);
    StepSems(s, t, c);
  }

  ghost predicate Reachable<T(!new)>(s: State<T>) {
    exists n: nat, nthreads: nat, run: seq<(nat, Choice<T>)> {:trigger Exec(Init(n, nthreads), run)} ::
      n > 0 && s == Exec(Init(n, nthreads), run)
  }

  lemma {:induction false} ExecInv<T>(s: State<T>, run: seq<(nat, Choice<T>)>)
    requires Inv(s)
    ensures Inv(Exec(s, run))
  {
    if run != [] {
      var last := run[|run| - 1];
      var prev := Exec(s, run[..|run| - 1]);
      ExecInv(s, run[..|run| - 1]);
      if last.0 < |prev.threads| {
        StepInv(prev, last.0, last.1);
      }
    }
  }

  lemma ReachableInv<T(!new)>(s: State<T>)
    requires Reachable(s)
    ensures Inv(s)
  {
    var n: nat, nthreads: nat, run: seq<(nat, Choice<T>)> :|
      n > 0 && s == Exec(Init(n, nthreads), run);
    InitInv<T>(n, nthreads);
    ExecInv(Init(n, nthreads), run);
  }

  // ---------- Refinement of an atomic FIFO sequence ----------

  /** The abstract queue: claimed by a pusher, not yet claimed by a popper. */
  ghost function Contents<T>(s: State<T>): seq<T>
    requires Shape(s)
  {
    s.pushed[s.r..s.w]
  }

  /** The claims are the linearization points: every other operation leaves the queue unchanged. */
  lemma StepRefinesQueue<T>(s: State<T>, t: nat, c: Choice<T>)
    requires Inv(s) && t < |s.threads|
    ensures Shape(Step(s, t, c)) && QueueStep(s, Step(s, t, c), t)
    ensures |Contents(s)| <= s.n
  {
    hide Slots, Threads, Taken, Tokens, Waits, Step, StepClaim;
    StepInv(s, t, c);
    if c.Run? && s.threads[t].Claim? {
      StepIsClaim(s, t, c);
      ClaimEffect(s, t, c.spurious);
    }
    hide SameClaims, QueueStep;
    ClaimQueue(s, Step(s, t, c), t);
  }

  lemma StepIsClaim<T>(s: State<T>, t: nat, c: Choice<T>)
    requires WellSized(s) && t < |s.threads| && c.Run? && s.threads[t].Claim?
    ensures Step(s, t, c) == StepClaim(s, t, c.spurious)
  {}

  ghost predicate QueueStep<T>(s: State<T>, s': State<T>, t: nat)
    requires Shape(s) && Shape(s') && t < |s.threads|
  {
    if s.w < s'.w then
      && s.threads[t].Claim? && s.threads[t].op.Push?
      && Contents(s') == Contents(s) + [s.threads[t].op.v]
      && s'.pushed[..s'.r] == s.pushed[..s.r]
    else if s.r < s'.r then
      && s.threads[t].Claim? && s.threads[t].op.Pop?
      && Contents(s) != [] && Contents(s') == Contents(s)[1..]
      && s'.pushed[..s'.r] == s.pushed[..s.r] + [Contents(s)[0]]
    else
      Contents(s') == Contents(s) && s'.pushed[..s'.r] == s.pushed[..s.r]
  }

  /** What a claim, or any other step, changes. */
  ghost predicate ClaimStep<T>(s: State<T>, s': State<T>, t: nat)
    requires t < |s.threads|
  {
    || SameClaims(s, s')
    || (s.threads[t].Claim? && s.threads[t].op.Push? && s'.w == s.w + 1 && s'.r == s.r
        && s'.pushed == s.pushed + [s.threads[t].op.v])
    || (s.threads[t].Claim? && s.threads[t].op.Pop? && s'.r == s.r + 1 && s'.w == s.w && s'.pushed == s.pushed)
  }

  lemma ClaimEffect<T>(s: State<T>, t: nat, spurious: bool)
    requires Shape(s) && t < |s.threads| && s.threads[t].Claim?
    ensures ClaimStep(s, StepClaim(s, t, spurious), t)
  {}

  lemma ClaimQueue<T>(s: State<T>, s': State<T>, t: nat)
    requires Shape(s) && Shape(s') && t < |s.threads| && ClaimStep(s, s', t)
    ensures QueueStep(s, s', t)
  {
    if s.w < s'.w {
      assert s'.pushed[s.r..s.w + 1] == s.pushed[s.r..s.w] + [s.threads[t].op.v];
      assert s'.pushed[..s.r] == s.pushed[..s.r];
    } else if s.r < s'.r {
      assert s.pushed[..s.r + 1] == s.pushed[..s.r] + [s.pushed[s.r]];
      assert s.pushed[s.r + 1..s.w] == s.pushed[s.r..s.w][1..];
    }
  }

  /** An atomic queue: what is in it and what has come out of it, in order. */
  datatype Queue<T> = Queue(items: seq<T>, out: seq<T>)

  datatype Event<T> = Enq(v: T) | Deq

  /** Replay of a trace on the atomic queue; `None` if it dequeues from an empty queue. */
  ghost function Replay<T>(trace: seq<Event<T>>): Option<Queue<T>> {
    if trace == [] then Some(Queue([], []))
    else
      match Replay(trace[..|trace| - 1])
      case None => None
      case Some(q) =>
        match trace[|trace| - 1]
        case Enq(v) => Some(Queue(q.items + [v], q.out))
        case Deq => if q.items == [] then None else Some(Queue(q.items[1..], q.out + [q.items[0]]))
  }

  /** The claim made by a step of thread `t` from `s` to `s'`, if it made one. */
  ghost function StepEvent<T>(s: State<T>, s': State<T>, t: nat): seq<Event<T>> {
    if s.w < s'.w && t < |s.threads| && s.threads[t].Claim? && s.threads[t].op.Push?
    then [Enq(s.threads[t].op.v)]
    else if s.r < s'.r then [Deq] else []
  }

  /** The claims of a run, in the order in which they succeeded. */
  ghost function Trace<T>(s: State<T>, run: seq<(nat, Choice<T>)>): seq<Event<T>>
    requires WellSized(s)
  {
    if run == [] then []
    else
      var init := run[..|run| - 1];
      Trace(s, init) + StepEvent(Exec(s, init), Exec(s, run), run[|run| - 1].0)
  }

  /** Every run is a run of the atomic queue, whose k-th output is the k-th value pushed. */
  lemma {:induction false} ExecRefinesQueue<T>(n: nat, nthreads: nat, run: seq<(nat, Choice<T>)>)
    requires n > 0
    ensures var s := Exec(Init(n, nthreads), run);
      && Shape(s)
      && Replay(Trace(Init(n, nthreads), run)) == Some(Queue(Contents(s), s.pushed[..s.r]))
  {
    var s0 := Init<T>(n, nthreads);
    InitInv<T>(n, nthreads);
    if run != [] {
      var init := run[..|run| - 1];
      var (t, c) := run[|run| - 1];
      var prev := Exec(s0, init);
      ExecRefinesQueue<T>(n, nthreads, init);
      ExecInv(s0, init);
      if t < |prev.threads| {
        ReplayStep(Trace(s0, init), prev, t, c);
      } else {
        assert Trace(s0, init) + [] == Trace(s0, init);
      }
    }
  }

  lemma ReplayStep<T>(before: seq<Event<T>>, s: State<T>, t: nat, c: Choice<T>)
    requires Inv(s) && t < |s.threads|
    requires Replay(before) == Some(Queue(Contents(s), s.pushed[..s.r]))
    ensures var s' := Step(s, t, c);
      Shape(s') && Replay(before + StepEvent(s, s', t)) == Some(Queue(Contents(s'), s'.pushed[..s'.r]))
  {
    StepRefinesQueue(s, t, c);
    ReplayEvent(before, s, Step(s, t, c), t);
  }

  lemma ReplayEvent<T>(before: seq<Event<T>>, s: State<T>, s': State<T>, t: nat)
    requires Shape(s) && Shape(s') && t < |s.threads| && QueueStep(s, s', t)
    requires Replay(before) == Some(Queue(Contents(s), s.pushed[..s.r]))
    ensures Replay(before + StepEvent(s, s', t)) == Some(Queue(Contents(s'), s'.pushed[..s'.r]))
  {
    var event := StepEvent(s, s', t);
    assert (before + event)[..|before|] == before;
    assert before + [] == before;
  }

  /**
   * A finished `pop` returns exactly the value of the push claim with the same number, a finished
   * `push` has claimed a number for its own value, and no two threads share a claim.
   */
  lemma FinishedCalls<T(!new)>(s: State<T>, t: nat)
    requires Reachable(s) && t < |s.threads| && s.threads[t].Finished?
    ensures Shape(s)
    ensures var pc := s.threads[t];
      && (pc.op.Pop? ==> pc.p < s.r && pc.got == Some(s.pushed[pc.p]) && s.poppers[pc.p] == t)
      && (pc.op.Push? ==> pc.p < s.w && s.pushed[pc.p] == pc.op.v && s.pushers[pc.p] == t)
    ensures forall u: nat | u < |s.threads| && u != t && s.threads[u].Finished? ::
      s.threads[u].op.Push? == s.threads[t].op.Push? ==> s.threads[u].p != s.threads[t].p
  {
    ReachableInv(s);
    assert ThreadOk(s, t);
    forall u: nat | u < |s.threads| && u != t && s.threads[u].Finished?
      && s.threads[u].op.Push? == s.threads[t].op.Push?
      ensures s.threads[u].p != s.threads[t].p
    {
      assert ThreadOk(s, u);
    }
  }

  // ---------- Slot ownership ----------

  lemma OneOwnerPerSlot<T(!new)>(s: State<T>, t: nat, u: nat)
    requires Reachable(s) && t < |s.threads| && u < |s.threads| && t != u
    requires s.threads[t].Access? || s.threads[t].Publish?
    requires s.threads[u].Access? || s.threads[u].Publish?
    ensures s.threads[t].p % s.n != s.threads[u].p % s.n
  {
    ReachableInv(s);
    assert ThreadOk(s, t) && ThreadOk(s, u);
    var p, q := s.threads[t].p, s.threads[u].p;
    OtherSlots(s, p);
    assert s.w - s.n <= q < s.w;
  }

  /**
   * A pusher writes only into a slot whose last value has been moved out; a popper reads only a
   * slot that holds the value of its own position, which has not been read before.
   */
  lemma AccessesAreSafe<T(!new)>(s: State<T>, t: nat)
    requires Reachable(s) && t < |s.threads| && s.threads[t].Access?
    ensures WellSized(s) && |s.pushed| == s.w
    ensures var op, p := s.threads[t].op, s.threads[t].p;
      if op.Push? then
        && p < s.w && s.pushed[p] == op.v && s.elems[p % s.n] == None
        && (p >= s.n ==> p - s.n in s.taken)
      else
        && p < s.w && s.elems[p % s.n] == Some(s.pushed[p]) && p !in s.taken
  {
    ReachableInv(s);
    hide Reachable, Tokens, Waits;
    assert ThreadOk(s, t);
    if s.threads[t].op.Push? { PushAccessSafe(s, t); } else { assert PoppedSlot(s, s.threads[t].p); }
  }

  lemma PushAccessSafe<T>(s: State<T>, t: nat)
    requires Ring(s) && t < |s.threads| && s.threads[t].Access? && s.threads[t].op.Push?
    ensures var op, p := s.threads[t].op, s.threads[t].p;
      && p < s.w && s.pushed[p] == op.v && s.elems[p % s.n] == None
      && (p >= s.n ==> p - s.n in s.taken)
  {
    var p := s.threads[t].p;
    assert ThreadOk(s, t);
    assert PushedSlot(s, p);
    if p >= s.n { assert ThreadOk(s, s.poppers[p - s.n]); }
  }

  /** The k-th pop claim, once past its read, has taken the k-th pushed value; none is lost. */
  lemma EachTakenOnce<T(!new)>(s: State<T>, k: nat)
    requires Reachable(s) && k < s.r
    ensures |s.pushed| == s.w && |s.poppers| == s.r && k < s.w && s.poppers[k] < |s.threads|
    ensures if k in s.taken then s.taken[k] == Some(s.pushed[k])
            else s.threads[s.poppers[k]].Access? && s.threads[s.poppers[k]].p == k
  {
    ReachableInv(s);
  }

  /** Every cell is counted by exactly one of the two semaphores or one call in flight. */
  lemma TokenConservation<T(!new)>(s: State<T>)
    requires Reachable(s)
    ensures s.empty.val + s.filled.val + Total(InFlight, s.threads) == s.n
  {
    ReachableInv(s);
    TotalSplit(s.threads);
  }

  /**
   * A call past its semaphore spins only while the owner of its slot is between its own claim and
   * its store to `seq`.
   */
  lemma SpinsOnlyForOwner<T(!new)>(s: State<T>, t: nat) returns (u: nat)
    requires Reachable(s) && t < |s.threads| && s.threads[t].LoadSeq?
    requires WellSized(s) && s.threads[t].p == s.Idx(s.threads[t].op)
    requires s.seqs[s.threads[t].p % s.n] != if s.threads[t].op.Push? then s.threads[t].p else s.threads[t].p + 1
    ensures u < |s.threads| && u != t && (s.threads[u].Access? || s.threads[u].Publish?)
    ensures s.threads[u].op.Push? != s.threads[t].op.Push?
    ensures s.threads[u].p % s.n == s.threads[t].p % s.n
  {
    ReachableInv(s);
    u := OwnerOfNext(s, t);
  }

  /** The slot at the index is not ready for a call past its semaphore: somebody owns it. */
  lemma OwnerOfNext<T>(s: State<T>, t: nat) returns (u: nat)
    requires Inv(s) && t < |s.threads| && BeforeClaim(s.threads[t])
    requires s.seqs[s.Idx(s.threads[t].op) % s.n] != if s.threads[t].op.Push? then s.w else s.r + 1
    ensures u < |s.threads| && u != t && (s.threads[u].Access? || s.threads[u].Publish?)
    ensures s.threads[u].op.Push? != s.threads[t].op.Push?
    ensures s.threads[u].p % s.n == s.Idx(s.threads[t].op) % s.n
  {
    hide Slots, Threads, Taken, Tokens, Waits;
    if s.threads[t].op.Push? {
      u := PushWaitsForOwner(s, t);
      ModPeriod(s.w - s.n, s.n);
    } else {
      u := PopWaitsForOwner(s, t);
    }
  }

  lemma PushWaitsForOwner<T>(s: State<T>, t: nat) returns (u: nat)
    requires Inv(s) && t < |s.threads| && BeforeClaim(s.threads[t]) && s.threads[t].op.Push?
    requires s.seqs[s.w % s.n] != s.w
    ensures u < |s.threads| && s.w >= s.n && Owns(s.threads[u], s.w - s.n, false)
  {
    hide Slots, Threads, Taken, Tokens, Waits, Owns;
    NextSlotFree(s, t);
    u := s.poppers[s.w - s.n];
  }

  lemma PopWaitsForOwner<T>(s: State<T>, t: nat) returns (u: nat)
    requires Inv(s) && t < |s.threads| && BeforeClaim(s.threads[t]) && s.threads[t].op.Pop?
    requires s.seqs[s.r % s.n] != s.r + 1
    ensures u < |s.threads| && Owns(s.threads[u], s.r, true)
  {
    NextSlotClaimed(s, t);
    assert PushedSlot(s, s.r);
    u := s.pushers[s.r];
  }

  // ---------- Sleeping ----------

  /**
   * While a thread sleeps, the value it waits for is at most the number of posters that have still
   * to wake somebody plus the woken waiters that have still to retry.
   */
  lemma NoLostWakeup<T(!new)>(s: State<T>, t: nat, g: Gate)
    requires Reachable(s) && Sleeps(s, t, g)
    ensures s.SemOf(g).val <= Total(Wakers(g), s.threads)
    ensures s.SemOf(g).waiting >= 1
  {
    ReachableInv(s);
    TotalAtLeast(Waiting(g), s.threads, t);
  }

  ghost predicate Quiet<T>(s: State<T>) {
    forall t: nat :: t < |s.threads| ==>
      var pc := s.threads[t];
      pc.Idle? || pc.Finished? || pc.Refused? || pc.Asleep?
  }

  /**
   * When no thread can move by itself, a sleeping `push` means a full queue and a sleeping `pop`
   * an empty one: the two sides can never be asleep together.
   */
  lemma NoDeadlock<T(!new)>(s: State<T>, t: nat, g: Gate)
    requires Reachable(s) && Quiet(s) && Sleeps(s, t, g)
    ensures Shape(s) && s.n > 0
    ensures g == Empty ==> |Contents(s)| == s.n
    ensures g == Filled ==> Contents(s) == []
    ensures forall u: nat, h :: Sleeps(s, u, h) ==> h == g
  {
    ReachableInv(s);
    TotalZero(Claimed, s.threads);
    TotalZero(Unfilled, s.threads);
    TotalZero(Wakers(Empty), s.threads);
    TotalZero(Wakers(Filled), s.threads);
    forall u: nat, h | Sleeps(s, u, h) ensures s.SemOf(h).val == 0 && h == g {
      assert SomeSleeper(s, h) && SomeSleeper(s, g);
    }
  }

  /** A non-blocking call fails only having seen its semaphore at zero. */
  lemma RefusedOnlyAtZero<T>(s: State<T>, t: nat, c: Choice<T>)
    requires Inv(s) && t < |s.threads| && !s.threads[t].Refused?
    requires Step(s, t, c).threads[t].Refused?
    ensures s.threads[t].TryWait? && !s.threads[t].op.blocking
    ensures s.SemOf(s.threads[t].op.TakeGate()).val == 0
  {}

  /**
   * With one slot the sequence numbers alone are not enough: this state satisfies every ring
   * invariant, yet the pusher's claim succeeds while the popper still owns the slot.
   */
  lemma OneSlotNeedsTheSemaphores()
    ensures exists s: State<int> ::
      && Ring(s) && s.n == 1 && |s.threads| == 2
      && s.threads[0].Access? && s.threads[1].Claim?
      && StepClaim(s, 1, false).threads[0].Access? && StepClaim(s, 1, false).threads[1].Access?
  {
    var s := State(1, [1], [Some(7)], 1, 1, Sem(1, 0), Sem(0, 0),
                   [Access(Pop(true), 0), Claim(Push(8, true), 1)], [7], [1], [0], map[]);
    assert Shape(s);
    assert PoppedSlot(s, 0);
    assert Slots(s);
    assert ThreadOk(s, 0) && ThreadOk(s, 1);
    assert Taken(s);
    assert Ring(s);
  }
}

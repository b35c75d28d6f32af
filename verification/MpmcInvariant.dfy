/** The inductive invariant of the queue, in four parts, and the counting it needs. */
module MpmcInvariant {
  import opened Wrappers
  import opened Mpmc

  // ---------- Counting threads ----------

  /** What is counted: see Weight. */
  datatype Meter = Unfilled | Claimed | InFlight | Waiting(g: Gate) | Wakers(g: Gate) | Stages

  predicate BeforeClaim<T>(pc: Pc<T>) { pc.LoadIdx? || pc.LoadSeq? || pc.Claim? }

  predicate AfterClaim<T>(pc: Pc<T>) { pc.Access? || pc.Publish? || pc.Post? }

  function Weight<T>(m: Meter, pc: Pc<T>): nat {
    match m
    // holds a token of `empty_cells`: a pusher yet to claim, or a popper yet to give its cell back
    case Unfilled => if (BeforeClaim(pc) && pc.op.Push?) || (AfterClaim(pc) && pc.op.Pop?) then 1 else 0
    // holds a token of `filled_cells`: a pusher yet to hand its cell over, or a popper yet to claim
    case Claimed => if (AfterClaim(pc) && pc.op.Push?) || (BeforeClaim(pc) && pc.op.Pop?) then 1 else 0
    case InFlight => if BeforeClaim(pc) || AfterClaim(pc) then 1 else 0
    // has incremented `waiting` and not yet decremented it
    case Waiting(g) =>
      if (pc.FutexWait? || pc.Asleep? || pc.Unregister?) && pc.op.TakeGate() == g then 1 else 0
    // a poster that has incremented and not yet woken, or a woken waiter that has not yet retried
    case Wakers(g) =>
      if ((pc.PostCheck? || pc.PostWake?) && pc.op.PostGate() == g)
         || ((pc.Unregister? || (pc.TryWait? && pc.woken)) && pc.op.TakeGate() == g) then 1 else 0
    // how many of its operations that others can see a call has still to do
    case Stages =>
      if pc.Idle? || pc.Finished? || pc.Refused? then 0
      else if pc.PostWake? then 1
      else if pc.PostCheck? then 2
      else if pc.Post? then 3
      else if pc.Publish? then 4
      else if pc.Access? then 5
      else if BeforeClaim(pc) then 6
      else 7
  }

  function Total<T>(m: Meter, ts: seq<Pc<T>>): nat {
    if ts == [] then 0 else Weight(m, ts[0]) + Total(m, ts[1..])
  }

  lemma {:induction false} TotalUpdate<T>(m: Meter, ts: seq<Pc<T>>, t: nat, pc: Pc<T>)
    requires t < |ts|
    ensures Total(m, ts[t := pc]) == Total(m, ts) - Weight(m, ts[t]) + Weight(m, pc)
  {
    if t == 0 {
      assert ts[t := pc][1..] == ts[1..];
    } else {
      TotalUpdate(m, ts[1..], t - 1, pc);
      assert ts[t := pc][1..] == ts[1..][t - 1 := pc];
    }
  }

  lemma {:induction false} TotalAtLeast<T>(m: Meter, ts: seq<Pc<T>>, t: nat)
    requires t < |ts|
    ensures Total(m, ts) >= Weight(m, ts[t])
  {
    if t > 0 {
      TotalAtLeast(m, ts[1..], t - 1);
    }
  }

  lemma {:induction false} TotalAtLeastTwo<T>(m: Meter, ts: seq<Pc<T>>, t: nat, u: nat)
    requires t < u < |ts|
    ensures Total(m, ts) >= Weight(m, ts[t]) + Weight(m, ts[u])
  {
    if t == 0 {
      TotalAtLeast(m, ts[1..], u - 1);
    } else {
      TotalAtLeastTwo(m, ts[1..], t - 1, u - 1);
    }
  }

  lemma {:induction false} TotalSplit<T>(ts: seq<Pc<T>>)
    ensures Total(InFlight, ts) == Total(Unfilled, ts) + Total(Claimed, ts)
  {
    if ts != [] {
      TotalSplit(ts[1..]);
    }
  }

  lemma {:induction false} TotalZero<T>(m: Meter, ts: seq<Pc<T>>)
    requires forall t :: 0 <= t < |ts| ==> Weight(m, ts[t]) == 0
    ensures Total(m, ts) == 0
  {
    if ts != [] {
      assert forall t :: 0 <= t < |ts[1..]| ==> ts[1..][t] == ts[t + 1];
      TotalZero(m, ts[1..]);
    }
  }

  // ---------- The ring ----------

  /** `pc` is inside the window between its claim of position `k` and its store to `seq`. */
  predicate Owns<T>(pc: Pc<T>, k: nat, push: bool) {
    (pc.Access? || pc.Publish?) && pc.p == k && pc.op.Push? == push
  }

  ghost predicate Shape<T>(s: State<T>) {
    && WellSized(s)
    && |s.pushed| == |s.pushers| == s.w
    && |s.poppers| == s.r
    && s.r <= s.w <= s.r + s.n
    && (forall k :: 0 <= k < s.w ==> s.pushers[k] < |s.threads|)
    && (forall k :: 0 <= k < s.r ==> s.poppers[k] < |s.threads|)
  }

  /** Position `k` has been claimed by its pusher and not by its popper. */
  ghost predicate PushedSlot<T>(s: State<T>, k: nat)
    requires Shape(s) && k < s.w
  {
    var pc := s.threads[s.pushers[k]];
    if Owns(pc, k, true) then
      && s.seqs[k % s.n] == k
      && pc.op.v == s.pushed[k]
      && s.elems[k % s.n] == (if pc.Access? then None else Some(s.pushed[k]))
    else
      && s.seqs[k % s.n] == k + 1
      && s.elems[k % s.n] == Some(s.pushed[k])
  }

  /** Position `k` has been claimed by its popper and position `k + n` by no pusher. */
  ghost predicate PoppedSlot<T>(s: State<T>, k: nat)
    requires Shape(s) && k < s.r
  {
    var pc := s.threads[s.poppers[k]];
    if Owns(pc, k, false) then
      && s.seqs[k % s.n] == k + 1
      && s.elems[k % s.n] == (if pc.Access? then Some(s.pushed[k]) else None)
    else
      && s.seqs[k % s.n] == k + s.n
      && s.elems[k % s.n] == None
  }

  ghost predicate FreshSlot<T>(s: State<T>, k: nat)
    requires Shape(s) && k < s.n
  {
    s.seqs[k] == k && s.elems[k] == None
  }

  ghost predicate Slots<T>(s: State<T>)
    requires Shape(s)
  {
    && (forall k: nat :: s.r <= k < s.w ==> PushedSlot(s, k))
    && (forall k: nat :: s.w - s.n <= k < s.r ==> PoppedSlot(s, k))
    && (forall k: nat :: s.w <= k < s.n ==> FreshSlot(s, k))
  }

  /** What thread `t` may rely on about the ring, given where it is. */
  ghost predicate ThreadOk<T>(s: State<T>, t: nat)
    requires Shape(s) && t < |s.threads|
  {
    var pc := s.threads[t];
    match pc
    case LoadSeq(op, p) => p <= s.Idx(op)
    case Claim(op, p) =>
      && p <= s.Idx(op)
      && (p == s.Idx(op) ==> s.seqs[p % s.n] == if op.Push? then p else p + 1)
    case Access(op, p) => Window(s, t, op, p)
    case Publish(op, p, got) => Window(s, t, op, p) && Result(s, t, op, p, got)
    case Post(op, p, got) => Result(s, t, op, p, got)
    case PostCheck(op, p, got) => Result(s, t, op, p, got)
    case PostWake(op, p, got) => Result(s, t, op, p, got)
    case Finished(op, p, got) => Result(s, t, op, p, got)
    case _ => true
  }

  /** The position a thread has claimed lies in the current round of its slot. */
  ghost predicate Window<T>(s: State<T>, t: nat, op: Op<T>, p: nat)
    requires Shape(s)
  {
    if op.Push? then s.r <= p < s.w && s.pushers[p] == t && s.pushed[p] == op.v
    else s.w - s.n <= p < s.r && s.poppers[p] == t
  }

  /** A thread's claim and, for a popper, the value it carries away. */
  ghost predicate Result<T>(s: State<T>, t: nat, op: Op<T>, p: nat, got: Option<T>)
    requires Shape(s)
  {
    if op.Push? then p < s.w && s.pushers[p] == t && s.pushed[p] == op.v
    else p < s.r && s.poppers[p] == t && got == Some(s.pushed[p])
  }

  /** Every position whose popper is past its read has been read, once, and nothing else. */
  ghost predicate Taken<T>(s: State<T>)
    requires Shape(s)
  {
    && (forall k: nat :: k in s.taken <==>
          k < s.r && !(s.threads[s.poppers[k]].Access? && Owns(s.threads[s.poppers[k]], k, false)))
    && (forall k: nat :: k in s.taken && k < s.w ==> s.taken[k] == Some(s.pushed[k]))
  }

  ghost predicate Threads<T>(s: State<T>)
    requires Shape(s)
  {
    forall t: nat :: t < |s.threads| ==> ThreadOk(s, t)
  }

  ghost predicate Ring<T>(s: State<T>) {
    Shape(s) && Slots(s) && Threads(s) && Taken(s)
  }

  // ---------- The semaphores ----------

  ghost predicate Tokens<T>(s: State<T>) {
    && s.filled.val + Total(Claimed, s.threads) == s.w - s.r
    && s.empty.val + Total(Unfilled, s.threads) + (s.w - s.r) == s.n
  }

  ghost predicate Waits<T>(s: State<T>, g: Gate) {
    && s.SemOf(g).waiting == Total(Waiting(g), s.threads)
    && (SomeSleeper(s, g) ==> s.SemOf(g).val <= Total(Wakers(g), s.threads))
  }

  ghost predicate Inv<T>(s: State<T>) {
    Ring(s) && Tokens(s) && Waits(s, Empty) && Waits(s, Filled)
  }
}

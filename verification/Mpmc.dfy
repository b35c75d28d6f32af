/**
 * The lock-free MPMC queue (nr32-sys/src/sync/fifo.rs), its two semaphores
 * (nr32-sys/src/sync/semaphore.rs) and the kernel's futex calls, as a state machine with one
 * step per atomic operation. Any number of threads, any capacity, any interleaving.
 *
 * Kernel calls are one step each: the kernel runs with interrupts off. Counters are unbounded.
 */
module Mpmc {
  import opened Wrappers

  /** The two semaphores of a queue. */
  datatype Gate = Empty | Filled

  /** What a thread is doing: `push`/`try_push` of `v`, or `pop`/`try_pop`. */
  datatype Op<T> = Push(v: T, blocking: bool) | Pop(blocking: bool) {
    /** The semaphore that is taken before the ring is touched. */
    function TakeGate(): Gate { if Push? then Empty else Filled }

    /** The semaphore that is posted once the ring has been updated. */
    function PostGate(): Gate { if Push? then Filled else Empty }
  }

  /** Program counter: each constructor names the atomic operation the thread performs next. */
  datatype Pc<T> =
    | Idle
    | TryWait(op: Op<T>, cur: nat, woken: bool)          // val.compare_exchange_weak(cur, cur - 1)
    | Register(op: Op<T>)                                // waiting.fetch_add(1)
    | FutexWait(op: Op<T>)                               // futex_wait(&val, 0, None)
    | Asleep(op: Op<T>)                                  // sleeping in the kernel on &val
    | Unregister(op: Op<T>)                              // waiting.fetch_sub(1)
    | LoadIdx(op: Op<T>)                                 // write_idx.load() / read_idx.load()
    | LoadSeq(op: Op<T>, p: nat)                         // seq[p & (N - 1)].load()
    | Claim(op: Op<T>, p: nat)                           // idx.compare_exchange_weak(p, p + 1)
    | Access(op: Op<T>, p: nat)                          // elems[..].write(v) / elems[..].read()
    | Publish(op: Op<T>, p: nat, got: Option<T>)         // seq[p & (N - 1)].store(..)
    | Post(op: Op<T>, p: nat, got: Option<T>)            // val.fetch_add(1)
    | PostCheck(op: Op<T>, p: nat, got: Option<T>)       // waiting.load() > 0
    | PostWake(op: Op<T>, p: nat, got: Option<T>)        // futex_wake(&val, 1)
    | Finished(op: Op<T>, p: nat, got: Option<T>)        // Ok(()) / Some(got)
    | Refused(op: Op<T>)                                 // Err(v) / None

  /** `Semaphore`: the value and the upper bound on waiting threads. */
  datatype Sem = Sem(val: nat, waiting: nat)

  /**
   * The queue, its threads, and what the claims have done so far: the k-th successful claim on
   * `write_idx` was made by `pushers[k]` for `pushed[k]`, the k-th on `read_idx` by `poppers[k]`,
   * and `taken[k]` is what was then read out of the slot.
   */
  datatype State<T> = State(
    n: nat,
    seqs: seq<nat>,
    elems: seq<Option<T>>,
    w: nat,
    r: nat,
    empty: Sem,
    filled: Sem,
    threads: seq<Pc<T>>,
    pushed: seq<T>,
    pushers: seq<nat>,
    poppers: seq<nat>,
    taken: map<nat, Option<T>>)
  {
    function SemOf(g: Gate): Sem { if g.Empty? then empty else filled }

    function SetSem(g: Gate, x: Sem): State<T> {
      if g.Empty? then this.(empty := x) else this.(filled := x)
    }

    function Goto(t: nat, pc: Pc<T>): State<T>
      requires t < |threads|
    {
      this.(threads := threads[t := pc])
    }

    function Idx(op: Op<T>): nat { if op.Push? then w else r }
  }

  /** `Fifo::new()` with `nthreads` threads that have not called anything yet. */
  function Init<T>(n: nat, nthreads: nat): State<T> {
    State(n, seq(n, i => i), seq(n, i => None), 0, 0, Sem(n, 0), Sem(0, 0),
          seq(nthreads, i => Idle), [], [], [], map[])
  }

  /**
   * What the environment decides: the call an idle thread makes, or for a running thread whether
   * a weak compare-exchange fails spuriously and which sleeper the kernel wakes, or that the
   * kernel lets a sleeper return on its own (allowed by nr32-common/src/syscall.rs:64).
   */
  datatype Choice<T> = Call(op: Op<T>) | Run(spurious: bool, wake: nat) | SpuriousWake

  /** No claim was made between `s` and `s'`. */
  ghost predicate SameClaims<T>(s: State<T>, s': State<T>) {
    && s'.n == s.n && s'.w == s.w && s'.r == s.r
    && s'.pushed == s.pushed && s'.pushers == s.pushers && s'.poppers == s.poppers
    && |s'.threads| == |s.threads|
  }

  function Step<T>(s: State<T>, t: nat, c: Choice<T>): (s': State<T>)
    requires WellSized(s) && t < |s.threads|
    ensures !(c.Run? && s.threads[t].Claim?) ==> SameClaims(s, s')
  {
    var pc := s.threads[t];
    match c
    case Call(op) =>
      if pc.Idle? || pc.Finished? || pc.Refused? then s.Goto(t, TryWait(op, 1, false)) else s
    case SpuriousWake =>
      if pc.Asleep? then s.Goto(t, Unregister(pc.op)) else s
    case Run(spurious, wake) =>
      match pc
      case Idle => s
      case Finished(_, _, _) => s
      case Refused(_) => s
      case Asleep(_) => s
      case TryWait(op, cur, woken) => StepTryWait(s, t, spurious)
      case Register(_) => StepWait(s, t)
      case FutexWait(_) => StepWait(s, t)
      case Unregister(_) => StepWait(s, t)
      case LoadIdx(op) => s.Goto(t, LoadSeq(op, s.Idx(op)))
      case LoadSeq(_, _) => StepLoadSeq(s, t)
      case Claim(_, _) => StepClaim(s, t, spurious)
      case Access(_, _) => StepAccess(s, t)
      case Publish(_, _, _) => StepPublish(s, t)
      case Post(_, _, _) => StepPost(s, t)
      case PostCheck(_, _, _) => StepPost(s, t)
      case PostWake(_, _, _) => StepPostWake(s, t, wake)
  }

  /** The slow path of `Semaphore::wait`. */
  function StepWait<T>(s: State<T>, t: nat): (s': State<T>)
    requires t < |s.threads|
    requires s.threads[t].Register? || s.threads[t].FutexWait? || s.threads[t].Unregister?
    ensures SameClaims(s, s')
  {
    var op := s.threads[t].op;
    var g := op.TakeGate();
    var sem := s.SemOf(g);
    match s.threads[t]
    case Register(_) => s.SetSem(g, sem.(waiting := sem.waiting + 1)).Goto(t, FutexWait(op))
    case FutexWait(_) => s.Goto(t, if sem.val == 0 then Asleep(op) else Unregister(op))
    case Unregister(_) =>
      if sem.waiting == 0 then s  // never the case: see Waits
      else s.SetSem(g, sem.(waiting := sem.waiting - 1)).Goto(t, TryWait(op, 1, true))
  }

  /** The winner of a claim writes its value into the slot, or moves the value out of it. */
  function StepAccess<T>(s: State<T>, t: nat): (s': State<T>)
    requires WellSized(s) && t < |s.threads| && s.threads[t].Access?
    ensures SameClaims(s, s')
  {
    var op, p := s.threads[t].op, s.threads[t].p;
    if op.Push? then
      s.(elems := s.elems[p % s.n := Some(op.v)]).Goto(t, Publish(op, p, None))
    else
      var got := s.elems[p % s.n];
      s.(elems := s.elems[p % s.n := None], taken := s.taken[p := got]).Goto(t, Publish(op, p, got))
  }

  /** The store to `seq` that hands the slot to the other side. */
  function StepPublish<T>(s: State<T>, t: nat): (s': State<T>)
    requires WellSized(s) && t < |s.threads| && s.threads[t].Publish?
    ensures SameClaims(s, s')
  {
    var op, p, got := s.threads[t].op, s.threads[t].p, s.threads[t].got;
    var q := if op.Push? then p + 1 else p + s.n;
    s.(seqs := s.seqs[p % s.n := q]).Goto(t, Post(op, p, got))
  }

  /** `Semaphore::post` up to the decision to call the kernel. */
  function StepPost<T>(s: State<T>, t: nat): (s': State<T>)
    requires t < |s.threads| && (s.threads[t].Post? || s.threads[t].PostCheck?)
    ensures SameClaims(s, s')
  {
    var op, p, got := s.threads[t].op, s.threads[t].p, s.threads[t].got;
    var sem := s.SemOf(op.PostGate());
    if s.threads[t].Post? then
      s.SetSem(op.PostGate(), sem.(val := sem.val + 1)).Goto(t, PostCheck(op, p, got))
    else
      s.Goto(t, if sem.waiting > 0 then PostWake(op, p, got) else Finished(op, p, got))
  }

  /** One turn of the loop in `Semaphore::try_wait`. */
  function StepTryWait<T>(s: State<T>, t: nat, spurious: bool): (s': State<T>)
    requires t < |s.threads| && s.threads[t].TryWait?
    ensures SameClaims(s, s')
  {
    var op, cur, woken := s.threads[t].op, s.threads[t].cur, s.threads[t].woken;
    var sem := s.SemOf(op.TakeGate());
    if sem.val == cur && cur > 0 && !spurious then
      s.SetSem(op.TakeGate(), sem.(val := cur - 1)).Goto(t, LoadIdx(op))
    else if sem.val > 0 then
      s.Goto(t, TryWait(op, sem.val, woken))
    else
      s.Goto(t, if op.blocking then Register(op) else Refused(op))
  }

  /** The load of `seq`, which tells whether the slot is ready for this position. */
  function StepLoadSeq<T>(s: State<T>, t: nat): (s': State<T>)
    requires WellSized(s) && t < |s.threads| && s.threads[t].LoadSeq?
    ensures SameClaims(s, s')
  {
    var op, p := s.threads[t].op, s.threads[t].p;
    var ready := if op.Push? then p else p + 1;
    s.Goto(t, if s.seqs[p % s.n] == ready then Claim(op, p) else LoadIdx(op))
  }

  /** The compare-exchange on `write_idx` or `read_idx`. */
  function StepClaim<T>(s: State<T>, t: nat, spurious: bool): State<T>
    requires t < |s.threads| && s.threads[t].Claim?
  {
    var op, p := s.threads[t].op, s.threads[t].p;
    if s.Idx(op) != p || spurious then
      s.Goto(t, LoadSeq(op, s.Idx(op)))
    else if op.Push? then
      s.(w := p + 1, pushed := s.pushed + [op.v], pushers := s.pushers + [t]).Goto(t, Access(op, p))
    else
      s.(r := p + 1, poppers := s.poppers + [t]).Goto(t, Access(op, p))
  }

  predicate Sleeps<T>(s: State<T>, t: nat, g: Gate) {
    t < |s.threads| && s.threads[t].Asleep? && s.threads[t].op.TakeGate() == g
  }

  predicate SomeSleeper<T>(s: State<T>, g: Gate) {
    exists u: nat | u < |s.threads| :: Sleeps(s, u, g)
  }

  /** `futex_wake(&val, 1)`: one sleeper on that address becomes runnable, if there is one. */
  function StepPostWake<T>(s: State<T>, t: nat, wake: nat): (s': State<T>)
    requires t < |s.threads| && s.threads[t].PostWake?
    ensures SameClaims(s, s')
  {
    var pc := s.threads[t];
    var done := Finished(pc.op, pc.p, pc.got);
    if Sleeps(s, wake, pc.op.PostGate()) then
      s.Goto(wake, Unregister(s.threads[wake].op)).Goto(t, done)
    else if SomeSleeper(s, pc.op.PostGate()) then
      s  // the kernel never picks a thread that is not asleep on the address
    else
      s.Goto(t, done)
  }

  /** A run: which thread moved at each step, and how its choices fell. */
  function Exec<T>(s: State<T>, run: seq<(nat, Choice<T>)>): (s': State<T>)
    requires WellSized(s)
    ensures WellSized(s') && |s'.threads| == |s.threads| && s'.n == s.n
  {
    if run == [] then s
    else
      var prev := Exec(s, run[..|run| - 1]);
      var (t, c) := run[|run| - 1];
      if t < |prev.threads| then Step(prev, t, c) else prev
  }

  predicate WellSized<T>(s: State<T>) {
    s.n > 0 && |s.seqs| == |s.elems| == s.n
  }
}

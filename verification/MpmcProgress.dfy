/**
 * The queue makes progress: if no call begins and no compare-exchange fails without a reason, then
 * after a bounded number of rounds of any schedule, fair in that every thread has a turn in every
 * round, each call has ended or sleeps because the queue is full, or empty.
 */
module MpmcProgress {
  import opened Arith
  import opened Mpmc
  import opened MpmcInvariant
  import opened MpmcSafety
  import opened MpmcTheorems

  type Run<T> = seq<(nat, Choice<T>)>

  // ---------- The work that is left ----------

  /** The slot at the index is ready for the next claim. */
  predicate Ready<T>(s: State<T>, op: Op<T>)
    requires WellSized(s)
  {
    s.seqs[s.Idx(op) % s.n] == if op.Push? then s.w else s.r + 1
  }

  const MOST: nat := 7

  /** The steps to the next one that others can see, or to sleep, if nobody else moves; one that spins takes none. */
  function Steps<T>(s: State<T>, pc: Pc<T>): (k: nat)
    requires WellSized(s)
    ensures k <= MOST
  {
    match pc
    case TryWait(op, cur, _) => if s.SemOf(op.TakeGate()).val == 0 || s.SemOf(op.TakeGate()).val == cur then 3 else 4
    case Register(op) => if s.SemOf(op.TakeGate()).val == 0 then 2 else 7
    case FutexWait(op) => if s.SemOf(op.TakeGate()).val == 0 then 1 else 6
    case Unregister(op) => if s.SemOf(op.TakeGate()).val == 0 then 4 else 5
    case LoadIdx(op) => 2
    case LoadSeq(op, p) => if p != s.Idx(op) then 5 else if Ready(s, op) then 1 else 2
    case Claim(op, p) => if p != s.Idx(op) then 4 else 0
    case _ => 0
  }

  function AllSteps<T>(s: State<T>, ts: seq<Pc<T>>): (k: nat)
    requires WellSized(s)
    ensures k <= MOST * |ts|
  {
    if ts == [] then 0 else Steps(s, ts[0]) + AllSteps(s, ts[1..])
  }

  /** Each operation that others can see may set every other thread back, but only in its steps to the next. */
  function Work<T>(s: State<T>): nat
    requires WellSized(s)
  {
    Total(Stages, s.threads) * (MOST * |s.threads| + 1) + AllSteps(s, s.threads)
  }

  lemma {:induction false} StagesBound<T>(ts: seq<Pc<T>>)
    ensures Total(Stages, ts) <= MOST * |ts|
  {
    if ts != [] { StagesBound(ts[1..]); }
  }

  function Bound(nthreads: nat): nat { MOST * nthreads * (MOST * nthreads + 2) }

  lemma WorkBound<T>(s: State<T>)
    requires WellSized(s)
    ensures Work(s) <= Bound(|s.threads|)
  {
    StagesBound(s.threads);
    ProductBound(Total(Stages, s.threads), AllSteps(s, s.threads), MOST * |s.threads|);
  }

  lemma ProductBound(a: nat, x: nat, b: nat)
    requires a <= b && x <= b
    ensures a * (b + 1) + x <= b * (b + 2)
  {
    MulLe(a, b, b + 1);
    assert b * (b + 2) == b * (b + 1) + b;
  }

  lemma {:induction false} StepsUpdate<T>(s: State<T>, ts: seq<Pc<T>>, t: nat, pc: Pc<T>)
    requires WellSized(s) && t < |ts|
    ensures AllSteps(s, ts[t := pc]) == AllSteps(s, ts) - Steps(s, ts[t]) + Steps(s, pc)
  {
    hide Steps;
    if t == 0 {
      assert ts[t := pc][1..] == ts[1..];
    } else {
      StepsUpdate(s, ts[1..], t - 1, pc);
      assert ts[t := pc][1..] == ts[1..][t - 1 := pc];
    }
  }

  /** Nothing that `Steps` depends on has changed. */
  predicate SameValues<T>(s: State<T>, s': State<T>) {
    && s'.n == s.n && s'.seqs == s.seqs && s'.w == s.w && s'.r == s.r
    && s'.empty.val == s.empty.val && s'.filled.val == s.filled.val
  }

  lemma {:induction false} SameSteps<T>(s: State<T>, s': State<T>, ts: seq<Pc<T>>)
    requires WellSized(s) && WellSized(s') && SameValues(s, s')
    ensures AllSteps(s', ts) == AllSteps(s, ts)
  {
    if ts != [] { SameSteps(s, s', ts[1..]); }
  }

  // ---------- One step ----------

  /** Nothing happens to this thread until it calls, or is woken. */
  predicate Rests<T>(pc: Pc<T>) { pc.Idle? || pc.Finished? || pc.Refused? || pc.Asleep? }

  /** The thread finds its slot in the hands of another. */
  predicate Spins<T>(s: State<T>, t: nat)
    requires WellSized(s) && t < |s.threads|
  {
    var pc := s.threads[t];
    (pc.LoadIdx? || (pc.LoadSeq? && pc.p == s.Idx(pc.op))) && !Ready(s, pc.op)
  }

  /** A turn of a thread: nothing fails without a reason, and the kernel wakes a sleeper if there is one. */
  predicate Turn<T>(s: State<T>, t: nat, c: Choice<T>) {
    && c.Run? && !c.spurious
    && (t < |s.threads| && s.threads[t].PostWake? ==>
          var g := s.threads[t].op.PostGate(); SomeSleeper(s, g) ==> Sleeps(s, c.wake, g))
  }

  lemma LowerStage<T>(s: State<T>, s': State<T>)
    requires WellSized(s) && WellSized(s') && |s'.threads| == |s.threads|
    requires Total(Stages, s'.threads) < Total(Stages, s.threads)
    ensures Work(s') < Work(s)
  {
    LowerProduct(Total(Stages, s'.threads), Total(Stages, s.threads), MOST * |s.threads| + 1, AllSteps(s', s'.threads));
  }

  lemma LowerProduct(a: nat, b: nat, k: nat, x: nat)
    requires a < b && x < k
    ensures a * k + x < b * k
  {
    MulLe(a + 1, b, k);
    assert (a + 1) * k == a * k + k;
  }

  /** A step that only its own thread notices. */
  lemma OwnStep<T>(s: State<T>, s': State<T>, t: nat)
    requires WellSized(s) && WellSized(s') && SameValues(s, s') && t < |s.threads| == |s'.threads|
    requires s'.threads == s.threads[t := s'.threads[t]]
    requires Weight(Stages, s'.threads[t]) == Weight(Stages, s.threads[t])
    ensures Work(s') - Work(s) == Steps(s, s'.threads[t]) - Steps(s, s.threads[t])
  {
    hide Steps, Weight;
    TotalUpdate(Stages, s.threads, t, s'.threads[t]);
    StepsUpdate(s, s.threads, t, s'.threads[t]);
    SameSteps(s, s', s'.threads);
  }

  lemma StageStep<T>(s: State<T>, s': State<T>, t: nat)
    requires WellSized(s) && WellSized(s') && t < |s.threads| == |s'.threads|
    requires s'.threads == s.threads[t := s'.threads[t]]
    requires Weight(Stages, s'.threads[t]) < Weight(Stages, s.threads[t])
    ensures Work(s') < Work(s)
  {
    hide Weight, Work;
    TotalUpdate(Stages, s.threads, t, s'.threads[t]);
    LowerStage(s, s');
  }

  lemma TryWaitWorks<T>(s: State<T>, t: nat)
    requires WellSized(s) && t < |s.threads| && s.threads[t].TryWait?
    ensures Work(StepTryWait(s, t, false)) < Work(s)
  {
    hide Work;
    var s' := StepTryWait(s, t, false);
    if s'.threads[t].LoadIdx? || s'.threads[t].Refused? { StageStep(s, s', t); } else { OwnStep(s, s', t); }
  }

  lemma WaitWorks<T>(s: State<T>, t: nat)
    requires WellSized(s) && Sems(s) && t < |s.threads|
    requires s.threads[t].Register? || s.threads[t].FutexWait? || s.threads[t].Unregister?
    ensures Work(StepWait(s, t)) < Work(s)
  {
    hide Work;
    TotalAtLeast(Waiting(s.threads[t].op.TakeGate()), s.threads, t);
    OwnStep(s, StepWait(s, t), t);
  }

  /** Loading the index, and the sequence number behind it, gets a thread on unless it spins. */
  lemma LoadWorks<T>(s: State<T>, t: nat, c: Choice<T>)
    requires Inv(s) && t < |s.threads| && c.Run? && !c.spurious
    requires s.threads[t].LoadIdx? || s.threads[t].LoadSeq?
    ensures var s' := Step(s, t, c);
      if Spins(s, t) then Work(s') == Work(s) && s' == s.Goto(t, s'.threads[t]) else Work(s') < Work(s)
  {
    hide Work;
    assert ThreadOk(s, t);
    OwnStep(s, Step(s, t, c), t);
  }

  lemma ClaimWorks<T>(s: State<T>, t: nat)
    requires WellSized(s) && t < |s.threads| && s.threads[t].Claim?
    ensures WellSized(StepClaim(s, t, false)) && Work(StepClaim(s, t, false)) < Work(s)
  {
    hide Work;
    var s' := StepClaim(s, t, false);
    if s'.threads[t].Access? { StageStep(s, s', t); } else { OwnStep(s, s', t); }
  }

  lemma WakeWorks<T>(s: State<T>, t: nat, c: Choice<T>)
    requires WellSized(s) && t < |s.threads| && s.threads[t].PostWake? && Turn(s, t, c)
    ensures Work(StepPostWake(s, t, c.wake)) < Work(s)
  {
    hide Work;
    var s' := StepPostWake(s, t, c.wake);
    var pc := s.threads[t];
    if Sleeps(s, c.wake, pc.op.PostGate()) {
      var woken := Unregister(s.threads[c.wake].op);
      TotalUpdate(Stages, s.threads, c.wake, woken);
      TotalUpdate(Stages, s.threads[c.wake := woken], t, Finished(pc.op, pc.p, pc.got));
      LowerStage(s, s');
    } else {
      StageStep(s, s', t);
    }
  }

  /** A turn of a thread in a call leaves less work, unless it spins, which nobody notices. */
  lemma TurnWorks<T>(s: State<T>, t: nat, c: Choice<T>)
    requires Inv(s) && t < |s.threads| && Turn(s, t, c)
    ensures var s' := Step(s, t, c);
      if Rests(s.threads[t]) then s' == s
      else if Spins(s, t) then Work(s') == Work(s) && s' == s.Goto(t, s'.threads[t])
      else Work(s') < Work(s)
  {
    hide Work;
    match s.threads[t]
    case TryWait(_, _, _) => TryWaitWorks(s, t);
    case Register(_) => WaitWorks(s, t);
    case FutexWait(_) => WaitWorks(s, t);
    case Unregister(_) => WaitWorks(s, t);
    case LoadIdx(_) => LoadWorks(s, t, c);
    case LoadSeq(_, _) => LoadWorks(s, t, c);
    case Claim(_, _) => ClaimWorks(s, t);
    case Access(_, _) => StageStep(s, Step(s, t, c), t);
    case Publish(_, _, _) => StageStep(s, Step(s, t, c), t);
    case Post(_, _, _) => StageStep(s, Step(s, t, c), t);
    case PostCheck(_, _, _) => StageStep(s, Step(s, t, c), t);
    case PostWake(_, _, _) => WakeWorks(s, t, c);
    case _ =>
  }

  // ---------- Somebody can always go on ----------

  predicate Helps<T>(s: State<T>, t: nat)
    requires WellSized(s)
  {
    t < |s.threads| && !Rests(s.threads[t]) && !Spins(s, t)
  }

  /** As long as some call is neither over nor asleep, some thread can get on with its call. */
  lemma SomebodyHelps<T>(s: State<T>) returns (h: nat)
    requires Inv(s) && !Quiet(s)
    ensures Helps(s, h)
  {
    var t: nat :| t < |s.threads| && !Rests(s.threads[t]);
    if Spins(s, t) {
      h := OwnerOfNext(s, t);
    } else {
      h := t;
    }
  }

  /** Turns of others that do no work leave a thread able to go on. */
  lemma StillHelps<T>(s: State<T>, t: nat, c: Choice<T>, h: nat)
    requires Inv(s) && t < |s.threads| && Turn(s, t, c) && Helps(s, h) && h != t
    requires Work(Step(s, t, c)) >= Work(s)
    ensures Helps(Step(s, t, c), h)
  {
    hide Work;
    TurnWorks(s, t, c);
  }

  // ---------- Runs ----------

  lemma ExecOne<T>(s: State<T>, step: (nat, Choice<T>))
    requires WellSized(s)
    ensures Exec(s, [step]) == if step.0 < |s.threads| then Step(s, step.0, step.1) else s
  {
    hide Step;
    assert [step][..0] == [];
    assert Exec(s, []) == s;
  }

  lemma {:induction false} ExecAppend<T>(s: State<T>, a: Run<T>, b: Run<T>)
    requires WellSized(s)
    ensures Exec(s, a + b) == Exec(Exec(s, a), b)
    decreases b
  {
    hide Step;
    if b == [] {
      assert a + b == a;
    } else {
      assert (a + b)[..|a + b| - 1] == a + b[..|b| - 1];
      ExecAppend(s, a, b[..|b| - 1]);
    }
  }

  /** The run consists of turns. */
  predicate Turns<T>(s: State<T>, run: Run<T>)
    requires WellSized(s)
    decreases |run|
  {
    run == [] || (Turn(s, run[0].0, run[0].1) && Turns(Exec(s, run[..1]), run[1..]))
  }

  ghost predicate HasTurn<T(!new)>(run: Run<T>, t: nat) { exists i :: 0 <= i < |run| && run[i].0 == t }

  /** Everybody has a turn. */
  ghost predicate Round<T(!new)>(run: Run<T>, nthreads: nat) {
    forall t: nat :: t < nthreads ==> HasTurn(run, t)
  }

  lemma FirstStep<T>(s: State<T>, run: Run<T>)
    requires WellSized(s) && run != []
    ensures WellSized(Exec(s, run[..1])) && Exec(s, run) == Exec(Exec(s, run[..1]), run[1..])
    ensures Exec(s, run[..1]) == if run[0].0 < |s.threads| then Step(s, run[0].0, run[0].1) else s
  {
    hide Step, Exec;
    ExecOne(s, run[0]);
    assert run[..1] == [run[0]];
    ExecAppend(s, run[..1], run[1..]);
    assert run == run[..1] + run[1..];
  }

  lemma FirstTurn<T>(s: State<T>, run: Run<T>)
    requires Inv(s) && run != [] && Turns(s, run)
    ensures var s' := Exec(s, run[..1]); Inv(s') && Work(s') <= Work(s) && Turns(s', run[1..])
  {
    hide Work, Step, Exec, Turn, Slots, Threads, Taken, Tokens, Waits;
    FirstStep(s, run);
    if run[0].0 < |s.threads| {
      StepInv(s, run[0].0, run[0].1);
      TurnWorks(s, run[0].0, run[0].1);
    }
  }

  lemma {:induction false} TurnsKeep<T>(s: State<T>, run: Run<T>)
    requires Inv(s) && Turns(s, run)
    ensures Inv(Exec(s, run)) && Work(Exec(s, run)) <= Work(s)
    decreases |run|
  {
    hide Work, Slots, Threads, Taken, Tokens, Waits;
    if run != [] {
      FirstStep(s, run);
      FirstTurn(s, run);
      TurnsKeep(Exec(s, run[..1]), run[1..]);
    }
  }

  /** If somebody who can go on has a turn, then there is less work afterwards. */
  lemma {:induction false} HelperWorks<T(!new)>(s: State<T>, run: Run<T>, h: nat)
    requires Inv(s) && Turns(s, run) && Helps(s, h) && HasTurn(run, h)
    ensures Work(Exec(s, run)) < Work(s)
    decreases |run|
  {
    hide Work, Slots, Threads, Taken, Tokens, Waits;
    FirstStep(s, run);
    FirstTurn(s, run);
    var (t, c) := run[0];
    var s' := Exec(s, run[..1]);
    if t == h { TurnWorks(s, t, c); }
    if Work(s') < Work(s) {
      TurnsKeep(s', run[1..]);
    } else {
      if t < |s.threads| { StillHelps(s, t, c, h); }
      var i :| 0 <= i < |run| && run[i].0 == h;
      assert run[1..][i - 1].0 == h;
      HelperWorks(s', run[1..], h);
    }
  }

  /** Every round gets the calls on, until all of them are over or asleep. */
  lemma RoundWorks<T(!new)>(s: State<T>, run: Run<T>)
    requires Inv(s) && Turns(s, run) && Round(run, |s.threads|)
    ensures Quiet(s) || Work(Exec(s, run)) < Work(s)
  {
    hide Work, Slots, Threads, Taken, Tokens, Waits;
    if !Quiet(s) {
      var h := SomebodyHelps(s);
      HelperWorks(s, run, h);
    }
  }

  lemma {:induction false} RestsForGood<T>(s: State<T>, run: Run<T>)
    requires Inv(s) && Turns(s, run) && Quiet(s)
    ensures Exec(s, run) == s
    decreases |run|
  {
    hide Work, Slots, Threads, Taken, Tokens, Waits;
    if run != [] {
      FirstStep(s, run);
      FirstTurn(s, run);
      if run[0].0 < |s.threads| { TurnWorks(s, run[0].0, run[0].1); }
      RestsForGood(s, run[1..]);
    }
  }

  function Flat<T>(rounds: seq<Run<T>>): Run<T> {
    if rounds == [] then [] else Flat(rounds[..|rounds| - 1]) + rounds[|rounds| - 1]
  }

  lemma {:induction false} TurnsAppend<T>(s: State<T>, a: Run<T>, b: Run<T>)
    requires WellSized(s)
    ensures Turns(s, a + b) <==> Turns(s, a) && Turns(Exec(s, a), b)
    decreases |a|
  {
    hide Turn, Exec;
    if a == [] {
      assert a + b == b;
      assert Exec(s, a) == s by { ExecNone(s); }
    } else {
      FirstStep(s, a);
      assert (a + b)[..1] == a[..1] && (a + b)[1..] == a[1..] + b;
      TurnsAppend(Exec(s, a[..1]), a[1..], b);
    }
  }

  lemma ExecNone<T>(s: State<T>)
    requires WellSized(s)
    ensures Exec(s, []) == s
  {}

  lemma {:induction false} RoundsWork<T(!new)>(s: State<T>, rounds: seq<Run<T>>)
    requires Inv(s) && Turns(s, Flat(rounds)) && forall i :: 0 <= i < |rounds| ==> Round(rounds[i], |s.threads|)
    ensures var s' := Exec(s, Flat(rounds)); Inv(s') && (Quiet(s') || Work(s') + |rounds| <= Work(s))
    decreases |rounds|
  {
    hide Work, Round, Slots, Threads, Taken, Tokens, Waits;
    TurnsKeep(s, Flat(rounds));
    if rounds == [] {
      ExecNone(s);
    } else {
      var before, last := rounds[..|rounds| - 1], rounds[|rounds| - 1];
      TurnsAppend(s, Flat(before), last);
      ExecAppend(s, Flat(before), last);
      RoundsWork(s, before);
      var s1 := Exec(s, Flat(before));
      if Quiet(s1) { RestsForGood(s1, last); } else { RoundWorks(s1, last); }
    }
  }

  lemma NoWork<T>(s: State<T>)
    requires WellSized(s) && Work(s) == 0
    ensures Quiet(s)
  {
    forall t: nat | t < |s.threads| ensures Rests(s.threads[t]) { TotalAtLeast(Stages, s.threads, t); }
  }

  /**
   * Progress under every fair schedule: however the threads are interleaved, and whichever sleepers
   * the kernel picks, all calls are over or asleep after so many rounds.
   */
  lemma FairRunEnds<T(!new)>(s: State<T>, rounds: seq<Run<T>>)
    requires Reachable(s) && Turns(s, Flat(rounds)) && |rounds| >= Bound(|s.threads|)
    requires forall i :: 0 <= i < |rounds| ==> Round(rounds[i], |s.threads|)
    ensures WellSized(s) && Quiet(Exec(s, Flat(rounds)))
  {
    hide Reachable, Work, Turns, Exec, Bound, Flat, Round, Slots, Threads, Taken, Tokens, Waits;
    ReachableInv(s);
    RoundsWork(s, rounds);
    WorkBound(s);
    if !Quiet(Exec(s, Flat(rounds))) { NoWork(Exec(s, Flat(rounds))); }
  }

  // ---------- How each call ends ----------

  /** Only a blocking call waits. */
  predicate WaitsBlocking<T>(pc: Pc<T>) {
    pc.Register? || pc.FutexWait? || pc.Asleep? || pc.Unregister? ==> pc.op.blocking
  }

  ghost predicate AllWaitBlocking<T>(s: State<T>) {
    forall t: nat :: t < |s.threads| ==> WaitsBlocking(s.threads[t])
  }

  /** A step of one thread changes another only by waking it. */
  lemma OtherThreads<T>(s: State<T>, t: nat, c: Choice<T>, u: nat)
    requires WellSized(s) && t < |s.threads| && u < |s.threads| && u != t
    ensures var pc, pc' := s.threads[u], Step(s, t, c).threads[u];
      pc' == pc || (pc.Asleep? && pc' == Unregister(pc.op))
  {
    if c.Run? && s.threads[t].PostWake? {
      hide WellSized;
    } else {
      OwnThread(s, t, c);
    }
  }

  lemma OwnThread<T>(s: State<T>, t: nat, c: Choice<T>)
    requires WellSized(s) && t < |s.threads| && !(c.Run? && s.threads[t].PostWake?)
    ensures Step(s, t, c).threads == s.threads[t := Step(s, t, c).threads[t]]
  {}

  lemma StepWaitsBlocking<T>(s: State<T>, t: nat, c: Choice<T>, u: nat)
    requires WellSized(s) && t < |s.threads| && u < |s.threads|
    requires WaitsBlocking(s.threads[t]) && WaitsBlocking(s.threads[u])
    ensures WaitsBlocking(Step(s, t, c).threads[u])
  {
    if u != t { OtherThreads(s, t, c, u); }
  }

  lemma {:induction false} ExecWaitsBlocking<T>(s: State<T>, run: Run<T>)
    requires WellSized(s) && AllWaitBlocking(s)
    ensures AllWaitBlocking(Exec(s, run))
  {
    if run != [] {
      ExecWaitsBlocking(s, run[..|run| - 1]);
      var prev := Exec(s, run[..|run| - 1]);
      var (t, c) := run[|run| - 1];
      if t < |prev.threads| {
        hide Step;
        forall u: nat | u < |prev.threads| ensures WaitsBlocking(Step(prev, t, c).threads[u]) {
          assert WaitsBlocking(prev.threads[u]) && WaitsBlocking(prev.threads[t]);
          StepWaitsBlocking(prev, t, c, u);
        }
      }
    }
  }

  lemma ReachableWaitsBlocking<T(!new)>(s: State<T>)
    requires Reachable(s)
    ensures AllWaitBlocking(s)
  {
    var n: nat, nthreads: nat, run: Run<T> :| n > 0 && s == Exec(Init(n, nthreads), run);
    ExecWaitsBlocking(Init(n, nthreads), run);
  }

  /** From `pc` a thread can get to `pc'` within its call; a call that is over is left alone. */
  predicate SameCall<T(==)>(pc: Pc<T>, pc': Pc<T>) {
    if pc.Idle? || pc.Finished? || pc.Refused? then pc' == pc
    else !pc'.Idle? && pc'.op == pc.op && (pc'.Refused? ==> !pc.op.blocking)
  }

  lemma {:induction false} TurnsSameCall<T>(s: State<T>, run: Run<T>, u: nat)
    requires Inv(s) && Turns(s, run) && u < |s.threads|
    ensures SameCall(s.threads[u], Exec(s, run).threads[u])
    decreases |run|
  {
    hide Work, Slots, Threads, Taken, Tokens, Waits;
    if run == [] {
      ExecNone(s);
    } else {
      FirstStep(s, run);
      FirstTurn(s, run);
      TurnsSameCall(Exec(s, run[..1]), run[1..], u);
      if run[0].0 < |s.threads| { StepSameCall(s, run[0].0, run[0].1, u); }
    }
  }

  lemma StepSameCall<T>(s: State<T>, t: nat, c: Choice<T>, u: nat)
    requires WellSized(s) && t < |s.threads| && u < |s.threads| && Turn(s, t, c)
    ensures SameCall(s.threads[u], Step(s, t, c).threads[u])
  {
    if u != t { OtherThreads(s, t, c, u); }
  }

  /**
   * After so many rounds every call has ended as it should: it is finished, or it was not to block and
   * is refused, or it is asleep, a `push` in front of a full queue and a `pop` in front of an empty one.
   */
  lemma CallsEnd<T(!new)>(s: State<T>, rounds: seq<Run<T>>, t: nat)
    requires Reachable(s) && Turns(s, Flat(rounds)) && |rounds| >= Bound(|s.threads|) && t < |s.threads|
    requires forall i :: 0 <= i < |rounds| ==> Round(rounds[i], |s.threads|)
    requires !s.threads[t].Idle? && !s.threads[t].Finished? && !s.threads[t].Refused?
    ensures WellSized(s)
    ensures var s', op := Exec(s, Flat(rounds)), s.threads[t].op;
      var pc := s'.threads[t];
      && Shape(s') && !pc.Idle? && pc.op == op
      && (pc.Finished? || (pc.Refused? && !op.blocking)
          || (pc.Asleep? && op.blocking && if op.Push? then |Contents(s')| == s.n else Contents(s') == []))
  {
    hide Round, Turns, Exec, Bound, Step, Slots, Threads, Taken, Tokens, Waits;
    ReachableInv(s);
    FairRunEnds(s, rounds);
    TurnsSameCall(s, Flat(rounds), t);
    ReachableOn(s, Flat(rounds));
    var s' := Exec(s, Flat(rounds));
    ReachableInv(s');
    ReachableWaitsBlocking(s');
    assert Rests(s'.threads[t]) && WaitsBlocking(s'.threads[t]);
    if s'.threads[t].Asleep? { NoDeadlock(s', t, s'.threads[t].op.TakeGate()); }
  }

  lemma ReachableOn<T(!new)>(s: State<T>, run: Run<T>)
    requires Reachable(s) && WellSized(s)
    ensures Reachable(Exec(s, run))
  {
    hide Exec;
    var n: nat, nthreads: nat, before: Run<T> :| n > 0 && s == Exec(Init(n, nthreads), before);
    ExecAppend(Init(n, nthreads), before, run);
  }

  // ---------- There are such schedules ----------

  lemma SomeTurn<T>(s: State<T>, t: nat) returns (c: Choice<T>)
    ensures Turn(s, t, c)
  {
    c := Run(false, 0);
    if t < |s.threads| && s.threads[t].PostWake? && SomeSleeper(s, s.threads[t].op.PostGate()) {
      var u: nat :| u < |s.threads| && Sleeps(s, u, s.threads[t].op.PostGate());
      c := Run(false, u);
    }
  }

  lemma {:induction false} SomeRound<T(!new)>(s: State<T>, nthreads: nat) returns (run: Run<T>)
    requires WellSized(s)
    ensures Turns(s, run) && Round(run, nthreads)
  {
    hide Turn, Exec;
    run := [];
    if nthreads > 0 {
      var before := SomeRound(s, nthreads - 1);
      var s' := Exec(s, before);
      var c := SomeTurn(s', nthreads - 1);
      var last: Run<T> := [(nthreads - 1, c)];
      run := before + last;
      TurnsAppend(s, before, last);
      forall t: nat | t < nthreads ensures HasTurn(run, t) {
        if t == nthreads - 1 {
          assert run[|before|].0 == t;
        } else {
          assert HasTurn(before, t);
          var i :| 0 <= i < |before| && before[i].0 == t;
          assert run[i].0 == t;
        }
      }
    }
  }

  /** From every reachable state there is a fair schedule, which by `CallsEnd` takes every call to its end. */
  lemma {:induction false} SomeRounds<T(!new)>(s: State<T>, count: nat) returns (rounds: seq<Run<T>>)
    requires WellSized(s)
    ensures |rounds| == count && Turns(s, Flat(rounds))
    ensures forall i :: 0 <= i < count ==> Round(rounds[i], |s.threads|)
  {
    hide Round, Exec;
    rounds := [];
    if count > 0 {
      var before := SomeRounds(s, count - 1);
      var last := SomeRound(Exec(s, Flat(before)), |s.threads|);
      rounds := before + [last];
      assert rounds[..count - 1] == before;
      TurnsAppend(s, Flat(before), last);
    }
  }
}

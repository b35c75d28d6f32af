/** The semaphore part of the invariant is preserved by every atomic operation. */
module MpmcSafety {
  import opened Mpmc
  import opened MpmcInvariant

  ghost predicate Sems<T>(s: State<T>) {
    Tokens(s) && Waits(s, Empty) && Waits(s, Filled)
  }

  function Delta<T>(m: Meter, s: State<T>, s': State<T>, t: nat): int
    requires t < |s.threads| && t < |s'.threads|
  {
    Weight(m, s'.threads[t]) - Weight(m, s.threads[t])
  }

  /** Thread `t` alone moved, and the counters moved with it. */
  ghost predicate Balanced<T>(s: State<T>, s': State<T>, t: nat)
    requires t < |s.threads|
  {
    && t < |s'.threads| && s'.threads == s.threads[t := s'.threads[t]]
    && s'.n == s.n
    && s'.filled.val - s.filled.val == (s'.w - s'.r) - (s.w - s.r) - Delta(Claimed, s, s', t)
    && s'.empty.val - s.empty.val == (s.w - s.r) - (s'.w - s'.r) - Delta(Unfilled, s, s', t)
    && BalancedWaits(s, s', t, Empty)
    && BalancedWaits(s, s', t, Filled)
  }

  ghost predicate BalancedWaits<T>(s: State<T>, s': State<T>, t: nat, g: Gate)
    requires t < |s.threads| && t < |s'.threads|
  {
    && s'.SemOf(g).waiting - s.SemOf(g).waiting == Delta(Waiting(g), s, s', t)
    && (Sleeps(s', t, g) ==> s'.SemOf(g).val == 0)
    && (SomeSleeper(s, g) ==>
          s'.SemOf(g).val == 0 || s'.SemOf(g).val - s.SemOf(g).val <= Delta(Wakers(g), s, s', t))
  }

  lemma BalancedKeepsWaits<T>(s: State<T>, s': State<T>, t: nat, g: Gate)
    requires t < |s.threads| && t < |s'.threads| && s'.threads == s.threads[t := s'.threads[t]]
    requires Waits(s, g) && BalancedWaits(s, s', t, g)
    ensures Waits(s', g)
  {
    TotalUpdate(Waiting(g), s.threads, t, s'.threads[t]);
    TotalUpdate(Wakers(g), s.threads, t, s'.threads[t]);
    if SomeSleeper(s', g) {
      var u: nat :| u < |s'.threads| && Sleeps(s', u, g);
      if u != t { assert Sleeps(s, u, g); }
    }
  }

  lemma BalancedKeepsSems<T>(s: State<T>, s': State<T>, t: nat)
    requires t < |s.threads| && Sems(s) && Balanced(s, s', t)
    ensures Sems(s')
  {
    TotalUpdate(Claimed, s.threads, t, s'.threads[t]);
    TotalUpdate(Unfilled, s.threads, t, s'.threads[t]);
    BalancedKeepsWaits(s, s', t, Empty);
    BalancedKeepsWaits(s, s', t, Filled);
  }

  lemma TryWaitSems<T>(s: State<T>, t: nat, spurious: bool)
    requires Sems(s) && t < |s.threads| && s.threads[t].TryWait?
    ensures Sems(StepTryWait(s, t, spurious))
  {
    BalancedKeepsSems(s, StepTryWait(s, t, spurious), t);
  }

  lemma WaitSems<T>(s: State<T>, t: nat)
    requires Sems(s) && t < |s.threads|
    requires s.threads[t].Register? || s.threads[t].FutexWait? || s.threads[t].Unregister?
    ensures Sems(StepWait(s, t))
    ensures StepWait(s, t) != s
  {
    TotalAtLeast(Waiting(s.threads[t].op.TakeGate()), s.threads, t);
    BalancedKeepsSems(s, StepWait(s, t), t);
  }

  lemma ClaimSems<T>(s: State<T>, t: nat, spurious: bool)
    requires Sems(s) && t < |s.threads| && s.threads[t].Claim?
    ensures Sems(StepClaim(s, t, spurious))
  {
    BalancedKeepsSems(s, StepClaim(s, t, spurious), t);
  }

  lemma AccessSems<T>(s: State<T>, t: nat)
    requires WellSized(s) && Sems(s) && t < |s.threads| && s.threads[t].Access?
    ensures Sems(StepAccess(s, t))
  {
    BalancedKeepsSems(s, StepAccess(s, t), t);
  }

  lemma PublishSems<T>(s: State<T>, t: nat)
    requires WellSized(s) && Sems(s) && t < |s.threads| && s.threads[t].Publish?
    ensures Sems(StepPublish(s, t))
  {
    BalancedKeepsSems(s, StepPublish(s, t), t);
  }

  lemma PostSems<T>(s: State<T>, t: nat)
    requires Sems(s) && t < |s.threads| && (s.threads[t].Post? || s.threads[t].PostCheck?)
    ensures Sems(StepPost(s, t))
  {
    var g := s.threads[t].op.PostGate();
    if SomeSleeper(s, g) {
      var u: nat :| u < |s.threads| && Sleeps(s, u, g);
      TotalAtLeast(Waiting(g), s.threads, u);
    }
    BalancedKeepsSems(s, StepPost(s, t), t);
  }

  /** Moves that touch neither the indices nor the semaphores. */
  lemma GotoSems<T>(s: State<T>, t: nat, pc: Pc<T>)
    requires Sems(s) && t < |s.threads| && !pc.Asleep?
    requires forall m :: m == Claimed || m == Unfilled || m.Waiting? ==> Weight(m, pc) == Weight(m, s.threads[t])
    requires forall g :: Weight(Wakers(g), pc) >= Weight(Wakers(g), s.threads[t])
    ensures Sems(s.Goto(t, pc))
  {
    BalancedKeepsSems(s, s.Goto(t, pc), t);
  }

  /** Waking a sleeper moves one unit of `Wakers` from the poster to the thread that wakes. */
  lemma WakeTotals<T>(m: Meter, s: State<T>, t: nat, wake: nat)
    requires t < |s.threads| && s.threads[t].PostWake? && Sleeps(s, wake, s.threads[t].op.PostGate())
    requires !m.Stages?
    ensures Total(m, StepPostWake(s, t, wake).threads) == Total(m, s.threads)
  {
    var pc := s.threads[t];
    var woken := Unregister(s.threads[wake].op);
    TotalUpdate(m, s.threads, wake, woken);
    TotalUpdate(m, s.threads[wake := woken], t, Finished(pc.op, pc.p, pc.got));
  }

  lemma WakeKeepsWaits<T>(s: State<T>, t: nat, wake: nat, g: Gate)
    requires t < |s.threads| && s.threads[t].PostWake? && Sleeps(s, wake, s.threads[t].op.PostGate())
    requires Waits(s, g)
    ensures Waits(StepPostWake(s, t, wake), g)
  {
    var s' := StepPostWake(s, t, wake);
    WakeTotals(Waiting(g), s, t, wake);
    WakeTotals(Wakers(g), s, t, wake);
    if SomeSleeper(s', g) {
      var u: nat :| u < |s'.threads| && Sleeps(s', u, g);
      assert Sleeps(s, u, g);
    }
  }

  lemma PostWakeSems<T>(s: State<T>, t: nat, wake: nat)
    requires Sems(s) && t < |s.threads| && s.threads[t].PostWake?
    ensures Sems(StepPostWake(s, t, wake))
  {
    var pc := s.threads[t];
    if Sleeps(s, wake, pc.op.PostGate()) {
      WakeTotals(Claimed, s, t, wake);
      WakeTotals(Unfilled, s, t, wake);
      WakeKeepsWaits(s, t, wake, Empty);
      WakeKeepsWaits(s, t, wake, Filled);
    } else if !SomeSleeper(s, pc.op.PostGate()) {
      BalancedKeepsSems(s, s.Goto(t, Finished(pc.op, pc.p, pc.got)), t);
    }
  }

  lemma StepSems<T>(s: State<T>, t: nat, c: Choice<T>)
    requires WellSized(s) && Sems(s) && t < |s.threads|
    ensures Sems(Step(s, t, c))
  {
    var pc := s.threads[t];
    match c
    case Call(op) => if pc.Idle? || pc.Finished? || pc.Refused? { GotoSems(s, t, TryWait(op, 1, false)); }
    case SpuriousWake => if pc.Asleep? { GotoSems(s, t, Unregister(pc.op)); }
    case Run(spurious, wake) =>
      match pc
      case TryWait(_, _, _) => TryWaitSems(s, t, spurious);
      case Register(_) => WaitSems(s, t);
      case FutexWait(_) => WaitSems(s, t);
      case Unregister(_) => WaitSems(s, t);
      case LoadIdx(op) => GotoSems(s, t, LoadSeq(op, s.Idx(op)));
      case LoadSeq(_, _) => GotoSems(s, t, StepLoadSeq(s, t).threads[t]);
      case Claim(_, _) => ClaimSems(s, t, spurious);
      case Access(_, _) => AccessSems(s, t);
      case Publish(_, _, _) => PublishSems(s, t);
      case Post(_, _, _) => PostSems(s, t);
      case PostCheck(_, _, _) => PostSems(s, t);
      case PostWake(_, _, _) => PostWakeSems(s, t, wake);
      case _ =>
  }
}

/**
 * The queue model on the real kernel: when its threads are tasks of the scheduler, every trap of the
 * kernel is, for the queue, the kernel step of the model followed by sleepers that return on their own.
 */
module MpmcKernel {
  import opened Wrappers
  import Spec = SchedulerSpec
  import Sched = Scheduler
  import Runs = SchedulerRuns
  import M = Mpmc

  /** The task of each thread of the queue, and where the values of its two semaphores are. */
  datatype Layout = Layout(tasks: seq<nat>, empty: nat, filled: nat) {
    function Addr(g: M.Gate): nat { if g.Empty? then empty else filled }

    predicate Ok() {
      && empty != filled && empty != Sched.NO_FUTEX && filled != Sched.NO_FUTEX
      && forall i, j :: 0 <= i < j < |tasks| ==> tasks[i] != tasks[j]
    }
  }

  predicate SleepsIn(tasks: Spec.Tasks, l: Layout, t: nat, g: M.Gate) {
    t < |l.tasks| && l.tasks[t] < |tasks| && tasks[l.tasks[t]].SleepsOn(l.Addr(g))
  }

  /** Only threads of the queue sleep on its semaphores. */
  predicate Owned(tasks: Spec.Tasks, l: Layout) {
    forall x, g: M.Gate :: 0 <= x < |tasks| && tasks[x].SleepsOn(l.Addr(g)) ==> x in l.tasks
  }

  /** A thread is asleep in the queue model exactly if its task sleeps on that semaphore. */
  ghost predicate Matches<T>(q: M.State<T>, tasks: Spec.Tasks, l: Layout) {
    && M.WellSized(q) && l.Ok() && |l.tasks| == |q.threads| && Owned(tasks, l)
    && (forall t :: 0 <= t < |l.tasks| ==> l.tasks[t] < |tasks|)
    && forall t: nat, g: M.Gate :: M.Sleeps(q, t, g) <==> SleepsIn(tasks, l, t, g)
  }

  /** The same, but that some threads asleep in the model may be awake already. */
  ghost predicate Behind<T>(q: M.State<T>, tasks: Spec.Tasks, l: Layout) {
    && M.WellSized(q) && l.Ok() && |l.tasks| == |q.threads| && Owned(tasks, l)
    && (forall t :: 0 <= t < |l.tasks| ==> l.tasks[t] < |tasks|)
    && forall t: nat, g: M.Gate :: SleepsIn(tasks, l, t, g) ==> M.Sleeps(q, t, g)
  }

  /** The task of this thread has woken up, but in the model it is still asleep. */
  predicate IsUp<T>(q: M.State<T>, tasks: Spec.Tasks, l: Layout, t: nat)
    requires t < |q.threads|
  {
    q.threads[t].Asleep? && !SleepsIn(tasks, l, t, q.threads[t].op.TakeGate())
  }

  /** Those of the first `k` threads that have woken up return from their futex wait on their own. */
  function WakeUps<T>(q: M.State<T>, tasks: Spec.Tasks, l: Layout, k: nat): seq<(nat, M.Choice<T>)>
    requires k <= |q.threads|
  {
    if k == 0 then []
    else WakeUps(q, tasks, l, k - 1) + if IsUp(q, tasks, l, k - 1) then [(k - 1, M.SpuriousWake)] else []
  }

  function Returned<T>(q: M.State<T>, tasks: Spec.Tasks, l: Layout, k: nat): (r: seq<M.Pc<T>>)
    requires k <= |q.threads|
    ensures |r| == |q.threads|
  {
    seq(|q.threads|, t requires 0 <= t < |q.threads| =>
      if t < k && IsUp(q, tasks, l, t) then M.Unregister(q.threads[t].op) else q.threads[t])
  }

  lemma {:induction false} WakeUpsWake<T>(q: M.State<T>, tasks: Spec.Tasks, l: Layout, k: nat)
    requires M.WellSized(q) && k <= |q.threads|
    ensures M.Exec(q, WakeUps(q, tasks, l, k)) == q.(threads := Returned(q, tasks, l, k))
  {
    hide Returned, IsUp, M.Exec, M.WellSized, M.Step;
    if k > 0 {
      var run := WakeUps(q, tasks, l, k - 1);
      WakeUpsWake(q, tasks, l, k - 1);
      OneMoreReturned(q, tasks, l, k);
      if IsUp(q, tasks, l, k - 1) {
        OneMoreStep(q, run, k - 1);
        ReturnStep(q, Returned(q, tasks, l, k - 1), k - 1);
      } else {
        assert run + [] == run;
      }
    } else {
      NoneReturned(q, tasks, l);
    }
  }

  lemma NoneReturned<T>(q: M.State<T>, tasks: Spec.Tasks, l: Layout)
    requires M.WellSized(q)
    ensures M.Exec(q, []) == q == q.(threads := Returned(q, tasks, l, 0))
  {
    assert Returned(q, tasks, l, 0) == q.threads;
  }

  lemma ReturnStep<T>(q: M.State<T>, threads: seq<M.Pc<T>>, t: nat)
    requires M.WellSized(q) && t < |threads| && threads[t].Asleep?
    ensures M.Step(q.(threads := threads), t, M.SpuriousWake)
         == q.(threads := threads[t := M.Unregister(threads[t].op)])
  {}

  lemma OneMoreReturned<T>(q: M.State<T>, tasks: Spec.Tasks, l: Layout, k: nat)
    requires 0 < k <= |q.threads|
    ensures Returned(q, tasks, l, k - 1)[k - 1] == q.threads[k - 1]
    ensures IsUp(q, tasks, l, k - 1) ==> q.threads[k - 1].Asleep?
    ensures Returned(q, tasks, l, k)
         == if IsUp(q, tasks, l, k - 1) then Returned(q, tasks, l, k - 1)[k - 1 := M.Unregister(q.threads[k - 1].op)]
            else Returned(q, tasks, l, k - 1)
  {
    hide SleepsIn;
  }

  lemma OneMoreStep<T>(q: M.State<T>, run: seq<(nat, M.Choice<T>)>, t: nat)
    requires M.WellSized(q) && t < |q.threads|
    ensures t < |M.Exec(q, run).threads| && M.WellSized(M.Exec(q, run))
    ensures M.Exec(q, run + [(t, M.SpuriousWake)]) == M.Step(M.Exec(q, run), t, M.SpuriousWake)
  {
    var longer := run + [(t, M.SpuriousWake)];
    assert longer[..|longer| - 1] == run;
  }

  /** So the model catches up with the kernel. */
  lemma CatchesUp<T>(q: M.State<T>, tasks: Spec.Tasks, l: Layout)
    requires Behind(q, tasks, l)
    ensures Matches(M.Exec(q, WakeUps(q, tasks, l, |q.threads|)), tasks, l)
  {
    WakeUpsWake(q, tasks, l, |q.threads|);
    var r := M.Exec(q, WakeUps(q, tasks, l, |q.threads|));
    hide Owned, Layout.Ok, WakeUps, M.Exec;
    forall t: nat, g: M.Gate ensures M.Sleeps(r, t, g) <==> SleepsIn(tasks, l, t, g) {
      assert SleepsIn(tasks, l, t, g) ==> M.Sleeps(q, t, g);
    }
  }

  /** What the kernel does for the queue when a thread waits or wakes, and what happens to it at other traps. */
  lemma OtherTrap<T>(q: M.State<T>, s: Sched.Snapshot, l: Layout, call: Sched.Call)
    requires Runs.KernelOk(s) && Runs.Allowed(s, call) && Matches(q, s.tasks, l)
    requires call.FutexWait? ==> call.addr != l.empty && call.addr != l.filled
    ensures var after := Sched.Apply(s, call).tasks;
      Matches(M.Exec(q, WakeUps(q, after, l, |q.threads|)), after, l)
  {
    var after := Sched.Apply(s, call).tasks;
    hide Sched.Apply, Runs.WokenBy, Runs.KernelOk, Runs.Allowed;
    forall x, g: M.Gate | 0 <= x < |after| && after[x].SleepsOn(l.Addr(g))
      ensures x < |s.tasks| && s.tasks[x].SleepsOn(l.Addr(g))
    {
      Runs.SleepersOf(s, call, x, l.Addr(g));
    }
    StaysBehind(q, s.tasks, after, l);
    CatchesUp(q, after, l);
  }

  lemma StaysBehind<T>(q: M.State<T>, before: Spec.Tasks, after: Spec.Tasks, l: Layout)
    requires Matches(q, before, l) && |before| <= |after|
    requires forall x, g: M.Gate :: 0 <= x < |after| && after[x].SleepsOn(l.Addr(g)) ==>
      x < |before| && before[x].SleepsOn(l.Addr(g))
    ensures Behind(q, after, l)
  {
    hide Layout.Ok;
    forall t: nat, g: M.Gate | SleepsIn(after, l, t, g) ensures M.Sleeps(q, t, g) {
      assert SleepsIn(before, l, t, g);
    }
  }

  /** The state of the queue after the kernel step of a thread and the wake-ups that the kernel has seen. */
  function Follow<T>(q: M.State<T>, t: nat, wake: nat, after: Spec.Tasks, l: Layout): M.State<T>
    requires M.WellSized(q) && t < |q.threads|
  {
    var q1 := M.Step(q, t, M.Run(false, wake));
    if M.WellSized(q1) then M.Exec(q1, WakeUps(q1, after, l, |q1.threads|)) else q1
  }

  /**
   * `futex_wait` of a thread that is about to make it: the thread sleeps in the model if and only if
   * the value still is 0, and the table of tasks says the same, unless its time is over already.
   */
  lemma WaitTrap<T>(q: M.State<T>, s: Sched.Snapshot, l: Layout, t: nat, ticks: nat, now: nat, clock: Sched.Clock)
    requires Runs.KernelOk(s) && Matches(q, s.tasks, l) && s.cur != 0
    requires t < |q.threads| && s.cur == l.tasks[t] && q.threads[t].FutexWait?
    ensures var g := q.threads[t].op.TakeGate();
      var after := Sched.Apply(s, Sched.FutexWait(l.Addr(g), q.SemOf(g).val == 0, ticks, now, clock)).tasks;
      Matches(Follow(q, t, 0, after, l), after, l)
  {
    var g := q.threads[t].op.TakeGate();
    var call := Sched.FutexWait(l.Addr(g), q.SemOf(g).val == 0, ticks, now, clock);
    var after, q1 := Sched.Apply(s, call).tasks, M.Step(q, t, M.Run(false, 0));
    hide Sched.Apply, Runs.WokenBy, Runs.KernelOk, M.Exec, WakeUps;
    forall x, h: M.Gate | 0 <= x < |after| && after[x].SleepsOn(l.Addr(h))
      ensures x < |s.tasks|
      ensures (x != s.cur && s.tasks[x].SleepsOn(l.Addr(h))) || (x == s.cur && h == g && q.SemOf(g).val == 0)
    {
      Runs.SleepersOf(s, call, x, l.Addr(h));
    }
    forall u: nat, h: M.Gate | SleepsIn(after, l, u, h) ensures M.Sleeps(q1, u, h) {
      if u != t { assert SleepsIn(s.tasks, l, u, h); }
    }
    CatchesUp(q1, after, l);
  }

  /**
   * `futex_wake(&val, 1)` of a thread that is about to make it: the sleeper that the scheduler chooses is
   * one that the model may choose, and there is none only if nobody sleeps there; the call is not stuck.
   */
  lemma WakeTrap<T>(q: M.State<T>, s: Sched.Snapshot, l: Layout, t: nat, clock: Sched.Clock) returns (wake: nat)
    requires Runs.KernelOk(s) && Matches(q, s.tasks, l) && s.cur != 0
    requires t < |q.threads| && s.cur == l.tasks[t] && q.threads[t].PostWake?
    ensures var g := q.threads[t].op.PostGate();
      var after := Sched.Apply(s, Sched.Call.FutexWake(l.Addr(g), 1, clock)).tasks;
      M.Step(q, t, M.Run(false, wake)).threads[t].Finished? && Matches(Follow(q, t, wake, after, l), after, l)
    ensures var g := q.threads[t].op.PostGate();
      var c := Spec.Candidate(s.tasks, l.Addr(g), |s.tasks|);
      if M.SomeSleeper(q, g) then M.Sleeps(q, wake, g) && c == Some(l.tasks[wake]) else c == None
  {
    hide Sched.Apply, Runs.WokenBy, Runs.KernelOk, Spec.Candidate, M.Step, M.SomeSleeper, M.Exec, WakeUps;
    var g := q.threads[t].op.PostGate();
    var addr, call := l.Addr(g), Sched.Call.FutexWake(l.Addr(g), 1, clock);
    NowValid(s);
    var after := Sched.Apply(s, call).tasks;
    wake := ChosenThread(q, s, l, g);
    var q1 := M.Step(q, t, M.Run(false, wake));
    ChosenIsWoken(s, addr, clock);
    WakeStep(q, t, wake);
    forall x, h: M.Gate | 0 <= x < |after| && after[x].SleepsOn(l.Addr(h))
      ensures x < |s.tasks| && x != s.cur && s.tasks[x].SleepsOn(l.Addr(h)) && !Runs.WokenBy(s, call, x)
    {
      Runs.SleepersOf(s, call, x, l.Addr(h));
    }
    forall u: nat, h: M.Gate | SleepsIn(after, l, u, h) ensures M.Sleeps(q1, u, h) {
      assert SleepsIn(s.tasks, l, u, h);
    }
    CatchesUp(q1, after, l);
  }

  lemma NowValid(s: Sched.Snapshot)
    requires Runs.KernelOk(s)
    ensures s.Valid() && s.tasks[s.cur].Runnable()
  {}

  lemma WakeStep<T>(q: M.State<T>, t: nat, wake: nat)
    requires M.WellSized(q) && t < |q.threads| && q.threads[t].PostWake?
    requires M.SomeSleeper(q, q.threads[t].op.PostGate()) ==> M.Sleeps(q, wake, q.threads[t].op.PostGate())
    ensures var q1 := M.Step(q, t, M.Run(false, wake));
      && M.WellSized(q1) && |q1.threads| == |q.threads| && q1.threads[t].Finished?
      && forall u :: 0 <= u < |q.threads| && u != t && (M.SomeSleeper(q, q.threads[t].op.PostGate()) ==> u != wake) ==>
        q1.threads[u] == q.threads[u]
  {}

  /** The thread whose task the scheduler chooses. */
  lemma ChosenThread<T>(q: M.State<T>, s: Sched.Snapshot, l: Layout, g: M.Gate) returns (wake: nat)
    requires Runs.KernelOk(s) && Matches(q, s.tasks, l)
    ensures var c := Spec.Candidate(s.tasks, l.Addr(g), |s.tasks|);
      if M.SomeSleeper(q, g) then M.Sleeps(q, wake, g) && c == Some(l.tasks[wake]) else c == None
  {
    Spec.CandidateIsBest(s.tasks, l.Addr(g), |s.tasks|);
    var c := Spec.Candidate(s.tasks, l.Addr(g), |s.tasks|);
    wake := 0;
    if c.Some? {
      wake :| 0 <= wake < |l.tasks| && l.tasks[wake] == c.value;
      assert SleepsIn(s.tasks, l, wake, g);
    } else {
      forall u: nat | u < |q.threads| ensures !M.Sleeps(q, u, g) {
        assert M.Sleeps(q, u, g) <==> SleepsIn(s.tasks, l, u, g);
      }
    }
  }

  lemma ChosenIsWoken(s: Sched.Snapshot, addr: nat, clock: Sched.Clock)
    requires Runs.KernelOk(s)
    ensures var c := Spec.Candidate(s.tasks, addr, |s.tasks|);
      c.Some? ==> Runs.WokenBy(s, Sched.Call.FutexWake(addr, 1, clock), c.value)
  {
    Spec.CandidateIsBest(s.tasks, addr, |s.tasks|);
    assert Spec.WakeMany(s.tasks, addr, 1).0 == Spec.WakeOne(s.tasks, addr) by {
      assert Spec.WakeMany(s.tasks, addr, 0) == (s.tasks, 0);
    }
  }
}

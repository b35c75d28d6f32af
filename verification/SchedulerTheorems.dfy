/** What the scheduler guarantees: who runs, who is interrupted in time, and that no context is lost. */
module SchedulerTheorems {
  import opened Wrappers
  import opened SchedulerSpec
  import opened Scheduler

  // ---------- Priorities ----------

  /** States and priorities are as in the table that the choice was made from. */
  lemma ScheduledTable(s: Snapshot, clock: Clock)
    requires s.Valid()
    ensures var awake, r := AllAwake(s.Saved(), clock.first), s.Scheduled(clock);
      && r.cur == Pick(awake, s.cur)
      && r.mtimecmp == RunUntil(awake, r.cur, clock.second, |awake|) && r.mtie
      && |r.tasks| == |awake|
      && forall t :: 0 <= t < |awake| ==> r.tasks[t] == awake[t].(runTicks := r.tasks[t].runTicks)
  {
    hide Pick, RunUntil;
  }

  /** After `schedule`, no runnable task has a higher priority than the one that runs. */
  lemma ScheduledIsTop(s: Snapshot, clock: Clock)
    requires s.Valid()
    ensures s.Scheduled(clock).Top()
    ensures s.tasks[0].Runnable() ==> s.Scheduled(clock).tasks[s.Scheduled(clock).cur].Runnable()
  {
    ScheduledTable(s, clock);
    PickIsBest(AllAwake(s.Saved(), clock.first), s.cur);
    hide Pick, RunUntil;
    var awake, r := AllAwake(s.Saved(), clock.first), s.Scheduled(clock);
    forall t | 0 <= t < |r.tasks| && r.tasks[t].Runnable() ensures r.tasks[t].prio <= r.tasks[r.cur].prio {
      assert awake[t].Runnable();
    }
  }

  /** A wake-up keeps this: it switches tasks whenever it woke somebody more important. */
  lemma FutexWakeKeepsTop(s: Snapshot, addr: nat, n: nat, clock: Clock)
    requires s.Valid() && s.Top() && PriosOk(s.tasks)
    ensures s.FutexWoken(addr, n, clock).Top()
  {
    WakesBest(s.tasks, addr, n);
    hide WakeMany, Sleepers;
    var after := WakeMany(s.tasks, addr, n).0;
    var woken := s.(tasks := after);
    ScheduledIsTop(woken, clock);
    if !RunnableAbove(after, s.tasks, s.tasks[s.cur].prio) {
      assert after[s.cur].prio == s.tasks[s.cur].prio;
      forall t | 0 <= t < |after| && after[t].Runnable() ensures after[t].prio <= after[s.cur].prio {
        assert after[t] == s.tasks[t] || Woken(s.tasks, after, addr, t);
      }
    }
  }

  lemma {:induction false} AnyAboveIs(tasks: Tasks, state: TaskState, prio: int, n: nat)
    requires n <= |tasks|
    ensures AnyAbove(tasks, state, prio, n)
      <==> exists t :: 0 <= t < n && tasks[t].state == state && tasks[t].prio > prio
  {
    if n > 0 { AnyAboveIs(tasks, state, prio, n - 1); }
  }

  lemma StateWakeKeepsTop(s: Snapshot, state: TaskState, clock: Clock)
    requires s.Valid() && s.Top()
    ensures s.StateWoken(state, clock).Top()
  {
    AnyAboveIs(s.tasks, state, s.tasks[s.cur].prio, |s.tasks|);
    ScheduledIsTop(s.(tasks := AllWoken(s.tasks, state)), clock);
  }

  /**
   * A new task takes over at once if it is more important and goes to the end of the table, but not
   * if it takes the place of a dead task: that is exactly when a less important task runs on.
   */
  lemma SpawnKeepsTop(s: Snapshot, task: Task, clock: Clock)
    requires s.Valid() && s.Top() && s.tasks[s.cur].state != Dead && task.Runnable()
    ensures s.Spawned(task, clock).Top() <==> (DeadSlot(s.tasks, 0) == |s.tasks| || task.prio <= s.tasks[s.cur].prio)
  {
    hide DeadSlot;
    var slot := DeadSlot(s.tasks, 0);
    if slot < |s.tasks| {
      assert s.Spawned(task, clock).tasks[slot] == task;
    } else {
      ScheduledIsTop(s.(tasks := s.tasks + [task]), clock);
    }
  }

  /** Such a case: the current task of priority 0 goes on after spawning one of priority 5. */
  lemma SpawnMayNotPreempt(clock: Clock)
    ensures exists s: Snapshot, task: Task ::
      s.Valid() && s.Top() && s.tasks[s.cur].Runnable() && task.Runnable() && !s.Spawned(task, clock).Top()
  {
    var idle := Task(Running, 0, 0, PRIO_MIN, System, 0, 0, None);
    var cur := idle.(prio := 0);
    var gone := idle.(state := Dead);
    var s := Snapshot([idle, cur, gone], 1, 0, Regs(0, 0, System, true), 0, true);
    var task := idle.(prio := 5);
    assert DeadSlot(s.tasks, 2) == 2;
    assert DeadSlot(s.tasks, 1) == 2;
    SpawnKeepsTop(s, task, clock);
  }

  // ---------- The timer ----------

  /**
   * The timer fires no later than the wake-up time of any sleeper that is more important than the
   * running task, than one slot when an equally important task is runnable or asleep, and than one
   * second; and it is not already due for a sleeper that the same call could have woken.
   */
  lemma TimerInTime(s: Snapshot, clock: Clock, t: nat)
    requires s.Valid() && t < |s.tasks| && clock.first <= clock.second
    ensures var r := s.Scheduled(clock);
      && r.mtie && clock.first < r.mtimecmp <= clock.second + MTIME_HZ
      && (t != r.cur && r.tasks[t].state.Sleeping? && r.tasks[t].prio > r.tasks[r.cur].prio ==>
            r.mtimecmp <= r.tasks[t].state.until)
      && (t != r.cur && (r.tasks[t].state.Sleeping? || r.tasks[t].Runnable()) ==>
            r.tasks[t].prio == r.tasks[r.cur].prio ==> r.mtimecmp <= clock.second + TASK_SLOT)
  {
    ScheduledTable(s, clock);
    var awake, r := AllAwake(s.Saved(), clock.first), s.Scheduled(clock);
    hide RunUntil, Pick;
    RunUntilIsEarliest(awake, r.cur, clock.second, |awake|);
    if u :| 0 <= u < |awake| && u != r.cur && Limit(awake[u], awake[r.cur].prio, clock.second) == Some(r.mtimecmp) {
      assert awake[u].state.Sleeping? ==> awake[u].state.until > clock.first;
    }
    var limit := Limit(awake[t], awake[r.cur].prio, clock.second);
    assert limit.Some? ==> t == r.cur || r.mtimecmp <= limit.value;
  }

  // ---------- Contexts ----------

  /** Where a task goes on: in the registers while it runs, in its table entry otherwise. */
  function Context(s: Snapshot, t: nat): (nat, nat)
    requires s.Valid() && t < |s.tasks|
  {
    if t == s.cur then (s.regs.mepc, s.regs.mscratch) else (s.tasks[t].ra, s.tasks[t].sp)
  }

  /** Scheduling loses nobody's place, whether or not it switches tasks. */
  lemma ContextsKept(s: Snapshot, clock: Clock, t: nat)
    requires s.Valid() && t < |s.tasks|
    ensures Context(s.Scheduled(clock), t) == Context(s, t)
  {
    hide Pick, RunUntil;
  }

  lemma FutexWakeKeepsContexts(s: Snapshot, addr: nat, n: nat, clock: Clock, t: nat)
    requires s.Valid() && t < |s.tasks| && PriosOk(s.tasks)
    ensures t < |s.FutexWoken(addr, n, clock).tasks| && Context(s.FutexWoken(addr, n, clock), t) == Context(s, t)
  {
    WakesBest(s.tasks, addr, n);
    hide WakeMany, Sleepers;
    ContextsKept(s.(tasks := WakeMany(s.tasks, addr, n).0), clock, t);
  }

  // ---------- Round robin ----------

  /** The tasks that consecutive calls of `schedule` switch to. */
  function Switched(ss: seq<Snapshot>, clocks: seq<Clock>): seq<nat>
    requires |ss| == |clocks| && forall i :: 0 <= i < |ss| ==> ss[i].Valid()
  {
    seq(|ss|, i requires 0 <= i < |ss| => ss[i].Scheduled(clocks[i]).cur)
  }

  /**
   * In a run of the kernel where the same `k` tasks stay the runnable ones of the highest priority
   * from call to call, `k` calls of `schedule` run each of them exactly once.
   */
  lemma EachRunsOnce(ss: seq<Snapshot>, clocks: seq<Clock>, ts: seq<nat>)
    requires |ss| == |clocks| == |ts| > 0 && forall i :: 0 <= i < |ss| ==> ss[i].Valid()
    requires forall i :: 0 <= i < |ss| ==> TopsAre(AllAwake(ss[i].Saved(), clocks[i].first), ts)
    requires forall i :: 0 < i < |ss| ==> ss[i].cur == Switched(ss, clocks)[i - 1]
    ensures multiset(Switched(ss, clocks)) == multiset(ts)
  {
    var picks := Switched(ss, clocks);
    var tables := seq(|ss|, i requires 0 <= i < |ss| => AllAwake(ss[i].Saved(), clocks[i].first));
    forall i | 0 <= i < |picks|
      ensures TopsAre(tables[i], ts) && CurAt(picks, ss[0].cur, i) < |tables[i]|
      ensures picks[i] == Pick(tables[i], CurAt(picks, ss[0].cur, i))
    {
      ScheduledTable(ss[i], clocks[i]);
    }
    RoundRobin(tables, picks, ss[0].cur, ts);
  }
}

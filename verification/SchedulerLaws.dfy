/**
 * What every trap keeps of each task: where it goes on and in which mode, and the time that it is billed
 * for. And when the kernel does not interfere: no timer without a reason, no switch without one.
 */
module SchedulerLaws {
  import opened Wrappers
  import opened SchedulerSpec
  import opened Scheduler
  import opened SchedulerTheorems
  import opened SchedulerRuns

  // ---------- The mode of the task that runs ----------

  /** The return from the trap enters the mode of the current task, with interrupts enabled. */
  predicate RightMode(s: Snapshot) {
    s.Valid() && s.regs.mpp == s.tasks[s.cur].ty && s.regs.mpie
  }

  /** A task that is resumed is resumed in its own mode, with interrupts enabled. */
  lemma ResumesAs(s: Snapshot, clock: Clock)
    requires s.Valid()
    ensures var r := s.Scheduled(clock);
      && (r.cur != s.cur ==> r.regs.mpie && r.regs.mpp == r.tasks[r.cur].ty)
      && (r.cur == s.cur ==> r.regs == s.regs)
      && forall t :: 0 <= t < |s.tasks| ==> r.tasks[t].ty == s.tasks[t].ty
  {
    hide Pick, RunUntil;
  }

  /** The trap itself leaves every task what it is, but for a slot that gets a new task. */
  lemma TouchedKeeps(s: Snapshot, call: Call, t: nat)
    requires KernelOk(s) && Allowed(s, call) && t < |s.tasks| && !Refills(s, call, t)
    ensures var a, b := Touched(s, call)[t], s.tasks[t];
      a.ty == b.ty && a.stack == b.stack && a.runTicks == b.runTicks && a.ra == b.ra && a.sp == b.sp
  {
    hide WakeMany, DeadSlot, AnyAbove, RunnableAbove, Sleepers;
    if call.FutexWake? { WakesOnlySleepers(s.tasks, call.addr, call.n, t); }
  }

  /** The current task is alive, so that its slot is not used again. */
  lemma CurrentStays(s: Snapshot, call: Call)
    requires KernelOk(s)
    ensures !Refills(s, call, s.cur)
  {}

  lemma ApplyKeepsMode(s: Snapshot, call: Call)
    requires KernelOk(s) && Allowed(s, call) && RightMode(s)
    ensures RightMode(Apply(s, call))
  {
    HandledIs(s, call);
    CurrentStays(s, call);
    TouchedKeeps(s, call, s.cur);
    var at := Rescheduled(s, call);
    var s1 := (if call.IsEcall() then s.AfterEcall() else s).(tasks := Touched(s, call));
    hide Handled, Touched, Rescheduled, Snapshot.Scheduled, Allowed, Refills, PriosOk;
    if at.Some? { ResumesAs(s1, at.value); }
  }

  /** In every run, user tasks run in user mode, and the kernel gets the machine back by an interrupt. */
  lemma {:induction false} RunKeepsMode(s: Snapshot, calls: seq<Call>, k: nat)
    requires IsRun(s, calls) && k <= |calls| && RightMode(s)
    ensures RightMode(After(s, calls, k))
  {
    hide PriosOk, Apply, RightMode;
    if k > 0 {
      RunKeepsMode(s, calls, k - 1);
      RunKeepsOk(s, calls, k - 1);
      ApplyKeepsMode(After(s, calls, k - 1), calls[k - 1]);
    }
  }

  // ---------- Where tasks go on ----------

  /** A task goes on where it was, and behind its instruction if it has made a system call. */
  lemma ContextStep(s: Snapshot, call: Call, t: nat)
    requires KernelOk(s) && Allowed(s, call) && t < |s.tasks| && !Refills(s, call, t)
    ensures var (pc, sp) := Context(s, t);
      Context(Apply(s, call), t) == (if t == s.cur && call.IsEcall() then pc + 4 else pc, sp)
  {
    HandledIs(s, call);
    TouchedKeeps(s, call, t);
    var at := Rescheduled(s, call);
    var s1 := (if call.IsEcall() then s.AfterEcall() else s).(tasks := Touched(s, call));
    hide Handled, Touched, Rescheduled, Snapshot.Scheduled, Allowed, Refills, PriosOk;
    if at.Some? { ContextsKept(s1, at.value, t); }
  }

  /** A new task starts at the task runner with its stack, at once or when its turn comes. */
  lemma SpawnStarts(s: Snapshot, task: Task, clock: Clock)
    requires KernelOk(s) && s.cur != 0 && IsNew(task)
    ensures var r, slot := Apply(s, Spawn(task, clock)), DeadSlot(s.tasks, 0);
      slot < |r.tasks| && Context(r, slot) == (task.ra, task.sp) && r.tasks[slot].Runnable() && slot != s.cur
  {
    var call := Spawn(task, clock);
    HandledIs(s, call);
    var slot, at := DeadSlot(s.tasks, 0), Rescheduled(s, call);
    var s1 := s.AfterEcall().(tasks := WithNew(s.tasks, task));
    hide Handled, Rescheduled, Snapshot.Scheduled, PriosOk, DeadSlot;
    if at.Some? {
      ContextsKept(s1, at.value, slot);
      ScheduledFate(s1, at.value, slot);
    }
  }

  // ---------- Time ----------

  function Billed(tasks: Tasks): int {
    if tasks == [] then 0 else Billed(tasks[..|tasks| - 1]) + tasks[|tasks| - 1].runTicks
  }

  lemma {:induction false} BilledUpdate(tasks: Tasks, t: nat, task: Task)
    requires t < |tasks|
    ensures Billed(tasks[t := task]) == Billed(tasks) - tasks[t].runTicks + task.runTicks
    decreases |tasks|
  {
    var n := |tasks| - 1;
    if t < n {
      assert tasks[t := task][..n] == tasks[..n][t := task];
      BilledUpdate(tasks[..n], t, task);
    } else {
      assert tasks[t := task][..n] == tasks[..n];
    }
  }

  lemma {:induction false} BilledSame(a: Tasks, b: Tasks)
    requires |a| == |b| && forall t :: 0 <= t < |a| ==> a[t].runTicks == b[t].runTicks
    ensures Billed(a) == Billed(b)
    decreases |a|
  {
    if a != [] { BilledSame(a[..|a| - 1], b[..|b| - 1]); }
  }

  /** What `schedule` bills: all the time since the last switch, to the task that ran, unless it is dead. */
  lemma ScheduledTicks(s: Snapshot, clock: Clock)
    requires s.Valid()
    ensures var r := s.Scheduled(clock);
      && r.lastChange == (if r.cur == s.cur then s.lastChange else clock.second)
      && forall t :: 0 <= t < |s.tasks| ==>
           var billed := if t == s.cur && s.tasks[t].state != Dead then r.lastChange - s.lastChange else 0;
           r.tasks[t].runTicks == s.tasks[t].runTicks + billed
  {
    hide Pick, RunUntil;
  }

  lemma ScheduledBills(s: Snapshot, clock: Clock)
    requires s.Valid()
    ensures var r := s.Scheduled(clock);
      Billed(r.tasks) == Billed(s.tasks) + if s.tasks[s.cur].state == Dead then 0 else r.lastChange - s.lastChange
  {
    ScheduledTicks(s, clock);
    hide Snapshot.Scheduled;
    var r := s.Scheduled(clock);
    var ran := s.tasks[s.cur].(runTicks := r.tasks[s.cur].runTicks);
    BilledUpdate(s.tasks, s.cur, ran);
    BilledSame(s.tasks[s.cur := ran], r.tasks);
  }

  /** The time that nobody is billed for any more: the last turn of a task that exits, and a dead task's. */
  function Written(s: Snapshot, call: Call): int
    requires s.Valid()
  {
    match call
    case Exit(clock) => clock.second - s.lastChange
    case Spawn(_, _) => TicksOfDead(s.tasks)
    case BootSpawn(_, _) => TicksOfDead(s.tasks)
    case _ => 0
  }

  function TicksOfDead(tasks: Tasks): int {
    var slot := DeadSlot(tasks, 0);
    if slot < |tasks| then tasks[slot].runTicks else 0
  }

  lemma TouchedBills(s: Snapshot, call: Call)
    requires KernelOk(s) && Allowed(s, call)
    ensures Billed(Touched(s, call)) == Billed(s.tasks) - if call.Exit? then 0 else Written(s, call)
  {
    hide WakeMany, DeadSlot, AnyAbove, RunnableAbove, Sleepers, Billed;
    if call.Spawn? || call.BootSpawn? {
      NewBills(s.tasks, call.task);
    } else {
      forall t | 0 <= t < |s.tasks| ensures Touched(s, call)[t].runTicks == s.tasks[t].runTicks {
        TouchedKeeps(s, call, t);
      }
      BilledSame(Touched(s, call), s.tasks);
    }
  }

  lemma NewBills(tasks: Tasks, task: Task)
    requires IsNew(task)
    ensures Billed(WithNew(tasks, task)) == Billed(tasks) - TicksOfDead(tasks)
  {
    var slot := DeadSlot(tasks, 0);
    if slot < |tasks| {
      BilledUpdate(tasks, slot, task);
    } else {
      assert (tasks + [task])[..|tasks|] == tasks;
    }
  }

  /** Every trap keeps the books: what is billed is the time up to the last switch, but for what is written off. */
  lemma TicksStep(s: Snapshot, call: Call)
    requires KernelOk(s) && Allowed(s, call)
    ensures var r := Apply(s, call);
      Billed(r.tasks) - r.lastChange == Billed(s.tasks) - s.lastChange - Written(s, call)
  {
    HandledIs(s, call);
    TouchedBills(s, call);
    AliveUnlessExit(s, call);
    var at, h := Rescheduled(s, call), Handled(s, call);
    var s1 := (if call.IsEcall() then s.AfterEcall() else s).(tasks := Touched(s, call));
    if call.Exit? {
      ExitIsFinal(s, call.clock);
      ExitSchedules(s, call);
    }
    hide Handled, Touched, Rescheduled, Snapshot.Scheduled, Allowed, PriosOk, Billed;
    if at.Some? {
      ScheduledBills(s1, at.value);
      ScheduledTicks(s1, at.value);
    }
    BilledUpdate(h.tasks, s.cur, h.tasks[s.cur].(a0 := ResultOf(call)));
  }

  lemma AliveUnlessExit(s: Snapshot, call: Call)
    requires KernelOk(s) && Allowed(s, call)
    ensures Touched(s, call)[s.cur].state == Dead <==> call.Exit?
  {
    hide WakeMany, DeadSlot, AnyAbove, RunnableAbove, Sleepers;
    if call.FutexWake? { WakesOnlySleepers(s.tasks, call.addr, call.n, s.cur); }
  }

  lemma ExitSchedules(s: Snapshot, call: Call)
    requires s.Valid() && call.Exit?
    ensures Rescheduled(s, call) == Some(call.clock)
  {}

  /** In every run in which nobody exits or is spawned, all the time between switches is billed, once. */
  lemma {:induction false} RunTicks(s: Snapshot, calls: seq<Call>, k: nat)
    requires IsRun(s, calls) && k <= |calls|
    requires forall j :: 0 <= j < k ==> !calls[j].Exit? && !calls[j].Spawn? && !calls[j].BootSpawn?
    ensures var r := After(s, calls, k); Billed(r.tasks) - Billed(s.tasks) == r.lastChange - s.lastChange
  {
    hide PriosOk, Apply, Billed;
    if k > 0 {
      RunTicks(s, calls, k - 1);
      RunKeepsOk(s, calls, k - 1);
      TicksStep(After(s, calls, k - 1), calls[k - 1]);
    }
  }

  // ---------- No interference without a reason ----------

  /**
   * The timer is set a second ahead, unless a more important task wakes up before that, or one that is
   * equally important may want its turn: then a slot ahead, which is 1/120 of a second.
   */
  lemma TimerIsNeeded(s: Snapshot, clock: Clock)
    requires s.Valid()
    ensures var r, now := s.Scheduled(clock), clock.second;
      || r.mtimecmp == now + MTIME_HZ
      || exists t :: 0 <= t < |r.tasks| && t != r.cur
           && ((r.tasks[t].prio > r.tasks[r.cur].prio && r.tasks[t].state.Sleeping?
                && r.mtimecmp == r.tasks[t].state.until)
               || (r.tasks[t].prio == r.tasks[r.cur].prio && (r.tasks[t].Runnable() || r.tasks[t].state.Sleeping?)
                   && r.mtimecmp == now + MTIME_HZ / 120))
  {
    ScheduledTable(s, clock);
    ScheduledIsTop(s, clock);
    var awake, r := AllAwake(s.Saved(), clock.first), s.Scheduled(clock);
    hide RunUntil, Pick, Snapshot.Scheduled;
    RunUntilIsEarliest(awake, r.cur, clock.second, |awake|);
    if t :| 0 <= t < |awake| && t != r.cur && Limit(awake[t], awake[r.cur].prio, clock.second) == Some(r.mtimecmp) {
      assert r.tasks[t].state == awake[t].state && r.tasks[t].prio == awake[t].prio;
      assert r.tasks[t].Runnable() ==> r.tasks[t].prio <= r.tasks[r.cur].prio;
    }
  }

  /** If somebody who can run is more important than the current task, `schedule` switches to somebody who is. */
  lemma SwitchesUp(s: Snapshot, clock: Clock, t: nat)
    requires s.Valid() && t < |s.tasks| && s.tasks[t].Runnable()
    ensures var r := s.Scheduled(clock); r.tasks[r.cur].prio >= s.tasks[t].prio
    ensures s.Scheduled(clock).tasks[s.cur].prio == s.tasks[s.cur].prio
  {
    ScheduledTable(s, clock);
    ScheduledIsTop(s, clock);
    hide Pick, RunUntil, Snapshot.Scheduled;
    var awake, r := AllAwake(s.Saved(), clock.first), s.Scheduled(clock);
    assert r.tasks[t].Runnable() && r.tasks[t].prio == s.tasks[t].prio by { assert awake[t].Runnable(); }
  }

  /** A trap that is none of its business takes the machine from the current task only for a more important one. */
  lemma PreemptsForBetter(s: Snapshot, call: Call)
    requires KernelOk(s) && Allowed(s, call)
    requires call.Device? || call.FutexWake? || call.Spawn? || call.BootSpawn?
    ensures var r := Apply(s, call); r.cur != s.cur ==> r.tasks[r.cur].prio > s.tasks[s.cur].prio
  {
    HandledIs(s, call);
    var at, touched := Rescheduled(s, call), Touched(s, call);
    if at.Some? {
      var t := WhoPreempts(s, call);
      var s1 := (if call.IsEcall() then s.AfterEcall() else s).(tasks := touched);
      hide Handled, Touched, Rescheduled, Snapshot.Scheduled, Allowed, PriosOk;
      SwitchesUp(s1, at.value, t);
    }
  }

  lemma WhoPreempts(s: Snapshot, call: Call) returns (t: nat)
    requires KernelOk(s) && Allowed(s, call) && Rescheduled(s, call).Some?
    requires call.Device? || call.FutexWake? || call.Spawn? || call.BootSpawn?
    ensures t < |Touched(s, call)| && Touched(s, call)[t].Runnable() && Touched(s, call)[t].prio > s.tasks[s.cur].prio
  {
    hide WakeMany, DeadSlot, AnyAbove, Sleepers;
    match call
    case Device(state, clock) =>
      AnyAboveIs(s.tasks, state, s.tasks[s.cur].prio, |s.tasks|);
      t :| 0 <= t < |s.tasks| && s.tasks[t].state == state && s.tasks[t].prio > s.tasks[s.cur].prio;
    case FutexWake(addr, n, clock) =>
      var after := WakeMany(s.tasks, addr, n).0;
      t :| 0 <= t < |after| && after[t] != s.tasks[t] && after[t].prio > s.tasks[s.cur].prio;
      WakesOnlySleepers(s.tasks, addr, n, t);
    case Spawn(task, _) => t := DeadSlot(s.tasks, 0);
    case BootSpawn(task, _) => t := DeadSlot(s.tasks, 0);
  }
}

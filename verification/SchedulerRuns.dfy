/** What the scheduler guarantees over every sequence of traps: the idle task, sleepers and dead tasks. */
module SchedulerRuns {
  import opened Wrappers
  import opened SchedulerSpec
  import opened Scheduler
  import opened SchedulerTheorems

  // ---------- Runs ----------

  /** The idle task can always run, and the current task can. */
  ghost predicate KernelOk(s: Snapshot) {
    && s.Valid() && PriosOk(s.tasks) && s.tasks[0].Runnable() && s.tasks[s.cur].Runnable()
  }

  /** States in which a task waits for a device. */
  predicate IsWait(state: TaskState) { state.WaitingForVSync? || state.WaitingForInputDev? || state.WaitingForDma? }

  predicate IsNew(task: Task) { task.Runnable() && PRIO_MIN <= task.prio <= 0x7fff_ffff && task.runTicks == 0 }

  /** Every task that is spawned is of this kind, so that the runs below include all spawns there are. */
  lemma SpawnsNew(task: Task, ty: TaskType, prio: int, stack: (nat, nat))
    requires IsFresh(task, ty, prio, stack) && PRIO_MIN <= prio <= 0x7fff_ffff
    ensures IsNew(task)
    ensures stack.1 >= BANKED_REGISTER_LEN && IsFresh(NewTask(ty, prio, stack), ty, prio, stack)
  {}

  /** Traps as they happen: the idle task makes no system calls. */
  predicate Allowed(s: Snapshot, call: Call) {
    && (call.IsEcall() ==> s.cur != 0)
    && match call
       case Device(state, _) => IsWait(state)
       case WaitFor(state, _) => IsWait(state)
       case Spawn(task, _) => IsNew(task)
       case BootSpawn(task, _) => IsNew(task)
       case _ => true
  }

  /** The state after the first `k` traps. */
  function After(s: Snapshot, calls: seq<Call>, k: nat): (r: Snapshot)
    requires s.Valid() && k <= |calls|
    ensures r.Valid() && |r.tasks| >= |s.tasks|
  {
    if k == 0 then s else Apply(After(s, calls, k - 1), calls[k - 1])
  }

  ghost predicate IsRun(s: Snapshot, calls: seq<Call>) {
    KernelOk(s) && forall k :: 0 <= k < |calls| ==> Allowed(After(s, calls, k), calls[k])
  }

  // ---------- One trap ----------

  /** The part of a task that decides whether it sleeps, and how its sleep ends. */
  function Fate(t: Task): (TaskState, Option<SysError>, int) { (t.state, t.a0, t.prio) }

  /** `schedule` changes no task but those whose time has come. */
  lemma ScheduledFate(s: Snapshot, clock: Clock, t: nat)
    requires s.Valid() && t < |s.tasks|
    ensures Fate(s.Scheduled(clock).tasks[t]) == Fate(Awake(s.tasks[t], clock.first))
  {
    ScheduledTable(s, clock);
    hide Pick, RunUntil;
  }

  lemma ScheduledIsOk(s: Snapshot, clock: Clock)
    requires s.Valid() && PriosOk(s.tasks) && s.tasks[0].Runnable()
    ensures KernelOk(s.Scheduled(clock))
  {
    ScheduledIsTop(s, clock);
    forall t | 0 <= t < |s.tasks| ensures Fate(s.Scheduled(clock).tasks[t]) == Fate(Awake(s.tasks[t], clock.first)) {
      ScheduledFate(s, clock, t);
    }
    hide Pick, RunUntil;
  }

  /** The task table when the trap has done its own part, before `schedule` looks at it. */
  function Touched(s: Snapshot, call: Call): (r: Tasks)
    requires s.Valid()
    ensures |r| >= |s.tasks|
  {
    match call
    case Timer(_) => s.tasks
    case Device(state, _) => AllWoken(s.tasks, state)
    case BootSpawn(task, _) => WithNew(s.tasks, task)
    case Sleep(ticks, now, _) => AsleepAt(s, NO_FUTEX, ticks, now)
    case FutexWait(addr, equal, ticks, now, _) => if equal then AsleepAt(s, addr, ticks, now) else s.tasks
    case FutexWake(addr, n, _) => WakeMany(s.tasks, addr, n).0
    case WaitFor(state, _) => s.WithState(state).tasks
    case Spawn(task, _) => WithNew(s.tasks, task)
    case Exit(_) => s.tasks[s.cur := s.tasks[s.cur].(state := Dead, prio := PRIO_MIN)]
    case Other(_) => s.tasks
  }

  function Deadline(ticks: nat, now: nat): nat { if now + ticks > U64_MAX then U64_MAX else now + ticks }

  function AsleepAt(s: Snapshot, addr: nat, ticks: nat, now: nat): Tasks
    requires s.Valid()
  {
    if ticks == 0 then s.tasks else s.WithState(Sleeping(Deadline(ticks, now), addr)).tasks
  }

  function WithNew(tasks: Tasks, task: Task): Tasks {
    var slot := DeadSlot(tasks, 0);
    if slot < |tasks| then tasks[slot := task] else tasks + [task]
  }

  /** The readings of the clock with which the trap ran `schedule`, if it did. */
  function Rescheduled(s: Snapshot, call: Call): Option<Clock>
    requires s.Valid()
  {
    match call
    case Timer(clock) => Some(clock)
    case Device(state, clock) => if AnyAbove(s.tasks, state, s.tasks[s.cur].prio, |s.tasks|) then Some(clock) else None
    case BootSpawn(task, clock) => if Preempts(s, task) then Some(clock) else None
    case Sleep(_, _, clock) => Some(clock)
    case FutexWait(_, equal, ticks, _, clock) => if equal && ticks > 0 then Some(clock) else None
    case FutexWake(addr, n, clock) =>
      if RunnableAbove(WakeMany(s.tasks, addr, n).0, s.tasks, s.tasks[s.cur].prio) then Some(clock) else None
    case WaitFor(_, clock) => Some(clock)
    case Spawn(task, clock) => if Preempts(s, task) then Some(clock) else None
    case Exit(clock) => Some(clock)
    case Other(_) => None
  }

  predicate Preempts(s: Snapshot, task: Task)
    requires s.Valid()
  {
    DeadSlot(s.tasks, 0) == |s.tasks| && s.tasks[s.cur].prio < task.prio
  }

  function Finish(s: Snapshot, ecall: bool, touched: Tasks, at: Option<Clock>): (r: Snapshot)
    requires s.cur < |touched|
    ensures r.Valid() && |r.tasks| == |touched|
  {
    var s1 := (if ecall then s.AfterEcall() else s).(tasks := touched);
    if at.Some? then s1.Scheduled(at.value) else s1
  }

  /** Every trap does its own part, and then runs `schedule` or not. */
  lemma HandledIs(s: Snapshot, call: Call)
    requires s.Valid()
    ensures Handled(s, call) == Finish(s, call.IsEcall(), Touched(s, call), Rescheduled(s, call))
  {
    hide Snapshot.Scheduled, DeadSlot, AnyAbove, RunnableAbove, AllWoken, WakeMany;
    if call.FutexWake? && call.n == 0 { NobodyWoken(s, call.addr); }
  }

  lemma NobodyWoken(s: Snapshot, addr: nat)
    requires s.Valid()
    ensures WakeMany(s.tasks, addr, 0).0 == s.tasks && !RunnableAbove(s.tasks, s.tasks, s.tasks[s.cur].prio)
  {}

  /** What a trap does to a task, but for the result register of the caller. */
  lemma HandledFate(s: Snapshot, call: Call, t: nat)
    requires s.Valid() && t < |Touched(s, call)|
    ensures |Handled(s, call).tasks| == |Touched(s, call)|
    ensures var touched, at := Touched(s, call)[t], Rescheduled(s, call);
      Fate(Handled(s, call).tasks[t]) == Fate(if at.Some? then Awake(touched, at.value.first) else touched)
  {
    HandledIs(s, call);
    var at := Rescheduled(s, call);
    var s1 := (if call.IsEcall() then s.AfterEcall() else s).(tasks := Touched(s, call));
    hide Handled, Touched, Rescheduled, Snapshot.Scheduled;
    if at.Some? { ScheduledFate(s1, at.value, t); }
  }

  // ---------- The idle task ----------

  lemma TouchedIsOk(s: Snapshot, call: Call)
    requires KernelOk(s) && Allowed(s, call)
    ensures PriosOk(Touched(s, call)) && Touched(s, call)[0].Runnable()
    ensures Rescheduled(s, call).None? ==> Touched(s, call)[s.cur].Runnable()
  {
    hide WakeMany, DeadSlot, AnyAbove, RunnableAbove, Sleepers;
    if call.FutexWake? { WakesBest(s.tasks, call.addr, call.n); }
  }

  /** Every trap leaves task 0 runnable and a runnable task current: the premise of `ScheduledIsTop`. */
  lemma ApplyKeepsOk(s: Snapshot, call: Call)
    requires KernelOk(s) && Allowed(s, call)
    ensures KernelOk(Apply(s, call))
  {
    TouchedIsOk(s, call);
    HandledIs(s, call);
    var at, touched := Rescheduled(s, call), Touched(s, call);
    var s1 := (if call.IsEcall() then s.AfterEcall() else s).(tasks := touched);
    hide Handled, Touched, Rescheduled, Snapshot.Scheduled, Allowed;
    if at.Some? { ScheduledIsOk(s1, at.value); }
  }

  /** So it is in every run: the idle task stays runnable, and the current task always is. */
  lemma {:induction false} RunKeepsOk(s: Snapshot, calls: seq<Call>, k: nat)
    requires IsRun(s, calls) && k <= |calls|
    ensures KernelOk(After(s, calls, k))
  {
    hide PriosOk, Apply;
    if k > 0 {
      RunKeepsOk(s, calls, k - 1);
      ApplyKeepsOk(After(s, calls, k - 1), calls[k - 1]);
    }
  }

  /** One trap of a run. */
  lemma RunStep(s: Snapshot, calls: seq<Call>, k: nat)
    requires IsRun(s, calls) && k < |calls|
    ensures KernelOk(After(s, calls, k)) && Allowed(After(s, calls, k), calls[k])
    ensures After(s, calls, k + 1) == Apply(After(s, calls, k), calls[k]) && s.Valid()
  {
    RunKeepsOk(s, calls, k);
  }

  // ---------- Sleepers ----------

  /** The task is asleep, and will find `result` if it is woken by somebody. */
  predicate Asleep(s: Snapshot, t: nat, until: nat, addr: nat, result: Option<SysError>) {
    t < |s.tasks| && s.tasks[t].state == Sleeping(until, addr) && s.tasks[t].a0 == result
  }

  /** The task waits for its turn, with this result. */
  predicate Awoken(s: Snapshot, t: nat, result: Option<SysError>) {
    t < |s.tasks| && s.tasks[t].Runnable() && s.tasks[t].a0 == result
  }

  /** The trap wakes this sleeper. */
  predicate WokenBy(s: Snapshot, call: Call, t: nat) {
    call.FutexWake? && t < |s.tasks| && WakeMany(s.tasks, call.addr, call.n).0[t].state != s.tasks[t].state
  }

  /** The trap runs `schedule` when the time has come. */
  predicate TimeOver(s: Snapshot, call: Call, until: nat)
    requires s.Valid()
  {
    Rescheduled(s, call).Some? && Rescheduled(s, call).value.first >= until
  }

  lemma WakesOnlySleepers(tasks: Tasks, addr: nat, n: nat, t: nat)
    requires PriosOk(tasks) && t < |tasks|
    ensures var after := WakeMany(tasks, addr, n).0; after[t] == tasks[t] || Woken(tasks, after, addr, t)
  {
    WakesBest(tasks, addr, n);
  }

  /** The trap itself changes nobody but the current task, those it wakes, and a slot that was dead. */
  lemma TouchedOther(s: Snapshot, call: Call, t: nat)
    requires KernelOk(s) && Allowed(s, call) && t < |s.tasks| && t != s.cur
    requires s.tasks[t].state.Sleeping? || s.tasks[t].Runnable()
    ensures Touched(s, call)[t] == if WokenBy(s, call, t) then s.tasks[t].(state := Running) else s.tasks[t]
    ensures WokenBy(s, call, t) ==> s.tasks[t].SleepsOn(call.addr)
  {
    hide WakeMany, DeadSlot, AnyAbove, RunnableAbove, Sleepers;
    if call.FutexWake? {
      WakesOnlySleepers(s.tasks, call.addr, call.n, t);
    }
  }

  lemma ApplyOther(s: Snapshot, call: Call, t: nat)
    requires s.Valid() && t < |s.tasks| && t != s.cur
    ensures var touched, at := Touched(s, call)[t], Rescheduled(s, call);
      Fate(Apply(s, call).tasks[t]) == Fate(if at.Some? then Awake(touched, at.value.first) else touched)
  {
    HandledFate(s, call, t);
    hide Handled, Touched, Rescheduled;
  }

  /**
   * A trap leaves a sleeper asleep unless it wakes it, or runs `schedule` when its time has come;
   * only then the sleeper gets a timeout.
   */
  lemma SleeperStep(s: Snapshot, call: Call, t: nat, until: nat, addr: nat, result: Option<SysError>)
    requires KernelOk(s) && Allowed(s, call) && Asleep(s, t, until, addr, result)
    ensures
      if WokenBy(s, call, t) then Awoken(Apply(s, call), t, result)
      else if TimeOver(s, call, until) then Awoken(Apply(s, call), t, Some(Timeout))
      else Asleep(Apply(s, call), t, until, addr, result)
    ensures WokenBy(s, call, t) ==> call.addr == addr
  {
    TouchedOther(s, call, t);
    ApplyOther(s, call, t);
    hide WokenBy, Touched, Apply, Rescheduled, PriosOk, Allowed;
  }

  /** A runnable task that is not current stays so until its turn, with the same result. */
  lemma AwokenStep(s: Snapshot, call: Call, t: nat, result: Option<SysError>)
    requires KernelOk(s) && Allowed(s, call) && Awoken(s, t, result) && t != s.cur
    ensures Awoken(Apply(s, call), t, result)
  {
    TouchedOther(s, call, t);
    ApplyOther(s, call, t);
    hide WokenBy, Touched, Apply, Rescheduled, PriosOk, Allowed;
  }

  /** The task has slept through the first `k` traps. */
  predicate Slept(s: Snapshot, calls: seq<Call>, k: nat, t: nat, until: nat, addr: nat, result: Option<SysError>)
    requires s.Valid() && k <= |calls|
  {
    forall j :: 0 <= j <= k ==> Asleep(After(s, calls, j), t, until, addr, result)
  }

  /** It has waited for its turn since trap `i`. */
  predicate Waited(s: Snapshot, calls: seq<Call>, i: nat, k: nat, t: nat, result: Option<SysError>)
    requires s.Valid() && k <= |calls|
  {
    forall j :: i < j <= k ==> Awoken(After(s, calls, j), t, result)
  }

  /** Trap `i` ends the sleep: somebody wakes the task. */
  predicate EndsBy(s: Snapshot, calls: seq<Call>, i: nat, t: nat, until: nat, addr: nat, result: Option<SysError>)
    requires s.Valid() && i < |calls|
  {
    Slept(s, calls, i, t, until, addr, result) && WokenBy(After(s, calls, i), calls[i], t)
  }

  /** Trap `i` ends the sleep: nobody wakes the task, but its time is over. */
  predicate EndsInTime(s: Snapshot, calls: seq<Call>, i: nat, t: nat, until: nat, addr: nat, result: Option<SysError>)
    requires s.Valid() && i < |calls|
  {
    && Slept(s, calls, i, t, until, addr, result)
    && !WokenBy(After(s, calls, i), calls[i], t) && TimeOver(After(s, calls, i), calls[i], until)
  }

  /** How a sleep goes on: still asleep, or ended at trap `i` and waiting with the right result since then. */
  datatype SleepEnd = NotYet | ByFutex(i: nat) | ByTime(i: nat)

  predicate EndsAs(s: Snapshot, calls: seq<Call>, k: nat, t: nat,
                   until: nat, addr: nat, result: Option<SysError>, end: SleepEnd)
    requires s.Valid() && k <= |calls|
  {
    match end
    case NotYet => Slept(s, calls, k, t, until, addr, result)
    case ByFutex(i) => i < k && EndsBy(s, calls, i, t, until, addr, result) && Waited(s, calls, i, k, t, result)
    case ByTime(i) =>
      i < k && EndsInTime(s, calls, i, t, until, addr, result) && Waited(s, calls, i, k, t, Some(Timeout))
  }

  /**
   * In every run, up to when the task is current again: it sleeps on until a futex wake chooses it or
   * `schedule` runs after its time, and what it will find as its result is a timeout exactly in the
   * second case.
   */
  lemma {:induction false} SleepRun(s: Snapshot, calls: seq<Call>, k: nat, t: nat,
                                    until: nat, addr: nat, result: Option<SysError>)
    returns (end: SleepEnd)
    requires IsRun(s, calls) && k <= |calls| && Asleep(s, t, until, addr, result)
    requires forall j :: 0 <= j < k ==> After(s, calls, j).cur != t
    ensures EndsAs(s, calls, k, t, until, addr, result, end)
  {
    hide IsRun, After, Apply, WokenBy, PriosOk, Slept, Waited, Asleep, Awoken, Allowed, TimeOver;
    if k == 0 {
      end := NotYet;
      NothingYet(s, calls, t, until, addr, result);
    } else {
      end := SleepRun(s, calls, k - 1, t, until, addr, result);
      RunStep(s, calls, k - 1);
      var before, call := After(s, calls, k - 1), calls[k - 1];
      match end
      case ByFutex(i) =>
        WaitedSoFar(s, calls, i, k, t, result);
      case ByTime(i) =>
        WaitedSoFar(s, calls, i, k, t, Some(Timeout));
      case NotYet =>
        SleptIsAsleep(s, calls, k - 1, t, until, addr, result);
        SleeperStep(before, call, t, until, addr, result);
        if WokenBy(before, call, t) {
          end := ByFutex(k - 1);
          JustWaited(s, calls, k, t, result);
        } else if TimeOver(before, call, until) {
          end := ByTime(k - 1);
          JustWaited(s, calls, k, t, Some(Timeout));
        } else {
          SleptSoFar(s, calls, k, t, until, addr, result);
        }
    }
  }

  lemma NothingYet(s: Snapshot, calls: seq<Call>, t: nat, until: nat, addr: nat, result: Option<SysError>)
    requires IsRun(s, calls) && Asleep(s, t, until, addr, result)
    ensures s.Valid() && Slept(s, calls, 0, t, until, addr, result)
  {}

  lemma SleptSoFar(s: Snapshot, calls: seq<Call>, k: nat, t: nat, until: nat, addr: nat, result: Option<SysError>)
    requires s.Valid() && 0 < k <= |calls| && Asleep(After(s, calls, k), t, until, addr, result)
    requires Slept(s, calls, k - 1, t, until, addr, result)
    ensures Slept(s, calls, k, t, until, addr, result)
  {
    hide Asleep, After;
  }

  lemma SleptIsAsleep(s: Snapshot, calls: seq<Call>, k: nat, t: nat, until: nat, addr: nat, result: Option<SysError>)
    requires s.Valid() && k <= |calls| && Slept(s, calls, k, t, until, addr, result)
    ensures Asleep(After(s, calls, k), t, until, addr, result)
  {}

  lemma JustWaited(s: Snapshot, calls: seq<Call>, k: nat, t: nat, result: Option<SysError>)
    requires s.Valid() && 0 < k <= |calls| && Awoken(After(s, calls, k), t, result)
    ensures Waited(s, calls, k - 1, k, t, result)
  {
    hide Awoken, After;
  }

  lemma WaitedSoFar(s: Snapshot, calls: seq<Call>, i: nat, k: nat, t: nat, result: Option<SysError>)
    requires IsRun(s, calls) && i < k - 1 < |calls| && Waited(s, calls, i, k - 1, t, result)
    requires After(s, calls, k - 1).cur != t
    ensures Waited(s, calls, i, k, t, result)
  {
    hide IsRun, After, Apply, Awoken, PriosOk, Allowed;
    RunStep(s, calls, k - 1);
    assert Awoken(After(s, calls, k - 1), t, result);
    AwokenStep(After(s, calls, k - 1), calls[k - 1], t, result);
  }

  /**
   * When a task that had gone to sleep is current again, it finds a timeout if and only if its time was
   * over before anybody woke it, and its own result if and only if it was woken.
   */
  lemma ResumesRight(s: Snapshot, calls: seq<Call>, k: nat, t: nat, until: nat, addr: nat, result: Option<SysError>)
    requires IsRun(s, calls) && k <= |calls| && Asleep(s, t, until, addr, result) && result != Some(Timeout)
    requires After(s, calls, k).cur == t && forall j :: 0 <= j < k ==> After(s, calls, j).cur != t
    ensures After(s, calls, k).tasks[t].a0 == Some(Timeout)
      <==> exists i :: 0 <= i < k && EndsInTime(s, calls, i, t, until, addr, result)
    ensures After(s, calls, k).tasks[t].a0 == result
      <==> exists i :: 0 <= i < k && EndsBy(s, calls, i, t, until, addr, result)
  {
    hide Apply, WokenBy, PriosOk, EndsBy, EndsInTime, Allowed;
    RunKeepsOk(s, calls, k);
    var end := SleepRun(s, calls, k, t, until, addr, result);
    forall i, j | 0 <= i < k && 0 <= j < k && EndsBy(s, calls, i, t, until, addr, result)
      ensures !EndsInTime(s, calls, j, t, until, addr, result)
    {
      EndsOnce(s, calls, i, j, t, until, addr, result);
    }
  }

  lemma EndsOnce(s: Snapshot, calls: seq<Call>, i: nat, j: nat, t: nat, until: nat, addr: nat, result: Option<SysError>)
    requires IsRun(s, calls) && i < |calls| && j < |calls|
    requires EndsBy(s, calls, i, t, until, addr, result)
    ensures !EndsInTime(s, calls, j, t, until, addr, result)
  {
    hide IsRun, After, Apply, WokenBy, PriosOk, TimeOver, Allowed, KernelOk;
    RunStep(s, calls, i);
    if EndsInTime(s, calls, j, t, until, addr, result) {
      var first := if i <= j then i else j;
      RunStep(s, calls, first);
      SleeperStep(After(s, calls, first), calls[first], t, until, addr, result);
    }
  }

  /**
   * What a futex wait that has seen the expected value does to its caller: it falls asleep until the
   * deadline. If that is over by the time of the same trap, the caller does not sleep at all, and
   * returns as if somebody had woken it.
   */
  lemma FallsAsleep(s: Snapshot, addr: nat, ticks: nat, now: nat, clock: Clock)
    requires KernelOk(s) && s.cur != 0 && ticks > 0
    ensures var r, until := Apply(s, FutexWait(addr, true, ticks, now, clock)), Deadline(ticks, now);
      && until <= 0xffff_ffff_ffff_ffff
      && if clock.first < until then Asleep(r, s.cur, until, addr, None) && r.cur != s.cur
         else Awoken(r, s.cur, None)
  {
    var call := FutexWait(addr, true, ticks, now, clock);
    HandledFate(s, call, s.cur);
    ApplyKeepsOk(s, call);
    hide Handled;
  }

  /** The same for a plain sleep, whose result always is a timeout. */
  lemma SleepFallsAsleep(s: Snapshot, ticks: nat, now: nat, clock: Clock)
    requires KernelOk(s) && s.cur != 0 && ticks > 0
    ensures var r, until := Apply(s, Call.Sleep(ticks, now, clock)), Deadline(ticks, now);
      if clock.first < until then Asleep(r, s.cur, until, NO_FUTEX, Some(Timeout)) && r.cur != s.cur
      else Awoken(r, s.cur, Some(Timeout))
  {
    var call := Call.Sleep(ticks, now, clock);
    HandledFate(s, call, s.cur);
    ApplyKeepsOk(s, call);
    hide Handled;
  }

  // ---------- Waiting for a device ----------

  /** A task that waits for a device waits on until that device reports, and until then is not current. */
  lemma WaiterStep(s: Snapshot, call: Call, t: nat, state: TaskState)
    requires KernelOk(s) && Allowed(s, call) && t < |s.tasks| && s.tasks[t].state == state && IsWait(state)
    ensures var r := Apply(s, call);
      && r.tasks[t].state == (if call.Device? && call.state == state then Running else state)
      && (t != s.cur ==> r.tasks[t].a0 == s.tasks[t].a0)
  {
    ApplyOther(s, call, t);
    hide Apply, WakeMany, DeadSlot, AnyAbove, RunnableAbove, Sleepers;
    if call.FutexWake? {
      WakesOnlySleepers(s.tasks, call.addr, call.n, t);
    }
  }

  /** A task that begins to wait does wait, and will find that it had success. */
  lemma FallsWaiting(s: Snapshot, state: TaskState, clock: Clock)
    requires KernelOk(s) && s.cur != 0 && IsWait(state)
    ensures var r := Apply(s, WaitFor(state, clock));
      r.tasks[s.cur].state == state && r.tasks[s.cur].a0 == None && r.cur != s.cur
  {
    HandledFate(s, WaitFor(state, clock), s.cur);
    ApplyKeepsOk(s, WaitFor(state, clock));
    hide Handled;
  }

  // ---------- Dead tasks ----------

  /** The trap puts a new task into this slot. */
  predicate Refills(s: Snapshot, call: Call, t: nat) {
    (call.Spawn? || call.BootSpawn?) && t < |s.tasks| && DeadSlot(s.tasks, 0) == t
  }

  lemma DeadStep(s: Snapshot, call: Call, t: nat)
    requires KernelOk(s) && Allowed(s, call) && t < |s.tasks| && s.tasks[t].state == Dead
    ensures if Refills(s, call, t) then Apply(s, call).tasks[t].Runnable() else Apply(s, call).tasks[t].state == Dead
  {
    ApplyOther(s, call, t);
    hide Apply, WakeMany, DeadSlot, AnyAbove, RunnableAbove, Sleepers;
    if call.FutexWake? {
      WakesOnlySleepers(s.tasks, call.addr, call.n, t);
    }
  }

  /** A task that exits is dead and not current any more. */
  lemma ExitIsFinal(s: Snapshot, clock: Clock)
    requires KernelOk(s) && s.cur != 0
    ensures var r := Apply(s, Exit(clock));
      r.tasks[s.cur].state == Dead && r.tasks[s.cur].prio == PRIO_MIN && r.cur != s.cur
  {
    HandledFate(s, Exit(clock), s.cur);
    ApplyKeepsOk(s, Exit(clock));
    hide Handled;
  }

  /** In every run, a dead task stays dead and never is current as long as its slot is not used again. */
  lemma {:induction false} DeadRun(s: Snapshot, calls: seq<Call>, k: nat, t: nat)
    requires IsRun(s, calls) && k <= |calls| && t < |s.tasks| && s.tasks[t].state == Dead
    requires forall j :: 0 <= j < k ==> !Refills(After(s, calls, j), calls[j], t)
    ensures var r := After(s, calls, k); r.tasks[t].state == Dead && r.cur != t
  {
    hide Apply, PriosOk, Refills;
    RunKeepsOk(s, calls, k);
    if k > 0 {
      DeadRun(s, calls, k - 1, t);
      RunKeepsOk(s, calls, k - 1);
      DeadStep(After(s, calls, k - 1), calls[k - 1], t);
    }
  }

  // ---------- Who sleeps ----------

  /** Whoever sleeps after a trap slept there before and was not woken, or has just fallen asleep. */
  lemma SleepersOf(s: Snapshot, call: Call, x: nat, addr: nat)
    requires KernelOk(s) && Allowed(s, call) && x < |Apply(s, call).tasks| && Apply(s, call).tasks[x].SleepsOn(addr)
    ensures x < |s.tasks|
    ensures
      || (x != s.cur && s.tasks[x].SleepsOn(addr) && !WokenBy(s, call, x))
      || (x == s.cur && call.FutexWait? && call.equal && call.addr == addr)
      || (x == s.cur && call.Sleep? && addr == NO_FUTEX)
  {
    HandledFate(s, call, x);
    assert Touched(s, call)[x].SleepsOn(addr) by { hide Handled, Touched, Rescheduled; }
    hide Apply, WakeMany, DeadSlot, AnyAbove, RunnableAbove, Sleepers;
    if call.FutexWake? { WakesOnlySleepers(s.tasks, call.addr, call.n, x); }
  }
}

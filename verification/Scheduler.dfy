/**
 * The scheduler itself (nr32-rt/src/scheduler.rs), the traps of the kernel (nr32-rt/src/main.rs) and
 * what its trap handler does with their results (nr32-rt/src/asm.rs). Hardware registers are fields.
 * A method that reads the clock gets the readings as arguments: `schedule` reads it twice, once to
 * wake sleepers up and once for the timer.
 */
module Scheduler {
  import opened Wrappers
  import opened SchedulerSpec

  const BANKED_REGISTER_LEN: nat := 32 * 4

  /** Where every task starts. */
  const TASK_RUNNER: nat := 0

  /** The registers that decide which task a return from the trap resumes. */
  datatype Regs = Regs(mepc: nat, mscratch: nat, mpp: TaskType, mpie: bool)

  datatype Clock = Clock(first: nat, second: nat)

  /** Everything that the kernel's decisions depend on and change. */
  datatype Snapshot = Snapshot(tasks: Tasks, cur: nat, lastChange: nat, regs: Regs, mtimecmp: nat, mtie: bool) {
    predicate Valid() { cur < |tasks| }

    /** No runnable task has a higher priority than the current one. */
    ghost predicate Top()
      requires Valid()
    {
      forall t :: 0 <= t < |tasks| && tasks[t].Runnable() ==> tasks[t].prio <= tasks[cur].prio
    }

    function Saved(): Tasks
      requires Valid()
    {
      tasks[cur := tasks[cur].(ra := regs.mepc, sp := regs.mscratch)]
    }

    /** The outcome of `switch_to_task`. */
    function SwitchedTo(task: nat): Snapshot
      requires task < |tasks|
    {
      this.(cur := task, regs := Regs(tasks[task].ra, tasks[task].sp, tasks[task].ty, true))
    }

    function WithState(state: TaskState): Snapshot
      requires Valid()
    {
      this.(tasks := tasks[cur := tasks[cur].(state := state)])
    }

    /** The outcome of `schedule`. */
    function Scheduled(clock: Clock): (s: Snapshot)
      requires Valid()
      ensures s.Valid() && |s.tasks| == |tasks|
    {
      var awake := AllAwake(Saved(), clock.first);
      var next := Pick(awake, cur);
      var armed := this.(tasks := awake, mtimecmp := RunUntil(awake, next, clock.second, |awake|), mtie := true);
      if next == cur then armed
      else
        var ran := awake[cur].(runTicks := awake[cur].runTicks + clock.second - lastChange);
        var billed := if awake[cur].state == Dead then awake else awake[cur := ran];
        armed.(tasks := billed, lastChange := clock.second).SwitchedTo(next)
    }

    /** The outcome of `futex_wake`. */
    function FutexWoken(addr: nat, n: nat, clock: Clock): (s: Snapshot)
      requires Valid()
      ensures s.Valid() && |s.tasks| == |tasks|
    {
      var woken := this.(tasks := WakeMany(tasks, addr, n).0);
      if RunnableAbove(woken.tasks, tasks, tasks[cur].prio) then woken.Scheduled(clock) else woken
    }

    /** The outcome of `sleep_current_task`. */
    function Slept(addr: nat, ticks: nat, now: nat, clock: Clock): (s: Snapshot)
      requires Valid()
      ensures s.Valid() && |s.tasks| == |tasks|
    {
      if ticks == 0 then Scheduled(clock)
      else
        var until := if now + ticks > U64_MAX then U64_MAX else now + ticks;
        WithState(Sleeping(until, addr)).Scheduled(clock)
    }

    /** The outcome of `wake_up_state`. */
    function StateWoken(state: TaskState, clock: Clock): (s: Snapshot)
      requires Valid()
      ensures s.Valid() && |s.tasks| == |tasks|
    {
      var woken := this.(tasks := AllWoken(tasks, state));
      if AnyAbove(tasks, state, tasks[cur].prio, |tasks|) then woken.Scheduled(clock) else woken
    }

    /** The outcome of `spawn_task` for a task that got its stack: into a dead slot, or at the end. */
    function Spawned(task: Task, clock: Clock): (s: Snapshot)
      requires Valid()
      ensures s.Valid() && |s.tasks| >= |tasks|
    {
      var slot := DeadSlot(tasks, 0);
      if slot < |tasks| then this.(tasks := tasks[slot := task])
      else
        var longer := this.(tasks := tasks + [task]);
        if tasks[cur].prio < task.prio then longer.Scheduled(clock) else longer
    }

    /** A system call returns behind its instruction. */
    function AfterEcall(): Snapshot { this.(regs := regs.(mepc := regs.mepc + 4)) }

    /** The outcome of `exit_current_task`. */
    function Exited(clock: Clock): (s: Snapshot)
      requires Valid()
      ensures s.Valid() && |s.tasks| == |tasks|
    {
      this.(tasks := tasks[cur := tasks[cur].(state := Dead, prio := PRIO_MIN)]).Scheduled(clock)
    }
  }

  // ---------- Traps ----------

  /**
   * Everything that can enter the kernel: the timer, a device whose waiters are in some state, a task
   * started by the boot script, and the system calls of the current task. A futex wait has compared
   * the word at the address already; `Other` is a call that leaves the scheduler alone.
   */
  datatype Call =
    | Timer(clock: Clock)
    | Device(state: TaskState, clock: Clock)
    | BootSpawn(task: Task, clock: Clock)
    | Sleep(ticks: nat, now: nat, clock: Clock)
    | FutexWait(addr: nat, equal: bool, ticks: nat, now: nat, clock: Clock)
    | FutexWake(addr: nat, n: nat, clock: Clock)
    | WaitFor(state: TaskState, clock: Clock)
    | Spawn(task: Task, clock: Clock)
    | Exit(clock: Clock)
    | Other(result: Option<SysError>)
  {
    predicate IsEcall() { !Timer? && !Device? && !BootSpawn? }
  }

  /** The futex address of a plain sleep. */
  const NO_FUTEX: nat := 0xffff_ffff

  /** The state after the trap, but for the result register of a system call. */
  function Handled(s: Snapshot, call: Call): (r: Snapshot)
    requires s.Valid()
    ensures r.Valid() && |r.tasks| >= |s.tasks|
  {
    match call
    case Timer(clock) => s.Scheduled(clock)
    case Device(state, clock) => s.StateWoken(state, clock)
    case BootSpawn(task, clock) => s.Spawned(task, clock)
    case Sleep(ticks, now, clock) => s.AfterEcall().Slept(NO_FUTEX, ticks, now, clock)
    case FutexWait(addr, equal, ticks, now, clock) =>
      if equal && ticks > 0 then s.AfterEcall().Slept(addr, ticks, now, clock) else s.AfterEcall()
    case FutexWake(addr, n, clock) =>
      if n == 0 then s.AfterEcall() else s.AfterEcall().FutexWoken(addr, n, clock)
    case WaitFor(state, clock) => s.AfterEcall().WithState(state).Scheduled(clock)
    case Spawn(task, clock) => s.AfterEcall().Spawned(task, clock)
    case Exit(clock) => s.AfterEcall().Exited(clock)
    case Other(_) => s.AfterEcall()
  }

  /** The error that the caller of a system call gets, if any; a sleep always ends with a timeout. */
  function ResultOf(call: Call): Option<SysError> {
    match call
    case Sleep(_, _, _) => Some(Timeout)
    case FutexWait(_, equal, _, _, _) => if equal then None else Some(Again)
    case FutexWake(_, n, _) => if n == 0 then Some(Invalid) else None
    case Other(result) => result
    case _ => None
  }

  /**
   * The state after a trap. The result goes into the register of the caller: at once if it runs on,
   * into its banked registers, over what the scheduler has put there, if another task is next.
   */
  function Apply(s: Snapshot, call: Call): (r: Snapshot)
    requires s.Valid()
    ensures r.Valid() && |r.tasks| >= |s.tasks|
  {
    var h := Handled(s, call);
    if call.IsEcall() && !call.Exit? then h.(tasks := h.tasks[s.cur := h.tasks[s.cur].(a0 := ResultOf(call))]) else h
  }

  /** Some task of at least this priority plus one became runnable. */
  predicate RunnableAbove(after: Tasks, before: Tasks, prio: int)
    requires |after| == |before|
  {
    exists t :: 0 <= t < |after| && after[t] != before[t] && after[t].prio > prio
  }

  function Woke(t: Task, state: TaskState): Task { if t.state == state then t.(state := Running) else t }

  /** All tasks in this state run again. */
  function AllWoken(tasks: Tasks, state: TaskState): (r: Tasks)
    ensures |r| == |tasks|
  {
    seq(|tasks|, i requires 0 <= i < |tasks| => Woke(tasks[i], state))
  }

  /** Some of the first `n` tasks in this state has a higher priority. */
  predicate AnyAbove(tasks: Tasks, state: TaskState, prio: int, n: nat)
    requires n <= |tasks|
  {
    n > 0 && (AnyAbove(tasks, state, prio, n - 1) || (tasks[n - 1].state == state && tasks[n - 1].prio > prio))
  }

  /** The first dead task from `i` on, or the end of the table. */
  function DeadSlot(tasks: Tasks, i: nat): (d: nat)
    requires i <= |tasks|
    ensures i <= d <= |tasks| && (d < |tasks| ==> tasks[d].state == Dead)
    ensures forall k :: i <= k < d ==> tasks[k].state != Dead
    decreases |tasks| - i
  {
    if i == |tasks| || tasks[i].state == Dead then i else DeadSlot(tasks, i + 1)
  }

  class Kernel {
    var tasks: Tasks
    var curTask: nat
    var lastTaskChange: nat
    var mepc: nat
    var mscratch: nat
    var mpp: TaskType
    var mpie: bool
    var mtimecmp: nat
    var mtie: bool

    ghost function Now(): Snapshot
      reads this
    {
      Snapshot(tasks, curTask, lastTaskChange, Regs(mepc, mscratch, mpp, mpie), mtimecmp, mtie)
    }

    /** `start`: the idle task alone. */
    constructor (stack: (nat, nat))
      requires stack.1 >= BANKED_REGISTER_LEN
      ensures Now().Valid() && |tasks| == 1 && curTask == 0
      ensures tasks[0].Runnable() && tasks[0].prio == PRIO_MIN && tasks[0].ty == System
      ensures mepc == TASK_RUNNER && mscratch + 32 * 4 == stack.1 && mpp == System && mpie
    {
      var idle := NewTask(System, PRIO_MIN, stack);
      tasks, curTask, lastTaskChange := [idle], 0, 0;
      mepc, mscratch, mpp, mpie := idle.ra, idle.sp, idle.ty, true;
      mtimecmp, mtie := U64_MAX, false;
    }

    /** `maybe_wake_up_tasks`. */
    method MaybeWakeUpTasks(now: nat)
      modifies this`tasks
      ensures tasks == AllAwake(old(tasks), now)
    {
      for i := 0 to |tasks|
        invariant |tasks| == |old(tasks)|
        invariant forall k :: 0 <= k < |tasks| ==>
          tasks[k] == if k < i then Awake(old(tasks)[k], now) else old(tasks)[k]
      {
        var t := tasks[i];
        if t.state.Sleeping? {
          if now >= t.state.until {
            tasks := tasks[i := t.(state := Running, a0 := Some(Timeout))];
          }
        }
      }
    }

    /** The search of `schedule` for the next task. */
    method FindNext() returns (nextTask: nat)
      requires curTask < |tasks|
      ensures nextTask == Pick(tasks, curTask)
    {
      nextTask := 0;
      var task := curTask;
      ghost var k := 0;
      while true
        invariant k < |tasks| && nextTask == PickUpTo(tasks, curTask, k)
        invariant task == if k == 0 then curTask else Visit(curTask, k, |tasks|)
        decreases |tasks| - k
      {
        task := task + 1;
        if task >= |tasks| {
          task := 0;
        }
        k := k + 1;
        if tasks[task].Runnable() && tasks[nextTask].prio < tasks[task].prio {
          nextTask := task;
        }
        if task == curTask {
          break;
        }
      }
    }

    /** The part of `schedule` that computes when the timer has to fire. */
    method TimerFor(nextTask: nat, now: nat) returns (runUntil: nat)
      requires nextTask < |tasks|
      ensures runUntil == RunUntil(tasks, nextTask, now, |tasks|)
    {
      runUntil := now + MTIME_HZ;
      var nextPrio := tasks[nextTask].prio;
      var contentionUntil := now + TASK_SLOT;
      for tid := 0 to |tasks|
        invariant runUntil == RunUntil(tasks, nextTask, now, tid)
      {
        var t := tasks[tid];
        if tid != nextTask && t.prio >= nextPrio {
          match t.state {
            case Running =>
              runUntil := Min(runUntil, contentionUntil);
            case Sleeping(until, _) =>
              runUntil := if t.prio > nextPrio then Min(runUntil, until) else Min(runUntil, contentionUntil);
            case _ =>
          }
        }
      }
    }

    /** `switch_to_task`. */
    method SwitchToTask(task: nat)
      requires task < |tasks|
      modifies this`curTask, this`mepc, this`mscratch, this`mpp, this`mpie
      ensures Now() == old(Now()).SwitchedTo(task)
    {
      curTask := task;
      mscratch := tasks[task].sp;
      mepc := tasks[task].ra;
      mpp := tasks[task].ty;
      mpie := true;
    }

    /** `schedule`. */
    method Schedule(clock: Clock)
      requires Now().Valid()
      modifies this
      ensures Now() == old(Now()).Scheduled(clock)
    {
      hide Pick, RunUntil, AllAwake;
      tasks := tasks[curTask := tasks[curTask].(ra := mepc, sp := mscratch)];
      MaybeWakeUpTasks(clock.first);
      var nextTask := FindNext();
      var now := clock.second;
      var runUntil := TimerFor(nextTask, now);
      mtimecmp := runUntil;
      mtie := true;
      if nextTask != curTask {
        var t := tasks[curTask];
        if t.state != Dead {
          tasks := tasks[curTask := t.(runTicks := t.runTicks + now - lastTaskChange)];
        }
        lastTaskChange := now;
        SwitchToTask(nextTask);
      }
    }

    /** `futex_wake_one`. */
    method FutexWakeOne(addr: nat) returns (candidate: Option<nat>)
      modifies this`tasks
      ensures candidate == Candidate(old(tasks), addr, |old(tasks)|) && tasks == WakeOne(old(tasks), addr)
    {
      candidate := None;
      var candidatePrio := PRIO_MIN;
      for i := 0 to |tasks|
        invariant candidate == Candidate(tasks, addr, i)
        invariant candidatePrio == if candidate.Some? then tasks[candidate.value].prio else PRIO_MIN
      {
        var t := tasks[i];
        if t.state.Sleeping? {
          if t.state.futexAddr == addr && t.prio >= candidatePrio {
            candidate := Some(i);
            candidatePrio := t.prio;
          }
        }
      }
      if candidate.Some? {
        tasks := tasks[candidate.value := tasks[candidate.value].(state := Running)];
      }
    }

    /** The loop of `futex_wake`: how many were woken, and whether one of them should preempt. */
    method WakeLoop(addr: nat, nwakeup: nat, curPrio: int) returns (needsSchedule: bool, nawoken: nat)
      requires PriosOk(tasks)
      modifies this`tasks
      ensures (tasks, nawoken) == WakeMany(old(tasks), addr, nwakeup)
      ensures needsSchedule == RunnableAbove(tasks, old(tasks), curPrio)
    {
      hide Candidate, WakeOne, Sleepers, PriosOk, WokeBest, RunnableAbove;
      NobodyAbove(tasks, curPrio);
      needsSchedule, nawoken := false, 0;
      for i := 0 to nwakeup
        invariant (tasks, nawoken) == WakeMany(old(tasks), addr, i)
        invariant needsSchedule == RunnableAbove(tasks, old(tasks), curPrio)
      {
        ghost var before := tasks;
        WakesBest(old(tasks), addr, i);
        OneMoreAbove(old(tasks), before, addr, curPrio);
        var t := FutexWakeOne(addr);
        if t.None? {
          NobodyLeft(old(tasks), addr, i, nwakeup);
          return;
        }
        nawoken := nawoken + 1;
        if tasks[t.value].prio > curPrio {
          needsSchedule := true;
        }
      }
    }

    /** `futex_wake`; asking for no wake-up at all is an error. */
    method FutexWake(addr: nat, nwakeup: nat, clock: Clock) returns (r: Result<nat, SysError>)
      requires Now().Valid() && PriosOk(tasks)
      modifies this
      ensures nwakeup == 0 ==> r == Err(Invalid) && Now() == old(Now())
      ensures nwakeup > 0 ==>
        && r == Ok(Min(nwakeup, Sleepers(old(tasks), addr, |old(tasks)|)))
        && Now() == old(Now()).FutexWoken(addr, nwakeup, clock)
    {
      if nwakeup == 0 {
        return Err(Invalid);
      }
      var curPrio := tasks[curTask].prio;
      WakesBest(tasks, addr, nwakeup);
      hide WakeMany, Sleepers, RunnableAbove;
      var needsSchedule, nawoken := WakeLoop(addr, nwakeup, curPrio);
      if needsSchedule {
        Schedule(clock);
      }
      return Ok(nawoken);
    }

    /** The loop of `wake_up_state`. */
    method WakeAll(state: TaskState, curPrio: int) returns (needsSchedule: bool)
      modifies this`tasks
      ensures tasks == AllWoken(old(tasks), state)
      ensures needsSchedule == AnyAbove(old(tasks), state, curPrio, |old(tasks)|)
    {
      needsSchedule := false;
      for i := 0 to |tasks|
        invariant |tasks| == |old(tasks)|
        invariant needsSchedule == AnyAbove(old(tasks), state, curPrio, i)
        invariant forall k :: 0 <= k < |tasks| ==>
          tasks[k] == if k < i then Woke(old(tasks)[k], state) else old(tasks)[k]
      {
        var t := tasks[i];
        if t.state == state {
          if t.prio > curPrio {
            needsSchedule := true;
          }
          tasks := tasks[i := t.(state := Running)];
        }
      }
    }

    /** `wake_up_state`, without its statistics. */
    method WakeUpState(state: TaskState, clock: Clock)
      requires Now().Valid()
      modifies this
      ensures Now() == old(Now()).StateWoken(state, clock)
    {
      hide AllWoken, AnyAbove;
      var needsSchedule := WakeAll(state, tasks[curTask].prio);
      if needsSchedule {
        Schedule(clock);
      }
    }

    /** `sleep_current_task`; without ticks it only gives others a chance. */
    method SleepCurrentTask(addr: nat, ticks: nat, now: nat, clock: Clock)
      requires Now().Valid()
      modifies this
      ensures Now() == old(Now()).Slept(addr, ticks, now, clock)
    {
      if ticks > 0 {
        var until := if now + ticks > U64_MAX then U64_MAX else now + ticks;
        tasks := tasks[curTask := tasks[curTask].(state := Sleeping(until, addr))];
      }
      Schedule(clock);
    }

    /** `current_task_set_state`. */
    method CurrentTaskSetState(state: TaskState, clock: Clock)
      requires Now().Valid()
      modifies this
      ensures Now() == old(Now()).WithState(state).Scheduled(clock)
    {
      tasks := tasks[curTask := tasks[curTask].(state := state)];
      Schedule(clock);
    }

    /** `spawn_task`, given the stack that was allocated for it and its top. */
    method SpawnTask(ty: TaskType, prio: int, alloc: Option<(nat, nat)>, clock: Clock)
      returns (r: Result<nat, SysError>)
      requires Now().Valid()
      requires alloc.Some? ==> alloc.value.1 >= BANKED_REGISTER_LEN
      modifies this
      ensures alloc.None? ==> r == Err(NoMem) && Now() == old(Now())
      ensures alloc.Some? ==>
        && Now() == old(Now()).Spawned(NewTask(ty, prio, alloc.value), clock)
        && r == Ok(DeadSlot(old(tasks), 0))
        && r.value < |tasks| && IsFresh(tasks[r.value], ty, prio, alloc.value)
    {
      if alloc.None? {
        return Err(NoMem);
      }
      var newTask := NewTask(ty, prio, alloc.value);
      for i := 0 to |tasks|
        invariant DeadSlot(tasks, 0) == DeadSlot(tasks, i) && Now() == old(Now())
      {
        if tasks[i].state == Dead {
          tasks := tasks[i := newTask];
          return Ok(i);
        }
      }
      tasks := tasks + [newTask];
      if tasks[curTask].prio < prio {
        Schedule(clock);
      }
      return Ok(|tasks| - 1);
    }

    /** `exit_current_task`, which the idle task must not call. */
    method ExitCurrentTask(clock: Clock)
      requires Now().Valid() && curTask != 0
      modifies this
      ensures Now() == old(Now()).Exited(clock)
    {
      tasks := tasks[curTask := tasks[curTask].(state := Dead, prio := PRIO_MIN)];
      Schedule(clock);
    }

    /** The trap handler writes the result where the caller will find it. */
    method SaveResult(caller: nat, error: Option<SysError>)
      requires caller < |tasks|
      modifies this`tasks
      ensures Now() == old(Now()).(tasks := old(tasks)[caller := old(tasks)[caller].(a0 := error)])
    {
      tasks := tasks[caller := tasks[caller].(a0 := error)];
    }

    /** `SYS_SLEEP`. */
    method EcallSleep(ticks: nat, now: nat, clock: Clock)
      requires Now().Valid()
      modifies this
      ensures Now() == Apply(old(Now()), Sleep(ticks, now, clock))
      ensures tasks[old(curTask)].a0 == Some(Timeout)
    {
      hide Pick, RunUntil, AllAwake;
      mepc := mepc + 4;
      var caller := curTask;
      SleepCurrentTask(NO_FUTEX, ticks, now, clock);
      SaveResult(caller, Some(Timeout));
    }

    /** `SYS_FUTEX_WAIT`, where `v` is the word at the futex address. */
    method EcallFutexWait(addr: nat, v: nat, expected: nat, ticks: nat, now: nat, clock: Clock)
      returns (r: Result<nat, SysError>)
      requires Now().Valid()
      modifies this
      ensures r == if v == expected then Ok(0) else Err(Again)
      ensures Now() == Apply(old(Now()), FutexWait(addr, v == expected, ticks, now, clock))
      ensures tasks[old(curTask)].a0 == if r.Err? then Some(r.error) else None
    {
      hide Pick, RunUntil, AllAwake;
      mepc := mepc + 4;
      var caller := curTask;
      if v == expected {
        if ticks > 0 {
          SleepCurrentTask(addr, ticks, now, clock);
        }
        r := Ok(0);
      } else {
        r := Err(Again);
      }
      SaveResult(caller, if r.Err? then Some(r.error) else None);
    }

    /** `SYS_FUTEX_WAKE`. */
    method EcallFutexWake(addr: nat, nwakeup: nat, clock: Clock) returns (r: Result<nat, SysError>)
      requires Now().Valid() && PriosOk(tasks)
      modifies this
      ensures r == if nwakeup == 0 then Err(Invalid) else Ok(Min(nwakeup, Sleepers(old(tasks), addr, |old(tasks)|)))
      ensures Now() == Apply(old(Now()), Call.FutexWake(addr, nwakeup, clock))
      ensures tasks[old(curTask)].a0 == if r.Err? then Some(r.error) else None
    {
      hide WakeMany, Sleepers, RunnableAbove, PriosOk;
      mepc := mepc + 4;
      var caller := curTask;
      r := this.FutexWake(addr, nwakeup, clock);
      SaveResult(caller, if r.Err? then Some(r.error) else None);
    }

    /** `SYS_WAIT_FOR_VSYNC`, and `SYS_INPUT_DEV` and `SYS_DO_DMA` once they have started the device. */
    method EcallWaitFor(state: TaskState, clock: Clock)
      requires Now().Valid()
      modifies this
      ensures Now() == Apply(old(Now()), WaitFor(state, clock))
      ensures tasks[old(curTask)].a0 == None
    {
      hide Pick, RunUntil, AllAwake;
      mepc := mepc + 4;
      var caller := curTask;
      CurrentTaskSetState(state, clock);
      SaveResult(caller, None);
    }

    /** `SYS_SPAWN_TASK`. */
    method EcallSpawn(prio: int, alloc: Option<(nat, nat)>, clock: Clock) returns (r: Result<nat, SysError>)
      requires Now().Valid() && (alloc.Some? ==> alloc.value.1 >= BANKED_REGISTER_LEN)
      modifies this
      ensures r == if alloc.None? then Err(NoMem) else Ok(DeadSlot(old(tasks), 0))
      ensures Now() == Apply(old(Now()),
        if alloc.None? then Other(Some(NoMem)) else Spawn(NewTask(User, prio, alloc.value), clock))
      ensures tasks[old(curTask)].a0 == if r.Err? then Some(r.error) else None
      ensures r.Ok? && old(tasks[curTask].state != Dead) ==>
        r.value < |tasks| && r.value != old(curTask) && IsFresh(tasks[r.value], User, prio, alloc.value)
    {
      hide DeadSlot, Pick, RunUntil, AllAwake;
      mepc := mepc + 4;
      var caller := curTask;
      r := SpawnTask(User, prio, alloc, clock);
      SaveResult(caller, if r.Err? then Some(r.error) else None);
    }

    /** `SYS_EXIT`: nothing is written to the registers of the caller. */
    method EcallExit(clock: Clock)
      requires Now().Valid() && curTask != 0
      modifies this
      ensures Now() == Apply(old(Now()), Exit(clock))
    {
      mepc := mepc + 4;
      ExitCurrentTask(clock);
    }
  }

  /**
   * A task that has just been spawned: it can run, has the priority and type asked for, starts at the task
   * runner, and has its first registers at the top of its stack.
   */
  predicate IsFresh(t: Task, ty: TaskType, prio: int, stack: (nat, nat)) {
    && t.Runnable() && t.prio == prio && t.ty == ty && t.ra == TASK_RUNNER && t.sp + 32 * 4 == stack.1
    && t.stack == stack.0 && t.runTicks == 0 && t.a0 == None
  }

  function NewTask(ty: TaskType, prio: int, stack: (nat, nat)): Task
    requires stack.1 >= BANKED_REGISTER_LEN
  {
    Task(Running, TASK_RUNNER, stack.1 - BANKED_REGISTER_LEN, prio, ty, stack.0, 0, None)
  }

  lemma NobodyAbove(tasks: Tasks, prio: int)
    ensures !RunnableAbove(tasks, tasks, prio)
  {}

  /** What one more wake-up adds to the decision whether to preempt. */
  lemma OneMoreAbove(first: Tasks, before: Tasks, addr: nat, prio: int)
    requires WokeBest(first, before, addr) && PriosOk(before)
    ensures var c, after := Candidate(before, addr, |before|), WakeOne(before, addr);
      && |after| == |before|
      && (c.None? ==> after == before)
      && (c.Some? ==> after[c.value].prio == before[c.value].prio)
      && (c.Some? ==>
            RunnableAbove(after, first, prio) == (RunnableAbove(before, first, prio) || before[c.value].prio > prio))
  {
    CandidateIsBest(before, addr, |before|);
    hide Candidate, PriosOk;
    var c, after := Candidate(before, addr, |before|), WakeOne(before, addr);
    if c.Some? {
      assert before[c.value] == first[c.value];
      if t :| 0 <= t < |before| && before[t] != first[t] && before[t].prio > prio {
        assert after[t] != first[t];
      }
      if t :| 0 <= t < |after| && after[t] != first[t] && after[t].prio > prio {
        assert t == c.value || before[t] != first[t];
      }
    }
  }

  lemma {:induction false} NobodyLeft(tasks: Tasks, addr: nat, m: nat, n: nat)
    requires m <= n && Candidate(WakeMany(tasks, addr, m).0, addr, |tasks|).None?
    ensures WakeMany(tasks, addr, n) == WakeMany(tasks, addr, m)
  {
    if m < n { NobodyLeft(tasks, addr, m, n - 1); }
  }
}

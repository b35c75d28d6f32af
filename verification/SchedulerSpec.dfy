/**
 * What the kernel's scheduler (nr32-rt/src/scheduler.rs) decides, as functions of the task table:
 * which task runs next, until when, and whom a futex wakes.
 */
module SchedulerSpec {
  import opened Wrappers

  const PRIO_MIN: int := -0x8000_0000
  const MTIME_HZ: nat := 44_100 * 16
  const TASK_SLOT: nat := MTIME_HZ / 120
  const U64_MAX: nat := 0xffff_ffff_ffff_ffff

  datatype TaskState =
    | Dead
    | Running
    | Sleeping(until: nat, futexAddr: nat)
    | WaitingForVSync
    | WaitingForInputDev
    | WaitingForDma

  datatype TaskType = System | User

  /** A task; `a0` stands for the banked register that carries the result of a sleep. */
  datatype Task = Task(
    state: TaskState, ra: nat, sp: nat, prio: int, ty: TaskType, stack: nat, runTicks: int, a0: Option<SysError>)
  {
    predicate Runnable() { state == Running }

    predicate SleepsOn(addr: nat) { state.Sleeping? && state.futexAddr == addr }
  }

  type Tasks = seq<Task>

  // ---------- Waking sleepers up ----------

  /** A sleeper whose time has come runs again, with a timeout as its result. */
  function Awake(t: Task, now: nat): Task {
    if t.state.Sleeping? && now >= t.state.until then t.(state := Running, a0 := Some(Timeout)) else t
  }

  function AllAwake(tasks: Tasks, now: nat): (r: Tasks)
    ensures |r| == |tasks|
  {
    seq(|tasks|, i requires 0 <= i < |tasks| => Awake(tasks[i], now))
  }

  // ---------- The next task ----------

  /** The task that the search looks at in its step `k`, from the one after the current task on. */
  function Visit(cur: nat, k: nat, n: nat): (t: nat)
    requires cur < n && 1 <= k <= n
    ensures t < n
  {
    if cur + k < n then cur + k else cur + k - n
  }

  /** The step in which the search looks at task `t`. */
  function StepOf(cur: nat, t: nat, n: nat): (k: nat)
    requires cur < n && t < n
    ensures 1 <= k <= n && Visit(cur, k, n) == t
  {
    if t > cur then t - cur else t + n - cur
  }

  /** The best task after `k` steps; the idle task 0 when nothing better was seen. */
  function PickUpTo(tasks: Tasks, cur: nat, k: nat): (b: nat)
    requires cur < |tasks| && k <= |tasks|
    ensures b < |tasks|
  {
    if k == 0 then 0
    else
      var b, t := PickUpTo(tasks, cur, k - 1), Visit(cur, k, |tasks|);
      if tasks[t].Runnable() && tasks[b].prio < tasks[t].prio then t else b
  }

  function Pick(tasks: Tasks, cur: nat): (b: nat)
    requires cur < |tasks|
    ensures b < |tasks|
  {
    PickUpTo(tasks, cur, |tasks|)
  }

  /** `b` is the best of the first `k` tasks looked at, and the first of those with its priority. */
  ghost predicate FirstBest(tasks: Tasks, cur: nat, k: nat, b: nat)
    requires cur < |tasks| && k <= |tasks| && b < |tasks|
  {
    && (forall t :: 0 <= t < |tasks| && StepOf(cur, t, |tasks|) <= k && tasks[t].Runnable() ==>
          tasks[t].prio <= tasks[b].prio)
    && tasks[0].prio <= tasks[b].prio
    && (b == 0 || (tasks[b].Runnable() && tasks[0].prio < tasks[b].prio && StepOf(cur, b, |tasks|) <= k))
    && (b != 0 ==>
          forall t :: 0 <= t < |tasks| && StepOf(cur, t, |tasks|) < StepOf(cur, b, |tasks|) && tasks[t].Runnable() ==>
            tasks[t].prio < tasks[b].prio)
  }

  lemma {:induction false} PickIsFirstBest(tasks: Tasks, cur: nat, k: nat)
    requires cur < |tasks| && k <= |tasks|
    ensures FirstBest(tasks, cur, k, PickUpTo(tasks, cur, k))
  {
    if k > 0 { PickIsFirstBest(tasks, cur, k - 1); }
  }

  /**
   * `schedule` picks the first runnable task of the highest priority in cyclic order after the
   * current one, or the idle task when no runnable task has a higher priority than that.
   */
  lemma PickIsBest(tasks: Tasks, cur: nat)
    requires cur < |tasks|
    ensures var b := Pick(tasks, cur);
      && (forall t :: 0 <= t < |tasks| && tasks[t].Runnable() ==> tasks[t].prio <= tasks[b].prio)
      && (b == 0 <==> forall t :: 0 <= t < |tasks| && tasks[t].Runnable() ==> tasks[t].prio <= tasks[0].prio)
      && (b != 0 ==> tasks[b].Runnable())
      && (b != 0 ==> forall t :: 0 <= t < |tasks| && tasks[t].Runnable() && tasks[t].prio == tasks[b].prio ==>
            StepOf(cur, b, |tasks|) <= StepOf(cur, t, |tasks|))
  {
    PickIsFirstBest(tasks, cur, |tasks|);
  }

  // ---------- Until when it runs ----------

  function Min(a: nat, b: nat): nat { if a < b then a else b }

  /** How task `t` limits the time that a task of priority `prio` may run. */
  function Limit(t: Task, prio: int, now: nat): Option<nat> {
    if t.prio < prio then None
    else
      match t.state
      case Running => Some(now + TASK_SLOT)
      case Sleeping(until, _) => Some(if t.prio > prio then until else now + TASK_SLOT)
      case _ => None
  }

  /** The timer after looking at the first `n` tasks: at most a second away. */
  function RunUntil(tasks: Tasks, next: nat, now: nat, n: nat): nat
    requires next < |tasks| && n <= |tasks|
  {
    if n == 0 then now + MTIME_HZ
    else
      var before, limit := RunUntil(tasks, next, now, n - 1), Limit(tasks[n - 1], tasks[next].prio, now);
      if n - 1 == next || limit.None? then before else Min(before, limit.value)
  }

  /** The timer is set to the earliest of all limits: no later than any, and not without a reason. */
  lemma {:induction false} RunUntilIsEarliest(tasks: Tasks, next: nat, now: nat, n: nat)
    requires next < |tasks| && n <= |tasks|
    ensures var u := RunUntil(tasks, next, now, n);
      && u <= now + MTIME_HZ
      && (forall t :: 0 <= t < n && t != next && Limit(tasks[t], tasks[next].prio, now).Some? ==>
            u <= Limit(tasks[t], tasks[next].prio, now).value)
      && (u == now + MTIME_HZ
          || exists t :: 0 <= t < n && t != next && Limit(tasks[t], tasks[next].prio, now) == Some(u))
  {
    if n > 0 { RunUntilIsEarliest(tasks, next, now, n - 1); }
  }

  // ---------- Round robin ----------

  /** `ts` lists, in ascending order, the runnable tasks of the highest priority, above the idle task's. */
  ghost predicate TopsAre(tasks: Tasks, ts: seq<nat>) {
    && ts != [] && (forall i, j :: 0 <= i < j < |ts| ==> ts[i] < ts[j])
    && (forall i :: 0 <= i < |ts| ==> ts[i] < |tasks| && tasks[ts[i]].Runnable())
    && tasks[0].prio < tasks[ts[0]].prio
    && (forall i :: 0 <= i < |ts| ==> tasks[ts[i]].prio == tasks[ts[0]].prio)
    && (forall t :: 0 <= t < |tasks| && tasks[t].Runnable() ==>
          tasks[t].prio < tasks[ts[0]].prio || (t in ts && tasks[t].prio == tasks[ts[0]].prio))
  }

  /** The place in `ts` of the first member after `cur`, or of the first of all. */
  function PlaceAfter(ts: seq<nat>, cur: nat, n: nat): (m: nat)
    requires n <= |ts|
    ensures m <= n
  {
    if n == 0 then 0 else if ts[n - 1] > cur then PlaceAfter(ts, cur, n - 1) else n
  }

  function Successor(ts: seq<nat>, cur: nat): (m: nat)
    requires ts != []
    ensures m < |ts|
  {
    var m := PlaceAfter(ts, cur, |ts|);
    if m == |ts| then 0 else m
  }

  lemma {:induction false} AfterSplits(ts: seq<nat>, cur: nat, n: nat)
    requires n <= |ts| && forall i, j :: 0 <= i < j < |ts| ==> ts[i] < ts[j]
    ensures forall i :: 0 <= i < n ==> (ts[i] <= cur <==> i < PlaceAfter(ts, cur, n))
  {
    if n > 0 { AfterSplits(ts, cur, n - 1); }
  }

  lemma PickIsSuccessor(tasks: Tasks, cur: nat, ts: seq<nat>)
    requires cur < |tasks| && TopsAre(tasks, ts)
    ensures Pick(tasks, cur) == ts[Successor(ts, cur)]
  {
    PickIsBest(tasks, cur);
    AfterSplits(ts, cur, |ts|);
    var b, m := Pick(tasks, cur), Successor(ts, cur);
    assert tasks[ts[0]].Runnable();
    assert b in ts;
    var i :| 0 <= i < |ts| && ts[i] == b;
    assert StepOf(cur, b, |tasks|) <= StepOf(cur, ts[m], |tasks|);
  }

  /** After member `j` comes member `j + 1`, cyclically. */
  lemma SuccessorOfMember(ts: seq<nat>, j: nat)
    requires j < |ts| && forall i, k :: 0 <= i < k < |ts| ==> ts[i] < ts[k]
    ensures Successor(ts, ts[j]) == if j + 1 == |ts| then 0 else j + 1
  {
    AfterSplits(ts, ts[j], |ts|);
    assert ts[j] <= ts[j];
    if j + 1 < |ts| { assert ts[j] < ts[j + 1]; }
  }

  lemma TopsAscend(tasks: Tasks, ts: seq<nat>)
    requires TopsAre(tasks, ts)
    ensures forall i, j :: 0 <= i < j < |ts| ==> ts[i] < ts[j]
  {}

  /** One call of `schedule` after the other: the picks, and the task tables they were made from. */
  ghost predicate Calls(tables: seq<Tasks>, picks: seq<nat>, start: nat, ts: seq<nat>) {
    && |tables| == |picks|
    && forall i :: 0 <= i < |picks| ==>
         && TopsAre(tables[i], ts) && CurAt(picks, start, i) < |tables[i]|
         && picks[i] == Pick(tables[i], CurAt(picks, start, i))
  }

  function CurAt(picks: seq<nat>, start: nat, i: nat): nat
    requires i <= |picks|
  {
    if i == 0 then start else picks[i - 1]
  }

  lemma {:induction false} PicksGoRound(tables: seq<Tasks>, picks: seq<nat>, start: nat, ts: seq<nat>, i: nat)
    requires Calls(tables, picks, start, ts) && ts != [] && i < |picks| <= |ts|
    ensures var j := Successor(ts, start);
      picks[i] == ts[if j + i < |ts| then j + i else j + i - |ts|]
  {
    hide TopsAre, Pick, Successor;
    PickIsSuccessor(tables[i], CurAt(picks, start, i), ts);
    TopsAscend(tables[i], ts);
    if i > 0 {
      PicksGoRound(tables, picks, start, ts, i - 1);
      var j := Successor(ts, start);
      SuccessorOfMember(ts, if j + i - 1 < |ts| then j + i - 1 else j + i - 1 - |ts|);
    }
  }

  /**
   * Round robin: as long as the same `k` tasks are the runnable ones of the highest priority, any
   * `k` consecutive calls of `schedule` pick each of them exactly once, in cyclic order, whatever
   * happens to the other tasks in between.
   */
  lemma RoundRobin(tables: seq<Tasks>, picks: seq<nat>, start: nat, ts: seq<nat>)
    requires ts != [] && |picks| == |ts| && Calls(tables, picks, start, ts)
    ensures var j := Successor(ts, start); picks == ts[j..] + ts[..j]
    ensures multiset(picks) == multiset(ts)
  {
    var j := Successor(ts, start);
    forall i | 0 <= i < |picks| ensures picks[i] == (ts[j..] + ts[..j])[i] {
      PicksGoRound(tables, picks, start, ts, i);
    }
    assert ts == ts[..j] + ts[j..];
  }

  // ---------- Futexes ----------

  /** The sleeper that `futex_wake_one` chooses among the first `n` tasks. */
  function Candidate(tasks: Tasks, addr: nat, n: nat): (c: Option<nat>)
    requires n <= |tasks|
    ensures c.Some? ==> c.value < n
  {
    if n == 0 then None
    else
      var c := Candidate(tasks, addr, n - 1);
      var best := if c.Some? then tasks[c.value].prio else PRIO_MIN;
      if tasks[n - 1].SleepsOn(addr) && tasks[n - 1].prio >= best then Some(n - 1) else c
  }

  /** Priorities are 32-bit numbers. */
  ghost predicate PriosOk(tasks: Tasks) { forall t :: 0 <= t < |tasks| ==> PRIO_MIN <= tasks[t].prio <= 0x7fff_ffff }

  /** It is a sleeper of the highest priority, the last of those; none only if nobody sleeps there. */
  lemma {:induction false} CandidateIsBest(tasks: Tasks, addr: nat, n: nat)
    requires n <= |tasks| && PriosOk(tasks)
    ensures var c := Candidate(tasks, addr, n);
      && (c.None? <==> forall t :: 0 <= t < n ==> !tasks[t].SleepsOn(addr))
      && (c.Some? ==>
            && tasks[c.value].SleepsOn(addr)
            && forall t :: 0 <= t < n && tasks[t].SleepsOn(addr) ==>
                 tasks[t].prio < tasks[c.value].prio || (tasks[t].prio == tasks[c.value].prio && t <= c.value))
  {
    if n > 0 { CandidateIsBest(tasks, addr, n - 1); }
  }

  function WakeOne(tasks: Tasks, addr: nat): Tasks {
    var c := Candidate(tasks, addr, |tasks|);
    if c.None? then tasks else tasks[c.value := tasks[c.value].(state := Running)]
  }

  /** The table after up to `n` wake-ups, and how many there were. */
  function WakeMany(tasks: Tasks, addr: nat, n: nat): (r: (Tasks, nat))
    ensures |r.0| == |tasks| && r.1 <= n
  {
    if n == 0 then (tasks, 0)
    else
      var (before, k) := WakeMany(tasks, addr, n - 1);
      if Candidate(before, addr, |before|).None? then (before, k) else (WakeOne(before, addr), k + 1)
  }

  function Sleepers(tasks: Tasks, addr: nat, n: nat): nat
    requires n <= |tasks|
  {
    if n == 0 then 0 else Sleepers(tasks, addr, n - 1) + if tasks[n - 1].SleepsOn(addr) then 1 else 0
  }

  lemma {:induction false} SleepersAfter(tasks: Tasks, c: nat, addr: nat, n: nat)
    requires c < |tasks| && n <= |tasks| && tasks[c].SleepsOn(addr)
    ensures Sleepers(tasks[c := tasks[c].(state := Running)], addr, n)
         == Sleepers(tasks, addr, n) - if c < n then 1 else 0
  {
    if n > 0 { SleepersAfter(tasks, c, addr, n - 1); }
  }

  lemma {:induction false} NoSleepers(tasks: Tasks, addr: nat, n: nat)
    requires n <= |tasks|
    ensures Sleepers(tasks, addr, n) == 0 <==> forall t :: 0 <= t < n ==> !tasks[t].SleepsOn(addr)
  {
    if n > 0 { NoSleepers(tasks, addr, n - 1); }
  }

  /** The woken tasks are sleepers of that futex, none of lower priority than one that sleeps on. */
  ghost predicate WokeBest(before: Tasks, after: Tasks, addr: nat) {
    && |before| == |after|
    && (forall t :: 0 <= t < |before| ==> after[t] == before[t] || Woken(before, after, addr, t))
    && forall t, u ::
         0 <= t < |before| && 0 <= u < |before| && Woken(before, after, addr, t) && after[u].SleepsOn(addr) ==>
           before[u].prio <= before[t].prio
  }

  ghost predicate Woken(before: Tasks, after: Tasks, addr: nat, t: nat)
    requires t < |before| == |after|
  {
    before[t].SleepsOn(addr) && after[t] == before[t].(state := Running)
  }

  /**
   * `futex_wake` wakes as many sleepers of the futex as asked for, or all of them when there are
   * fewer, best priorities first, and changes nothing else.
   */
  lemma {:induction false} WakesBest(tasks: Tasks, addr: nat, n: nat)
    requires PriosOk(tasks)
    ensures var (after, k) := WakeMany(tasks, addr, n);
      && k == Min(n, Sleepers(tasks, addr, |tasks|))
      && Sleepers(after, addr, |after|) + k == Sleepers(tasks, addr, |tasks|)
      && WokeBest(tasks, after, addr) && PriosOk(after)
  {
    if n > 0 {
      WakesBest(tasks, addr, n - 1);
      var (before, k) := WakeMany(tasks, addr, n - 1);
      CandidateIsBest(before, addr, |before|);
      NoSleepers(before, addr, |before|);
      var c := Candidate(before, addr, |before|);
      if c.Some? { SleepersAfter(before, c.value, addr, |before|); }
    }
  }
}

/**
 * What the emulator's event loop (`handle_events` of src/sync.rs, `run_frame` of src/lib.rs) keeps, for
 * every program.
 */
module ClockTheorems {
  import opened Arith
  import opened ClockSpec
  import Dma

  // ---------- handle_events ----------

  /** The check in `handle_events` for one device. */
  function RunIfDue(c: Clock, who: nat): Clock
    requires who < NUM_TOKENS
  {
    if c.First() >= c.next[who] then Run(c, who) else c
  }

  /** The first `n` checks of a pass. */
  function PassTo(c: Clock, n: nat): Clock
    requires n <= NUM_TOKENS
  {
    if n == 0 then c else RunIfDue(PassTo(c, n - 1), n - 1)
  }

  lemma RunKeeps(c: Clock, who: nat)
    requires Ok(c) && InTime(c, who)
    ensures Ok(Run(c, who)) && Ran(who, c, Run(c, who))
  {
    hide Ok, Ran;
    OkAnyway(c);
    if who == SYS_TIMER { TimerRuns(c); }
    else if who == GPU { GpuRuns(c); }
    else if who == SPU { SpuRuns(c); }
    else if who == INPUT_DEV { InputRuns(c); }
    else { DmaRuns(c); }
  }

  lemma OkAnyway(c: Clock)
    requires Ok(c)
    ensures OkButInput(c)
  {}

  lemma DmaRunsSoon(c: Clock)
    requires Ok(c) && c.words > 0
    ensures c.next[DMA] <= c.last[DMA] + 128
  {}

  /**
   * A pass at the date of an event: nothing is due before that date, and after its check nothing of a
   * device is due at it.
   */
  predicate Passing(c: Clock, p: Clock, n: nat) {
    && Ok(p) && p.now == c.now && p.epoch == c.epoch
    && forall i :: 0 <= i < NUM_TOKENS ==>
      p.next[i] >= p.now && (i < n ==> p.next[i] > p.now) && p.last[i] <= Max(c.last[i], c.now)
  }

  lemma {:induction false} PassOk(c: Clock, n: nat)
    requires Ok(c) && c.now == c.First() && n <= NUM_TOKENS
    ensures Passing(c, PassTo(c, n), n)
    ensures n < NUM_TOKENS ==> InTime(PassTo(c, n), n)
  {
    MinIsLeast(c.next, NUM_TOKENS);
    if n > 0 {
      PassOk(c, n - 1);
      CheckOk(c, PassTo(c, n - 1), n - 1);
    }
    DueIsInTime(c, PassTo(c, n), n);
  }

  lemma DueIsInTime(c: Clock, p: Clock, n: nat)
    requires Passing(c, p, n)
    ensures n < NUM_TOKENS ==> InTime(p, n)
  {
    hide Ok;
    if p.words > 0 { DmaRunsSoon(p); }
  }

  lemma CheckOk(c: Clock, p: Clock, who: nat)
    requires who < NUM_TOKENS && Passing(c, p, who) && InTime(p, who)
    ensures Passing(c, RunIfDue(p, who), who + 1)
  {
    hide Ok, InTime, Run;
    MinIsLeast(p.next, NUM_TOKENS);
    RunKeeps(p, who);
  }

  /** After a pass the next event is later: the reason why `handle_events` ends. */
  lemma PassAdvances(c: Clock)
    requires Ok(c) && c.now == c.First()
    ensures var p := PassTo(c, NUM_TOKENS); Ok(p) && p.now == c.now < p.First() && p.epoch == c.epoch
    ensures forall i :: 0 <= i < NUM_TOKENS ==> PassTo(c, NUM_TOKENS).last[i] <= Max(c.last[i], c.now)
  {
    hide Ok, PassTo;
    PassOk(c, NUM_TOKENS);
    MinIsLeast(PassTo(c, NUM_TOKENS).next, NUM_TOKENS);
  }

  lemma NowIsFree(c: Clock, date: int)
    requires Ok(c)
    ensures Ok(c.(now := date))
  {}

  /**
   * `handle_events`: as long as an event is due, go back to its date, run what is due there, and come
   * back; in the end no event is due.
   */
  function HandleEvents(c: Clock): (r: Clock)
    requires Ok(c)
    ensures Ok(r) && r.now == c.now < r.First() && r.epoch == c.epoch
    decreases c.now - c.First()
  {
    if c.now < c.First() then c
    else
      NowIsFree(c, c.First());
      PassAdvances(c.(now := c.First()));
      var p := PassTo(c.(now := c.First()), NUM_TOKENS);
      NowIsFree(p, c.now);
      HandleEvents(p.(now := c.now))
  }

  /** No device has run beyond this date. */
  predicate SyncedBy(c: Clock, date: int) { forall i :: 0 <= i < NUM_TOKENS ==> c.last[i] <= date }

  lemma {:induction false} HandledInPast(c: Clock)
    requires Ok(c) && SyncedBy(c, c.now)
    ensures SyncedBy(HandleEvents(c), c.now)
    decreases c.now - c.First()
  {
    hide Ok, PassTo;
    if c.now >= c.First() {
      NowIsFree(c, c.First());
      PassAdvances(c.(now := c.First()));
      var p := PassTo(c.(now := c.First()), NUM_TOKENS);
      NowIsFree(p, c.now);
      HandledInPast(p.(now := c.now));
    }
  }

  // ---------- Events in the past ----------

  /**
   * While the instruction that began at a date runs, and while the events since then are handled: no
   * device is much ahead of that date, and only the DMA engine can have an event that long ago.
   */
  predicate Recent(c: Clock, began: int) {
    forall i :: 0 <= i < NUM_TOKENS ==>
      c.last[i] <= began + ACCESS_MAX && c.last[i] <= c.next[i] && (i != DMA ==> began < c.next[i])
  }

  /** Later dates than the event that is handled do not matter any more. */
  function Since(c: Clock, began: int): int { if c.now > began then c.now - 1 else began }

  predicate PassingRecent(c: Clock, p: Clock, n: nat, began: int) {
    Recent(p, Since(c, began)) && (c.now <= began && n <= DMA ==> p.next[DMA] == c.now)
  }

  /** `resync` in a pass: the date is less than 300 cycles behind that of the device, as the source asserts. */
  lemma {:induction false} PassIsRecent(c: Clock, n: nat, began: int)
    requires Ok(c) && c.now == c.First() && n <= NUM_TOKENS && Recent(c, began)
    ensures PassingRecent(c, PassTo(c, n), n, began)
    ensures n < NUM_TOKENS && PassTo(c, n).First() >= PassTo(c, n).next[n] ==> c.now - PassTo(c, n).last[n] > -300
  {
    hide Ok, InTime;
    MinIsLeast(c.next, NUM_TOKENS);
    PassOk(c, n);
    var p := PassTo(c, n);
    if n > 0 {
      PassIsRecent(c, n - 1, began);
      PassOk(c, n - 1);
      CheckIsRecent(c, PassTo(c, n - 1), n - 1, began);
    }
    MinIsLeast(p.next, NUM_TOKENS);
  }

  lemma CheckIsRecent(c: Clock, p: Clock, who: nat, began: int)
    requires who < NUM_TOKENS && Passing(c, p, who) && InTime(p, who) && PassingRecent(c, p, who, began)
    ensures PassingRecent(c, RunIfDue(p, who), who + 1, began)
  {
    hide Ok, InTime, Run;
    MinIsLeast(p.next, NUM_TOKENS);
    RunKeeps(p, who);
  }

  lemma RecentIsFree(c: Clock, date: int, began: int)
    requires Recent(c, began)
    ensures Recent(c.(now := date), began)
  {}

  /** So it is before the next pass. */
  lemma PassLeaves(c: Clock, began: int)
    requires Ok(c) && c.now == c.First() && Recent(c, began)
    ensures Recent(PassTo(c, NUM_TOKENS), Since(c, began))
  {
    hide Ok, PassTo;
    PassIsRecent(c, NUM_TOKENS, began);
  }

  // ---------- Instructions ----------

  /** What an instruction can do to a device, and its stores to RAM. */
  datatype Access =
    | TimerLoad | TimerWrite(off: nat, v: nat)
    | GpuAccess | SpuWrite
    | InputLoad | InputPort | InputConfWrite(v: nat) | InputTxWrite(b: nat)
    | DmaSourceWrite(a: nat) | DmaTargetWrite(a: nat) | DmaLengthWrite(n: nat)
    | RamWrite(i: nat, v: nat)

  function Do(c: Clock, a: Access): Clock {
    match a
    case TimerLoad => TimerRun(c)
    case TimerWrite(off, v) => TimerStore(c, off, v)
    case GpuAccess => GpuRun(c)
    case SpuWrite => SpuRun(c)
    case InputLoad => InputRun(c)
    case InputPort => InputRun(InputRun(c))
    case InputConfWrite(v) => InputConf(c, v)
    case InputTxWrite(b) => InputTx(c, b)
    case DmaSourceWrite(a) => DmaSource(c, a)
    case DmaTargetWrite(_) => DmaRun(c)
    case DmaLengthWrite(n) => DmaLength(c, n)
    case RamWrite(_, _) => c
  }

  /** During an instruction that began at a date. */
  predicate InStep(c: Clock, began: int) {
    && Ok(c) && Recent(c, began) && SyncedBy(c, c.now) && InTime(c, DMA) && began < c.now <= began + ACCESS_MAX
  }

  lemma RanInStep(who: nat, c: Clock, c': Clock, began: int)
    requires InStep(c, began) && Ran(who, c, c') && Ok(c')
    requires if who == DMA then InTime(c', DMA) else c'.words == c.words
    ensures InStep(c', began)
  {
    hide Ok;
  }

  lemma TimerInStep(c: Clock, off: nat, v: nat, began: int)
    requires InStep(c, began)
    ensures InStep(TimerRun(c), began) && InStep(TimerStore(c, off, v), began)
  {
    hide Ok, Ran, WithLow, WithHigh;
    TimerRuns(c);
    TimerStores(c, off, v);
    RanInStep(SYS_TIMER, c, TimerRun(c), began);
    RanInStep(SYS_TIMER, c, TimerStore(c, off, v), began);
  }

  lemma GpuAndSpuInStep(c: Clock, began: int)
    requires InStep(c, began)
    ensures InTime(c, GPU) && InStep(GpuRun(c), began) && InStep(SpuRun(c), began)
  {
    hide Ok, Ran;
    GpuRuns(c);
    SpuRuns(c);
    RanInStep(GPU, c, GpuRun(c), began);
    RanInStep(SPU, c, SpuRun(c), began);
  }

  lemma InputInStep(c: Clock, v: nat, began: int)
    requires InStep(c, began)
    ensures InStep(InputRun(c), began) && InStep(InputConf(c, v), began) && InStep(InputTx(c, v), began)
  {
    hide Ok, Ran, Sending, Drop;
    OkAnyway(c);
    InputRuns(c);
    InputConfStores(c, v);
    InputTxStores(c, v);
    RanInStep(INPUT_DEV, c, InputRun(c), began);
    RanInStep(INPUT_DEV, c, InputConf(c, v), began);
    RanInStep(INPUT_DEV, c, InputTx(c, v), began);
  }

  lemma DmaInStep(c: Clock, a: nat, n: nat, began: int)
    requires InStep(c, began)
    ensures InStep(DmaRun(c), began) && InStep(DmaSource(c, a), began) && InStep(DmaLength(c, n), began)
  {
    hide Ok, Ran;
    DmaRuns(c);
    DmaStores(c, a, n);
    RanInStep(DMA, c, DmaRun(c), began);
    RanInStep(DMA, c, DmaSource(c, a), began);
    var c1 := DmaRun(c);
    assert DmaLength(c, n).last == c1.last && DmaLength(c, n).now == c1.now;
    assert forall i :: 0 <= i < NUM_TOKENS && i != DMA ==> DmaLength(c, n).next[i] == c1.next[i];
  }

  /** Whatever an instruction does to the devices: their dates stay near the date at which it began. */
  lemma DoKeeps(c: Clock, a: Access, began: int)
    requires InStep(c, began)
    ensures InStep(Do(c, a), began) && Do(c, a).now == c.now && Do(c, a).epoch == c.epoch
  {
    hide InStep, WithLow, WithHigh, Sending, Drop;
    match a
    case TimerLoad => TimerInStep(c, 0, 0, began);
    case TimerWrite(off, v) => TimerInStep(c, off, v, began);
    case GpuAccess => GpuAndSpuInStep(c, began);
    case SpuWrite => GpuAndSpuInStep(c, began);
    case InputLoad => InputInStep(c, 0, began);
    case InputPort =>
      InputInStep(c, 0, began);
      InputInStep(InputRun(c), 0, began);
    case InputConfWrite(v) => InputInStep(c, v, began);
    case InputTxWrite(b) => InputInStep(c, b, began);
    case DmaSourceWrite(s) => DmaInStep(c, s, 0, began);
    case DmaTargetWrite(_) => DmaInStep(c, 0, 0, began);
    case DmaLengthWrite(n) => DmaInStep(c, 0, n, began);
    case RamWrite(_, _) =>
  }

  /** The device that an access reaches. */
  function Device(a: Access): (who: nat)
    requires !a.RamWrite?
    ensures who < NUM_TOKENS
  {
    if a.TimerLoad? || a.TimerWrite? then SYS_TIMER
    else if a.GpuAccess? then GPU
    else if a.SpuWrite? then SPU
    else if a.InputLoad? || a.InputPort? || a.InputConfWrite? || a.InputTxWrite? then INPUT_DEV
    else DMA
  }

  /** The device has run up to now, but for less than so many cycles, and no other has run for it. */
  predicate UpToDate(c: Clock, r: Clock, who: nat, rest: int) {
    && who < NUM_TOKENS && r.last[who] <= Max(c.last[who], c.now) && c.now < r.last[who] + rest
    && forall i :: 0 <= i < NUM_TOKENS && i != who ==> r.last[i] == c.last[i] && r.next[i] == c.next[i]
  }

  /**
   * A device that is accessed has run up to the date of the access, but for the cycles that do not fill
   * one of its ticks, or do not pay for the next word.
   */
  lemma AccessIsCurrent(c: Clock, a: Access)
    requires Ok(c) && InTime(c, DMA) && !a.RamWrite?
    ensures UpToDate(c, Do(c, a), Device(a), match Device(a)
              case 0 => 32
              case 2 => 512
              case 4 => 128 + 61 + 1
              case _ => 1)
  {
    hide UpToDate, WithLow, WithHigh, Sending, Drop, InTime, Ok;
    match a
    case TimerLoad => TimerCurrent(c, 0, 0);
    case TimerWrite(off, v) => TimerCurrent(c, off, v);
    case GpuAccess => GpuSpuCurrent(c);
    case SpuWrite => GpuSpuCurrent(c);
    case InputLoad => InputCurrent(c, 0);
    case InputPort => InputCurrent(c, 0);
    case InputConfWrite(v) => InputCurrent(c, v);
    case InputTxWrite(b) => InputCurrent(c, b);
    case DmaSourceWrite(s) => DmaCurrent(c, s, 0);
    case DmaTargetWrite(_) => DmaCurrent(c, 0, 0);
    case DmaLengthWrite(n) => DmaCurrent(c, 0, n);
    case RamWrite(_, _) =>
  }

  lemma TimerCurrent(c: Clock, off: nat, v: nat)
    ensures UpToDate(c, TimerRun(c), SYS_TIMER, 32) && UpToDate(c, TimerStore(c, off, v), SYS_TIMER, 32)
  {
    hide WithLow, WithHigh, TimerDelay;
  }

  lemma GpuSpuCurrent(c: Clock)
    ensures UpToDate(c, GpuRun(c), GPU, 1) && UpToDate(c, SpuRun(c), SPU, 512)
  {}

  lemma InputRunIs(c: Clock)
    ensures UpToDate(c, InputRun(c), INPUT_DEV, 1) && InputRun(c).now == c.now
  {
    hide Sending, Drop;
  }

  lemma InputCurrent(c: Clock, v: nat)
    ensures UpToDate(c, InputRun(c), INPUT_DEV, 1) && UpToDate(c, InputRun(InputRun(c)), INPUT_DEV, 1)
    ensures UpToDate(c, InputConf(c, v), INPUT_DEV, 1) && UpToDate(c, InputTx(c, v), INPUT_DEV, 1)
  {
    hide InputRun, Drop, Sending;
    var c1 := InputRun(c);
    InputRunIs(c);
    InputRunIs(c1);
    var tx := if v % 2 == 1 then [] else c1.tx;
    InputRunIs(c1.(tx := tx, clkDiv := (v / 0x1_0000 % 0x1_0000 + 1) * 128, clkCount := 0));
    InputRunIs(if |c1.tx| < TX_LEN then c1.(tx := c1.tx + [v]) else c1);
  }

  lemma DmaCurrent(c: Clock, a: nat, n: nat)
    requires Ok(c) && InTime(c, DMA)
    ensures var rest := 128 + 61 + 1;
      UpToDate(c, DmaRun(c), DMA, rest) && UpToDate(c, DmaSource(c, a), DMA, rest)
      && UpToDate(c, DmaLength(c, n), DMA, rest)
  {
    hide Ok, DmaRun;
    DmaRuns(c);
  }

  function DoAll(c: Clock, accesses: seq<Access>, n: nat): Clock
    requires n <= |accesses|
  {
    if n == 0 then c else Do(DoAll(c, accesses, n - 1), accesses[n - 1])
  }

  lemma {:induction false} DoAllKeeps(c: Clock, accesses: seq<Access>, n: nat, began: int)
    requires InStep(c, began) && n <= |accesses|
    ensures var r := DoAll(c, accesses, n); InStep(r, began) && r.now == c.now && r.epoch == c.epoch
  {
    hide InStep, Do;
    if n > 0 {
      DoAllKeeps(c, accesses, n - 1, began);
      DoKeeps(DoAll(c, accesses, n - 1), accesses[n - 1], began);
    }
  }

  /** An instruction, as far as time goes; one that reaches devices does so after all its cycles. */
  datatype Instruction =
    | Compute(cycles: int) | Reach(cycles: int, accesses: seq<Access>) | Wfi(cycles: int) | Shutdown(cycles: int)

  predicate Legal(i: Instruction) { 1 <= i.cycles <= if i.Reach? then ACCESS_MAX else STEP_MAX }

  /** `fast_forward_to_next_event`; dates up to the last rebase are never jumped to. */
  function FastForward(c: Clock): Clock { if c.First() > 0 then c.(now := c.First()) else c }

  /** `cpu::step`. */
  function Step(c: Clock, i: Instruction): Clock {
    var c1 := c.(now := c.now + i.cycles);
    match i
    case Compute(_) => c1
    case Reach(_, accesses) => DoAll(c1, accesses, |accesses|)
    case Wfi(_) => FastForward(c1)
    case Shutdown(_) => c1
  }

  /** Between two instructions, once the events have been handled: none is due, and no device is ahead of the CPU. */
  predicate Settled(c: Clock) { Ok(c) && c.now < c.First() && SyncedBy(c, c.now) }

  lemma SettledIsRecent(c: Clock, cycles: int)
    requires Settled(c) && cycles >= 1
    ensures var c1 := c.(now := c.now + cycles);
      && Ok(c1) && Recent(c1, c.now) && SyncedBy(c1, c.now) && SyncedBy(c1, c1.now)
      && (cycles <= ACCESS_MAX ==> InStep(c1, c.now))
  {
    hide Ok;
    MinIsLeast(c.next, NUM_TOKENS);
    NowIsFree(c, c.now + cycles);
    if c.words > 0 { DmaRunsSoon(c); }
  }

  lemma StepKeeps(c: Clock, i: Instruction)
    requires Settled(c) && Legal(i)
    ensures var r := Step(c, i);
      && Ok(r) && Recent(r, c.now) && SyncedBy(r, r.now) && r.now > c.now && r.epoch == c.epoch
      && (!i.Wfi? ==> r.now == c.now + i.cycles)
  {
    hide Ok, Recent, SyncedBy, DoAll, MinOf;
    SettledIsRecent(c, i.cycles);
    var c1 := c.(now := c.now + i.cycles);
    match i
    case Compute(_) =>
    case Shutdown(_) =>
    case Reach(_, accesses) => DoAllKeeps(c1, accesses, |accesses|, c.now);
    case Wfi(_) => Forwarded(c, c1);
  }

  lemma Forwarded(c: Clock, c1: Clock)
    requires Settled(c) && Recent(c1, c.now) && SyncedBy(c1, c.now) && Ok(c1) && c1.now > c.now && c1.next == c.next
    ensures var r := FastForward(c1); Ok(r) && Recent(r, c.now) && SyncedBy(r, r.now) && r.now > c.now
  {
    hide Ok;
    NowIsFree(c1, c1.First());
  }

  // ---------- Whole runs ----------

  /** Before a turn of `run_frame`; only at power-on is an event due. */
  predicate Between(c: Clock) {
    Ok(c) && SyncedBy(c, c.now) && (c.now < c.First() || (c.now == c.First() == 0 && Recent(c, -1)))
  }

  /** Before `handle_events`, after an instruction that began at this date. */
  predicate Due(c: Clock, began: int) { Ok(c) && SyncedBy(c, c.now) && Recent(c, began) }

  lemma AnyDue(c: Clock)
    requires Between(c)
    ensures Due(c, if c.now < c.First() then c.now else -1) && (c.now < c.First() ==> Settled(c))
  {
    hide Ok;
    MinIsLeast(c.next, NUM_TOKENS);
  }

  lemma ForwardIsDue(c: Clock)
    requires Between(c) && c.now >= 0
    ensures var r := FastForward(c);
      && Due(r, if c.now < c.First() then c.now else -1) && r.epoch == c.epoch && c.now <= r.now
      && if c.now < c.First() then c.now < r.now <= c.next[GPU] else r.now == c.now
  {
    hide Ok;
    AnyDue(c);
    MinIsLeast(c.next, NUM_TOKENS);
    NowIsFree(c, c.First());
  }

  lemma DueIsHandled(c: Clock, began: int)
    requires Due(c, began)
    ensures Ok(c) && Recent(c, began) && Settled(HandleEvents(c))
  {
    hide Ok, SyncedBy, HandleEvents;
    HandledInPast(c);
  }

  lemma StepIsDue(c: Clock, i: Instruction)
    requires Settled(c) && Legal(i)
    ensures var r := Step(c, i);
      Due(r, c.now) && r.now > c.now && r.epoch == c.epoch && (r.now < r.First() ==> Settled(r))
  {
    hide Ok, SyncedBy, Recent;
    StepKeeps(c, i);
  }

  /** A turn of the emulator: an instruction, a wait with the CPU asleep, or the end of `run_frame`. */
  datatype Turn = Execute(i: Instruction) | Sleep | EndFrame

  predicate LegalTurn(t: Turn) { t.Execute? ==> Legal(t.i) }

  /** `rebase_counters`: date 0 is now. */
  function Rebase(c: Clock): Clock {
    c.(now := 0, epoch := c.epoch + c.now,
       last := seq(NUM_TOKENS, i requires 0 <= i < NUM_TOKENS => c.last[i] - c.now),
       next := seq(NUM_TOKENS, i requires 0 <= i < NUM_TOKENS => c.next[i] - c.now))
  }

  lemma {:induction false} MinShifts(s: seq<int>, t: seq<int>, d: int, n: nat)
    requires 1 <= n <= |s| == |t| && forall i :: 0 <= i < n ==> t[i] == s[i] - d
    ensures MinOf(t, n) == MinOf(s, n) - d
  {
    if n > 1 { MinShifts(s, t, d, n - 1); }
  }

  /** No absolute date changes. */
  lemma RebaseKeeps(c: Clock)
    requires Settled(c)
    ensures var r := Rebase(c);
      && Settled(r) && r.now == 0 && r.epoch == c.epoch + c.now && r.epoch + r.First() == c.epoch + c.First()
      && forall i :: 0 <= i < NUM_TOKENS ==>
        r.epoch + r.last[i] == c.epoch + c.last[i] && r.epoch + r.next[i] == c.epoch + c.next[i]
  {
    MinShifts(c.next, Rebase(c).next, c.now, NUM_TOKENS);
  }

  lemma SpuKeepsSettled(c: Clock)
    requires Settled(c)
    ensures Settled(SpuRun(c)) && SpuRun(c).now == c.now && SpuRun(c).epoch == c.epoch
    ensures SpuRun(c).samples == (c.epoch + c.now) / AUDIO_DIVIDER
  {
    SpuRuns(c);
    MinIsLeast(c.next, NUM_TOKENS);
    MinIsLeast(SpuRun(c).next, NUM_TOKENS);
  }

  function Take(c: Clock, t: Turn): (r: Clock)
    requires Settled(c) && LegalTurn(t)
    ensures Settled(r)
  {
    match t
    case Execute(i) =>
      StepKeeps(c, i);
      HandledInPast(Step(c, i));
      HandleEvents(Step(c, i))
    case Sleep =>
      NowIsFree(c, c.First());
      HandledInPast(FastForward(c));
      HandleEvents(FastForward(c))
    case EndFrame =>
      SpuKeepsSettled(c);
      RebaseKeeps(SpuRun(c));
      Rebase(SpuRun(c))
  }

  function Execution(c: Clock, turns: seq<Turn>, n: nat): (r: Clock)
    requires Settled(c) && n <= |turns| && forall k :: 0 <= k < |turns| ==> LegalTurn(turns[k])
    ensures Settled(r)
  {
    if n == 0 then c else Take(Execution(c, turns, n - 1), turns[n - 1])
  }

  /** Time since power-on. */
  function Date(c: Clock): int { c.epoch + c.now }

  lemma {:induction false} TakeGoesOn(c: Clock, t: Turn)
    requires Settled(c) && LegalTurn(t)
    ensures Date(c) <= Date(Take(c, t)) && (t.Execute? ==> Date(c) < Date(Take(c, t)))
    ensures (t.Sleep? || (t.Execute? && t.i.Wfi?)) && c.First() > 0 ==> Date(Take(c, t)) == c.epoch + c.First()
    ensures t.Execute? && !t.i.Wfi? ==> Date(Take(c, t)) == Date(c) + t.i.cycles
    ensures t.EndFrame? ==> Date(Take(c, t)) == Date(c)
  {
    hide Ok;
    match t
    case Execute(i) =>
      StepKeeps(c, i);
      HandledInPast(Step(c, i));
    case Sleep =>
      NowIsFree(c, c.First());
      HandledInPast(FastForward(c));
    case EndFrame =>
      SpuKeepsSettled(c);
      RebaseKeeps(SpuRun(c));
  }

  /** Between two calls of `run_frame`. */
  predicate Started(c: Clock) { Between(c) && c.now == 0 && c.frames == Date(c) / FRAME_CYCLES }

  lemma StartIsStarted()
    ensures Started(START)
  {}

  /** The cycles until the frame ends. */
  function ToFrameEnd(frames: int, date: int, inFrame: bool): int {
    if inFrame then FRAME_CYCLES * (frames + 1) - date else 0
  }

  /** Frames end on time, so that a turn brings the end of the frame nearer. */
  lemma TurnEnded(c: Clock, r: Clock)
    requires Between(c) && c.frames == Date(c) / FRAME_CYCLES && Settled(r) && r.epoch == c.epoch && c.now <= r.now
    ensures Between(r) && r.frames == Date(r) / FRAME_CYCLES && c.frames <= r.frames
    ensures 0 < ToFrameEnd(c.frames, Date(c), true)
    ensures r.now <= c.next[GPU] ==> r.frames <= c.frames + 1
    ensures r.now == c.now ==> r.frames == c.frames
  {
    FramesAreExact(r);
    FrameIsNear(c);
    hide Ok, SyncedBy, Recent;
    if r.now <= c.next[GPU] { DivLe(Date(r), FRAME_CYCLES * (c.frames + 1)); }
    DivLe(Date(c), Date(r));
  }

  lemma FrameIsNear(c: Clock)
    requires Ok(c)
    ensures c.epoch + c.next[GPU] <= FRAME_CYCLES * (c.frames + 1)
  {
    hide TimerOk, SpuOk, InputOk, DmaOk;
  }

  lemma DivLe(a: int, b: int)
    requires a <= b
    ensures a / FRAME_CYCLES <= b / FRAME_CYCLES
  {}

  /** The end of `run_frame`: sound up to now, and a new date 0. */
  lemma FrameEnds(c: Clock)
    requires Between(c) && c.frames == Date(c) / FRAME_CYCLES
    ensures var r := Rebase(SpuRun(c));
      Started(r) && r.epoch == c.epoch + c.now && r.samples == r.epoch / AUDIO_DIVIDER && r.frames == c.frames
    ensures c.now - c.last[SPU] > -300
  {
    if c.now < c.First() {
      SpuKeepsSettled(c);
      RebaseKeeps(SpuRun(c));
    } else {
      FirstFrame(c);
    }
  }

  lemma FirstFrame(c: Clock)
    requires Between(c) && c.now == 0 && Recent(c, -1)
    ensures var r := Rebase(SpuRun(c));
      && Between(r) && r.now == 0 && r.epoch == c.epoch
      && r.samples == r.epoch / AUDIO_DIVIDER && r.frames == c.frames
  {
    SpuRuns(c);
    var c1 := SpuRun(c);
    assert Rebase(c1).last == c1.last && Rebase(c1).next == c1.next;
    hide TimerOk, GpuOk, InputOk, DmaOk;
    MinIsLeast(c1.next, NUM_TOKENS);
    MinIsLeast(c.next, NUM_TOKENS);
  }

  /** When no event is due, the interrupt line says whether mtime, brought up to date, has reached mtimecmp. */
  lemma InterruptIsExact(c: Clock)
    requires Ok(c) && c.now < c.First()
    ensures c.mtip == (TimerRun(c).mtime >= c.mtimecmp)
  {
    hide GpuOk, SpuOk, InputOk, DmaOk;
    MinIsLeast(c.next, NUM_TOKENS);
  }

  /** mtime, brought up to date, counts every 32nd cycle since power-on, but for what stores have moved it by. */
  lemma TimerIsExact(c: Clock)
    requires Settled(c)
    ensures TimerRun(c).mtime - c.shift == Date(c) / CLK_DIV
  {
    hide GpuOk, SpuOk, InputOk, DmaOk;
  }

  /** A frame has ended, and its interrupt has been triggered, for every 752640 cycles since power-on: none is late. */
  lemma FramesAreExact(c: Clock)
    requires Settled(c)
    ensures c.frames == Date(c) / FRAME_CYCLES
  {
    hide TimerOk, SpuOk, InputOk, DmaOk;
    MinIsLeast(c.next, NUM_TOKENS);
  }

  /**
   * When no event is due, a run of the input device would not empty its queue: the end of a
   * transmission is never late.
   */
  lemma SendingIsExact(c: Clock)
    requires Settled(c)
    ensures InputRun(c).tx == [] <==> c.tx == []
  {
    hide Ok, InputRun, Drop, Sending, SyncedBy;
    var ran := c.clkCount + c.Elapsed(INPUT_DEV);
    RemainderFits(ran, c.clkDiv);
    InputSends(c);
    if c.tx != [] {
      StillSending(c);
      NotAllSent(c.clkDiv, ran, |c.tx|);
      DropLeaves(c.tx, ran / c.clkDiv);
    }
  }

  lemma InputSends(c: Clock)
    ensures var ran: nat := c.clkCount + c.Elapsed(INPUT_DEV);
      ran / c.clkDiv >= 0 && InputRun(c).tx == if c.tx == [] then [] else Drop(c.tx, ran / c.clkDiv)
  {
    RemainderFits(c.clkCount + c.Elapsed(INPUT_DEV), c.clkDiv);
    hide Sending;
  }

  lemma StillSending(c: Clock)
    requires Settled(c) && c.tx != []
    ensures c.clkCount + c.Elapsed(INPUT_DEV) < c.clkDiv * |c.tx|
  {
    hide TimerOk, GpuOk, SpuOk, DmaOk, InputOk;
    MinIsLeast(c.next, NUM_TOKENS);
  }

  lemma DropLeaves(tx: seq<nat>, n: nat)
    requires n < |tx|
    ensures Drop(tx, n) != []
  {}

  lemma NotAllSent(clkDiv: Pos, ran: nat, n: nat)
    requires ran < clkDiv * n
    ensures ran / clkDiv < n
  {
    if ran / clkDiv >= n { MulLe(n, ran / clkDiv, clkDiv); }
  }

  /** The end of a DMA transfer is noticed less than 128 cycles after the last word has been paid for. */
  lemma DmaIsSoon(c: Clock)
    requires Settled(c) && c.words > 0 && DmaRun(c).words == 0
    ensures Dma.Cost(c.src) * c.words <= c.Elapsed(DMA) < Dma.Cost(c.src) * c.words + 128
  {
    hide TimerOk, GpuOk, SpuOk, InputOk, Dma.Cost;
    MinIsLeast(c.next, NUM_TOKENS);
    Pays(c.Elapsed(DMA), Dma.Cost(c.src), c.words);
    MulLe(0, c.words, Dma.Cost(c.src));
  }

  /** Dates differ from that of the CPU by less than 2^28 cycles, so that they fit into 32 bits. */
  lemma DatesFit(c: Clock, i: nat)
    requires Settled(c) && i < NUM_TOKENS
    ensures c.now - 0x1000_0000 < c.last[i] <= c.now < c.next[i] < c.now + 0x1000_0000
  {
    MinIsLeast(c.next, NUM_TOKENS);
    SendingFits(c.tx, c.clkDiv, c.clkCount);
    hide Sending;
  }

  lemma SendingFits(tx: seq<nat>, clkDiv: Pos, clkCount: nat)
    requires InputOk(tx, clkDiv, clkCount)
    ensures Sending(tx, clkDiv, clkCount) <= 0x800_0000
  {
    MulLe(|tx|, TX_LEN, clkDiv);
  }

  /**
   * Every run of the emulator from power-on, whatever the program: after each turn no event is due, the
   * frames, the samples of the frames that have ended and the timer are exactly those of the date, and
   * the interrupt line is right.
   */
  lemma EveryRun(turns: seq<Turn>, n: nat)
    requires n <= |turns| && forall k :: 0 <= k < |turns| ==> LegalTurn(turns[k])
    ensures Ok(START) && Settled(HandleEvents(START))
    ensures var c := Execution(HandleEvents(START), turns, n);
      && c.now < c.First() && c.frames == Date(c) / FRAME_CYCLES
      && TimerRun(c).mtime - c.shift == Date(c) / CLK_DIV && SpuRun(c).samples == Date(c) / AUDIO_DIVIDER
      && c.mtip == (TimerRun(c).mtime >= c.mtimecmp)
  {
    StartIsOk();
    HandledInPast(START);
    var c := Execution(HandleEvents(START), turns, n);
    hide Ok, SyncedBy, HandleEvents, Execution;
    FramesAreExact(c);
    TimerIsExact(c);
    InterruptIsExact(c);
    SpuKeepsSettled(c);
  }
}

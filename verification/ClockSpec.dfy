/**
 * Time in the emulator, as values: the dates that src/sync.rs keeps for the five devices, and what
 * each device does to them when it runs (`run` in src/systimer.rs, src/gpu.rs, src/spu.rs,
 * src/input_dev.rs and src/dma.rs). Dates are relative to the last rebase; `epoch` is the absolute
 * date of date 0.
 */
module ClockSpec {
  import opened Arith
  import Dma

  const SYS_TIMER: nat := 0
  const GPU: nat := 1
  const SPU: nat := 2
  const INPUT_DEV: nat := 3
  const DMA: nat := 4
  const NUM_TOKENS: nat := 5

  const CPU_FREQ: int := Dma.CPU_FREQ
  const CLK_DIV: int := 32
  const MTIME_HZ: int := 705_600
  const FRAME_CYCLES: int := 752_640
  const AUDIO_DIVIDER: int := 512
  const TX_LEN: nat := 16
  const CLK_DIV_MAX: int := 0x80_0000

  /** Fetching an instruction takes up to 60 cycles, and one more passes before it loads from a device. */
  const ACCESS_MAX: int := 61

  /** The longest instruction is a FENCE.I. */
  const STEP_MAX: int := 10_060

  function Max(a: int, b: int): int { if a < b then b else a }

  type Pos = x: int | x > 0 witness 1

  /** A date for each device. */
  type Dates = s: seq<int> | |s| == NUM_TOKENS witness [0, 0, 0, 0, 0]

  /** The earliest of the first `n` dates. */
  function MinOf(s: seq<int>, n: nat): int
    requires 1 <= n <= |s|
  {
    if n == 1 then s[0] else if s[n - 1] < MinOf(s, n - 1) then s[n - 1] else MinOf(s, n - 1)
  }

  lemma {:induction false} MinIsLeast(s: seq<int>, n: nat)
    requires 1 <= n <= |s|
    ensures forall i :: 0 <= i < n ==> MinOf(s, n) <= s[i]
    ensures exists i :: 0 <= i < n && MinOf(s, n) == s[i]
  {
    if n > 1 {
      MinIsLeast(s, n - 1);
      var i :| 0 <= i < n - 1 && MinOf(s, n - 1) == s[i];
      assert MinOf(s, n) == s[if s[n - 1] < s[i] then n - 1 else i];
    } else {
      assert MinOf(s, n) == s[0];
    }
  }

  /**
   * The date that the CPU has reached, up to when each device has run and when it wants to run again,
   * and of each device what its timing depends on: the timer's registers and by how much stores have
   * moved mtime; the cycles left of the frame and the frames ended; the audio cycles run; the bytes
   * to send, the cycles for each and those spent on the next; the words to copy and where they are.
   */
  datatype Clock = Clock(
    now: int, last: Dates, next: Dates, epoch: int,
    mtime: nat, mtimecmp: nat, mtip: bool, shift: int,
    frameCycles: int, frames: int,
    samples: int,
    tx: seq<nat>, clkDiv: Pos, clkCount: nat,
    words: nat, src: nat)
  {
    function First(): int { MinOf(next, NUM_TOKENS) }

    /** The cycles that a device gets when it runs. */
    function Elapsed(who: nat): int
      requires who < NUM_TOKENS
    {
      Max(last[who], now) - last[who]
    }

    /** The device takes these cycles and gives some of them back. */
    function Synced(who: nat, back: int): Clock
      requires who < NUM_TOKENS
    {
      this.(last := last[who := Max(last[who], now) - back])
    }

    function Armed(who: nat, delay: int): Clock
      requires who < NUM_TOKENS
    {
      this.(next := next[who := last[who] + delay])
    }
  }

  // ---------- The devices ----------

  /** In how many cycles the timer wants to run again: when it is due, but within a second. */
  function TimerDelay(mtime: int, mtimecmp: int): int {
    if mtime >= mtimecmp then CPU_FREQ
    else CLK_DIV * if mtimecmp - mtime < MTIME_HZ then mtimecmp - mtime else MTIME_HZ
  }

  /** `systimer::check_for_irq`. */
  function CheckForIrq(c: Clock): Clock {
    c.(mtip := c.mtime >= c.mtimecmp).Armed(SYS_TIMER, TimerDelay(c.mtime, c.mtimecmp))
  }

  function TimerRun(c: Clock): Clock {
    var elapsed := c.Elapsed(SYS_TIMER);
    CheckForIrq(c.(mtime := c.mtime + elapsed / CLK_DIV).Synced(SYS_TIMER, elapsed % CLK_DIV))
  }

  /** A 64-bit number with one of its 32-bit halves replaced. */
  function WithLow(x: nat, v: nat): nat { x / U32 * U32 + v }
  function WithHigh(x: nat, v: nat): nat { v * U32 + x % U32 }

  /** `systimer::store_word`: a store to one half of a register. */
  function TimerStore(c: Clock, off: nat, v: nat): Clock {
    var c1 := TimerRun(c);
    var mtime := if off == 0 then WithLow(c1.mtime, v) else if off == 4 then WithHigh(c1.mtime, v) else c1.mtime;
    var mtimecmp :=
      if off == 8 then WithLow(c1.mtimecmp, v) else if off == 0xc then WithHigh(c1.mtimecmp, v) else c1.mtimecmp;
    CheckForIrq(c1.(mtime := mtime, mtimecmp := mtimecmp, shift := c1.shift + mtime - c1.mtime))
  }

  lemma HalvesOf(x: nat, v: nat)
    requires v < U32
    ensures WithLow(x, v) / U32 == x / U32 && WithLow(x, v) % U32 == v
    ensures WithHigh(x, v) / U32 == v && WithHigh(x, v) % U32 == x % U32
  {
    DivModUnique(WithLow(x, v), U32, x / U32, v);
    DivModUnique(WithHigh(x, v), U32, v, x % U32);
  }

  /** A store replaces one half of a register and leaves everything else as a run of the timer does. */
  lemma TimerStoreIs(c: Clock, off: nat, v: nat)
    requires v < U32
    ensures var c1, r := TimerRun(c), TimerStore(c, off, v);
      && (off == 0 ==> r.mtime / U32 == c1.mtime / U32 && r.mtime % U32 == v)
      && (off == 4 ==> r.mtime / U32 == v && r.mtime % U32 == c1.mtime % U32)
      && (off == 8 ==> r.mtimecmp / U32 == c1.mtimecmp / U32 && r.mtimecmp % U32 == v)
      && (off == 0xc ==> r.mtimecmp / U32 == v && r.mtimecmp % U32 == c1.mtimecmp % U32)
      && (off != 0 && off != 4 ==> r.mtime == c1.mtime) && (off != 8 && off != 0xc ==> r.mtimecmp == c1.mtimecmp)
      && r.last == c1.last && r.mtip == (r.mtime >= r.mtimecmp)
  {
    HalvesOf(TimerRun(c).mtime, v);
    HalvesOf(TimerRun(c).mtimecmp, v);
    hide WithLow, WithHigh, TimerRun;
  }

  function GpuRun(c: Clock): Clock {
    var left := c.frameCycles - c.Elapsed(GPU);
    var c1 :=
      if left > 0 then c.(frameCycles := left)
      else c.(frameCycles := left + FRAME_CYCLES, frames := c.frames + 1);
    c1.Synced(GPU, 0).Armed(GPU, c1.frameCycles)
  }

  function SpuRun(c: Clock): Clock {
    var elapsed := c.Elapsed(SPU);
    c.(samples := c.samples + elapsed / AUDIO_DIVIDER).Synced(SPU, elapsed % AUDIO_DIVIDER).Armed(SPU, CPU_FREQ)
  }

  /** The bytes left after `n` more have been sent. */
  function Drop(tx: seq<nat>, n: nat): seq<nat> { if n <= |tx| then tx[n..] else [] }

  /** The cycles until all the bytes in the queue have been sent. */
  function Sending(tx: seq<nat>, clkDiv: int, clkCount: int): int {
    if tx == [] then CPU_FREQ else clkDiv * |tx| - clkCount
  }

  function InputRun(c: Clock): Clock {
    var ran := c.clkCount + c.Elapsed(INPUT_DEV);
    var c1 :=
      if c.tx == [] then c.(clkCount := 0)
      else c.(tx := Drop(c.tx, ran / c.clkDiv), clkCount := ran % c.clkDiv);
    c1.Synced(INPUT_DEV, 0).Armed(INPUT_DEV, Sending(c1.tx, c1.clkDiv, c1.clkCount))
  }

  /** Stores to the CONF and TX registers of the input device. */
  function InputConf(c: Clock, v: nat): Clock {
    var c1 := InputRun(c);
    var tx := if v % 2 == 1 then [] else c1.tx;
    InputRun(c1.(tx := tx, clkDiv := (v / 0x1_0000 % 0x1_0000 + 1) * 128, clkCount := 0))
  }

  function InputTx(c: Clock, b: nat): Clock {
    var c1 := InputRun(c);
    InputRun(if |c1.tx| < TX_LEN then c1.(tx := c1.tx + [b]) else c1)
  }

  function DmaRun(c: Clock): Clock {
    var elapsed := c.Elapsed(DMA);
    if c.words == 0 then c.Synced(DMA, 0).Armed(DMA, CPU_FREQ)
    else
      var cost := Dma.Cost(c.src);
      var k := Dma.Min(c.words, elapsed / cost);
      var left := c.words - k;
      var c1 := c.(words := left, src := c.src + 4 * k).Synced(DMA, elapsed - cost * k);
      c1.Armed(DMA, if left > 0 then 128 else CPU_FREQ)
  }

  /** A store to the source register. */
  function DmaSource(c: Clock, a: nat): Clock { DmaRun(c).(src := a) }

  /** A store to the length register starts a transfer. */
  function DmaLength(c: Clock, words: nat): Clock {
    DmaRun(c).(words := words).Armed(DMA, if words == 0 then CPU_FREQ else 32)
  }

  function Run(c: Clock, who: nat): Clock
    requires who < NUM_TOKENS
  {
    if who == SYS_TIMER then TimerRun(c)
    else if who == GPU then GpuRun(c)
    else if who == SPU then SpuRun(c)
    else if who == INPUT_DEV then InputRun(c)
    else DmaRun(c)
  }

  // ---------- What each device owes to the clock ----------

  /** mtime counts every 32nd cycle, and the timer is due before mtime can pass mtimecmp. */
  predicate TimerOk(synced: int, last: int, next: int, mtime: int, mtimecmp: int, mtip: bool, shift: int) {
    && CLK_DIV * (mtime - shift) == synced && mtip == (mtime >= mtimecmp)
    && next <= last + CPU_FREQ && (!mtip ==> next <= last + CLK_DIV * (mtimecmp - mtime))
  }

  /** `n` frames have ended, and the next one ends in `left` cycles from the last sync. */
  predicate GpuOk(synced: int, last: int, next: int, left: int, n: int) {
    0 < left <= FRAME_CYCLES && next <= last + left && FRAME_CYCLES * (n + 1) - left == synced
  }

  /** Every 512th cycle gives a pair of samples. */
  predicate SpuOk(synced: int, last: int, next: int, samples: int) {
    AUDIO_DIVIDER * samples == synced && next <= last + CPU_FREQ
  }

  predicate InputOk(tx: seq<nat>, clkDiv: int, clkCount: int) {
    |tx| <= TX_LEN && clkCount < clkDiv <= CLK_DIV_MAX
  }

  predicate DmaOk(last: int, next: int, words: nat) { next <= last + if words > 0 then 128 else CPU_FREQ }

  predicate Ok(c: Clock) {
    && TimerOk(c.epoch + c.last[SYS_TIMER], c.last[SYS_TIMER], c.next[SYS_TIMER], c.mtime, c.mtimecmp, c.mtip, c.shift)
    && GpuOk(c.epoch + c.last[GPU], c.last[GPU], c.next[GPU], c.frameCycles, c.frames)
    && SpuOk(c.epoch + c.last[SPU], c.last[SPU], c.next[SPU], c.samples)
    && InputOk(c.tx, c.clkDiv, c.clkCount)
    && c.next[INPUT_DEV] <= c.last[INPUT_DEV] + Sending(c.tx, c.clkDiv, c.clkCount)
    && DmaOk(c.last[DMA], c.next[DMA], c.words)
  }

  /** The same, but for the next event of the input device. */
  predicate OkButInput(c: Clock) {
    && TimerOk(c.epoch + c.last[SYS_TIMER], c.last[SYS_TIMER], c.next[SYS_TIMER], c.mtime, c.mtimecmp, c.mtip, c.shift)
    && GpuOk(c.epoch + c.last[GPU], c.last[GPU], c.next[GPU], c.frameCycles, c.frames)
    && SpuOk(c.epoch + c.last[SPU], c.last[SPU], c.next[SPU], c.samples)
    && InputOk(c.tx, c.clkDiv, c.clkCount)
    && DmaOk(c.last[DMA], c.next[DMA], c.words)
  }

  /** The clock when the emulator starts. */
  const START: Clock :=
    Clock(now := 0, last := [0, 0, 0, 0, 0], next := [0, 0, 0, 0, 0], epoch := 0,
          mtime := 0, mtimecmp := 0xffff_ffff_ffff_ffff, mtip := false, shift := 0,
          frameCycles := FRAME_CYCLES, frames := 0, samples := 0,
          tx := [], clkDiv := 1, clkCount := 0, words := 0, src := 0)

  lemma StartIsOk()
    ensures Ok(START)
  {}

  /**
   * What the run of a device does to the dates: it has run up to now, unless it already was further,
   * and wants to run again later than that. Nothing else changes but its own state.
   */
  predicate Ran(who: nat, c: Clock, c': Clock) {
    && who < NUM_TOKENS && c'.now == c.now && c'.epoch == c.epoch
    && c'.last == c.last[who := c'.last[who]] && c'.next == c.next[who := c'.next[who]]
    && c'.last[who] <= Max(c.last[who], c.now) && Max(c'.last[who], c.now) < c'.next[who]
  }

  /** The device was not left alone longer than it can bear: none runs much later than it wanted to. */
  predicate InTime(c: Clock, who: nat) {
    && who < NUM_TOKENS
    && (who == GPU ==> c.now <= c.next[GPU] + ACCESS_MAX)
    && (who == DMA && c.words > 0 ==> c.now <= c.last[DMA] + 128 + ACCESS_MAX)
  }

  lemma TimerRuns(c: Clock)
    requires Ok(c)
    ensures Ok(TimerRun(c)) && Ran(SYS_TIMER, c, TimerRun(c))
  {
    hide GpuOk, SpuOk, InputOk, DmaOk;
  }

  lemma TimerStores(c: Clock, off: nat, v: nat)
    requires Ok(c)
    ensures Ok(TimerStore(c, off, v)) && Ran(SYS_TIMER, c, TimerStore(c, off, v))
  {
    hide GpuOk, SpuOk, InputOk, DmaOk, WithLow, WithHigh;
  }

  lemma GpuRuns(c: Clock)
    requires Ok(c) && InTime(c, GPU)
    ensures Ok(GpuRun(c)) && Ran(GPU, c, GpuRun(c)) && c.frames <= GpuRun(c).frames <= c.frames + 1
  {
    hide TimerOk, SpuOk, InputOk, DmaOk;
  }

  lemma SpuRuns(c: Clock)
    requires Ok(c)
    ensures Ok(SpuRun(c)) && Ran(SPU, c, SpuRun(c)) && c.now < SpuRun(c).last[SPU] + AUDIO_DIVIDER
    ensures SpuRun(c).next[SPU] == SpuRun(c).last[SPU] + 22_579_200
  {
    hide TimerOk, GpuOk, InputOk, DmaOk;
  }

  lemma InputRuns(c: Clock)
    requires OkButInput(c)
    ensures Ok(InputRun(c)) && Ran(INPUT_DEV, c, InputRun(c))
  {
    hide TimerOk, GpuOk, SpuOk, DmaOk, Sending;
    SendingIsPositive(c.tx, c.clkDiv, 0);
    var ran := c.clkCount + c.Elapsed(INPUT_DEV);
    RemainderFits(ran, c.clkDiv);
    SendingIsPositive(Drop(c.tx, ran / c.clkDiv), c.clkDiv, ran % c.clkDiv);
  }

  lemma InputIsSynced(c: Clock)
    ensures InputRun(c).now == c.now && InputRun(c).last[INPUT_DEV] == Max(c.last[INPUT_DEV], c.now)
  {}

  lemma RemainderFits(ran: nat, clkDiv: Pos)
    ensures 0 <= ran / clkDiv && 0 <= ran % clkDiv < clkDiv
  {}

  lemma SendingIsPositive(tx: seq<nat>, clkDiv: Pos, clkCount: nat)
    requires clkCount < clkDiv
    ensures Sending(tx, clkDiv, clkCount) > 0
  {
    if tx != [] { MulLe(1, |tx|, clkDiv); }
  }

  /**
   * What a run of the input device sends: bytes from the front, and the cycles that they take and those
   * spent on the next one are all the cycles it got; the queue is empty when they are enough for it.
   */
  lemma InputIsExact(c: Clock)
    requires InputOk(c.tx, c.clkDiv, c.clkCount) && c.tx != []
    ensures var r, ran := InputRun(c), c.clkCount + c.Elapsed(INPUT_DEV);
      && (r.tx == [] <==> ran >= c.clkDiv * |c.tx|)
      && |r.tx| <= |c.tx| && r.tx == c.tx[|c.tx| - |r.tx|..]
      && (r.tx != [] ==> (|c.tx| - |r.tx|) * c.clkDiv + r.clkCount == ran && r.clkCount < c.clkDiv)
  {
    hide Sending;
    var ran, n := c.clkCount + c.Elapsed(INPUT_DEV), |c.tx|;
    RemainderFits(ran, c.clkDiv);
    SentBytes(ran, c.clkDiv, n);
  }

  lemma SentBytes(ran: nat, clkDiv: Pos, n: nat)
    ensures ran / clkDiv >= n <==> ran >= clkDiv * n
    ensures ran / clkDiv * clkDiv + ran % clkDiv == ran
  {
    if ran / clkDiv >= n { MulLe(n, ran / clkDiv, clkDiv); } else { MulLe(ran / clkDiv + 1, n, clkDiv); }
  }

  /**
   * A store to the CONF register: from then on a byte takes eight bits of 16 cycles for each count of the
   * divider in the upper half, starting anew; bit 0 clears the queue.
   */
  lemma InputConfIs(c: Clock, v: nat)
    requires Ok(c) && v < U32
    ensures var r := InputConf(c, v);
      && r.clkDiv == 8 * 16 * (v / 0x1_0000 + 1) && r.clkCount == 0
      && r.tx == (if v % 2 == 1 then [] else InputRun(c).tx)
      && r.next[INPUT_DEV] == r.last[INPUT_DEV] + (if r.tx == [] then 22_579_200 else r.clkDiv * |r.tx|)
  {
    InputIsSynced(c);
    var c1 := InputRun(c);
    var div: Pos := (v / 0x1_0000 % 0x1_0000 + 1) * 128;
    var c2 := c1.(tx := if v % 2 == 1 then [] else c1.tx, clkDiv := div, clkCount := 0);
    assert c2.Elapsed(INPUT_DEV) == 0;
    ZeroOver(div);
    hide InputRun;
    NothingSent(c2);
  }

  /** A store to the TX register appends a byte, unless 16 of them wait already. */
  lemma InputTxIs(c: Clock, b: nat)
    requires Ok(c)
    ensures var tx, r := InputRun(c).tx, InputTx(c, b);
      && r.tx == (if |tx| < 16 then tx + [b] else tx) && r.clkDiv == c.clkDiv
      && r.next[INPUT_DEV] == r.last[INPUT_DEV] + r.clkDiv * |r.tx| - r.clkCount && r.clkCount < r.clkDiv
  {
    InputIsSynced(c);
    InputRuns(c);
    var c1 := InputRun(c);
    var c2 := if |c1.tx| < TX_LEN then c1.(tx := c1.tx + [b]) else c1;
    assert c2.Elapsed(INPUT_DEV) == 0 && c2.tx != [];
    KeepsDivider(c);
    hide InputRun;
    NothingSentYet(c2);
  }

  lemma KeepsDivider(c: Clock)
    ensures InputRun(c).clkDiv == c.clkDiv
  {}

  lemma NothingSentYet(c: Clock)
    requires c.Elapsed(INPUT_DEV) == 0 && c.clkCount < c.clkDiv && c.tx != []
    ensures var r := InputRun(c);
      && r.tx == c.tx && r.clkDiv == c.clkDiv && r.clkCount == c.clkCount
      && r.next[INPUT_DEV] == r.last[INPUT_DEV] + c.clkDiv * |c.tx| - c.clkCount
  {
    DivModUnique(c.clkCount, c.clkDiv, 0, c.clkCount);
  }

  lemma ZeroOver(n: Pos)
    ensures 0 / n == 0 && 0 % n == 0
  {
    DivModUnique(0, n, 0, 0);
  }

  lemma NothingSent(c: Clock)
    requires c.Elapsed(INPUT_DEV) == 0 && c.clkCount == 0
    ensures var r := InputRun(c);
      && r.tx == c.tx && r.clkDiv == c.clkDiv && r.clkCount == 0
      && r.next[INPUT_DEV] == r.last[INPUT_DEV] + (if c.tx == [] then 22_579_200 else c.clkDiv * |c.tx|)
  {
    ZeroOver(c.clkDiv);
  }

  /** A store between two runs of the input device, whatever it does to the bytes to send. */
  lemma InputStores(c: Clock, tx: seq<nat>, clkDiv: Pos, clkCount: nat)
    requires Ok(c) && InputOk(tx, clkDiv, clkCount)
    ensures var c1 := InputRun(c).(tx := tx, clkDiv := clkDiv, clkCount := clkCount);
      Ok(InputRun(c1)) && Ran(INPUT_DEV, c, InputRun(c1))
  {
    hide TimerOk, GpuOk, SpuOk, DmaOk, InputOk, Sending, InputRun, Ran;
    var c1 := InputRun(c).(tx := tx, clkDiv := clkDiv, clkCount := clkCount);
    InputRuns(c);
    InputRuns(c1);
    RanTwice(INPUT_DEV, c, InputRun(c), c1, InputRun(c1));
  }

  /** Two runs, with a change in between that leaves the dates alone, are like one. */
  lemma RanTwice(who: nat, c: Clock, c1: Clock, c2: Clock, c3: Clock)
    requires Ran(who, c, c1) && Ran(who, c2, c3)
    requires c2.now == c1.now && c2.epoch == c1.epoch && c2.last == c1.last && c2.next == c1.next
    ensures Ran(who, c, c3)
  {
    assert c.last[who := c1.last[who]][who := c3.last[who]] == c.last[who := c3.last[who]];
    assert c.next[who := c1.next[who]][who := c3.next[who]] == c.next[who := c3.next[who]];
  }

  lemma InputConfStores(c: Clock, v: nat)
    requires Ok(c)
    ensures Ok(InputConf(c, v)) && Ran(INPUT_DEV, c, InputConf(c, v))
  {
    hide TimerOk, GpuOk, SpuOk, DmaOk, Ran, Sending;
    InputRuns(c);
    var tx := if v % 2 == 1 then [] else InputRun(c).tx;
    InputStores(c, tx, (v / 0x1_0000 % 0x1_0000 + 1) * 128, 0);
  }

  lemma InputTxStores(c: Clock, b: nat)
    requires Ok(c)
    ensures Ok(InputTx(c, b)) && Ran(INPUT_DEV, c, InputTx(c, b))
  {
    hide TimerOk, GpuOk, SpuOk, DmaOk, Ran, Sending;
    InputRuns(c);
    var c1 := InputRun(c);
    InputStores(c, if |c1.tx| < TX_LEN then c1.tx + [b] else c1.tx, c1.clkDiv, c1.clkCount);
  }

  lemma DmaStores(c: Clock, a: nat, words: nat)
    requires Ok(c) && InTime(c, DMA)
    ensures Ok(DmaSource(c, a)) && Ran(DMA, c, DmaSource(c, a)) && InTime(DmaSource(c, a), DMA)
    ensures DmaSource(c, a).src == a && DmaSource(c, a).words == DmaRun(c).words && DmaLength(c, words).words == words
    ensures var c' := DmaLength(c, words);
      && Ok(c') && c'.last[DMA] < c'.next[DMA] && InTime(c', DMA)
      && c'.next[DMA] == c'.last[DMA] + if words > 0 then 32 else 22_579_200
  {
    hide TimerOk, GpuOk, SpuOk, InputOk, DmaRun;
    DmaRuns(c);
  }

  lemma DmaRuns(c: Clock)
    requires Ok(c) && InTime(c, DMA)
    ensures Ok(DmaRun(c)) && Ran(DMA, c, DmaRun(c)) && c.now <= DmaRun(c).last[DMA] + 128 + ACCESS_MAX
    ensures var r := DmaRun(c); r.next[DMA] == r.last[DMA] + if r.words > 0 then 128 else 22_579_200
  {
    hide TimerOk, GpuOk, SpuOk, InputOk, Sending;
    var elapsed := c.Elapsed(DMA);
    RemainderFits(elapsed, Dma.Cost(c.src));
    Pays(elapsed, Dma.Cost(c.src), c.words);
  }

  /**
   * No event is early: if a device runs exactly when it has asked for it, then what it has asked for
   * happens, unless it has asked for a second of rest.
   */
  lemma TimerEvent(c: Clock)
    requires Ok(c)
    ensures var r := TimerRun(c);
      && r.last[SYS_TIMER] < r.next[SYS_TIMER] <= r.last[SYS_TIMER] + 22_579_200
      && (r.next[SYS_TIMER] < r.last[SYS_TIMER] + 22_579_200 ==>
            !r.mtip && TimerRun(r.(now := r.next[SYS_TIMER])).mtip && !TimerRun(r.(now := r.next[SYS_TIMER] - 1)).mtip)
  {
    hide GpuOk, SpuOk, InputOk, DmaOk;
  }

  lemma GpuEvent(c: Clock)
    requires Ok(c) && InTime(c, GPU)
    ensures var r := GpuRun(c);
      && GpuRun(r.(now := r.next[GPU])).frames == r.frames + 1
      && (r.next[GPU] - 1 >= r.last[GPU] ==> GpuRun(r.(now := r.next[GPU] - 1)).frames == r.frames)
  {
    hide TimerOk, SpuOk, InputOk, DmaOk;
  }

  lemma InputEvent(c: Clock)
    requires OkButInput(c)
    ensures var r := InputRun(c);
      r.tx != [] ==>
        InputRun(r.(now := r.next[INPUT_DEV])).tx == [] && InputRun(r.(now := r.next[INPUT_DEV] - 1)).tx != []
  {
    InputRuns(c);
    var r := InputRun(c);
    if r.tx != [] {
      InputIsExact(r.(now := r.next[INPUT_DEV]));
      InputIsExact(r.(now := r.next[INPUT_DEV] - 1));
      ArmedToSend(c);
    }
  }

  lemma ArmedToSend(c: Clock)
    requires OkButInput(c)
    ensures var r := InputRun(c);
      r.tx != [] ==> r.next[INPUT_DEV] == r.last[INPUT_DEV] + r.clkDiv * |r.tx| - r.clkCount
  {
    hide Drop;
  }

  /** The words that the cycles pay for leave less than the price of one more. */
  lemma Pays(elapsed: nat, cost: Pos, words: nat)
    ensures var k := Dma.Min(words, elapsed / cost);
      0 <= elapsed - cost * k <= elapsed && (k < words ==> elapsed - cost * k < cost)
  {}
}

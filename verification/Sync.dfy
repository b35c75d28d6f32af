/**
 * How the emulator keeps time (src/sync.rs, `run_frame` of src/lib.rs): the synchronizer, and as far
 * as time goes the devices that run lazily by it. Each method is proved against the function of the
 * module ClockSpec that says what it does to the clock.
 */
module Sync {
  import opened Arith
  import opened ClockSpec
  import opened ClockTheorems
  import Dma

  /** Values have 32 bits; stores to RAM hit a word of it. */
  predicate InRange(a: Access) {
    match a
    case TimerWrite(off, v) => v < U32
    case InputConfWrite(v) => v < U32
    case DmaSourceWrite(a) => a < U32
    case DmaTargetWrite(a) => a < U32
    case DmaLengthWrite(n) => n < U32
    case RamWrite(i, v) => i < Dma.RAM_WORDS && v < U32
    case _ => true
  }

  predicate IsInput(a: Access) { a.InputLoad? || a.InputPort? || a.InputConfWrite? || a.InputTxWrite? }
  predicate IsDma(a: Access) { a.DmaSourceWrite? || a.DmaTargetWrite? || a.DmaLengthWrite? }

  class Machine {
    var cycleCounter: int
    const lastSync: array<int>
    const nextEvent: array<int>
    var firstEvent: int
    var running: bool
    var mtime: nat
    var mtimecmp: nat
    var mtip: bool
    var frameCycles: int
    var frameCounter: nat
    var samples: nat
    var txFifo: seq<nat>
    var clkDiv: Pos
    var clkCount: nat
    const dma: Dma.Engine
    ghost var epoch: int
    /** By how much stores to mtime have moved it. */
    ghost var shift: int
    /** Frames ended; the counter wraps. */
    ghost var frames: nat

    ghost predicate Shape()
      reads this, lastSync, nextEvent
    {
      lastSync.Length == nextEvent.Length == NUM_TOKENS && lastSync != nextEvent
    }

    /** The clock that the fields stand for. */
    ghost function Now(): Clock
      requires Shape()
      reads this, lastSync, nextEvent, dma
    {
      Clock(cycleCounter, lastSync[..], nextEvent[..], epoch, mtime, mtimecmp, mtip, shift, frameCycles, frames,
            samples, txFifo, clkDiv, clkCount, dma.remWords, dma.src)
    }

    ghost predicate Valid()
      reads this, lastSync, nextEvent, dma, dma.buf, dma.buf.buffer, dma.ram
    {
      Shape() && firstEvent == Now().First() && frameCounter == frames % U32 && dma.Ready()
    }

    constructor (rom: seq<nat>)
      ensures Valid() && Now() == START && running
      ensures fresh(lastSync) && fresh(nextEvent)
      ensures fresh(dma) && fresh(dma.buf) && fresh(dma.buf.buffer) && fresh(dma.ram)
    {
      lastSync := new int[NUM_TOKENS](_ => 0);
      nextEvent := new int[NUM_TOKENS](_ => 0);
      cycleCounter, firstEvent, running := 0, 0, true;
      mtime, mtimecmp, mtip := 0, 0xffff_ffff_ffff_ffff, false;
      frameCycles, frameCounter, samples := FRAME_CYCLES, 0, 0;
      txFifo, clkDiv, clkCount := [], 1, 0;
      dma := new Dma.Engine(rom);
      epoch, shift, frames := 0, 0, 0;
      new;
      MinIsLeast(nextEvent[..], NUM_TOKENS);
      assert lastSync[..] == [0, 0, 0, 0, 0] == nextEvent[..];
    }

    /**
     * `resync`: the cycles since the last sync, none when an event is handled in the past. That it is
     * not far in the past is an assertion of the source.
     */
    method Resync(who: nat) returns (elapsed: int)
      requires Shape() && who < NUM_TOKENS && cycleCounter - lastSync[who] > -300
      modifies lastSync
      ensures elapsed == old(Now()).Elapsed(who)
      ensures Now() == old(Now()).Synced(who, 0)
    {
      elapsed := cycleCounter - lastSync[who];
      if elapsed <= 0 {
        return 0;
      }
      lastSync[who] := cycleCounter;
    }

    /** `rewind`: give cycles back. */
    method Rewind(who: nat, cycles: int)
      requires Shape() && who < NUM_TOKENS && cycles >= 0
      modifies lastSync
      ensures lastSync[..] == old(lastSync[..])[who := old(lastSync[who]) - cycles]
    {
      lastSync[who] := lastSync[who] - cycles;
    }

    /** `refresh_first_event`. */
    method RefreshFirstEvent()
      requires Shape()
      modifies this`firstEvent
      ensures firstEvent == Now().First()
    {
      var first := nextEvent[0];
      for i := 1 to NUM_TOKENS
        invariant first == MinOf(nextEvent[..], i)
      {
        if nextEvent[i] < first {
          first := nextEvent[i];
        }
      }
      firstEvent := first;
    }

    /** `next_event`. */
    method NextEvent(who: nat, delay: int)
      requires Shape() && who < NUM_TOKENS
      modifies this`firstEvent, nextEvent
      ensures Now() == old(Now()).Armed(who, delay) && firstEvent == Now().First()
    {
      nextEvent[who] := lastSync[who] + delay;
      RefreshFirstEvent();
    }

    /** `fast_forward_to_next_event`. */
    method FastForward()
      requires Valid()
      modifies this`cycleCounter
      ensures Valid() && Now() == ClockTheorems.FastForward(old(Now()))
    {
      if firstEvent > 0 {
        cycleCounter := firstEvent;
      }
    }

    /** `rebase_counters`. */
    method Rebase()
      requires Valid()
      modifies this`cycleCounter, this`firstEvent, this`epoch, lastSync, nextEvent
      ensures Valid() && Now() == ClockTheorems.Rebase(old(Now()))
    {
      hide MinOf, Dma.Engine.Ready;
      var cc := cycleCounter;
      for i := 0 to NUM_TOKENS
        modifies lastSync, nextEvent
        invariant forall k :: 0 <= k < NUM_TOKENS ==>
          && lastSync[k] == old(lastSync[k]) - (if k < i then cc else 0)
          && nextEvent[k] == old(nextEvent[k]) - (if k < i then cc else 0)
      {
        lastSync[i] := lastSync[i] - cc;
        nextEvent[i] := nextEvent[i] - cc;
      }
      firstEvent := firstEvent - cc;
      cycleCounter := 0;
      epoch := epoch + cc;
      MinShifts(old(nextEvent[..]), nextEvent[..], cc, NUM_TOKENS);
    }

    // ---------- The devices ----------

    /** `systimer::check_for_irq`. */
    method CheckForIrq()
      requires Shape()
      modifies this`mtip, this`firstEvent, nextEvent
      ensures Now() == ClockSpec.CheckForIrq(old(Now())) && firstEvent == Now().First()
    {
      mtip := mtime >= mtimecmp;
      if mtip {
        NextEvent(SYS_TIMER, CPU_FREQ);
      } else {
        var toIrq := mtimecmp - mtime;
        toIrq := if toIrq < MTIME_HZ then toIrq else MTIME_HZ;
        NextEvent(SYS_TIMER, toIrq * CLK_DIV);
      }
    }

    /** `systimer::run`; a load does the same. */
    method TimerRun()
      requires Valid() && cycleCounter - lastSync[SYS_TIMER] > -300
      modifies this`mtime, this`mtip, this`firstEvent, lastSync, nextEvent
      ensures Valid() && Now() == ClockSpec.TimerRun(old(Now()))
    {
      hide MinOf, Dma.Engine.Ready, TimerDelay;
      var elapsed := Resync(SYS_TIMER);
      var ticks := elapsed / CLK_DIV;
      var rem := elapsed % CLK_DIV;
      mtime := mtime + ticks;
      Rewind(SYS_TIMER, rem);
      CheckForIrq();
    }

    /** `systimer::store_word`. */
    method TimerStore(off: nat, v: nat)
      requires Valid() && v < U32 && cycleCounter - lastSync[SYS_TIMER] > -300
      modifies this`mtime, this`mtimecmp, this`mtip, this`firstEvent, this`shift, lastSync, nextEvent
      ensures Valid() && Now() == ClockSpec.TimerStore(old(Now()), off, v)
    {
      hide MinOf, Dma.Engine.Ready, TimerDelay, WithLow, WithHigh, ClockSpec.TimerRun;
      TimerRun();
      ghost var before := mtime;
      match off {
        case 0 => mtime := WithLow(mtime, v);
        case 4 => mtime := WithHigh(mtime, v);
        case 8 => mtimecmp := WithLow(mtimecmp, v);
        case 0xc => mtimecmp := WithHigh(mtimecmp, v);
        case _ =>
      }
      shift := shift + mtime - before;
      CheckForIrq();
    }

    /** `gpu::run`, except for the commands; loads and stores do the same to the clock. */
    method GpuRun()
      requires Valid() && cycleCounter - lastSync[GPU] > -300
      modifies this`frameCycles, this`frameCounter, this`frames, this`firstEvent, lastSync, nextEvent
      ensures Valid() && Now() == ClockSpec.GpuRun(old(Now()))
    {
      hide MinOf, Dma.Engine.Ready;
      var elapsed := Resync(GPU);
      frameCycles := frameCycles - elapsed;
      if frameCycles <= 0 {
        CounterWraps(frames);
        frameCounter := (frameCounter + 1) % U32;
        frames := frames + 1;
        frameCycles := frameCycles + FRAME_CYCLES;
      }
      NextEvent(GPU, frameCycles);
    }

    /** `spu::run`, except for the sound. */
    method SpuRun()
      requires Valid() && cycleCounter - lastSync[SPU] > -300
      modifies this`samples, this`firstEvent, lastSync, nextEvent
      ensures Valid() && Now() == ClockSpec.SpuRun(old(Now()))
    {
      hide MinOf, Dma.Engine.Ready;
      var elapsed := Resync(SPU);
      var cycles := elapsed / AUDIO_DIVIDER;
      var rem := elapsed % AUDIO_DIVIDER;
      Rewind(SPU, rem);
      samples := samples + cycles;
      NextEvent(SPU, CPU_FREQ);
    }

    /** The loop of `input_dev::run`: a byte is sent whenever its cycles have passed. */
    method Send(elapsed: nat)
      modifies this`txFifo, this`clkCount
      ensures var ran := old(clkCount) + elapsed;
        txFifo == Drop(old(txFifo), ran / clkDiv) && clkCount == ran % clkDiv
    {
      clkCount := clkCount + elapsed;
      ghost var ran, n := clkCount, 0;
      while clkCount >= clkDiv
        invariant ran == clkDiv * n + clkCount && txFifo == Drop(old(txFifo), n)
      {
        clkCount := clkCount - clkDiv;
        txFifo := if txFifo == [] then [] else txFifo[1..];
        assert clkDiv * (n + 1) == clkDiv * n + clkDiv;
        n := n + 1;
      }
      DivModUnique(ran, clkDiv, n, clkCount);
    }

    /** `input_dev::run`, except for the bytes received. */
    method InputRun()
      requires Valid() && cycleCounter - lastSync[INPUT_DEV] > -300
      modifies this`txFifo, this`clkCount, this`firstEvent, lastSync, nextEvent
      ensures Valid() && Now() == ClockSpec.InputRun(old(Now()))
    {
      hide MinOf, Dma.Engine.Ready, Drop;
      var elapsed := Resync(INPUT_DEV);
      if txFifo == [] {
        clkCount := 0;
        NextEvent(INPUT_DEV, CPU_FREQ);
        return;
      }
      Send(elapsed);
      NextEvent(INPUT_DEV, if txFifo == [] then CPU_FREQ else clkDiv * |txFifo| - clkCount);
    }

    /** A store to the CONF register. */
    method InputConf(v: nat)
      requires Valid() && v < U32 && cycleCounter - lastSync[INPUT_DEV] > -300
      modifies this`txFifo, this`clkDiv, this`clkCount, this`firstEvent, lastSync, nextEvent
      ensures Valid() && Now() == ClockSpec.InputConf(old(Now()), v)
    {
      hide MinOf, Dma.Engine.Ready, ClockSpec.InputRun;
      InputRun();
      InputIsSynced(old(Now()));
      if v % 2 == 1 {
        txFifo := [];
      }
      clkDiv := (v / 0x1_0000 % 0x1_0000 + 1) * 16;
      clkDiv := clkDiv * 8;
      clkCount := 0;
      InputRun();
    }

    /** A store to the TX register. */
    method InputTx(b: nat)
      requires Valid() && cycleCounter - lastSync[INPUT_DEV] > -300
      modifies this`txFifo, this`clkCount, this`firstEvent, lastSync, nextEvent
      ensures Valid() && Now() == ClockSpec.InputTx(old(Now()), b)
    {
      hide MinOf, Dma.Engine.Ready, ClockSpec.InputRun;
      InputRun();
      InputIsSynced(old(Now()));
      if |txFifo| < TX_LEN {
        txFifo := txFifo + [b];
      }
      InputRun();
    }

    /** `dma::run`. */
    method DmaRun()
      requires Valid() && cycleCounter - lastSync[DMA] > -300
      modifies this`firstEvent, lastSync, nextEvent, dma`src, dma`dst, dma`remWords, dma`job
      modifies dma.buf, dma.buf.buffer, dma.ram
      ensures Valid() && Now() == ClockSpec.DmaRun(old(Now())) && dma.job.Continues(old(dma.job))
    {
      hide MinOf, Dma.Engine.Ready, Dma.Affordable, Dma.Cost;
      Dma.AffordableIs(dma.src, Now().Elapsed(DMA));
      var elapsed := Resync(DMA);
      NextEvent(DMA, CPU_FREQ);
      var back, delay, done := dma.Run(elapsed);
      Rewind(DMA, back);
      NextEvent(DMA, delay);
    }

    /**
     * Stores to the DMA registers. False where the source panics, at once or when the transfer gets
     * there: it would leave the memory that the engine can read or write.
     */
    method DmaStore(a: Access) returns (ok: bool)
      requires Valid() && cycleCounter - lastSync[DMA] > -300 && InRange(a)
      requires IsDma(a)
      modifies this`firstEvent, lastSync, nextEvent, dma, dma.buf, dma.buf.buffer, dma.ram
      ensures Valid() && (ok ==> Now() == Do(old(Now()), a))
      ensures ok == match a
        case DmaSourceWrite(s) => Dma.SourceOk(dma.rom, s, dma.remWords)
        case DmaTargetWrite(d) => Dma.TargetOk(d, dma.remWords)
        case DmaLengthWrite(n) => Dma.SourceOk(dma.rom, dma.src, n) && Dma.TargetOk(dma.dst, n)
        case _ => true
    {
      hide MinOf, Dma.Engine.Ready, ClockSpec.DmaRun, Dma.SourceOk, Dma.TargetOk;
      DmaRun();
      match a {
        case DmaSourceWrite(s) =>
          ok := Dma.SourceOk(dma.rom, s, dma.remWords);
          if ok {
            dma.SetSource(s);
          }
        case DmaTargetWrite(d) =>
          ok := Dma.TargetOk(d, dma.remWords);
          if ok {
            dma.SetTarget(d);
          }
        case DmaLengthWrite(n) =>
          ok := Dma.SourceOk(dma.rom, dma.src, n) && Dma.TargetOk(dma.dst, n);
          if ok {
            dma.IsReady();
            dma.Start(n);
            NextEvent(DMA, if n == 0 then CPU_FREQ else 32);
          }
      }
    }

    /** What an instruction does to the input device. */
    method InputAccess(a: Access)
      requires Valid() && InRange(a) && cycleCounter - lastSync[INPUT_DEV] > -300
      requires IsInput(a)
      modifies this`txFifo, this`clkDiv, this`clkCount, this`firstEvent, lastSync, nextEvent
      ensures Valid() && Now() == Do(old(Now()), a)
    {
      hide MinOf, Dma.Engine.Ready, ClockSpec.InputRun, ClockSpec.InputConf, ClockSpec.InputTx;
      match a {
        case InputLoad => InputRun();
        case InputPort =>
          InputIsSynced(Now());
          InputRun();
          InputRun();
        case InputConfWrite(v) => InputConf(v);
        case InputTxWrite(b) => InputTx(b);
      }
    }

    /** What it does to the timer, the GPU, the SPU and RAM. */
    method OtherAccess(a: Access)
      requires Valid() && InRange(a) && SyncedBy(Now(), cycleCounter) && !IsInput(a) && !IsDma(a)
      modifies this, lastSync, nextEvent, dma`job, dma.ram
      ensures Valid() && running == old(running) && Now() == Do(old(Now()), a)
    {
      hide MinOf, Dma.Engine.Ready, ClockSpec.TimerRun, ClockSpec.TimerStore, ClockSpec.GpuRun, ClockSpec.SpuRun;
      match a {
        case TimerLoad => TimerRun();
        case TimerWrite(off, v) => TimerStore(off, v);
        case GpuAccess => GpuRun();
        case SpuWrite => SpuRun();
        case RamWrite(i, v) => dma.StoreWord(i, v);
      }
    }

    /** What an instruction does to a device; false where the source panics. */
    method DoAccess(a: Access, ghost began: int) returns (ok: bool)
      requires Valid() && InStep(Now(), began) && InRange(a)
      modifies this, lastSync, nextEvent, dma, dma.buf, dma.buf.buffer, dma.ram
      ensures Valid() && running == old(running) && (ok ==> Now() == Do(old(Now()), a) && InStep(Now(), began))
      ensures !IsDma(a) ==> ok
    {
      hide MinOf, Dma.Engine.Ready, InStep, Do, InRange, Dma.SourceOk, Dma.TargetOk;
      StepIsSynced(Now(), began);
      DoKeeps(Now(), a, began);
      ok := true;
      if IsDma(a) {
        ok := DmaStore(a);
      } else if IsInput(a) {
        InputAccess(a);
      } else {
        OtherAccess(a);
      }
    }

    // ---------- handle_events ----------

    /** The check in `handle_events` for one device. */
    method RunDevice(who: nat)
      requires Valid() && who < NUM_TOKENS && (firstEvent >= nextEvent[who] ==> cycleCounter - lastSync[who] > -300)
      modifies this, lastSync, nextEvent, dma, dma.buf, dma.buf.buffer, dma.ram
      ensures Valid() && running == old(running) && Now() == RunIfDue(old(Now()), who)
    {
      hide MinOf, Dma.Engine.Ready, ClockSpec.TimerRun, ClockSpec.GpuRun;
      hide ClockSpec.SpuRun, ClockSpec.InputRun, ClockSpec.DmaRun;
      if firstEvent >= nextEvent[who] {
        if who == SYS_TIMER {
          TimerRun();
        } else if who == GPU {
          GpuRun();
        } else if who == SPU {
          SpuRun();
        } else if who == INPUT_DEV {
          InputRun();
        } else {
          DmaRun();
        }
      }
    }

    /** One pass of `handle_events`, at the date of the first event. */
    method HandleFirst(ghost began: int)
      requires Valid() && Ok(Now()) && cycleCounter == firstEvent && Recent(Now(), began)
      modifies this, lastSync, nextEvent, dma, dma.buf, dma.buf.buffer, dma.ram
      ensures Valid() && running == old(running) && Now() == PassTo(old(Now()), NUM_TOKENS)
    {
      hide MinOf, Dma.Engine.Ready, Ok, Recent, RunIfDue;
      for who := 0 to NUM_TOKENS
        invariant Valid() && running == old(running) && Now() == PassTo(old(Now()), who)
      {
        PassOk(old(Now()), who);
        PassIsRecent(old(Now()), who, began);
        RunDevice(who);
      }
    }

    /** `handle_events`. */
    method HandleEvents(ghost began: int)
      requires Valid() && Ok(Now()) && Recent(Now(), began)
      modifies this, lastSync, nextEvent, dma, dma.buf, dma.buf.buffer, dma.ram
      ensures Valid() && running == old(running) && Now() == ClockTheorems.HandleEvents(old(Now()))
    {
      hide MinOf, Dma.Engine.Ready, Ok, Recent, PassTo;
      ghost var since := began;
      while cycleCounter >= firstEvent
        invariant Valid() && running == old(running) && Ok(Now()) && Recent(Now(), since)
        invariant ClockTheorems.HandleEvents(Now()) == ClockTheorems.HandleEvents(old(Now()))
        decreases cycleCounter - firstEvent
      {
        ghost var c := Now().(now := firstEvent);
        NowIsFree(Now(), firstEvent);
        RecentIsFree(Now(), firstEvent, since);
        PassAdvances(c);
        PassLeaves(c, since);
        var eventDelta := cycleCounter - firstEvent;
        cycleCounter := cycleCounter - eventDelta;
        HandleFirst(since);
        since := Since(c, since);
        NowIsFree(Now(), cycleCounter + eventDelta);
        RecentIsFree(Now(), cycleCounter + eventDelta, since);
        cycleCounter := cycleCounter + eventDelta;
      }
    }

    /** `cpu::step`; false where the source panics. */
    method StepCpu(i: Instruction) returns (ok: bool)
      requires Valid() && Settled(Now()) && Legal(i)
      requires i.Reach? ==> AllInRange(i.accesses)
      modifies this, lastSync, nextEvent, dma, dma.buf, dma.buf.buffer, dma.ram
      ensures Valid() && running == (old(running) && !i.Shutdown?)
      ensures ok ==> Now() == Step(old(Now()), i)
      ensures !i.Reach? ==> ok
    {
      hide MinOf, Dma.Engine.Ready, Ok, Recent, SyncedBy, InStep, Do;
      SettledIsRecent(Now(), i.cycles);
      ghost var began := cycleCounter;
      cycleCounter := cycleCounter + i.cycles;
      ghost var c := Now();
      match i {
        case Compute(_) =>
        case Shutdown(_) => running := false;
        case Wfi(_) => FastForward();
        case Reach(_, accesses) =>
          for k := 0 to |accesses|
            invariant Valid() && running == old(running) && InStep(Now(), began) && Now() == DoAll(c, accesses, k)
          {
            ok := DoAccess(accesses[k], began);
            if !ok {
              return;
            }
          }
      }
      ok := true;
    }

    /** The inner loop of `run_frame`: instructions until an event is due, or no more are given. */
    method RunUntilEvent(program: seq<Instruction>, start: nat) returns (pc: nat, ok: bool, ghost began: int)
      requires Valid() && Between(Now()) && start <= |program| && LegalProgram(program)
      modifies this, lastSync, nextEvent, dma, dma.buf, dma.buf.buffer, dma.ram
      ensures Valid() && start <= pc <= |program|
      ensures old(cycleCounter) < old(firstEvent) && start < |program| ==> start < pc
      ensures old(cycleCounter) >= old(firstEvent) ==> pc == start && cycleCounter == old(cycleCounter)
      ensures ok ==> Due(Now(), began) && epoch == old(epoch) && old(cycleCounter) <= cycleCounter
      ensures pc == start ==> running == old(running) && ok
    {
      hide MinOf, Dma.Engine.Ready, Between, Due, Settled, Step;
      pc, ok, began := start, true, if cycleCounter < firstEvent then cycleCounter else -1;
      AnyDue(Now());
      while cycleCounter < firstEvent && pc < |program|
        invariant Valid() && start <= pc <= |program| && Due(Now(), began) && epoch == old(epoch)
        invariant old(cycleCounter) <= cycleCounter && (cycleCounter < firstEvent ==> Settled(Now()))
        invariant pc == start ==> ok && running == old(running)
        invariant pc == start ==> cycleCounter == old(cycleCounter) && firstEvent == old(firstEvent)
        invariant old(cycleCounter) >= old(firstEvent) ==> pc == start
        decreases |program| - pc
      {
        StepIsDue(Now(), program[pc]);
        began := cycleCounter;
        ok := StepCpu(program[pc]);
        pc := pc + 1;
        if !ok {
          return;
        }
      }
    }

    /** A turn of the loop of `run_frame`. */
    method TakeTurn(program: seq<Instruction>, start: nat, asleep: bool) returns (pc: nat, ok: bool)
      requires Valid() && Between(Now()) && 0 <= cycleCounter && start < |program| && LegalProgram(program)
      modifies this, lastSync, nextEvent, dma, dma.buf, dma.buf.buffer, dma.ram
      ensures Valid() && start <= pc <= |program|
      ensures ok ==> Settled(Now()) && epoch == old(epoch) && old(cycleCounter) <= cycleCounter < firstEvent
      ensures ok && pc == start && old(cycleCounter) < old(firstEvent) ==>
        old(cycleCounter) < cycleCounter <= old(nextEvent[GPU])
      ensures ok && pc == start && old(cycleCounter) >= old(firstEvent) ==> cycleCounter == old(cycleCounter)
      ensures pc == start ==> running == old(running) && ok
    {
      hide MinOf, Dma.Engine.Ready, Between, Due, Settled, Step, ClockTheorems.FastForward, ClockTheorems.HandleEvents;
      ghost var began := -1;
      pc, ok := start, true;
      if asleep {
        ForwardIsDue(Now());
        began := if cycleCounter < firstEvent then cycleCounter else -1;
        FastForward();
      } else {
        pc, ok, began := RunUntilEvent(program, start);
        if !ok {
          return;
        }
      }
      DueIsHandled(Now(), began);
      HandleEvents(began);
    }

    /**
     * `run_frame`: instructions and waits in turn until the frame is over, the program shuts down, or no
     * more of it is given. `asleep` says before which turns the CPU waits for an interrupt.
     */
    method RunFrame(program: seq<Instruction>, asleep: nat -> bool) returns (pc: nat, ok: bool)
      requires Valid() && Started(Now()) && LegalProgram(program)
      modifies this, lastSync, nextEvent, dma, dma.buf, dma.buf.buffer, dma.ram
      ensures Valid() && pc <= |program|
      ensures ok ==> Started(Now()) && (old(frames) < frames || !running || pc == |program|)
      ensures ok ==> samples == epoch / AUDIO_DIVIDER && epoch >= old(epoch)
    {
      hide MinOf, Dma.Engine.Ready, Between, Settled, ClockTheorems.Rebase, ClockSpec.SpuRun;
      var curFrame := frameCounter;
      pc, ok := 0, true;
      var turn := 0;
      while running && frameCounter == curFrame && pc < |program|
        invariant Valid() && Between(Now()) && 0 <= cycleCounter && pc <= |program|
        invariant frames == Date(Now()) / FRAME_CYCLES && old(frames) <= frames && epoch == old(epoch)
        invariant frameCounter != curFrame ==> old(frames) < frames
        decreases |program| - pc, ToFrameEnd(frames, Date(Now()), frameCounter == curFrame), cycleCounter >= firstEvent
      {
        ghost var c := Now();
        pc, ok := TakeTurn(program, pc, asleep(turn));
        if !ok {
          return;
        }
        turn := turn + 1;
        TurnEnded(c, Now());
        CounterMoves(c.frames);
      }
      FrameEnds(Now());
      SpuRun();
      Rebase();
    }
  }

  /** Instructions as the CPU can execute them. */
  predicate LegalProgram(program: seq<Instruction>) {
    forall k :: 0 <= k < |program| ==> Legal(program[k]) && (program[k].Reach? ==> AllInRange(program[k].accesses))
  }

  predicate AllInRange(accesses: seq<Access>) { forall k :: 0 <= k < |accesses| ==> InRange(accesses[k]) }

  lemma StepIsSynced(c: Clock, began: int)
    requires InStep(c, began)
    ensures SyncedBy(c, c.now)
  {}

  lemma CounterMoves(frames: nat)
    ensures (frames + 1) % U32 != frames % U32
  {}

  lemma CounterWraps(frames: nat)
    ensures (frames % U32 + 1) % U32 == (frames + 1) % U32
  {}
}

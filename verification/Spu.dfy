/**
 * One voice of the sound processor (src/spu.rs): the decoder that walks 16-byte blocks in sound
 * RAM, the FIFO between it and the resampler, and the phase that decides how fast the FIFO is read.
 */
module Spu {
  import opened Arith
  import opened Wrappers
  import opened Ring
  import opened Adpcm
  import Envelope

  /** Words of sound RAM. */
  const RAM_SIZE: nat := 0x4_0000

  /** Decoding goes on below this many samples in the FIFO. */
  const FIFO_LOW: nat := 11
  const FIFO_SIZE: nat := 16

  type Ram = r: seq<nat> | |r| == RAM_SIZE && forall k :: 0 <= k < |r| ==> r[k] < 0x1_0000
    witness seq(RAM_SIZE, _ => 0)

  // ---------- Headers ----------

  predicate End(header: nat) { header / 0x100 % 2 != 0 }
  predicate IsLoop(header: nat) { header / 0x200 % 2 != 0 }
  predicate LoopStart(header: nat) { header / 0x400 % 2 != 0 }

  const WEIGHTS: seq<(int, int)> := [
    (0, 0), (60, 0), (115, -52), (98, -55), (122, -60), (0, 0), (0, 0), (0, 0),
    (0, 0), (0, 0), (0, 0), (0, 0), (0, 0), (0, 0), (0, 0), (0, 0)]

  /** The prediction that a header asks for. */
  function Predict(header: nat): Predictor {
    var (wp, wn) := WEIGHTS[header / 16 % 16];
    (p: Prev) => p.p0 * wp / 64 + p.p1 * wn / 64
  }

  function ShiftOf(header: nat): (s: nat)
    ensures s <= 12
  {
    if header % 16 <= 12 then header % 16 else 12
  }

  // ---------- What the decoder means ----------

  /** The decoder's position: next word, loop target, header of the current block, last two samples. */
  datatype Walk = Walk(cur: nat, loopIndex: nat, header: nat, last: Prev)

  datatype Progress = Progress(walk: Walk, samples: seq<int>, stop: bool)

  function Inc(i: nat): (j: nat)
    ensures j < RAM_SIZE
  {
    (i + 1) % RAM_SIZE
  }

  /** Going into the block at `c`. */
  function Enter(ram: Ram, w: Walk, c: nat): Walk
    requires c < RAM_SIZE
  {
    Walk(Inc(c), if LoopStart(ram[c]) then c else w.loopIndex, ram[c], w.last)
  }

  /** The four samples of one word. */
  function Four(e: nat, header: nat, last: Prev): (s: seq<int>)
    ensures |s| == 4
  {
    Decode(Unpack([e]), last, Predict(header), ShiftOf(header))
  }

  function DecodeWord(ram: Ram, w: Walk): Progress
    requires w.cur < RAM_SIZE
  {
    var s := Four(ram[w.cur], w.header, w.last);
    Progress(w.(cur := Inc(w.cur), last := Prev(s[3], s[2])), s, false)
  }

  /** Blocks, and so the loop target, are aligned to eight words. */
  predicate InRam(w: Walk) { w.cur < RAM_SIZE && w.loopIndex < RAM_SIZE && w.loopIndex % 8 == 0 }

  /** After the last block of a voice that does not loop. */
  predicate Stops(w: Walk) { w.cur % 8 == 0 && End(w.header) && !IsLoop(w.header) }

  /** At a block start, the block that comes next: the following one, or the loop target after an end block. */
  function Entered(ram: Ram, w: Walk): Walk
    requires InRam(w)
  {
    if w.cur % 8 != 0 then w else Enter(ram, w, if End(w.header) then w.loopIndex else w.cur)
  }

  /** One round of the decoder. */
  function Round(ram: Ram, w: Walk): (p: Progress)
    requires InRam(w)
    ensures InRam(p.walk) && |p.samples| == if p.stop then 0 else 4
  {
    if Stops(w) then Progress(w, [], true) else DecodeWord(ram, Entered(ram, w))
  }

  /** `n` rounds, or fewer if the voice stops. */
  function Rounds(ram: Ram, w: Walk, n: nat): (p: Progress)
    requires InRam(w)
    ensures InRam(p.walk) && (!p.stop ==> |p.samples| == 4 * n) && |p.samples| <= 4 * n
  {
    if n == 0 then Progress(w, [], false)
    else
      var p := Rounds(ram, w, n - 1);
      if p.stop then p
      else
        var q := Round(ram, p.walk);
        Progress(q.walk, p.samples + q.samples, q.stop)
  }

  lemma {:induction false} RoundsCompose(ram: Ram, w: Walk, m: nat, n: nat)
    requires InRam(w)
    ensures var p, t := Rounds(ram, w, m), Rounds(ram, w, m + n);
      if p.stop then t == p
      else var q := Rounds(ram, p.walk, n); t == Progress(q.walk, p.samples + q.samples, q.stop)
  {
    hide Round;
    if n > 0 { RoundsCompose(ram, w, m, n - 1); }
  }

  /** How many rounds fill a FIFO of `len` samples. */
  function Needed(len: nat): nat { if len < FIFO_LOW then (14 - len) / 4 else 0 }

  // ---------- The voice ----------

  class Voice {
    const adsr: Envelope.Adsr
    var stepLength: nat
    var phase: nat
    var startIndex: nat
    var curIndex: nat
    var loopIndex: nat
    var blockHeader: nat
    var lastSamples: Prev
    const fifo: Fifo<int>
    /** Every sample pushed so far, and how many of them have been discarded. */
    ghost var history: seq<int>
    ghost var consumed: nat

    ghost predicate Valid()
      reads this, adsr, fifo, fifo.buffer
    {
      && adsr.Valid()
      && phase < 0x1000 && stepLength < 0x4000
      && startIndex < RAM_SIZE && startIndex % 8 == 0 && InRam(Here())
      && consumed <= |history| <= consumed + 14 && FifoOk()
    }

    /** The FIFO holds everything that was pushed and not yet discarded: no push was dropped. */
    ghost predicate FifoOk()
      reads this`history, this`consumed, fifo, fifo.buffer
    {
      && fifo.Valid() && fifo.buffer.Length == FIFO_SIZE && fifo.Len() <= 14
      && consumed <= |history| && fifo.Contents() == history[consumed..]
    }

    ghost function Here(): Walk
      reads this`curIndex, this`loopIndex, this`blockHeader, this`lastSamples
    {
      Walk(curIndex, loopIndex, blockHeader, lastSamples)
    }

    constructor ()
      ensures Valid() && fresh(adsr) && fresh(fifo) && fresh(fifo.buffer) && adsr.phase == Envelope.Stopped
      ensures Here() == Walk(0, 0, 0, Prev(0, 0)) && history == []
    {
      adsr := new Envelope.Adsr();
      Pow2Values();
      assert IsPow2(FIFO_SIZE) by { assert FIFO_SIZE == Pow2(4); }
      fifo := new Fifo<int>(FIFO_SIZE);
      stepLength, phase, startIndex := 0, 0, 0;
      curIndex, loopIndex, blockHeader, lastSamples := 0, 0, 0, Prev(0, 0);
      history, consumed := [], 0;
    }

    /** `start`: the FIFO, the last two samples and the loop target stay as they were. */
    method Start()
      requires Valid()
      modifies this`curIndex, this`phase, this`blockHeader, adsr
      ensures Valid() && adsr.Now() == Envelope.State(Envelope.Attack, 0, 0)
      ensures phase == 0 && Here() == Walk(startIndex, old(loopIndex), 0, old(lastSamples))
    {
      curIndex := startIndex;
      phase := 0;
      blockHeader := 0;
      adsr.BeginAttack();
    }

    method IncIndex()
      requires curIndex < RAM_SIZE
      modifies this`curIndex
      ensures curIndex == Inc(old(curIndex))
    {
      curIndex := (curIndex + 1) % RAM_SIZE;
    }

    /** How many samples wait in the FIFO. */
    function Buffered(): (n: nat)
      requires FifoOk()
      reads this`history, this`consumed, fifo, fifo.buffer
      ensures n == |history| - consumed
    {
      fifo.Len()
    }

    /** One sample of `decode` into the FIFO. */
    method PushSample(sample: int)
      requires FifoOk() && |history| < consumed + 14
      modifies this`lastSamples, this`history, fifo, fifo.buffer
      ensures FifoOk() && history == old(history) + [sample] && lastSamples == old(lastSamples).Then(sample)
    {
      fifo.Push(sample);
      lastSamples := lastSamples.Then(sample);
      assert (history + [sample])[consumed..] == history[consumed..] + [sample];
      history := history + [sample];
    }

    /** `decode`: four samples. */
    method Decode4(encoded: nat)
      requires encoded < 0x1_0000 && FifoOk() && |history| < consumed + FIFO_LOW
      modifies this`lastSamples, this`history, fifo, fifo.buffer
      ensures FifoOk()
      ensures var s := Four(encoded, blockHeader, old(lastSamples));
        history == old(history) + s && lastSamples == Prev(s[3], s[2])
    {
      hide Nibble, DecodeOne, FifoOk, ShiftOf;
      var predict, shift := Predict(blockHeader), ShiftOf(blockHeader);
      ghost var ds := Unpack([encoded]);
      ghost var out: seq<int> := [];
      for i := 0 to 4
        invariant out == DecodeUpTo(ds, old(lastSamples), predict, shift, i)
        invariant lastSamples == PrevAt(out, old(lastSamples), i)
        invariant history == old(history) + out && FifoOk()
      {
        UnpackAt([encoded], 0, i);
        var sample := DecodeSample(encoded, i, lastSamples, predict, shift);
        PrevOfNext(out, sample, old(lastSamples));
        PushSample(sample);
        out := out + [sample];
      }
    }

    /** The part of `run_voice_decoder` for a new block; true when there is none. */
    method ReadHeader(ram: Ram) returns (stop: bool)
      requires InRam(Here())
      modifies this`curIndex, this`loopIndex, this`blockHeader
      ensures InRam(Here()) && stop == Stops(old(Here()))
      ensures Here() == if stop then old(Here()) else Entered(ram, old(Here()))
    {
      if curIndex % 8 == 0 {
        if End(blockHeader) {
          if IsLoop(blockHeader) {
            curIndex := loopIndex;
          } else {
            return true;
          }
        }
        blockHeader := ram[curIndex];
        if LoopStart(blockHeader) {
          loopIndex := curIndex;
        }
        IncIndex();
      }
      return false;
    }

    /** One pass through the loop of `run_voice_decoder`; true when the voice has no more samples. */
    method DecodeRound(ram: Ram) returns (stop: bool)
      requires InRam(Here()) && FifoOk() && |history| < consumed + FIFO_LOW
      modifies this`curIndex, this`loopIndex, this`blockHeader, this`lastSamples, this`history, fifo, fifo.buffer
      ensures FifoOk()
      ensures var p := Round(ram, old(Here()));
        stop == p.stop && Here() == p.walk && history == old(history) + p.samples
    {
      hide Enter, Four, Inc, FifoOk, Stops;
      stop := ReadHeader(ram);
      if !stop {
        var encoded := ram[curIndex];
        IncIndex();
        Decode4(encoded);
      }
    }

    /** The loop of `run_voice_decoder`. */
    method FillFifo(ram: Ram) returns (stop: bool)
      requires InRam(Here()) && FifoOk() && consumed <= |history| <= consumed + 14
      modifies this`curIndex, this`loopIndex, this`blockHeader, this`lastSamples, this`history, fifo, fifo.buffer
      ensures InRam(Here()) && FifoOk() && |history| <= consumed + 14 && (!stop ==> |history| >= consumed + FIFO_LOW)
      ensures var p := Rounds(ram, old(Here()), Needed(|old(history)| - consumed));
        stop == p.stop && Here() == p.walk && history == old(history) + p.samples
    {
      hide Round, FifoOk, Buffered;
      ghost var len, w, n := |history| - consumed, Here(), 0;
      while Buffered() < FIFO_LOW
        invariant InRam(Here()) && FifoOk() && |history| == consumed + len + 4 * n && n <= Needed(len)
        invariant Rounds(ram, w, n).walk == Here() && !Rounds(ram, w, n).stop
        invariant history == old(history) + Rounds(ram, w, n).samples
        decreases FIFO_LOW - (|history| - consumed)
      {
        stop := DecodeRound(ram);
        if stop {
          RoundsCompose(ram, w, n + 1, Needed(len) - n - 1);
          return;
        }
        n := n + 1;
      }
      return false;
    }

    /** `run_voice_decoder`: fill the FIFO, or stop the voice at the end of its last block. */
    method RunVoiceDecoder(ram: Ram)
      requires Valid()
      modifies this`curIndex, this`loopIndex, this`blockHeader, this`lastSamples, this`history
      modifies adsr`phase, fifo, fifo.buffer
      ensures Valid()
      ensures var p := Rounds(ram, old(Here()), Needed(|old(history)| - consumed));
        && Here() == p.walk && history == old(history) + p.samples
        && adsr.Now() == (if p.stop then old(adsr.Now()).(phase := Envelope.Stopped) else old(adsr.Now()))
        && (!p.stop ==> |history| >= consumed + FIFO_LOW)
    {
      hide Rounds, Needed, FifoOk;
      var stop := FillFifo(ram);
      if stop {
        adsr.Stop();
      }
    }

    /** `step`: throw away the samples that the phase has moved past. */
    method Step()
      requires Valid() && |history| >= consumed + FIFO_LOW
      modifies this`phase, this`consumed, fifo`readIdx
      ensures Valid() && adsr.Valid()
      ensures phase == (old(phase) + stepLength) % 0x1000
      ensures consumed == old(consumed) + (old(phase) + stepLength) / 0x1000
    {
      hide Envelope.Adsr.Valid;
      var step := phase + stepLength;
      phase := step % 0x1000;
      var skip := step / 0x1000;
      assert fifo.Contents() == history[consumed..];
      fifo.Discard(skip);
      consumed := consumed + skip;
    }

    /** The samples that `next_raw_sample` interpolates between. */
    method NextRawSamples() returns (samples: seq<int>)
      requires Valid() && |history| >= consumed + FIFO_LOW
      ensures samples == history[consumed..consumed + 4]
    {
      return [fifo.At(0), fifo.At(1), fifo.At(2), fifo.At(3)];
    }

    /** `run_voice_cycle`: the four samples under the resampler, unless the voice is or gets stopped. */
    method RunVoiceCycle(ram: Ram) returns (heard: Option<seq<int>>)
      requires Valid()
      modifies this`curIndex, this`loopIndex, this`blockHeader, this`lastSamples, this`history
      modifies this`phase, this`consumed, adsr`phase, adsr`level, adsr`divider, fifo, fifo.buffer
      ensures Valid() && old(history) <= history
      ensures old(adsr.phase) == Envelope.Stopped ==> heard == None && history == old(history) && Here() == old(Here())
      ensures old(adsr.phase) != Envelope.Stopped ==>
        var p := Rounds(ram, old(Here()), Needed(|old(history)| - old(consumed)));
        && Here() == p.walk && history == old(history) + p.samples && heard.None? == p.stop
      ensures heard.None? ==> adsr.phase == Envelope.Stopped && consumed == old(consumed) && phase == old(phase)
      ensures heard.Some? ==>
        && |history| >= old(consumed) + 4
        && heard.value == history[old(consumed)..old(consumed) + 4]
        && phase == (old(phase) + stepLength) % 0x1000
        && consumed == old(consumed) + (old(phase) + stepLength) / 0x1000
        && adsr.Now() == Envelope.Cycle(old(adsr.Now()), adsr.config)
    {
      hide Rounds, Needed, FifoOk, Envelope.Adsr.Valid, Envelope.Cycle;
      if adsr.phase == Envelope.Stopped {
        return None;
      }
      RunVoiceDecoder(ram);
      if adsr.phase == Envelope.Stopped {
        return None;
      }
      var samples := NextRawSamples();
      adsr.RunCycle();
      Step();
      return Some(samples);
    }

    /** Having played `|heard|` cycles from a state with walk `w`, stream `h`, and place `start`, `ph`. */
    ghost predicate Playing(ram: Ram, w: Walk, h: seq<int>, start: nat, ph: nat, rounds: nat, heard: seq<seq<int>>)
      requires InRam(w)
      reads this, adsr, fifo, fifo.buffer
    {
      && Valid()
      && Here() == Rounds(ram, w, rounds).walk && history == h + Rounds(ram, w, rounds).samples
      && (Rounds(ram, w, rounds).stop ==> adsr.phase == Envelope.Stopped)
      && consumed == Position(start, ph, stepLength, |heard|) && phase == PhaseAt(ph, stepLength, |heard|)
      && AllHeard(history, start, ph, stepLength, heard)
    }

    /** One audio cycle; true when the voice is silent from now on. */
    method PlayCycle(ram: Ram, ghost w: Walk, ghost h: seq<int>, ghost start: nat, ghost ph: nat,
                     ghost rounds: nat, heard: seq<seq<int>>)
      returns (heard': seq<seq<int>>, ghost rounds': nat, silent: bool)
      requires InRam(w) && Playing(ram, w, h, start, ph, rounds, heard)
      modifies this`curIndex, this`loopIndex, this`blockHeader, this`lastSamples, this`history
      modifies this`phase, this`consumed, adsr`phase, adsr`level, adsr`divider, fifo, fifo.buffer
      ensures Playing(ram, w, h, start, ph, rounds', heard')
      ensures |heard'| == |heard| + (if silent then 0 else 1) && (silent ==> adsr.phase == Envelope.Stopped)
    {
      hide Rounds, Needed, FifoOk, Envelope.Adsr.Valid, Envelope.Cycle, Position, PhaseAt, AllHeard;
      ghost var before, needed := history, Needed(|history| - consumed);
      rounds' := if adsr.phase == Envelope.Stopped then rounds else rounds + needed;
      PositionStep(start, ph, stepLength, |heard|);
      RoundsCompose(ram, w, rounds, needed);
      var r := RunVoiceCycle(ram);
      HeardLater(before, history, heard, start, ph, stepLength);
      if r.None? {
        return heard, rounds', true;
      }
      HeardNow(history, heard, r.value, start, ph, stepLength);
      return heard + [r.value], rounds', false;
    }

    /**
     * `n` audio cycles of this voice, or fewer if it falls silent. What is heard at cycle `i` is
     * four neighbouring samples of the decoded stream, at the place that `i` steps of the phase
     * lead to.
     */
    method Play(ram: Ram, n: nat) returns (heard: seq<seq<int>>, ghost rounds: nat)
      requires Valid()
      modifies this`curIndex, this`loopIndex, this`blockHeader, this`lastSamples, this`history
      modifies this`phase, this`consumed, adsr`phase, adsr`level, adsr`divider, fifo, fifo.buffer
      ensures Valid() && |heard| <= n && (|heard| < n ==> adsr.phase == Envelope.Stopped)
      ensures Here() == Rounds(ram, old(Here()), rounds).walk
      ensures history == old(history) + Rounds(ram, old(Here()), rounds).samples
      ensures AllHeard(history, old(consumed), old(phase), stepLength, heard)
    {
      ghost var w, h, start, ph := Here(), history, consumed, phase;
      hide FifoOk, Envelope.Adsr.Valid, Round, Position, PhaseAt, AllHeard;
      PlayStart(h, start, ph, stepLength);
      heard, rounds := [], 0;
      while |heard| < n
        invariant Playing(ram, w, h, start, ph, rounds, heard) && |heard| <= n
        decreases n - |heard|
      {
        var silent;
        heard, rounds, silent := PlayCycle(ram, w, h, start, ph, rounds, heard);
        if silent {
          return;
        }
      }
    }
  }

  /** Where in the stream the resampler is after `i` cycles. */
  function Position(start: nat, phase: nat, step: nat, i: nat): nat { start + (phase + i * step) / 0x1000 }

  function PhaseAt(phase: nat, step: nat, i: nat): nat { (phase + i * step) % 0x1000 }

  predicate HeardAt(history: seq<int>, pos: nat, samples: seq<int>) {
    pos + 4 <= |history| && samples == history[pos..pos + 4]
  }

  /** What was heard at each cycle. */
  ghost predicate AllHeard(history: seq<int>, start: nat, phase: nat, step: nat, heard: seq<seq<int>>) {
    forall i :: 0 <= i < |heard| ==> HeardAt(history, Position(start, phase, step, i), heard[i])
  }

  lemma PlayStart(history: seq<int>, start: nat, phase: nat, step: nat)
    requires phase < 0x1000
    ensures Position(start, phase, step, 0) == start && PhaseAt(phase, step, 0) == phase
    ensures AllHeard(history, start, phase, step, [])
  {}

  lemma HeardNow(history: seq<int>, heard: seq<seq<int>>, now: seq<int>, start: nat, phase: nat, step: nat)
    requires AllHeard(history, start, phase, step, heard)
    requires var pos := Position(start, phase, step, |heard|); pos + 4 <= |history| && now == history[pos..pos + 4]
    ensures AllHeard(history, start, phase, step, heard + [now])
  {
    hide Position;
  }

  lemma PositionStep(start: nat, phase: nat, step: nat, i: nat)
    ensures var here := PhaseAt(phase, step, i);
      && Position(start, phase, step, i) + (here + step) / 0x1000 == Position(start, phase, step, i + 1)
      && (here + step) % 0x1000 == PhaseAt(phase, step, i + 1)
  {
    var x := phase + i * step;
    assert phase + (i + 1) * step == x + step;
  }

  lemma HeardLater(before: seq<int>, after: seq<int>, heard: seq<seq<int>>, start: nat, phase: nat, step: nat)
    requires before <= after && AllHeard(before, start, phase, step, heard)
    ensures AllHeard(after, start, phase, step, heard)
  {
    hide Position;
  }
}

/**
 * The volume envelope of a voice (src/spu.rs): `AdsrConfig`, `EnvelopeParams` and `Adsr`. Levels
 * are signed and dividers unsigned 16-bit numbers.
 */
module Envelope {
  import opened Arith

  const STEP_AT: nat := 0x8000
  const LEVEL_MAX: int := 0x7fff

  datatype Phase = Attack | Decay | Sustain | Release | Stopped

  datatype Mode = Linear | SmoothUp(dividerStep: nat, levelStep: int) | Exponential

  datatype Params = Params(dividerStep: nat, levelStep: int, mode: Mode)

  /** `wrapping_add` of 16-bit signed numbers. */
  function WrapI16(x: int): int { (x + 0x8000) % 0x1_0000 - 0x8000 }

  // ---------- Parameters from the configuration register ----------

  function Field(config: nat, low: nat, size: nat): nat { Shr(config, low) % Pow2(size) }

  /** `EnvelopeParams::steps`. */
  function Steps(shift: nat, step: int): (int, int) {
    if shift < 11 then (STEP_AT, Shl(step, 11 - shift))
    else if shift - 11 <= 15 then (Shr(STEP_AT, shift - 11), step)
    else (1, step)
  }

  predicate StepsOk(dividerStep: int, levelStep: int) {
    1 <= dividerStep <= STEP_AT && -0x4000 <= levelStep <= 0x4000
  }

  lemma StepsWithin(shift: nat, step: int)
    requires -8 <= step <= 7
    ensures StepsOk(Steps(shift, step).0, Steps(shift, step).1)
    ensures step < 0 ==> Steps(shift, step).1 < 0
  {
    if shift < 11 {
      ShlBounds(step, 11 - shift);
    } else if shift - 11 <= 15 {
      ShrOfTop(shift - 11);
    }
  }

  lemma {:induction false} ShlBounds(step: int, k: nat)
    requires -8 <= step <= 7 && k <= 11
    ensures -8 * Pow2(k) <= Shl(step, k) <= 8 * Pow2(k) && Pow2(k) <= 0x800
    ensures step < 0 ==> Shl(step, k) < 0
    decreases k
  {
    if k > 0 { ShlBounds(step, k - 1); }
    Pow2Mono(k, 11);
    Pow2Add(8, 3);
    Pow2Values();
  }

  lemma {:induction false} ShrOfTop(k: nat)
    requires k <= 15
    ensures Shr(STEP_AT, k) == Pow2(15 - k) && 1 <= Shr(STEP_AT, k) <= STEP_AT
  {
    if k == 0 {
      Pow2Values();
    } else {
      ShrOfTop(k - 1);
    }
  }

  /** `EnvelopeMode::smooth_mode`. */
  function SmoothMode(step: int, baseDivider: nat, baseLevel: int): Mode {
    var divider :=
      if step > 10 && baseDivider > 3 then Shr(baseDivider, 2)
      else if step >= 10 && baseDivider > 1 then Shr(baseDivider, 1)
      else baseDivider;
    var level := if step < 10 then Shr(baseLevel, 2) else if step == 10 then Shr(baseLevel, 1) else baseLevel;
    SmoothUp(if divider <= 0 then 1 else divider, level)
  }

  /** The parameters for a shift and step, given the mode for an exponential envelope. */
  function Ramp(shift: nat, step: int, exp: bool, rawStep: nat): (p: Params)
    requires -8 <= step <= 7
  {
    StepsWithin(shift, step);
    var (divider, level) := Steps(shift, step);
    Params(divider, level,
           if !exp then Linear else if step < 0 then Exponential else SmoothMode(rawStep, divider, level))
  }

  function AttackParams(config: nat): Params {
    var step := 7 - Field(config, 6, 2);
    Ramp(Field(config, 1, 5), step, Field(config, 0, 1) != 0, step)
  }

  function DecayParams(config: nat): Params { Ramp(Field(config, 8, 4), -8, true, 8) }

  function SustainParams(config: nat): Params {
    var rawStep := 7 - Field(config, 19, 2);
    var step := if Field(config, 13, 1) != 0 then -rawStep - 1 else rawStep;
    Ramp(Field(config, 14, 5), step, Field(config, 12, 1) != 0, rawStep)
  }

  function ReleaseParams(config: nat): Params { Ramp(Field(config, 26, 5), -8, Field(config, 25, 1) != 0, 8) }

  function SustainLevel(config: nat): (l: int)
    ensures 0x7ff <= l <= LEVEL_MAX
  {
    assert Pow2(4) == 2 * Pow2(3) && Pow2(3) == 2 * Pow2(2) && Pow2(2) == 2 * Pow2(1);
    (Field(config, 21, 4) + 1) * 0x800 - 1
  }

  function ParamsOf(config: nat, phase: Phase): Params
    requires phase != Stopped
  {
    match phase
    case Attack => AttackParams(config)
    case Decay => DecayParams(config)
    case Sustain => SustainParams(config)
    case Release => ReleaseParams(config)
  }

  /** What keeps the 16-bit arithmetic of a cycle in range. */
  predicate ParamsOk(p: Params) {
    && StepsOk(p.dividerStep, p.levelStep)
    && match p.mode
       case Linear => true
       case SmoothUp(d, l) => StepsOk(d, l)
       case Exponential => p.levelStep < 0
  }

  lemma RampOk(shift: nat, step: int, exp: bool, rawStep: nat)
    requires -8 <= step <= 7 && rawStep <= 9
    ensures ParamsOk(Ramp(shift, step, exp, rawStep))
    ensures step < 0 ==> Falls(Ramp(shift, step, exp, rawStep))
  {
    StepsWithin(shift, step);
    var l := Steps(shift, step).1;
    assert Shr(l, 2) == Shr(l, 1) / 2 && Shr(l, 1) == l / 2;
  }

  /** Whatever is in the configuration register, no divider step is 0 or beyond the next step. */
  lemma EveryConfigIsOk(config: nat, phase: Phase)
    requires phase != Stopped
    ensures ParamsOk(ParamsOf(config, phase))
    ensures phase == Release ==> Falls(ParamsOf(config, phase))
  {
    hide Ramp, Shr;
    assert Pow2(2) == 2 * Pow2(1) && Pow2(1) == 2;
    match phase {
      case Attack =>
        var step := 7 - Field(config, 6, 2);
        RampOk(Field(config, 1, 5), step, Field(config, 0, 1) != 0, step);
      case Decay =>
        RampOk(Field(config, 8, 4), -8, true, 8);
      case Sustain =>
        var rawStep := 7 - Field(config, 19, 2);
        var step := if Field(config, 13, 1) != 0 then -rawStep - 1 else rawStep;
        RampOk(Field(config, 14, 5), step, Field(config, 12, 1) != 0, rawStep);
      case Release =>
        RampOk(Field(config, 26, 5), -8, Field(config, 25, 1) != 0, 8);
    }
  }

  // ---------- One cycle ----------

  function DividerStep(p: Params, level: int): nat {
    if p.mode.SmoothUp? && level >= 0x6000 then p.mode.dividerStep else p.dividerStep
  }

  function LevelStep(p: Params, level: int): int {
    match p.mode
    case Linear => p.levelStep
    case Exponential => WrapI16(p.levelStep * level / 0x8000)
    case SmoothUp(_, levelStep) => if level >= 0x6000 then levelStep else p.levelStep
  }

  /** The part of `Adsr` that a cycle changes. */
  datatype State = State(phase: Phase, level: int, divider: nat)

  /** Levels are 16-bit numbers; the envelope produces no negative ones, but the CPU can write them. */
  predicate IsLevel(level: int) { -0x8000 <= level <= LEVEL_MAX }

  predicate InRange(s: State) { 0 <= s.level <= LEVEL_MAX && s.divider < STEP_AT }

  /** A level step: the 16-bit sum, with the sign telling overflow from underflow. */
  function NextLevel(level: int, step: int): int {
    var sum := WrapI16(level + step);
    if sum >= 0 then sum else if step > 0 then LEVEL_MAX else 0
  }

  function NextPhase(phase: Phase, level: int, sustainLevel: int): Phase {
    if phase == Decay && level <= sustainLevel then Sustain
    else if phase == Release && level == 0 then Stopped
    else phase
  }

  function Cycle(s: State, config: nat): State
    requires s.phase != Stopped
  {
    var p := ParamsOf(config, s.phase);
    var divider := s.divider + DividerStep(p, s.level);
    if divider < STEP_AT then s.(divider := divider)
    else
      var level := NextLevel(s.level, LevelStep(p, s.level));
      State(NextPhase(s.phase, level, SustainLevel(config)), level, 0)
  }

  lemma LevelSteps(p: Params, level: int)
    requires ParamsOk(p) && 0 <= level <= LEVEL_MAX
    ensures -0x4000 <= LevelStep(p, level) <= 0x4000
    ensures p.mode == Exponential ==> LevelStep(p, level) == p.levelStep * level / 0x8000
    ensures p.mode == Exponential && level > 0 ==> LevelStep(p, level) < 0
  {
    if p.mode == Exponential {
      var x := p.levelStep * level;
      MulLe(p.levelStep, -1, level);
      MulLe(-0x4000, p.levelStep, level);
      assert -0x4000 * level <= x <= -level;
      assert -0x4000 <= x / 0x8000 <= 0;
    }
  }

  /** The level saturates: it is the sum, cut off at both ends of the range. */
  lemma NextLevelSaturates(level: int, step: int)
    requires 0 <= level <= LEVEL_MAX && -0x4000 <= step <= 0x4000
    ensures NextLevel(level, step)
         == if level + step < 0 then 0 else if level + step > LEVEL_MAX then LEVEL_MAX else level + step
  {
    var x := level + step + 0x8000;
    DivModUnique(x, 0x1_0000, if x >= 0x1_0000 then 1 else 0, if x >= 0x1_0000 then x - 0x1_0000 else x);
  }

  /**
   * In every phase, and even from a negative level, the divider sum of a cycle fits 16 bits, and the
   * level is in range from the next level step on.
   */
  lemma CycleInRange(s: State, config: nat)
    requires s.phase != Stopped && IsLevel(s.level) && s.divider < STEP_AT
    ensures s.divider + DividerStep(ParamsOf(config, s.phase), s.level) <= 0xffff
    ensures 1 <= DividerStep(ParamsOf(config, s.phase), s.level) <= STEP_AT
    ensures var t := Cycle(s, config);
      && IsLevel(t.level) && t.divider < STEP_AT
      && (s.level >= 0 || t.level != s.level || t.divider <= s.divider ==> InRange(t))
  {
    hide ParamsOf, LevelStep;
    EveryConfigIsOk(config, s.phase);
  }

  // ---------- Release ends ----------

  predicate Falls(p: Params) { p.levelStep < 0 && !p.mode.SmoothUp? }

  /**
   * The most cycles that a release can still take: at most 0x8000 for each level. The first step from
   * a negative level can lead anywhere.
   */
  function CyclesLeft(s: State): int {
    (if s.level > 0 then s.level else if s.level == 0 then 1 else LEVEL_MAX + 1) * STEP_AT - s.divider
  }

  lemma NegativeReleaseCycle(s: State, config: nat)
    requires s.phase == Release && -0x8000 <= s.level < 0 && s.divider < STEP_AT
    ensures var t := Cycle(s, config);
      && IsLevel(t.level) && t.divider < STEP_AT
      && ((t.phase == Stopped && t.level == 0) || (t.phase == Release && CyclesLeft(t) < CyclesLeft(s)))
  {
    hide ParamsOf, LevelStep, WrapI16;
    CycleInRange(s, config);
  }

  lemma ReleaseCycle(s: State, config: nat)
    requires s.phase == Release && InRange(s)
    ensures var t := Cycle(s, config);
      && InRange(t) && t.level <= s.level
      && ((t.phase == Stopped && t.level == 0) || (t.phase == Release && CyclesLeft(t) < CyclesLeft(s)))
  {
    hide ParamsOf, LevelStep, NextLevel;
    var p := ParamsOf(config, Release);
    EveryConfigIsOk(config, Release);
    CycleInRange(s, config);
    LevelSteps(p, s.level);
    NextLevelSaturates(s.level, LevelStep(p, s.level));
    ReleaseStep(p, s.level);
  }

  lemma ReleaseStep(p: Params, level: int)
    requires ParamsOk(p) && Falls(p) && 0 <= level <= LEVEL_MAX
    ensures level + LevelStep(p, level) <= (if level > 0 then level - 1 else 0)
  {
    LevelSteps(p, level);
  }

  /** `n` cycles, or fewer if the voice stops. */
  function Cycles(s: State, config: nat, n: nat): State
    decreases n
  {
    if n == 0 || s.phase == Stopped then s else Cycles(Cycle(s, config), config, n - 1)
  }

  lemma {:induction false} ReleaseRuns(s: State, config: nat, n: nat)
    requires s.phase == Release && IsLevel(s.level) && s.divider < STEP_AT && n >= CyclesLeft(s)
    ensures Cycles(s, config, n).phase == Stopped && Cycles(s, config, n).level == 0
    decreases n
  {
    hide Cycle;
    if s.level >= 0 { ReleaseCycle(s, config); } else { NegativeReleaseCycle(s, config); }
    if Cycle(s, config).phase == Release {
      ReleaseRuns(Cycle(s, config), config, n - 1);
    }
  }

  /**
   * However the release is configured, linear or exponential, a voice falls silent within
   * max(level, 1) * 0x8000 cycles of its release, or 0x8000 * 0x8000 cycles if the level is negative.
   */
  lemma ReleaseEnds(level: int, config: nat, n: nat)
    requires IsLevel(level) && n >= (if level > 0 then level else if level == 0 then 1 else 0x8000) * STEP_AT
    ensures Cycles(State(Release, level, 0), config, n).phase == Stopped
  {
    ReleaseRuns(State(Release, level, 0), config, n);
  }

  lemma {:induction false} ReleaseNeverRises(s: State, config: nat, m: nat, n: nat)
    requires s.phase == Release && InRange(s) && m <= n
    ensures 0 <= Cycles(s, config, n).level <= Cycles(s, config, m).level <= s.level
    decreases n
  {
    hide Cycle;
    if n > 0 {
      ReleaseCycle(s, config);
      var t := Cycle(s, config);
      if t.phase == Release {
        ReleaseNeverRises(t, config, if m > 0 then m - 1 else 0, n - 1);
      }
    }
  }

  // ---------- The register layout ----------

  /** Bits 5-1 for the attack, 11-8 for the decay, 18-14 for the sustain and 30-26 for the release. */
  function RampShift(config: nat, phase: Phase): nat
    requires phase != Stopped
  {
    match phase
    case Attack => config / 0x2 % 32
    case Decay => config / 0x100 % 16
    case Sustain => config / 0x4000 % 32
    case Release => config / 0x400_0000 % 32
  }

  /** Attacks rise in steps of 4 to 7; a sustain does too, or falls in steps of 5 to 8 if bit 13 is set. */
  function RampStep(config: nat, phase: Phase): int
    requires phase != Stopped
  {
    match phase
    case Attack => 7 - config / 0x40 % 4
    case Decay => -8
    case Sustain => if config / 0x2000 % 2 == 1 then config / 0x8_0000 % 4 - 8 else 7 - config / 0x8_0000 % 4
    case Release => -8
  }

  /** Bits 0, 12 and 25 make the attack, the sustain and the release exponential; the decay always is. */
  predicate RampExp(config: nat, phase: Phase)
    requires phase != Stopped
  {
    match phase
    case Attack => config % 2 == 1
    case Decay => true
    case Sustain => config / 0x1000 % 2 == 1
    case Release => config / 0x200_0000 % 2 == 1
  }

  /** A level step comes every so many cycles: one for a shift up to 11, twice as many for each more, at most 0x8000. */
  function Period(shift: nat): nat { Pow2(if shift <= 11 then 0 else if shift <= 26 then shift - 11 else 15) }

  /** Below 11, each less doubles the step. */
  function Size(shift: nat, step: int): int { if shift < 11 then step * Pow2(11 - shift) else step }

  lemma {:induction false} ShrIsDiv(x: nat, k: nat)
    ensures Shr(x, k) == x / Pow2(k)
  {
    if k > 0 {
      ShrIsDiv(x, k - 1);
      DivTwice(x, Pow2(k - 1));
    }
  }

  lemma DivTwice(x: nat, n: nat)
    requires n > 0
    ensures x / n / 2 == x / (2 * n)
  {
    var q := x / n;
    assert x == n * q + x % n && q == 2 * (q / 2) + q % 2;
    assert n * q == (2 * n) * (q / 2) + n * (q % 2);
    DivModUnique(x, 2 * n, q / 2, n * (q % 2) + x % n);
  }

  lemma {:induction false} ShlIsMul(x: int, k: nat)
    ensures Shl(x, k) == x * Pow2(k)
  {
    if k > 0 {
      ShlIsMul(x, k - 1);
      MulAssoc(x, 2, Pow2(k - 1));
    }
  }

  lemma StepsAre(shift: nat, step: int)
    requires -8 <= step <= 7
    ensures Steps(shift, step).0 * Period(shift) == 0x8000 && Steps(shift, step).1 == Size(shift, step)
  {
    Pow2Values();
    if shift < 11 {
      ShlIsMul(step, 11 - shift);
    } else {
      var k := if shift - 11 <= 15 then shift - 11 else 15;
      ShrOfTop(k);
      Pow2Add(15 - k, k);
    }
  }

  lemma FieldIs(config: nat, low: nat, size: nat)
    ensures Field(config, low, size) == config / Pow2(low) % Pow2(size)
  {
    ShrIsDiv(config, low);
  }

  lemma MorePowers()
    ensures Pow2(5) == 32 && Pow2(6) == 0x40 && Pow2(13) == 0x2000 && Pow2(14) == 0x4000 && Pow2(19) == 0x8_0000
    ensures Pow2(21) == 0x20_0000 && Pow2(25) == 0x200_0000 && Pow2(26) == 0x400_0000
  {
    Pow2Values();
    Pow2Add(4, 1);
    Pow2Add(4, 2);
    Pow2Add(12, 1);
    Pow2Add(12, 2);
    Pow2Add(17, 2);
    Pow2Add(17, 4);
    Pow2Add(17, 8);
    Pow2Add(25, 1);
  }

  /** The mode of a ramp: a rising exponential one is a linear one that slows down to a quarter at the top. */
  predicate ModeIs(p: Params, exp: bool) {
    p.mode == if !exp then Linear else if p.levelStep < 0 then Exponential else SmoothUp(p.dividerStep, p.levelStep / 4)
  }

  /** Period, size and mode are those of the register layout. */
  predicate IsRamp(p: Params, shift: nat, step: int, exp: bool) {
    p.dividerStep * Period(shift) == 0x8000 && p.levelStep == Size(shift, step) && ModeIs(p, exp)
  }

  lemma RampIs(shift: nat, step: int, exp: bool, rawStep: nat)
    requires -8 <= step <= 7 && step != 0 && (step > 0 ==> rawStep == step)
    ensures IsRamp(Ramp(shift, step, exp, rawStep), shift, step, exp)
  {
    StepsAre(shift, step);
    StepsWithin(shift, step);
    SizeSign(shift, step);
    hide Steps, Period;
    var l := Size(shift, step);
    assert Shr(l, 2) == Shr(l, 1) / 2 && Shr(l, 1) == l / 2;
  }

  lemma SizeSign(shift: nat, step: int)
    requires step != 0
    ensures step < 0 <==> Size(shift, step) < 0
    ensures step > 0 ==> Size(shift, step) >= step
  {
    if shift < 11 {
      if step > 0 { MulLe(1, Pow2(11 - shift), step); } else { MulLe(step, -1, Pow2(11 - shift)); }
    }
  }

  /** The code reads the register as its layout says. */
  lemma RegisterLayout(config: nat, phase: Phase)
    requires phase != Stopped
    ensures IsRamp(ParamsOf(config, phase), RampShift(config, phase), RampStep(config, phase), RampExp(config, phase))
    ensures SustainLevel(config) == (config / 0x20_0000 % 16 + 1) * 0x800 - 1
  {
    hide Ramp, IsRamp, Field, Pow2;
    Pow2Values();
    MorePowers();
    FieldIs(config, 21, 4);
    match phase {
      case Attack =>
        FieldIs(config, 1, 5);
        FieldIs(config, 6, 2);
        FieldIs(config, 0, 1);
        RampIs(Field(config, 1, 5), 7 - Field(config, 6, 2), Field(config, 0, 1) != 0, 7 - Field(config, 6, 2));
      case Decay =>
        FieldIs(config, 8, 4);
        RampIs(Field(config, 8, 4), -8, true, 8);
      case Sustain =>
        FieldIs(config, 19, 2);
        FieldIs(config, 13, 1);
        FieldIs(config, 14, 5);
        FieldIs(config, 12, 1);
        RampIs(Field(config, 14, 5), RampStep(config, Sustain), Field(config, 12, 1) != 0, 7 - Field(config, 19, 2));
      case Release =>
        FieldIs(config, 26, 5);
        FieldIs(config, 25, 1);
        RampIs(Field(config, 26, 5), -8, Field(config, 25, 1) != 0, 8);
    }
  }

  function Saturated(level: int): int { if level < 0 then 0 else if level > LEVEL_MAX then LEVEL_MAX else level }

  /** By how much the level changes when it does: exponential ramps fall in proportion, and rise slower at the top. */
  function Change(config: nat, phase: Phase, level: int): int
    requires phase != Stopped
  {
    var size := Size(RampShift(config, phase), RampStep(config, phase));
    if !RampExp(config, phase) then size
    else if size < 0 then size * level / 0x8000
    else if level < 0x6000 then size else size / 4
  }

  /** One cycle in terms of the register: the divider gets to 0x8000 once in a period, and then the level changes. */
  lemma CycleIs(s: State, config: nat)
    requires s.phase != Stopped && InRange(s)
    ensures var t, period := Cycle(s, config), Period(RampShift(config, s.phase));
      0x8000 % period == 0
      && if s.divider + 0x8000 / period < 0x8000 then t == s.(divider := s.divider + 0x8000 / period)
         else t.divider == 0 && t.level == Saturated(s.level + Change(config, s.phase, s.level))
  {
    var p := ParamsOf(config, s.phase);
    RegisterLayout(config, s.phase);
    EveryConfigIsOk(config, s.phase);
    var period := Period(RampShift(config, s.phase));
    DividesTop(p.dividerStep, period);
    LevelSteps(p, s.level);
    NextLevelSaturates(s.level, LevelStep(p, s.level));
    hide ParamsOf, Period, Size, RampShift, RampStep, RampExp, NextLevel, NextPhase, WrapI16;
  }

  // ---------- What the phases do ----------

  lemma {:induction false} CyclesNext(s: State, config: nat, n: nat)
    requires n > 0 && Cycles(s, config, n - 1).phase != Stopped
    ensures Cycles(s, config, n) == Cycle(Cycles(s, config, n - 1), config)
    decreases n
  {
    hide Cycle;
    if n > 1 && s.phase != Stopped {
      CyclesNext(Cycle(s, config), config, n - 1);
    }
  }

  /** The phase changes only from decay to sustain, and from release to the end. */
  lemma PhaseStays(s: State, config: nat)
    requires s.phase == Attack || s.phase == Sustain
    ensures Cycle(s, config).phase == s.phase
  {
    hide ParamsOf, SustainLevel, NextLevel, LevelStep, DividerStep;
  }

  /** After `n` cycles of a linear ramp from `level`, with a step of this size every so many cycles. */
  predicate OnLine(t: State, level: int, period: nat, size: int, n: nat)
    requires period > 0
  {
    InRange(t) && t.divider == n % period * (0x8000 / period) && t.level == Saturated(level + n / period * size)
  }

  /**
   * A linear ramp is a straight line: after `n` cycles the level has changed by the size of a step for
   * each full period, up to the end of its range.
   */
  lemma {:induction false} LinearRamp(phase: Phase, level: int, config: nat, n: nat)
    requires phase == Attack || phase == Sustain
    requires 0 <= level <= LEVEL_MAX && !RampExp(config, phase)
    ensures var shift, t := RampShift(config, phase), Cycles(State(phase, level, 0), config, n);
      t.phase == phase && OnLine(t, level, Period(shift), Size(shift, RampStep(config, phase)), n)
  {
    var s, shift := State(phase, level, 0), RampShift(config, phase);
    var period, size := Period(shift), Size(shift, RampStep(config, phase));
    hide Cycle, Size, Period, RampShift, RampStep, RampExp;
    if n == 0 {
      DivModUnique(0, period, 0, 0);
    } else {
      LinearRamp(phase, level, config, n - 1);
      var t := Cycles(s, config, n - 1);
      CyclesNext(s, config, n);
      PhaseStays(t, config);
      CycleIs(t, config);
      LineGoesOn(t, Cycle(t, config), level, period, size, n - 1);
    }
  }

  lemma LineGoesOn(s: State, t: State, level: int, period: nat, size: int, n: nat)
    requires 0 <= level <= LEVEL_MAX && period > 0 && 0x8000 % period == 0 && OnLine(s, level, period, size, n)
    requires if s.divider + 0x8000 / period < 0x8000 then t == s.(divider := s.divider + 0x8000 / period)
             else t.divider == 0 && t.level == Saturated(s.level + size)
    ensures OnLine(t, level, period, size, n + 1)
  {
    var step := 0x8000 / period;
    assert step * period == 0x8000;
    NextInPeriod(n, period, step);
    SaturateTwice(level, n / period, size);
  }

  lemma NextInPeriod(n: nat, period: nat, step: nat)
    requires period > 0 && step * period == 0x8000
    ensures n % period * step + step < 0x8000 ==>
      (n + 1) % period * step == n % period * step + step && (n + 1) / period == n / period
    ensures n % period * step + step >= 0x8000 ==> (n + 1) % period == 0 && (n + 1) / period == n / period + 1
  {
    var q, m := n / period, n % period;
    if m + 1 < period {
      DivModUnique(n + 1, period, q, m + 1);
      MulLt(m + 1, period, step);
    } else {
      assert period * (q + 1) == period * q + period;
      DivModUnique(n + 1, period, q + 1, 0);
    }
  }

  lemma SaturateTwice(level: int, k: nat, size: int)
    requires 0 <= level <= LEVEL_MAX
    ensures Saturated(Saturated(level + k * size) + size) == Saturated(level + (k + 1) * size)
  {
    assert (k + 1) * size == k * size + size;
    if size < 0 { MulLe(size, 0, k); } else { MulLe(0, size, k); }
  }

  /** With a rising ramp the level never falls, and gets nearer to the top in every cycle. */
  lemma RiseCycle(s: State, config: nat)
    requires (s.phase == Attack || s.phase == Sustain) && InRange(s) && RampStep(config, s.phase) > 0
    ensures var t := Cycle(s, config);
      && t.phase == s.phase && InRange(t) && t.level >= s.level
      && (s.level == LEVEL_MAX ==> t.level == LEVEL_MAX)
      && (s.level < LEVEL_MAX ==>
            (LEVEL_MAX - t.level) * 0x8000 - t.divider < (LEVEL_MAX - s.level) * 0x8000 - s.divider)
  {
    CycleIs(s, config);
    PhaseStays(s, config);
    SizeSign(RampShift(config, s.phase), RampStep(config, s.phase));
    RampStepRange(config, s.phase);
    PeriodRange(RampShift(config, s.phase));
    hide Cycle, Size, RampShift, RampStep, RampExp, Period;
  }

  lemma RampStepRange(config: nat, phase: Phase)
    requires phase != Stopped
    ensures var step := RampStep(config, phase); 4 <= step <= 7 || -8 <= step <= -5
  {}

  lemma PeriodRange(shift: nat)
    ensures 1 <= Period(shift) <= 0x8000 && 1 <= 0x8000 / Period(shift)
  {
    StepsAre(shift, 1);
    StepsWithin(shift, 1);
    hide Steps, Period;
    DividesTop(Steps(shift, 1).0, Period(shift));
  }

  lemma DividesTop(d: nat, p: nat)
    requires d >= 1 && p >= 1 && d * p == 0x8000
    ensures p <= 0x8000 && 0x8000 / p == d && 0x8000 % p == 0
  {
    MulLe(1, d, p);
    DivModUnique(0x8000, p, d, 0);
  }

  /**
   * An attack, and a sustain with bit 13 clear, goes up to the highest level and stays there, within
   * 0x8000 cycles for each level.
   */
  lemma {:induction false} RiseReachesTop(s: State, config: nat, n: nat)
    requires (s.phase == Attack || s.phase == Sustain) && InRange(s) && RampStep(config, s.phase) > 0
    ensures var t := Cycles(s, config, n);
      && t.phase == s.phase && t.level >= s.level
      && (n >= (LEVEL_MAX - s.level) * 0x8000 - s.divider ==> t.level == LEVEL_MAX)
    decreases n
  {
    hide Cycle, RampStep;
    if n > 0 {
      RiseCycle(s, config);
      RiseReachesTop(Cycle(s, config), config, n - 1);
    }
  }

  /** With a falling ramp the level never rises, and gets nearer to 0 in every cycle. */
  lemma FallCycle(s: State, config: nat)
    requires s.phase != Stopped && InRange(s) && RampStep(config, s.phase) < 0
    ensures var t := Cycle(s, config);
      && InRange(t) && t.level <= s.level && (s.level == 0 ==> t.level == 0)
      && (s.level > 0 ==> t.level * 0x8000 - t.divider < s.level * 0x8000 - s.divider)
  {
    CycleIs(s, config);
    SizeSign(RampShift(config, s.phase), RampStep(config, s.phase));
    PeriodRange(RampShift(config, s.phase));
    var size := Size(RampShift(config, s.phase), RampStep(config, s.phase));
    MulLe(size, -1, s.level);
    hide Cycle, Size, RampShift, RampStep, RampExp, Period;
  }

  /** A sustain with bit 13 set goes down to 0 and stays there. */
  lemma {:induction false} FallReachesZero(s: State, config: nat, n: nat)
    requires s.phase == Sustain && InRange(s) && config / 0x2000 % 2 == 1
    ensures var t := Cycles(s, config, n);
      t.phase == Sustain && t.level <= s.level && (n >= s.level * 0x8000 - s.divider ==> t.level == 0)
    decreases n
  {
    hide Cycle;
    if n > 0 {
      FallCycle(s, config);
      PhaseStays(s, config);
      FallReachesZero(Cycle(s, config), config, n - 1);
    }
  }

  /** The decay goes over to sustain with the first level step that is not above the sustain level. */
  lemma DecayCycle(s: State, config: nat)
    requires s.phase == Decay && InRange(s)
    ensures var t, sustain := Cycle(s, config), (config / 0x20_0000 % 16 + 1) * 0x800 - 1;
      && InRange(t) && t.level <= s.level
      && t.phase == (if t.divider == 0 && t.level <= sustain then Sustain else Decay)
      && (s.level > 0 ==> t.level * 0x8000 - t.divider < s.level * 0x8000 - s.divider)
  {
    FallCycle(s, config);
    RegisterLayout(config, Decay);
    CycleIs(s, config);
    PeriodRange(RampShift(config, Decay));
    hide ParamsOf, SustainLevel, NextLevel, LevelStep, RampShift, Period, IsRamp;
    EveryConfigIsOk(config, Decay);
  }

  /** So every decay ends, and the sustain begins where it should. */
  lemma {:induction false} DecayEnds(s: State, config: nat) returns (n: nat)
    requires s.phase == Decay && InRange(s)
    ensures n <= s.level * 0x8000 + 0x8000 - s.divider
    ensures Cycles(s, config, n).phase == Sustain
    ensures Cycles(s, config, n).level <= (config / 0x20_0000 % 16 + 1) * 0x800 - 1
    ensures forall k: nat :: k < n ==> Cycles(s, config, k).phase == Decay
    decreases s.level * 0x8000 + 0x8000 - s.divider
  {
    hide Cycle;
    DecayCycle(s, config);
    var t := Cycle(s, config);
    if t.phase == Sustain {
      n := 1;
      assert Cycles(t, config, 0) == t;
    } else {
      if s.level == 0 { ZeroDecays(s, config); }
      var m := DecayEnds(t, config);
      n := m + 1;
      forall k: nat | k < n ensures Cycles(s, config, k).phase == Decay {
        if k > 0 { assert Cycles(s, config, k) == Cycles(t, config, k - 1); }
      }
    }
  }

  /** At level 0 at least the divider goes on. */
  lemma ZeroDecays(s: State, config: nat)
    requires s.phase == Decay && InRange(s) && s.level == 0
    ensures var t := Cycle(s, config); t.phase == Sustain || t.divider > s.divider
  {
    CycleIs(s, config);
    DecayCycle(s, config);
    PeriodRange(RampShift(config, Decay));
    hide Cycle, Period, RampShift;
  }

  /** But no attack ever ends by itself: it goes on at the highest level until the voice is released. */
  lemma AttackGoesOn(s: State, config: nat, n: nat)
    requires s.phase == Attack && InRange(s)
    ensures Cycles(s, config, n).phase == Attack
    ensures n >= (LEVEL_MAX - s.level) * 0x8000 - s.divider ==> Cycles(s, config, n).level == LEVEL_MAX
  {
    RampStepRange(config, Attack);
    RiseReachesTop(s, config, n);
  }

  // ---------- The class ----------

  class Adsr {
    var phase: Phase
    var level: int
    var divider: nat
    /** Precomputed parameters, indexed as Attack, Decay, Sustain, Release. */
    var params: seq<Params>
    var sustainLevel: int
    var config: nat

    ghost predicate Valid()
      reads this
    {
      && divider < STEP_AT && IsLevel(level)
      && params == [AttackParams(config), DecayParams(config), SustainParams(config), ReleaseParams(config)]
      && sustainLevel == SustainLevel(config)
    }

    ghost function Now(): State
      reads this
    {
      State(phase, level, divider)
    }

    constructor ()
      ensures Valid() && phase == Stopped && level == 0
    {
      phase, level, divider, config := Stopped, 0, 0, 0;
      params := [AttackParams(0), DecayParams(0), SustainParams(0), ReleaseParams(0)];
      sustainLevel := SustainLevel(0);
    }

    method Stop()
      requires Valid()
      modifies this`phase
      ensures Valid() && Now() == old(Now()).(phase := Stopped)
    {
      phase := Stopped;
    }

    method SetLevel(l: int)
      requires Valid() && IsLevel(l)
      modifies this`level
      ensures Valid() && Now() == old(Now()).(level := l)
    {
      level := l;
    }

    method SetRaw(v: nat)
      requires v < 0x1_0000_0000
      requires Valid()
      modifies this`config, this`params, this`sustainLevel
      ensures Valid() && config == v
    {
      config := v;
      RefreshParams();
    }

    /** `refresh_params`. */
    method RefreshParams()
      requires divider < STEP_AT && IsLevel(level)
      modifies this`params, this`sustainLevel
      ensures Valid()
    {
      sustainLevel := SustainLevel(config);
      params := [AttackParams(config), DecayParams(config), SustainParams(config), ReleaseParams(config)];
    }

    method BeginRelease()
      requires Valid()
      modifies this`divider, this`phase
      ensures Valid() && Now() == State(Release, old(level), 0)
    {
      divider := 0;
      phase := Release;
    }

    method BeginAttack()
      requires Valid()
      modifies this`divider, this`phase, this`level
      ensures Valid() && Now() == State(Attack, 0, 0)
    {
      divider := 0;
      phase := Attack;
      level := 0;
    }

    /** The index of the parameters of a phase; there are none for a stopped voice. */
    function ParamsIndex(): nat
      requires phase != Stopped
      reads this`phase
    {
      match phase
      case Attack => 0
      case Decay => 1
      case Sustain => 2
      case Release => 3
    }

    /** `run_cycle`; a negative level can only have been written by the CPU. */
    method RunCycle()
      requires Valid() && phase != Stopped
      modifies this`divider, this`level, this`phase
      ensures Valid() && Now() == Cycle(old(Now()), config) && (old(level) >= 0 ==> level >= 0)
    {
      hide AttackParams, DecayParams, SustainParams, ReleaseParams, SustainLevel, WrapI16, LevelStep;
      CycleInRange(Now(), config);
      var p := params[ParamsIndex()];
      assert p == ParamsOf(config, phase);
      var divStep := DividerStep(p, level);
      divider := divider + divStep;
      if divider < STEP_AT {
        return;
      }
      divider := 0;
      var levelStep := LevelStep(p, level);
      level := WrapI16(level + levelStep);
      if level < 0 {
        level := if levelStep > 0 then LEVEL_MAX else 0;
      }
      if phase == Decay && level <= sustainLevel {
        phase := Sustain;
      }
      if phase == Release && level == 0 {
        phase := Stopped;
      }
    }
  }
}

/**
 * The NRAD codec of multitool/src/audio.rs, one block at a time: `adpcm_encode_block` and
 * `adpcm_decode_block`. Arithmetic shifts to the right are floor divisions.
 */
module Adpcm {
  import opened Arith

  const I16_MIN: int := -0x8000
  const I16_MAX: int := 0x7fff

  predicate I16(x: int) { I16_MIN <= x <= I16_MAX }

  predicate AllI16(s: seq<int>) { forall i :: 0 <= i < |s| ==> I16(s[i]) }

  function Clamp(x: int, lo: int, hi: int): int {
    if x < lo then lo else if x > hi then hi else x
  }

  function Clamp16(x: int): (r: int)
    ensures I16(r)
  {
    Clamp(x, I16_MIN, I16_MAX)
  }

  /** The last two samples, most recent first. */
  datatype Prev = Prev(p0: int, p1: int) {
    function Then(s: int): Prev { Prev(s, p0) }
  }

  /** How a filter predicts a sample from the two before it; the block codec works for any. */
  type Predictor = Prev -> int

  /** The two samples before position `k`. */
  function PrevAt(samples: seq<int>, prev: Prev, k: nat): Prev
    requires k <= |samples|
  {
    if k == 0 then prev
    else if k == 1 then Prev(samples[0], prev.p0)
    else Prev(samples[k - 1], samples[k - 2])
  }

  // ---------- Nibbles ----------

  /** The signed 4-bit value number `i` of a 16-bit word. */
  function Nibble(e: nat, i: nat): (d: int)
    ensures -8 <= d <= 7
  {
    var n := Shr(e, 4 * i) % 16;
    if n >= 8 then n - 16 else n
  }

  function Unpack(words: seq<nat>): (ds: seq<int>)
    ensures |ds| == 4 * |words|
    ensures forall k :: 0 <= k < |ds| ==> -8 <= ds[k] <= 7
  {
    seq(4 * |words|, k requires 0 <= k < 4 * |words| => Nibble(words[k / 4], k % 4))
  }

  lemma UnpackAt(words: seq<nat>, j: nat, i: nat)
    requires j < |words| && i <= 3
    ensures Unpack(words)[4 * j + i] == Nibble(words[j], i)
  {
    assert (4 * j + i) / 4 == j && (4 * j + i) % 4 == i;
  }

  /** Nibbles fix the words that hold them. */
  lemma UnpackInjective(a: seq<nat>, b: seq<nat>)
    requires forall k :: 0 <= k < |a| ==> a[k] < 0x1_0000
    requires forall k :: 0 <= k < |b| ==> b[k] < 0x1_0000
    requires Unpack(a) == Unpack(b)
    ensures a == b
  {
    forall j | 0 <= j < |a| ensures a[j] == b[j] {
      forall i: nat | i <= 3 ensures Nibble(a[j], i) == Nibble(b[j], i) {
        UnpackAt(a, j, i);
        UnpackAt(b, j, i);
      }
      SameNibbles(a[j], b[j]);
    }
  }

  lemma SameNibbles(x: nat, y: nat)
    requires x < 0x1_0000 && y < 0x1_0000 && forall i: nat :: i <= 3 ==> Nibble(x, i) == Nibble(y, i)
    ensures x == y
  {
    hide Nibble;
    var m0, m1, m2, m3 := Digits(x);
    var n0, n1, n2, n3 := Digits(y);
    NibbleDigit(x, 0);
    NibbleDigit(x, 1);
    NibbleDigit(x, 2);
    NibbleDigit(x, 3);
    NibbleDigit(y, 0);
    NibbleDigit(y, 1);
    NibbleDigit(y, 2);
    NibbleDigit(y, 3);
  }

  lemma NibbleDigit(e: nat, i: nat)
    requires i <= 3
    ensures Shr(e, 4 * i) % 16 == Nibble(e, i) + if Nibble(e, i) < 0 then 16 else 0
  {}

  /** The first `n` nibbles of a group of four, packed from the low end up. */
  function PackGroup(ds: seq<int>, base: nat, n: nat): int
    requires n <= 4 && base + n <= |ds|
  {
    if n == 0 then 0 else PackGroup(ds, base, n - 1) + Shl(ds[base + n - 1] % 16, 4 * (n - 1))
  }

  lemma FourNibbles(m0: nat, m1: nat, m2: nat, m3: nat)
    requires m0 < 16 && m1 < 16 && m2 < 16 && m3 < 16
    ensures var e := m0 + 16 * m1 + 256 * m2 + 4096 * m3;
      && e < 0x1_0000
      && Shr(e, 0) % 16 == m0 && Shr(e, 4) % 16 == m1 && Shr(e, 8) % 16 == m2 && Shr(e, 12) % 16 == m3
  {
    var e := m0 + 16 * m1 + 256 * m2 + 4096 * m3;
    DivModUnique(e, 16, m1 + 16 * m2 + 256 * m3, m0);
    DivModUnique(e / 16, 16, m2 + 16 * m3, m1);
    DivModUnique(e / 16 / 16, 16, m3, m2);
    NibbleShifts(e);
  }

  /** A 16-bit word is its four nibbles. */
  lemma Digits(e: nat) returns (m0: nat, m1: nat, m2: nat, m3: nat)
    requires e < 0x1_0000
    ensures m0 < 16 && m1 < 16 && m2 < 16 && m3 < 16 && e == m0 + 16 * m1 + 256 * m2 + 4096 * m3
    ensures Shr(e, 0) % 16 == m0 && Shr(e, 4) % 16 == m1 && Shr(e, 8) % 16 == m2 && Shr(e, 12) % 16 == m3
  {
    m0, m1, m2, m3 := e % 16, e / 16 % 16, e / 16 / 16 % 16, e / 16 / 16 / 16;
    assert e == 16 * (e / 16) + m0;
    assert e / 16 == 16 * (e / 16 / 16) + m1;
    assert e / 16 / 16 == 16 * m3 + m2;
    FourNibbles(m0, m1, m2, m3);
  }

  lemma PackGroupSum(ds: seq<int>, base: nat)
    requires base + 4 <= |ds|
    ensures PackGroup(ds, base, 4)
         == ds[base] % 16 + 16 * (ds[base + 1] % 16) + 256 * (ds[base + 2] % 16) + 4096 * (ds[base + 3] % 16)
  {
    NibbleShifts(ds[base] % 16);
    NibbleShifts(ds[base + 1] % 16);
    NibbleShifts(ds[base + 2] % 16);
    NibbleShifts(ds[base + 3] % 16);
    assert PackGroup(ds, base, 1) == Shl(ds[base] % 16, 0);
    assert PackGroup(ds, base, 2) == PackGroup(ds, base, 1) + Shl(ds[base + 1] % 16, 4);
    assert PackGroup(ds, base, 3) == PackGroup(ds, base, 2) + Shl(ds[base + 2] % 16, 8);
    assert PackGroup(ds, base, 4) == PackGroup(ds, base, 3) + Shl(ds[base + 3] % 16, 12);
  }

  lemma SignedMod(d: int)
    requires -8 <= d <= 7
    ensures 0 <= d % 16 < 16 && (if d % 16 >= 8 then d % 16 - 16 else d % 16) == d
  {
    if d >= 0 { DivModUnique(d, 16, 0, d); } else { DivModUnique(d, 16, -1, d + 16); }
  }

  lemma PackedGroup(ds: seq<int>, base: nat)
    requires base + 4 <= |ds| && forall k :: 0 <= k < |ds| ==> -8 <= ds[k] <= 7
    ensures 0 <= PackGroup(ds, base, 4) < 0x1_0000
    ensures forall i :: 0 <= i < 4 ==> Nibble(PackGroup(ds, base, 4), i) == ds[base + i]
  {
    PackGroupSum(ds, base);
    FourNibbles(ds[base] % 16, ds[base + 1] % 16, ds[base + 2] % 16, ds[base + 3] % 16);
    forall i | 0 <= i < 4 ensures Nibble(PackGroup(ds, base, 4), i) == ds[base + i] {
      SignedMod(ds[base + i]);
      assert i == 0 || i == 1 || i == 2 || i == 3;
    }
  }

  // ---------- Decoding ----------

  /** The scaled difference of a nibble: `shift` places below the top of a 16-bit word. */
  function Scaled(d: int, shift: nat): int { Shr(d * 0x1000, shift) }

  /** One sample: the prediction plus the difference, clamped. */
  function DecodeOne(d: int, prev: Prev, predict: Predictor, shift: nat): (r: int)
    ensures I16(r)
  {
    Clamp16(Scaled(d, shift) + predict(prev))
  }

  /** The first `n` samples of a block. */
  function DecodeUpTo(ds: seq<int>, prev: Prev, predict: Predictor, shift: nat, n: nat): (r: seq<int>)
    requires n <= |ds|
    ensures |r| == n && AllI16(r)
  {
    if n == 0 then []
    else
      var before := DecodeUpTo(ds, prev, predict, shift, n - 1);
      before + [DecodeOne(ds[n - 1], PrevAt(before, prev, n - 1), predict, shift)]
  }

  function Decode(ds: seq<int>, prev: Prev, predict: Predictor, shift: nat): (r: seq<int>)
    ensures |r| == |ds| && AllI16(r)
  {
    DecodeUpTo(ds, prev, predict, shift, |ds|)
  }

  /** The nibble as the source extracts it: moved to the top of a 16-bit word, sign included. */
  function TopNibble(e: nat, i: nat): int
    requires i <= 3
  {
    var up := Shl(e, 12 - 4 * i) % 0x1_0000;
    var top := up - up % 0x1000;
    if top >= 0x8000 then top - 0x1_0000 else top
  }

  lemma TopNibbleIs(e: nat, i: nat)
    requires i <= 3 && e < 0x1_0000
    ensures TopNibble(e, i) == Nibble(e, i) * 0x1000
  {
    var m0, m1, m2, m3 := Digits(e);
    NibbleShifts(e);
    if i == 0 {
      TopDigit(Shl(e, 12), m1 + 16 * m2 + 256 * m3, m0, 0);
    } else if i == 1 {
      TopDigit(Shl(e, 8), m2 + 16 * m3, m1, 256 * m0);
    } else if i == 2 {
      TopDigit(Shl(e, 4), m3, m2, 256 * m1 + 16 * m0);
    } else {
      TopDigit(Shl(e, 0), 0, m3, 256 * m2 + 16 * m1 + m0);
    }
  }

  lemma TopDigit(x: nat, q: nat, m: nat, r: nat)
    requires x == q * 0x1_0000 + m * 0x1000 + r && m < 16 && r < 0x1000
    ensures var up := x % 0x1_0000; up - up % 0x1000 == m * 0x1000
  {
    DivModUnique(x, 0x1_0000, q, m * 0x1000 + r);
    DivModUnique(m * 0x1000 + r, 0x1000, m, r);
  }

  /** One pass of the inner loop of `adpcm_decode_block`. */
  method DecodeSample(e: nat, i: nat, ps: Prev, predict: Predictor, shift: nat) returns (sample: int)
    requires e < 0x1_0000 && i <= 3
    ensures sample == DecodeOne(Nibble(e, i), ps, predict, shift)
  {
    var diff := SignExtended(e, i, shift);
    sample := Clamp16(diff + predict(ps));
  }

  /** `adpcm_decode_block`. */
  method DecodeBlock(encoded: seq<nat>, prev: Prev, predict: Predictor, shift: nat) returns (res: seq<int>)
    requires forall i :: 0 <= i < |encoded| ==> encoded[i] < 0x1_0000
    ensures res == Decode(Unpack(encoded), prev, predict, shift)
  {
    ghost var ds := Unpack(encoded);
    var out: seq<int> := [];
    var ps := prev;
    for j := 0 to |encoded|
      invariant out == DecodeUpTo(ds, prev, predict, shift, 4 * j) && ps == PrevAt(out, prev, 4 * j)
    {
      for i := 0 to 4
        invariant out == DecodeUpTo(ds, prev, predict, shift, 4 * j + i) && ps == PrevAt(out, prev, 4 * j + i)
      {
        UnpackAt(encoded, j, i);
        var sample := DecodeSample(encoded[j], i, ps, predict, shift);
        PrevOfNext(out, sample, prev);
        out := out + [sample];
        ps := ps.Then(sample);
      }
    }
    return out;
  }

  lemma PrevStep(samples: seq<int>, prev: Prev, k: nat)
    requires k < |samples|
    ensures PrevAt(samples, prev, k + 1) == PrevAt(samples, prev, k).Then(samples[k])
  {}

  lemma PrevOfNext(samples: seq<int>, s: int, prev: Prev)
    ensures PrevAt(samples + [s], prev, |samples| + 1) == PrevAt(samples, prev, |samples|).Then(s)
  {}

  lemma PrevOfPrefix(a: seq<int>, b: seq<int>, prev: Prev, k: nat)
    requires k <= |a|
    ensures PrevAt(a + b, prev, k) == PrevAt(a, prev, k)
  {}

  lemma PrevSplit(a: seq<int>, b: seq<int>, prev: Prev)
    ensures PrevAt(a + b, prev, |a| + |b|) == PrevAt(b, PrevAt(a, prev, |a|), |b|)
  {}

  /** Decoding can be cut anywhere: what goes on needs only the last two samples. */
  lemma {:induction false} DecodeSplit(ds: seq<int>, prev: Prev, predict: Predictor, shift: nat, a: nat, m: nat)
    requires a + m <= |ds|
    ensures var before := DecodeUpTo(ds, prev, predict, shift, a);
      DecodeUpTo(ds, prev, predict, shift, a + m)
        == before + DecodeUpTo(ds[a..], PrevAt(before, prev, a), predict, shift, m)
  {
    hide DecodeOne, PrevAt;
    if m > 0 {
      DecodeSplit(ds, prev, predict, shift, a, m - 1);
      var before := DecodeUpTo(ds, prev, predict, shift, a);
      var after := DecodeUpTo(ds[a..], PrevAt(before, prev, a), predict, shift, m - 1);
      PrevSplit(before, after, prev);
      assert ds[a..][m - 1] == ds[a + m - 1];
    }
  }

  /** Predictors that agree everywhere decode alike. */
  lemma {:induction false} DecodeSame(ds: seq<int>, prev: Prev, p: Predictor, q: Predictor, shift: nat, n: nat)
    requires n <= |ds| && forall x :: p(x) == q(x)
    ensures DecodeUpTo(ds, prev, p, shift, n) == DecodeUpTo(ds, prev, q, shift, n)
  {
    if n > 0 { DecodeSame(ds, prev, p, q, shift, n - 1); }
  }

  /** A block coded without prediction does not depend on what came before it. */
  lemma {:induction false} DecodeForgets(ds: seq<int>, prev: Prev, prev': Prev, p: Predictor, shift: nat, n: nat)
    requires n <= |ds| && forall x :: p(x) == 0
    ensures DecodeUpTo(ds, prev, p, shift, n) == DecodeUpTo(ds, prev', p, shift, n)
  {
    if n > 0 { DecodeForgets(ds, prev, prev', p, shift, n - 1); }
  }

  /** The nibble number `i`, sign-extended and shifted into place. */
  method SignExtended(e: nat, i: nat, shift: nat) returns (diff: int)
    requires e < 0x1_0000 && i <= 3
    ensures diff == Scaled(Nibble(e, i), shift)
  {
    TopNibbleIs(e, i);
    diff := TopNibble(e, i);
    diff := Shr(diff, shift);
  }

  // ---------- Encoding ----------

  /** The difference that the first pass looks at: against the source's own samples. */
  function Diff(samples: seq<int>, prev: Prev, predict: Predictor, k: nat): int
    requires k < |samples|
  {
    samples[k] - predict(PrevAt(samples, prev, k))
  }

  /** Largest difference of the first `n` samples, at least 0. */
  function MaxDiff(samples: seq<int>, prev: Prev, predict: Predictor, n: nat): (m: nat)
    requires n <= |samples|
  {
    if n == 0 then 0
    else
      var before, d := MaxDiff(samples, prev, predict, n - 1), Diff(samples, prev, predict, n - 1);
      if d > before then d else before
  }

  /** Smallest difference of the first `n` samples, at most -1. */
  function MinDiff(samples: seq<int>, prev: Prev, predict: Predictor, n: nat): (m: int)
    requires n <= |samples|
    ensures m <= -1
  {
    if n == 0 then -1
    else
      var before, d := MinDiff(samples, prev, predict, n - 1), Diff(samples, prev, predict, n - 1);
      if d < before then d else before
  }

  lemma {:induction false} DiffsWithin(samples: seq<int>, prev: Prev, predict: Predictor, n: nat, k: nat)
    requires k < n <= |samples|
    ensures MinDiff(samples, prev, predict, n) <= Diff(samples, prev, predict, k) <= MaxDiff(samples, prev, predict, n)
  {
    if k < n - 1 { DiffsWithin(samples, prev, predict, n - 1, k); }
  }

  /** `32 - leading_zeros`: the number of significant bits. */
  function BitLen(x: nat): (n: nat)
    ensures x < Pow2(n) && (n > 0 ==> x >= Pow2(n - 1))
  {
    if x == 0 then 0 else 1 + BitLen(x / 2)
  }

  /** The shift chosen from the extreme differences: the leading ones of `d` are the zeros of `!d`. */
  function ShiftFor(diffMax: nat, diffMin: int): (s: nat)
    requires diffMin < 0
    ensures s <= 12
  {
    var pos, neg := BitLen(diffMax) + 1 - 4, BitLen(-diffMin - 1) + 1 - 4;
    Clamp(if pos > neg then pos else neg, 0, 12)
  }

  function Shift(samples: seq<int>, prev: Prev, predict: Predictor): (s: nat)
    ensures s <= 12
  {
    ShiftFor(MaxDiff(samples, prev, predict, |samples|), MinDiff(samples, prev, predict, |samples|))
  }

  /** The nibble for a sample, given the two samples reconstructed before it. */
  function EncodeOne(s: int, prev: Prev, predict: Predictor, shift: nat): (d: int)
    ensures -8 <= d <= 7
  {
    Clamp(Shr(s - predict(prev), shift), -8, 7)
  }

  /** What the encoder keeps as the reconstructed sample. */
  function Rebuild(d: int, prev: Prev, predict: Predictor, shift: nat): (r: int)
    ensures I16(r)
  {
    Clamp16(predict(prev) + Shl(d, shift))
  }

  /** Second pass over the first `n` samples: the nibbles, and the encoder's own reconstruction. */
  function EncodeUpTo(samples: seq<int>, prev: Prev, predict: Predictor, shift: nat, n: nat): (r: (seq<int>, seq<int>))
    requires n <= |samples|
    ensures |r.0| == |r.1| == n && AllI16(r.1)
    ensures forall k :: 0 <= k < n ==> -8 <= r.0[k] <= 7
  {
    if n == 0 then ([], [])
    else
      var (ds, rs) := EncodeUpTo(samples, prev, predict, shift, n - 1);
      var d := EncodeOne(samples[n - 1], PrevAt(rs, prev, n - 1), predict, shift);
      (ds + [d], rs + [Rebuild(d, PrevAt(rs, prev, n - 1), predict, shift)])
  }

  function Encode(samples: seq<int>, prev: Prev, predict: Predictor, shift: nat): (r: (seq<int>, seq<int>))
    ensures |r.0| == |r.1| == |samples| && AllI16(r.1)
    ensures forall k :: 0 <= k < |r.0| ==> -8 <= r.0[k] <= 7
  {
    EncodeUpTo(samples, prev, predict, shift, |samples|)
  }

  /** Scaling down from the top of the word by `12 - s` is scaling up by `s`. */
  lemma ScaledIs(d: int, s: nat)
    requires s <= 12
    ensures Scaled(d, 12 - s) == Shl(d, s)
  {
    NibbleShifts(d);
    ShrOfShl(d, 12, 12 - s);
  }

  lemma {:induction false} DecodePrefix(ds: seq<int>, ds': seq<int>, prev: Prev, predict: Predictor, shift: nat, n: nat)
    requires n <= |ds| && ds <= ds'
    ensures DecodeUpTo(ds', prev, predict, shift, n) == DecodeUpTo(ds, prev, predict, shift, n)
  {
    if n > 0 { DecodePrefix(ds, ds', prev, predict, shift, n - 1); }
  }

  /** Decoder and encoder stay in lockstep: whatever the samples, decoding gives the reconstruction. */
  lemma {:induction false} Lockstep(samples: seq<int>, prev: Prev, predict: Predictor, shift: nat, n: nat)
    requires shift <= 12 && n <= |samples|
    ensures Decode(EncodeUpTo(samples, prev, predict, shift, n).0, prev, predict, 12 - shift)
         == EncodeUpTo(samples, prev, predict, shift, n).1
  {
    if n > 0 {
      Lockstep(samples, prev, predict, shift, n - 1);
      var (ds, rs) := EncodeUpTo(samples, prev, predict, shift, n - 1);
      var d := EncodeOne(samples[n - 1], PrevAt(rs, prev, n - 1), predict, shift);
      ScaledIs(d, shift);
      DecodePrefix(ds, ds + [d], prev, predict, 12 - shift, n - 1);
    }
  }

  /** First pass of `adpcm_encode_block`. */
  method ChooseShift(samples: seq<int>, prev: Prev, predict: Predictor) returns (shift: nat)
    ensures shift == Shift(samples, prev, predict)
  {
    var diffMax, diffMin := 0, -1;
    var ps := prev;
    for i := 0 to |samples|
      invariant diffMax == MaxDiff(samples, prev, predict, i)
      invariant diffMin == MinDiff(samples, prev, predict, i)
      invariant ps == PrevAt(samples, prev, i)
    {
      var diff := samples[i] - predict(ps);
      assert diff == Diff(samples, prev, predict, i);
      PrevStep(samples, prev, i);
      diffMax := if diff > diffMax then diff else diffMax;
      diffMin := if diff < diffMin then diff else diffMin;
      ps := ps.Then(samples[i]);
    }
    shift := ShiftFor(diffMax, diffMin);
  }

  /** `adpcm_encode_block`: the packed nibbles and the shift to put in the header. */
  method EncodeBlock(samples: seq<int>, prev: Prev, predict: Predictor) returns (res: seq<nat>, shiftOut: nat)
    requires |samples| % 4 == 0
    ensures shiftOut == 12 - Shift(samples, prev, predict)
    ensures 4 * |res| == |samples| && (forall i :: 0 <= i < |res| ==> res[i] < 0x1_0000)
    ensures Unpack(res) == Encode(samples, prev, predict, 12 - shiftOut).0
  {
    var shift := ChooseShift(samples, prev, predict);
    var out := EncodeSamples(samples, prev, predict, shift);
    return out, 12 - shift;
  }

  /** Second pass of `adpcm_encode_block`. */
  method EncodeSamples(samples: seq<int>, prev: Prev, predict: Predictor, shift: nat) returns (res: seq<nat>)
    requires |samples| % 4 == 0 && shift <= 12
    ensures 4 * |res| == |samples| && (forall i :: 0 <= i < |res| ==> res[i] < 0x1_0000)
    ensures Unpack(res) == Encode(samples, prev, predict, shift).0
  {
    var ps, e := prev, 0;
    var out: seq<nat> := [];
    ghost var ds, rs := [], [];
    for i := 0 to |samples|
      invariant (ds, rs) == EncodeUpTo(samples, prev, predict, shift, i)
      invariant ps == PrevAt(rs, prev, i) && Packed(out, e, ds)
    {
      var diff, predicted := Quantize(samples[i], ps, predict, shift);
      PrevOfNext(rs, predicted, prev);
      ps := ps.Then(predicted);
      var encoded := diff % 16;
      var bpos := i % 4 * 4;
      PackNext(out, e, ds, diff);
      e := e + Shl(encoded, bpos);
      if bpos == 12 {
        out := out + [e];
        e := 0;
      }
      ds, rs := ds + [diff], rs + [predicted];
    }
    return out;
  }

  /** One sample of the second pass: its nibble, and what the decoder will make of it. */
  method Quantize(s: int, ps: Prev, predict: Predictor, shift: nat) returns (diff: int, predicted: int)
    ensures diff == EncodeOne(s, ps, predict, shift)
    ensures predicted == Rebuild(diff, ps, predict, shift)
  {
    predicted := predict(ps);
    diff := Shr(s - predicted, shift);
    diff := Clamp(diff, -8, 7);
    predicted := predicted + Shl(diff, shift);
    predicted := Clamp16(predicted);
  }

  /** `res` holds the full groups of `ds` and `e` the nibbles since. */
  ghost predicate Packed(res: seq<nat>, e: int, ds: seq<int>) {
    && |res| == |ds| / 4 && (forall j :: 0 <= j < |res| ==> res[j] < 0x1_0000)
    && Unpack(res) == ds[..|ds| / 4 * 4]
    && e == PackGroup(ds, |ds| / 4 * 4, |ds| % 4)
  }

  lemma {:induction false} PackPrefix(ds: seq<int>, ds': seq<int>, base: nat, n: nat)
    requires n <= 4 && base + n <= |ds| && ds <= ds'
    ensures PackGroup(ds', base, n) == PackGroup(ds, base, n)
  {
    if n > 0 { PackPrefix(ds, ds', base, n - 1); }
  }

  lemma PackNext(res: seq<nat>, e: int, ds: seq<int>, d: int)
    requires Packed(res, e, ds) && -8 <= d <= 7 && forall k :: 0 <= k < |ds| ==> -8 <= ds[k] <= 7
    ensures var e' := e + Shl(d % 16, |ds| % 4 * 4);
      if |ds| % 4 == 3 then e' >= 0 && Packed(res + [e'], 0, ds + [d]) else Packed(res, e', ds + [d])
  {
    var base, n := |ds| / 4 * 4, |ds| % 4;
    PackPrefix(ds, ds + [d], base, n);
    var e' := e + Shl(d % 16, n * 4);
    assert e' == PackGroup(ds + [d], base, n + 1);
    if n == 3 {
      FlushGroup(res, e', ds + [d], |ds| / 4);
      assert (ds + [d])[..|ds| + 1] == ds + [d];
    } else {
      assert (|ds| + 1) / 4 == |ds| / 4 && (|ds| + 1) % 4 == n + 1;
      assert (ds + [d])[..base] == ds[..base];
    }
  }

  lemma FlushGroup(res: seq<nat>, e: int, ds: seq<int>, j: nat)
    requires |res| == j && |ds| == 4 * j + 4 && e == PackGroup(ds, 4 * j, 4)
    requires forall k :: 0 <= k < |ds| ==> -8 <= ds[k] <= 7
    requires Unpack(res) == ds[..4 * j]
    ensures 0 <= e < 0x1_0000 && Unpack(res + [e]) == ds
  {
    PackedGroup(ds, 4 * j);
    forall k | 0 <= k < |ds| ensures Unpack(res + [e])[k] == ds[k] {
      if k < 4 * j {
        UnpackAt(res, k / 4, k % 4);
        assert Unpack(res)[k] == ds[..4 * j][k];
      } else {
        UnpackAt(res + [e], j, k - 4 * j);
      }
    }
  }

  // ---------- What the shift is ----------

  /** Every difference of the first pass fits four bits after a shift by `t`. */
  ghost predicate Fits(samples: seq<int>, prev: Prev, predict: Predictor, t: nat) {
    forall k :: 0 <= k < |samples| ==> -8 * Pow2(t) <= Diff(samples, prev, predict, k) <= 8 * Pow2(t) - 1
  }

  lemma {:induction false} ExtremesAttained(samples: seq<int>, prev: Prev, predict: Predictor, n: nat)
    requires n <= |samples|
    ensures var m := MaxDiff(samples, prev, predict, n);
      m == 0 || exists k :: 0 <= k < n && Diff(samples, prev, predict, k) == m
    ensures var m := MinDiff(samples, prev, predict, n);
      m == -1 || exists k :: 0 <= k < n && Diff(samples, prev, predict, k) == m
  {
    if n > 0 { ExtremesAttained(samples, prev, predict, n - 1); }
  }

  lemma FitsExtremes(samples: seq<int>, prev: Prev, predict: Predictor, t: nat)
    ensures Fits(samples, prev, predict, t)
      <==> MaxDiff(samples, prev, predict, |samples|) < Pow2(t + 3)
           && -MinDiff(samples, prev, predict, |samples|) - 1 < Pow2(t + 3)
  {
    var most, least := MaxDiff(samples, prev, predict, |samples|), MinDiff(samples, prev, predict, |samples|);
    Pow2Add(t, 3);
    Pow2Values();
    ExtremesAttained(samples, prev, predict, |samples|);
    forall k | 0 <= k < |samples| ensures least <= Diff(samples, prev, predict, k) <= most {
      DiffsWithin(samples, prev, predict, |samples|, k);
    }
  }

  /** The number of bits is the least that is enough. */
  lemma BitLenIff(x: nat, n: nat)
    ensures BitLen(x) <= n <==> x < Pow2(n)
  {
    if BitLen(x) <= n { Pow2Mono(BitLen(x), n); } else { Pow2Mono(n, BitLen(x) - 1); }
  }

  lemma FitsBits(samples: seq<int>, prev: Prev, predict: Predictor, t: nat)
    ensures Fits(samples, prev, predict, t)
      <==> BitLen(MaxDiff(samples, prev, predict, |samples|)) <= t + 3
           && BitLen(-MinDiff(samples, prev, predict, |samples|) - 1) <= t + 3
  {
    FitsExtremes(samples, prev, predict, t);
    BitLenIff(MaxDiff(samples, prev, predict, |samples|), t + 3);
    BitLenIff(-MinDiff(samples, prev, predict, |samples|) - 1, t + 3);
    hide BitLen, Pow2, Fits, MaxDiff, MinDiff;
  }

  /**
   * The first pass chooses the least shift up to 12 that makes every difference of the block fit, and
   * 12 if there is none: no precision is given away, and nothing is clamped without need.
   */
  lemma ShiftIsLeast(samples: seq<int>, prev: Prev, predict: Predictor)
    ensures var s := Shift(samples, prev, predict);
      && s <= 12
      && (s < 12 ==> Fits(samples, prev, predict, s))
      && forall t: nat :: t < s ==> !Fits(samples, prev, predict, t)
  {
    hide Shift, Fits;
    ShiftFits(samples, prev, predict, Shift(samples, prev, predict));
    forall t: nat | t < Shift(samples, prev, predict) ensures !Fits(samples, prev, predict, t) {
      ShiftFits(samples, prev, predict, t);
    }
  }

  /** Of the shifts up to the one chosen only that one may fit, and it does unless it is the last. */
  lemma ShiftFits(samples: seq<int>, prev: Prev, predict: Predictor, t: nat)
    requires t <= Shift(samples, prev, predict)
    ensures t < Shift(samples, prev, predict) ==> !Fits(samples, prev, predict, t)
    ensures t == Shift(samples, prev, predict) < 12 ==> Fits(samples, prev, predict, t)
  {
    ShiftForBits(MaxDiff(samples, prev, predict, |samples|), MinDiff(samples, prev, predict, |samples|));
    FitsBits(samples, prev, predict, t);
    hide BitLen, Fits, MaxDiff, MinDiff, ShiftFor;
  }

  lemma ShiftForBits(most: nat, least: int)
    requires least < 0
    ensures var s := ShiftFor(most, least);
      && (s < 12 ==> BitLen(most) <= s + 3 && BitLen(-least - 1) <= s + 3)
      && (s > 0 ==> BitLen(most) >= s + 3 || BitLen(-least - 1) >= s + 3)
  {
    hide BitLen;
  }

  /** A nibble is the largest one whose step does not go beyond the difference, or the last one there is. */
  lemma NibbleIs(x: int, p: Prev, predict: Predictor, s: nat)
    ensures var diff, d := x - predict(p), EncodeOne(x, p, predict, s);
      if diff >= 8 * Pow2(s) then d == 7
      else if diff < -8 * Pow2(s) then d == -8
      else d * Pow2(s) <= diff < d * Pow2(s) + Pow2(s)
  {
    var diff := x - predict(p);
    ShlOfShr(diff, s);
    ShlIsMul(Shr(diff, s), s);
    FloorClamped(diff, Shr(diff, s), Pow2(s));
  }

  lemma FloorClamped(diff: int, q: int, w: int)
    requires w > 0 && q * w <= diff < q * w + w
    ensures if diff >= 8 * w then Clamp(q, -8, 7) == 7
            else if diff < -8 * w then Clamp(q, -8, 7) == -8
            else Clamp(q, -8, 7) == q
  {
    if q >= 8 { MulLe(8, q, w); } else { MulLe(q + 1, 8, w); }
    if q < -8 { MulLe(q + 1, -8, w); } else { MulLe(-8, q, w); }
    assert (q + 1) * w == q * w + w;
  }

  lemma {:induction false} ShlIsMul(x: int, k: nat)
    ensures Shl(x, k) == x * Pow2(k)
  {
    if k > 0 {
      ShlIsMul(x, k - 1);
      assert 2 * (x * Pow2(k - 1)) == x * (2 * Pow2(k - 1));
    }
  }

  /** Whatever the prediction, a difference that fits brings the sample back short by less than a step. */
  lemma FittingSample(x: int, p: Prev, predict: Predictor, s: nat)
    requires I16(x) && -8 * Pow2(s) <= x - predict(p) < 8 * Pow2(s)
    ensures 0 <= x - Rebuild(EncodeOne(x, p, predict, s), p, predict, s) < Pow2(s)
  {
    NibbleIs(x, p, predict, s);
    ShlIsMul(EncodeOne(x, p, predict, s), s);
  }

  // ---------- The error of filter 0 ----------

  lemma {:induction false} ShrOfNegative(x: int, k: nat)
    ensures Shr(-x - 1, k) == -Shr(x, k) - 1
  {
    if k > 0 { ShrOfNegative(x, k - 1); }
  }

  /** A number with at most `3 + s` significant bits has at most 3 left after a shift by `s`. */
  lemma {:induction false} ShrBelow8(x: nat, s: nat)
    requires x < Pow2(s + 3)
    ensures 0 <= Shr(x, s) < 8
  {
    if s == 0 {
      assert Pow2(3) == 2 * Pow2(2) && Pow2(2) == 2 * Pow2(1);
    } else {
      HalfFirst(x, s);
      ShrBelow8(x / 2, s - 1);
    }
  }

  lemma {:induction false} HalfFirst(x: int, s: nat)
    requires s > 0
    ensures Shr(x, s) == Shr(x / 2, s - 1)
  {
    if s > 1 { HalfFirst(x, s - 1); }
  }

  lemma {:induction false} BitLenWithin(x: nat, n: nat)
    requires x < Pow2(n)
    ensures BitLen(x) <= n
  {
    if x > 0 { BitLenWithin(x / 2, n - 1); }
  }

  lemma BelowShift(x: nat, s: nat)
    requires s <= 12 && BitLen(x) <= s + 3
    ensures x < Pow2(s + 3)
  {
    Pow2Mono(BitLen(x), s + 3);
  }

  /** A shift that leaves three bits and a sign clamps nothing and loses less than one step. */
  lemma CoarseValue(x: int, s: nat)
    requires I16(x) && s <= 12 && (if x >= 0 then x else -x - 1) < Pow2(s + 3)
    ensures -8 <= Shr(x, s) <= 7
    ensures 0 <= x - Clamp16(Shl(Clamp(Shr(x, s), -8, 7), s)) < Pow2(s)
  {
    if x >= 0 {
      ShrBelow8(x, s);
    } else {
      ShrBelow8(-x - 1, s);
      ShrOfNegative(-x - 1, s);
    }
    ShlOfShr(x, s);
    ShlRange(Shr(x, s), s);
  }

  /** Without prediction a sample of at most `s + 3` significant bits comes back short by less than 2^s. */
  lemma CoarseSample(x: int, p: Prev, predict: Predictor, s: nat)
    requires I16(x) && s <= 12 && (if x >= 0 then x else -x - 1) < Pow2(s + 3) && predict(p) == 0
    ensures 0 <= x - Rebuild(EncodeOne(x, p, predict, s), p, predict, s) < Pow2(s)
  {
    CoarseValue(x, s);
    assert EncodeOne(x, p, predict, s) == Clamp(Shr(x, s), -8, 7);
  }

  lemma BitLenI16(x: nat)
    requires x <= I16_MAX
    ensures BitLen(x) <= 15
  {
    Pow2Values();
    BitLenWithin(x, 15);
  }

  /** For 16-bit differences the upper clamp of the shift never applies. */
  lemma ShiftCovers(diffMax: nat, diffMin: int)
    requires diffMax <= I16_MAX && I16_MIN <= diffMin < 0
    ensures diffMax < Pow2(ShiftFor(diffMax, diffMin) + 3)
    ensures -diffMin - 1 < Pow2(ShiftFor(diffMax, diffMin) + 3)
  {
    hide BitLen, Pow2;
    BitLenI16(diffMax);
    BitLenI16(-diffMin - 1);
    BelowShift(diffMax, ShiftFor(diffMax, diffMin));
    BelowShift(-diffMin - 1, ShiftFor(diffMax, diffMin));
  }

  /** Without prediction the chosen shift fits every sample. */
  lemma FilterZeroFits(samples: seq<int>, prev: Prev, predict: Predictor, k: nat)
    requires AllI16(samples) && k < |samples|
    requires forall q :: predict(q) == 0
    ensures var x := samples[k];
      (if x >= 0 then x else -x - 1) < Pow2(Shift(samples, prev, predict) + 3)
  {
    ExtremesI16(samples, prev, predict, |samples|);
    ShiftCovers(MaxDiff(samples, prev, predict, |samples|), MinDiff(samples, prev, predict, |samples|));
    DiffsWithin(samples, prev, predict, |samples|, k);
    assert Diff(samples, prev, predict, k) == samples[k];
  }

  lemma {:induction false} ExtremesI16(samples: seq<int>, prev: Prev, predict: Predictor, n: nat)
    requires AllI16(samples) && n <= |samples| && forall q :: predict(q) == 0
    ensures MaxDiff(samples, prev, predict, n) <= I16_MAX && MinDiff(samples, prev, predict, n) >= I16_MIN
  {
    if n > 0 {
      ExtremesI16(samples, prev, predict, n - 1);
      assert Diff(samples, prev, predict, n - 1) == samples[n - 1];
    }
  }

  lemma ShlRange(d: int, s: nat)
    requires -8 <= d <= 7 && s <= 12
    ensures Shl(d, s) >= I16_MIN
  {
    ShlMono(-8, d, s);
    ShlAdd(-1, 3, s);
    assert Shl(-1, 3) == -8;
    ShlIsPow2(3 + s);
    Pow2Values();
    Pow2Mono(3 + s, 15);
  }

  /** The reconstruction of a block, sample by sample. */
  lemma {:induction false} ReconstructedAt(samples: seq<int>, prev: Prev, predict: Predictor, s: nat, n: nat, k: nat)
    requires k < n <= |samples|
    ensures var rs := EncodeUpTo(samples, prev, predict, s, n).1;
      rs[k] == Rebuild(EncodeOne(samples[k], PrevAt(rs, prev, k), predict, s), PrevAt(rs, prev, k), predict, s)
  {
    var (ds, rs) := EncodeUpTo(samples, prev, predict, s, n - 1);
    var x := EncodeUpTo(samples, prev, predict, s, n).1[n - 1];
    PrevOfPrefix(rs, [x], prev, k);
    if k < n - 1 {
      ReconstructedAt(samples, prev, predict, s, n - 1, k);
    }
  }

  /** `adpcm_error`: the sum of the absolute differences of the first `n` samples. */
  function ErrorUpTo(source: seq<int>, decoded: seq<int>, n: nat): nat
    requires n <= |source| == |decoded|
  {
    if n == 0 then 0
    else
      var d := source[n - 1] - decoded[n - 1];
      ErrorUpTo(source, decoded, n - 1) + if d < 0 then -d else d
  }

  lemma {:induction false} ErrorAtMost(source: seq<int>, decoded: seq<int>, n: nat, m: int)
    requires n <= |source| == |decoded|
    requires forall k :: 0 <= k < n ==> -m <= source[k] - decoded[k] <= m
    ensures ErrorUpTo(source, decoded, n) <= n * m
  {
    if n > 0 {
      ErrorAtMost(source, decoded, n - 1, m);
      assert n * m == (n - 1) * m + m;
    }
  }

  lemma FilterZeroEach(samples: seq<int>, prev: Prev, predict: Predictor)
    requires AllI16(samples) && forall q :: predict(q) == 0
    ensures var s := Shift(samples, prev, predict);
      forall k :: 0 <= k < |samples| ==> 0 <= samples[k] - Encode(samples, prev, predict, s).1[k] < Pow2(s)
  {
    var s := Shift(samples, prev, predict);
    var rs := Encode(samples, prev, predict, s).1;
    forall k | 0 <= k < |samples| ensures 0 <= samples[k] - rs[k] < Pow2(s) {
      ReconstructedAt(samples, prev, predict, s, |samples|, k);
      FilterZeroFits(samples, prev, predict, k);
      CoarseSample(samples[k], PrevAt(rs, prev, k), predict, s);
    }
  }

  /**
   * Without prediction every sample of a block comes back less than 2^s too small, where `s` is
   * the shift of the block: lossless when `s` is 0, and never more than 28 (2^s - 1) for 28 samples.
   */
  lemma FilterZeroError(samples: seq<int>, prev: Prev, predict: Predictor)
    requires AllI16(samples) && forall q :: predict(q) == 0
    ensures var s := Shift(samples, prev, predict);
      && ErrorUpTo(samples, Encode(samples, prev, predict, s).1, |samples|) <= |samples| * (Pow2(s) - 1)
      && (s == 0 ==> Encode(samples, prev, predict, s).1 == samples)
  {
    var s := Shift(samples, prev, predict);
    FilterZeroEach(samples, prev, predict);
    SmallDifferences(samples, Encode(samples, prev, predict, s).1, s);
  }

  lemma SmallDifferences(a: seq<int>, b: seq<int>, s: nat)
    requires |a| == |b| && forall k :: 0 <= k < |a| ==> 0 <= a[k] - b[k] < Pow2(s)
    ensures ErrorUpTo(a, b, |a|) <= |a| * (Pow2(s) - 1)
    ensures s == 0 ==> a == b
  {
    ErrorAtMost(a, b, |a|, Pow2(s) - 1);
  }
}

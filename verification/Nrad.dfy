/**
 * The NRAD block stream of multitool/src/audio.rs: `AudioBuffer::dump_nrad`, which chooses a filter
 * for every block of 28 samples, and `AudioBuffer::decode_nrad_raw`. A stream is the sequence of
 * its 16-bit words, eight to a block, without the magic number and the step word before it.
 */
module Nrad {
  import opened Arith
  import opened Wrappers
  import opened Adpcm

  const BLOCK_LEN: nat := 28
  const FILTERS: nat := 5

  /** Weights in 64ths of the previous sample and of the one before it. */
  const FILTER_WEIGHTS: seq<(int, int)> := [(0, 0), (60, 0), (115, -52), (98, -55), (122, -60)]

  function Filter(f: nat): Predictor
    requires f < FILTERS
  {
    var (wp, wn) := FILTER_WEIGHTS[f];
    (p: Prev) => p.p0 * wp / 64 + p.p1 * wn / 64
  }

  // ---------- Headers ----------

  /** The fields of a block header: shift in bits 0-3, filter in 4-7, then stop, looping, loop start. */
  datatype Header = Header(stop: bool, filter: nat, shift: nat, looping: bool, loopStart: bool)

  function Bit(b: bool, weight: nat): nat { if b then weight else 0 }

  function HeaderWord(h: Header): nat {
    Bit(h.stop, 0x100) + 16 * h.filter + h.shift + Bit(h.looping, 0x200) + Bit(h.loopStart, 0x400)
  }

  function ParseHeader(w: nat): Header {
    Header(w / 0x100 % 2 == 1, w / 16 % 16, w % 16, w / 0x200 % 2 == 1, w / 0x400 % 2 == 1)
  }

  lemma HeaderRoundTrip(h: Header)
    requires h.filter < 16 && h.shift < 16
    ensures HeaderWord(h) < 0x800 && ParseHeader(HeaderWord(h)) == h
  {
    var hi := Bit(h.stop, 1) + Bit(h.looping, 2) + Bit(h.loopStart, 4);
    var w := HeaderWord(h);
    assert w == 256 * hi + 16 * h.filter + h.shift;
    DivModUnique(w, 16, 16 * hi + h.filter, h.shift);
    DivModUnique(w / 16, 16, hi, h.filter);
    assert w / 0x100 == hi && w / 0x200 == hi / 2 && w / 0x400 == hi / 4;
  }

  // ---------- What the encoder means ----------

  function NumBlocks(n: nat): nat { (n + 27) / 28 }

  /** Block `i` of the samples; the last one is filled up with the last sample. */
  function Chunk(samples: seq<int>, i: nat): (c: seq<int>)
    requires 28 * i < |samples|
    ensures |c| == BLOCK_LEN && (AllI16(samples) ==> AllI16(c))
  {
    seq(BLOCK_LEN, k requires 0 <= k => if 28 * i + k < |samples| then samples[28 * i + k] else samples[|samples| - 1])
  }

  function ShiftOf(block: seq<int>, prev: Prev, f: nat): (s: nat)
    requires f < FILTERS
    ensures s <= 12
  {
    Shift(block, prev, Filter(f))
  }

  /** The encoder's own idea of a block coded with filter `f`. */
  function Rebuilt(block: seq<int>, prev: Prev, f: nat): (r: seq<int>)
    requires f < FILTERS
    ensures |r| == |block|
  {
    Encode(block, prev, Filter(f), ShiftOf(block, prev, f)).1
  }

  function Nibbles(block: seq<int>, prev: Prev, f: nat): (r: seq<int>)
    requires f < FILTERS
    ensures |r| == |block|
  {
    Encode(block, prev, Filter(f), ShiftOf(block, prev, f)).0
  }

  function ErrorOf(block: seq<int>, prev: Prev, f: nat): nat
    requires f < FILTERS
  {
    ErrorUpTo(block, Rebuilt(block, prev, f), |block|)
  }

  /** The first of the filters below `n` with the smallest error. */
  function Best(block: seq<int>, prev: Prev, n: nat): (b: nat)
    requires 1 <= n <= FILTERS
    ensures b < n
  {
    if n == 1 then 0
    else
      var b := Best(block, prev, n - 1);
      if ErrorOf(block, prev, n - 1) < ErrorOf(block, prev, b) then n - 1 else b
  }

  lemma {:induction false} BestIsFirstMinimum(block: seq<int>, prev: Prev, n: nat, f: nat)
    requires f < n <= FILTERS
    ensures ErrorOf(block, prev, Best(block, prev, n)) <= ErrorOf(block, prev, f)
    ensures f < Best(block, prev, n) ==> ErrorOf(block, prev, Best(block, prev, n)) < ErrorOf(block, prev, f)
  {
    hide ErrorOf;
    if f < n - 1 {
      BestIsFirstMinimum(block, prev, n - 1, f);
    } else if n > 1 {
      BestIsFirstMinimum(block, prev, n - 1, 0);
    }
  }

  lemma {:induction false} NothingBeatsZero(block: seq<int>, prev: Prev, m: nat, n: nat)
    requires 1 <= m <= n <= FILTERS && ErrorOf(block, prev, Best(block, prev, m)) == 0
    ensures Best(block, prev, n) == Best(block, prev, m)
  {
    hide ErrorOf;
    if m < n { NothingBeatsZero(block, prev, m, n - 1); }
  }

  /** The first block is coded without prediction, the others with the best filter. */
  function Chosen(block: seq<int>, prev: Prev, first: bool): (f: nat)
    ensures f < FILTERS
  {
    if first then 0 else Best(block, prev, FILTERS)
  }

  function LastTwo(block: seq<int>): Prev
    requires |block| == BLOCK_LEN
  {
    Prev(block[27], block[26])
  }

  /** The two samples before block `i`, as both sides know them. */
  function Carry(samples: seq<int>, i: nat): Prev
    requires 28 * i < |samples| + 28
    decreases i, 0
  {
    if i == 0 then Prev(0, 0) else LastTwo(RebuiltBlock(samples, i - 1))
  }

  function FilterOf(samples: seq<int>, i: nat): (f: nat)
    requires 28 * i < |samples|
    ensures f < FILTERS
    decreases i, 1
  {
    Chosen(Chunk(samples, i), Carry(samples, i), i == 0)
  }

  function RebuiltBlock(samples: seq<int>, i: nat): (r: seq<int>)
    requires 28 * i < |samples|
    ensures |r| == BLOCK_LEN
    decreases i, 2
  {
    Rebuilt(Chunk(samples, i), Carry(samples, i), FilterOf(samples, i))
  }

  /** The encoder's reconstruction of the first `n` blocks. */
  function Reconstruction(samples: seq<int>, n: nat): (r: seq<int>)
    requires 28 * n < |samples| + 28
    ensures |r| == 28 * n
  {
    if n == 0 then [] else Reconstruction(samples, n - 1) + RebuiltBlock(samples, n - 1)
  }

  function HeaderOf(samples: seq<int>, loopSample: Option<nat>, i: nat): (h: Header)
    requires 28 * i < |samples|
    ensures h.filter < FILTERS && h.shift <= 12
  {
    Header(
      i + 1 == NumBlocks(|samples|),
      FilterOf(samples, i),
      12 - ShiftOf(Chunk(samples, i), Carry(samples, i), FilterOf(samples, i)),
      loopSample.Some?,
      loopSample.Some? && loopSample.value / 28 == i
    )
  }

  ghost predicate BlockAt(samples: seq<int>, loopSample: Option<nat>, out: seq<nat>, i: nat)
    requires 28 * i < |samples| && 8 * i + 8 <= |out|
  {
    && out[8 * i] == HeaderWord(HeaderOf(samples, loopSample, i))
    && Unpack(out[8 * i + 1..8 * i + 8]) == Nibbles(Chunk(samples, i), Carry(samples, i), FilterOf(samples, i))
  }

  /** `out` holds the first `n` blocks of the samples. */
  ghost predicate Stream(samples: seq<int>, loopSample: Option<nat>, out: seq<nat>, n: nat)
    requires 28 * n < |samples| + 28
  {
    && |out| == 8 * n
    && (forall k :: 0 <= k < |out| ==> out[k] < 0x1_0000)
    && forall i :: 0 <= i < n ==> BlockAt(samples, loopSample, out, i)
  }

  /** The description fixes the stream: there is only one such sequence of words. */
  lemma StreamUnique(samples: seq<int>, loopSample: Option<nat>, a: seq<nat>, b: seq<nat>, n: nat)
    requires 28 * n < |samples| + 28
    requires Stream(samples, loopSample, a, n) && Stream(samples, loopSample, b, n)
    ensures a == b
  {
    hide Nibbles, HeaderWord, HeaderOf, FilterOf, Carry;
    forall k | 0 <= k < |a| ensures a[k] == b[k] {
      var i := k / 8;
      assert BlockAt(samples, loopSample, a, i) && BlockAt(samples, loopSample, b, i);
      UnpackInjective(a[8 * i + 1..8 * i + 8], b[8 * i + 1..8 * i + 8]);
      if k % 8 > 0 {
        assert a[k] == a[8 * i + 1..8 * i + 8][k % 8 - 1];
        assert b[k] == b[8 * i + 1..8 * i + 8][k % 8 - 1];
      }
    }
  }

  // ---------- The encoder ----------

  lemma LockstepOf(block: seq<int>, prev: Prev, f: nat)
    requires f < FILTERS
    ensures Decode(Nibbles(block, prev, f), prev, Filter(f), 12 - ShiftOf(block, prev, f)) == Rebuilt(block, prev, f)
  {
    Lockstep(block, prev, Filter(f), ShiftOf(block, prev, f), |block|);
  }

  /** `adpcm_error`. */
  method AdpcmError(source: seq<int>, decoded: seq<int>) returns (error: nat)
    requires |source| == |decoded|
    ensures error == ErrorUpTo(source, decoded, |source|)
  {
    var sum: nat := 0;
    for i := 0 to |source|
      invariant sum == ErrorUpTo(source, decoded, i)
    {
      var d := source[i] - decoded[i];
      sum := sum + if d < 0 then -d else d;
    }
    return sum;
  }

  datatype Coded = Coded(words: seq<nat>, shift: nat, decoded: seq<int>, error: nat)

  /** What `dump_nrad` keeps of a block coded with filter `f`. */
  ghost predicate CodedWith(c: Coded, block: seq<int>, prev: Prev, f: nat)
    requires f < FILTERS
  {
    && 4 * |c.words| == |block| && (forall k :: 0 <= k < |c.words| ==> c.words[k] < 0x1_0000)
    && Unpack(c.words) == Nibbles(block, prev, f)
    && c.shift == 12 - ShiftOf(block, prev, f)
    && c.decoded == Rebuilt(block, prev, f)
    && c.error == ErrorOf(block, prev, f)
  }

  /** Encode with one filter, decode again and measure the error. */
  method TryFilter(block: seq<int>, prev: Prev, f: nat) returns (c: Coded)
    requires |block| == BLOCK_LEN && f < FILTERS
    ensures CodedWith(c, block, prev, f)
  {
    var words, shift := EncodeBlock(block, prev, Filter(f));
    var decoded := DecodeBlock(words, prev, Filter(f), shift);
    LockstepOf(block, prev, f);
    var error := AdpcmError(block, decoded);
    return Coded(words, shift, decoded, error);
  }

  /** The choice of a filter for one block. */
  method ChooseFilter(block: seq<int>, prev: Prev, start: bool) returns (filter: nat, c: Coded)
    requires |block| == BLOCK_LEN
    ensures filter == Chosen(block, prev, start) && CodedWith(c, block, prev, filter)
  {
    hide ErrorOf, Rebuilt, Nibbles, ShiftOf, Unpack;
    filter := 0;
    c := TryFilter(block, prev, 0);
    if !start {
      if c.error > 0 {
        var f := 1;
        while f < FILTERS
          invariant 1 <= f <= FILTERS && filter == Best(block, prev, f) && CodedWith(c, block, prev, filter)
        {
          var fc := TryFilter(block, prev, f);
          if fc.error < c.error {
            filter, c := f, fc;
            if c.error == 0 {
              NothingBeatsZero(block, prev, f + 1, FILTERS);
              break;
            }
          }
          f := f + 1;
        }
      } else {
        NothingBeatsZero(block, prev, 1, FILTERS);
      }
    }
  }

  /** `dump_nrad` after its prelude. */
  method DumpNrad(samples: seq<int>, loopSample: Option<nat>) returns (out: seq<nat>)
    ensures Stream(samples, loopSample, out, NumBlocks(|samples|))
  {
    hide Chosen, Rebuilt, Nibbles, ShiftOf, Unpack, ErrorOf, BlockAt;
    out := [];
    var nblocks := NumBlocks(|samples|);
    var start := true;
    var prev := Prev(0, 0);
    for i := 0 to nblocks
      invariant Stream(samples, loopSample, out, i) && start == (i == 0) && prev == Carry(samples, i)
    {
      var block := Chunk(samples, i);
      var filter, c := ChooseFilter(block, prev, start);
      start := false;
      var header := Bit(i + 1 == nblocks, 0x100) + 16 * filter + c.shift;
      if loopSample.Some? {
        header := header + 0x200;
        if loopSample.value / 28 == i {
          header := header + 0x400;
        }
      }
      AppendBlock(samples, loopSample, out, i, header, c);
      out := out + [header] + c.words;
      prev := Prev(c.decoded[27], c.decoded[26]);
    }
  }

  lemma AppendBlock(samples: seq<int>, loopSample: Option<nat>, out: seq<nat>, i: nat, header: nat, c: Coded)
    requires 28 * i < |samples| && Stream(samples, loopSample, out, i)
    requires header == HeaderWord(HeaderOf(samples, loopSample, i))
    requires CodedWith(c, Chunk(samples, i), Carry(samples, i), FilterOf(samples, i))
    ensures Stream(samples, loopSample, out + [header] + c.words, i + 1)
    ensures Carry(samples, i + 1) == LastTwo(c.decoded)
  {
    hide Chosen, Rebuilt, Nibbles, ShiftOf, Unpack, ErrorOf;
    var out' := out + [header] + c.words;
    HeaderRoundTrip(HeaderOf(samples, loopSample, i));
    assert out'[8 * i + 1..8 * i + 8] == c.words;
    forall j | 0 <= j < i + 1 ensures BlockAt(samples, loopSample, out', j) {
      if j < i {
        assert BlockAt(samples, loopSample, out, j);
        assert out'[8 * j + 1..8 * j + 8] == out[8 * j + 1..8 * j + 8];
      }
    }
  }

  // ---------- The decoder ----------

  /** End of the stream before a stop block is an error; a filter beyond the table is a panic. */
  datatype Outcome = Decoded(samples: seq<int>, loopSample: Option<nat>) | UnexpectedEof | BadFilter

  function DecodedBlock(words: seq<nat>, b: nat, prev: Prev): (r: seq<int>)
    requires 8 * b + 8 <= |words| && ParseHeader(words[8 * b]).filter < FILTERS
    ensures |r| == BLOCK_LEN
  {
    var h := ParseHeader(words[8 * b]);
    Decode(Unpack(words[8 * b + 1..8 * b + 8]), prev, Filter(h.filter), h.shift)
  }

  /** Decoding from block `b` on, given what the blocks before it left. */
  function DecodeFrom(words: seq<nat>, b: nat, prev: Prev, done: seq<int>, loopSample: Option<nat>): Outcome
    decreases |words| - 8 * b
  {
    if 8 * b + 8 > |words| then UnexpectedEof
    else if ParseHeader(words[8 * b]).filter >= FILTERS then BadFilter
    else
      var h := ParseHeader(words[8 * b]);
      var block := DecodedBlock(words, b, prev);
      var loopSample' := if h.loopStart then Some(b * 28) else loopSample;
      if h.stop then Decoded(done + block, if h.looping then loopSample' else None)
      else DecodeFrom(words, b + 1, LastTwo(block), done + block, loopSample')
  }

  function DecodeStream(words: seq<nat>): Outcome { DecodeFrom(words, 0, Prev(0, 0), [], None) }

  /** Block `i` is there, and its filter is one of the table. */
  predicate Readable(words: seq<nat>, i: nat) { 8 * i + 8 <= |words| && words[8 * i] / 16 % 16 < 5 }

  /**
   * How decoding ends: at the first block that is cut off, has no filter in the table, or is marked as
   * the last one; then its samples are those of all blocks up to there.
   */
  lemma {:induction false} OutcomeIs(words: seq<nat>, b: nat, prev: Prev, done: seq<int>, loopSample: Option<nat>)
    returns (i: nat)
    ensures b <= i && forall j :: b <= j < i ==> Readable(words, j) && words[8 * j] / 0x100 % 2 == 0
    ensures match DecodeFrom(words, b, prev, done, loopSample)
            case UnexpectedEof => 8 * i + 8 > |words|
            case BadFilter => 8 * i + 8 <= |words| && words[8 * i] / 16 % 16 >= 5
            case Decoded(samples, _) =>
              Readable(words, i) && words[8 * i] / 0x100 % 2 == 1 && |samples| == |done| + 28 * (i + 1 - b)
    decreases |words| - 8 * b
  {
    hide DecodedBlock;
    i := b;
    if Readable(words, b) && words[8 * b] / 0x100 % 2 == 0 {
      var h := ParseHeader(words[8 * b]);
      var block := DecodedBlock(words, b, prev);
      i := OutcomeIs(words, b + 1, LastTwo(block), done + block, if h.loopStart then Some(b * 28) else loopSample);
    }
  }

  /** `decode_nrad_raw`. */
  method DecodeNrad(words: seq<nat>) returns (r: Outcome)
    requires forall k :: 0 <= k < |words| ==> words[k] < 0x1_0000
    ensures r == DecodeStream(words)
  {
    var samples: seq<int> := [];
    var prev := Prev(0, 0);
    var block := 0;
    var loopSample: Option<nat> := None;
    while 8 * block + 8 <= |words|
      invariant DecodeStream(words) == DecodeFrom(words, block, prev, samples, loopSample)
      decreases |words| - 8 * block
    {
      var header := ParseHeader(words[8 * block]);
      if header.filter >= FILTERS {
        return BadFilter;
      }
      var decoded := DecodeBlock(words[8 * block + 1..8 * block + 8], prev, Filter(header.filter), header.shift);
      prev := Prev(decoded[27], decoded[26]);
      samples := samples + decoded;
      if header.loopStart {
        loopSample := Some(block * 28);
      }
      if header.stop {
        if !header.looping {
          loopSample := None;
        }
        return Decoded(samples, loopSample);
      }
      block := block + 1;
    }
    return UnexpectedEof;
  }

  // ---------- The round trip ----------

  /** Where the decoder finds the loop after `n` blocks have been read. */
  function LoopSeen(loopSample: Option<nat>, n: nat): Option<nat> {
    if loopSample.Some? && loopSample.value / 28 < n then Some(loopSample.value / 28 * 28) else None
  }

  lemma BlockRoundTrip(samples: seq<int>, loopSample: Option<nat>, out: seq<nat>, i: nat)
    requires 28 * i < |samples| && 8 * i + 8 <= |out| && BlockAt(samples, loopSample, out, i)
    ensures ParseHeader(out[8 * i]) == HeaderOf(samples, loopSample, i)
    ensures DecodedBlock(out, i, Carry(samples, i)) == RebuiltBlock(samples, i)
  {
    HeaderRoundTrip(HeaderOf(samples, loopSample, i));
    LockstepOf(Chunk(samples, i), Carry(samples, i), FilterOf(samples, i));
  }

  lemma {:induction false} DecodeReaches(samples: seq<int>, loopSample: Option<nat>, out: seq<nat>, i: nat)
    requires i < NumBlocks(|samples|) && Stream(samples, loopSample, out, NumBlocks(|samples|))
    ensures DecodeFrom(out, i, Carry(samples, i), Reconstruction(samples, i), LoopSeen(loopSample, i))
         == Decoded(Reconstruction(samples, NumBlocks(|samples|)), LoopSeen(loopSample, NumBlocks(|samples|)))
    decreases NumBlocks(|samples|) - i
  {
    hide Chosen, Rebuilt, DecodedBlock, BlockAt, ParseHeader;
    assert BlockAt(samples, loopSample, out, i);
    BlockRoundTrip(samples, loopSample, out, i);
    if i + 1 < NumBlocks(|samples|) {
      DecodeReaches(samples, loopSample, out, i + 1);
    }
  }

  /**
   * Decoding what the encoder dumped gives exactly the encoder's own reconstruction, whatever
   * filters it chose: whole blocks of 28 samples, and the loop point rounded down to a block start
   * (none when it lies past the last block). Without samples there is no stop block to find.
   */
  lemma RoundTrip(samples: seq<int>, loopSample: Option<nat>, out: seq<nat>)
    requires Stream(samples, loopSample, out, NumBlocks(|samples|))
    ensures |samples| > 0 ==>
      var n := NumBlocks(|samples|);
      && DecodeStream(out) == Decoded(Reconstruction(samples, n), LoopSeen(loopSample, n))
      && |Reconstruction(samples, n)| == 28 * n && |samples| <= 28 * n < |samples| + 28
    ensures |samples| == 0 ==> DecodeStream(out) == UnexpectedEof
  {
    if |samples| > 0 {
      DecodeReaches(samples, loopSample, out, 0);
    }
  }

  /** The filter kept for a block is never worse than no filter, so the error of a block is bounded. */
  lemma BlockErrorBound(samples: seq<int>, i: nat)
    requires AllI16(samples) && 28 * i < |samples|
    ensures var block, prev := Chunk(samples, i), Carry(samples, i);
      && ErrorUpTo(block, RebuiltBlock(samples, i), 28) <= ErrorOf(block, prev, 0)
      && ErrorOf(block, prev, 0) <= 28 * (Pow2(ShiftOf(block, prev, 0)) - 1)
  {
    hide Rebuilt, ShiftOf, Chunk, Best;
    var block, prev := Chunk(samples, i), Carry(samples, i);
    BestIsFirstMinimum(block, prev, FILTERS, 0);
    FilterZeroBlock(block, prev);
  }

  lemma FilterZeroBlock(block: seq<int>, prev: Prev)
    requires AllI16(block)
    ensures ErrorOf(block, prev, 0) <= |block| * (Pow2(ShiftOf(block, prev, 0)) - 1)
  {
    hide Shift, Encode, ErrorUpTo, Pow2;
    FilterZeroError(block, prev, Filter(0));
  }

  /** A block that filter 0 codes without any shift comes back unchanged, whatever filter is kept. */
  lemma {:induction false} NoErrorIsLossless(a: seq<int>, b: seq<int>, n: nat)
    requires n <= |a| == |b| && ErrorUpTo(a, b, n) == 0
    ensures a[..n] == b[..n]
  {
    if n > 0 {
      NoErrorIsLossless(a, b, n - 1);
      assert a[..n] == a[..n - 1] + [a[n - 1]] && b[..n] == b[..n - 1] + [b[n - 1]];
    }
  }

  lemma SmallBlocksAreLossless(samples: seq<int>, i: nat)
    requires AllI16(samples) && 28 * i < |samples|
    requires forall k :: 0 <= k < 28 ==> -8 <= Chunk(samples, i)[k] <= 7
    ensures RebuiltBlock(samples, i) == Chunk(samples, i)
  {
    hide Rebuilt, ShiftOf, Chunk, Chosen, ErrorUpTo;
    var block, prev := Chunk(samples, i), Carry(samples, i);
    SmallSamplesNeedNoShift(block, prev, |block|);
    BlockErrorBound(samples, i);
    NoErrorIsLossless(block, RebuiltBlock(samples, i), 28);
  }

  lemma {:induction false} SmallSamplesNeedNoShift(block: seq<int>, prev: Prev, n: nat)
    requires n <= |block| && forall k :: 0 <= k < |block| ==> -8 <= block[k] <= 7
    ensures MaxDiff(block, prev, Filter(0), n) <= 7 && MinDiff(block, prev, Filter(0), n) >= -8
    ensures n == |block| ==> ShiftOf(block, prev, 0) == 0
  {
    if n > 0 {
      SmallSamplesNeedNoShift(block, prev, n - 1);
      assert Diff(block, prev, Filter(0), n - 1) == block[n - 1];
    }
    BitLenWithin(MaxDiff(block, prev, Filter(0), n), 3);
    BitLenWithin(-MinDiff(block, prev, Filter(0), n) - 1, 3);
  }

  /** Errors add up, sample by sample. */
  lemma ErrorAdds(a: seq<int>, b: seq<int>, x: int, y: int)
    requires |a| == |b|
    ensures ErrorUpTo(a + [x], b + [y], |a| + 1) == ErrorUpTo(a, b, |a|) + if x < y then y - x else x - y
  {
    ErrorOfPrefix(a, b, x, y, |a|);
  }

  lemma {:induction false} ErrorOfPrefix(a: seq<int>, b: seq<int>, x: int, y: int, n: nat)
    requires n <= |a| == |b|
    ensures ErrorUpTo(a + [x], b + [y], n) == ErrorUpTo(a, b, n)
  {
    if n > 0 { ErrorOfPrefix(a, b, x, y, n - 1); }
  }

  /** The samples, filled up to whole blocks with the last one. */
  function Filled(samples: seq<int>, k: nat): int
    requires samples != []
  {
    if k < |samples| then samples[k] else samples[|samples| - 1]
  }

  lemma {:induction false} SmallReconstruction(samples: seq<int>, n: nat, k: nat)
    requires 28 * n < |samples| + 28 && k < 28 * n && forall j :: 0 <= j < |samples| ==> -8 <= samples[j] <= 7
    ensures samples != [] && Reconstruction(samples, n)[k] == Filled(samples, k)
  {
    hide RebuiltBlock;
    if k < 28 * (n - 1) {
      SmallReconstruction(samples, n - 1, k);
    } else {
      var block := Chunk(samples, n - 1);
      assert forall j :: 0 <= j < 28 ==> -8 <= block[j] <= 7;
      SmallBlocksAreLossless(samples, n - 1);
      assert block[k - 28 * (n - 1)] == Filled(samples, k);
    }
  }

  /** Quiet sound survives the way through both codecs sample for sample, up to the end of its last block. */
  lemma SmallSoundIsLossless(samples: seq<int>, loopSample: Option<nat>, out: seq<nat>)
    requires samples != [] && forall j :: 0 <= j < |samples| ==> -8 <= samples[j] <= 7
    requires Stream(samples, loopSample, out, NumBlocks(|samples|))
    ensures var r := DecodeStream(out);
      r.Decoded? && samples <= r.samples && |r.samples| < |samples| + 28
      && forall k :: |samples| <= k < |r.samples| ==> r.samples[k] == samples[|samples| - 1]
  {
    RoundTrip(samples, loopSample, out);
    hide Reconstruction, Stream, DecodeStream;
    var n := NumBlocks(|samples|);
    forall k | 0 <= k < 28 * n ensures Reconstruction(samples, n)[k] == Filled(samples, k) {
      SmallReconstruction(samples, n, k);
    }
  }
}

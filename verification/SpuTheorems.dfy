/**
 * The two decoders agree: a voice (src/spu.rs) that plays a block stream in sound RAM pushes the
 * samples that `decode_nrad_raw` (multitool/src/audio.rs) gives for the same stream.
 */
module SpuTheorems {
  import opened Arith
  import opened Wrappers
  import opened Adpcm
  import opened Spu
  import Nrad

  /** `words` lie in sound RAM from `start` on, which may run over the end of the RAM. */
  ghost predicate Loaded(ram: Ram, start: nat, words: seq<nat>) {
    && start < RAM_SIZE && start % 8 == 0 && |words| <= RAM_SIZE
    && forall k :: 0 <= k < |words| ==> ram[At(start, k)] == words[k]
  }

  function At(start: nat, k: nat): (i: nat)
    ensures i < RAM_SIZE
  {
    (start + k) % RAM_SIZE
  }

  /** The streams that both decoders read alike: known filters and shifts, and only the last block stops. */
  ghost predicate Playable(words: seq<nat>, n: nat) {
    && n > 0 && |words| == 8 * n
    && (forall i :: 0 <= i < n ==> GoodHeader(words[8 * i], i == n - 1))
    && words[0] / 16 % 16 == 0
  }

  predicate GoodHeader(w: nat, last: bool) {
    w / 16 % 16 < Nrad.FILTERS && w % 16 <= 12 && (End(w) <==> last)
  }

  lemma SamePrediction(header: nat)
    requires header / 16 % 16 < Nrad.FILTERS
    ensures forall p :: Predict(header)(p) == Nrad.Filter(header / 16 % 16)(p)
  {}

  /** Filter 0 predicts nothing, and neither do the numbers without a filter. */
  lemma NoPrediction(header: nat)
    requires header / 16 % 16 == 0 || header / 16 % 16 >= 5
    ensures forall p :: Predict(header)(p) == 0
  {}

  /** A header whose shift is beyond the scale is read as one with the largest shift. */
  lemma OddShift(e: nat, header: nat, last: Prev)
    requires header % 16 > 12
    ensures Four(e, header, last) == Four(e, header / 16 * 16 + 12, last)
  {
    var other := header / 16 * 16 + 12;
    assert other / 16 == header / 16 && other % 16 == 12;
    DecodeSame(Unpack([e]), last, Predict(header), Predict(other), 12, 4);
  }

  // ---------- One block ----------

  /** The samples of a block at `c` as the voice decodes them. */
  function BlockSamples(ram: Ram, c: nat, last: Prev): (s: seq<int>)
    requires c + 8 <= RAM_SIZE
    ensures |s| == 28
  {
    Decode(Unpack(ram[c + 1..c + 8]), last, Predict(ram[c]), ShiftOf(ram[c]))
  }

  /** The first `4 * j` of them. */
  function BlockPart(ram: Ram, c: nat, last: Prev, j: nat): (s: seq<int>)
    requires c + 8 <= RAM_SIZE && j <= 7
    ensures |s| == 4 * j
  {
    DecodeUpTo(Unpack(ram[c + 1..c + 8]), last, Predict(ram[c]), ShiftOf(ram[c]), 4 * j)
  }

  lemma FourIsPart(words: seq<nat>, j: nat, last: Prev, header: nat, predict: Predictor)
    requires j < |words| && predict == Predict(header)
    ensures var before := DecodeUpTo(Unpack(words), last, predict, ShiftOf(header), 4 * j);
      DecodeUpTo(Unpack(words), last, predict, ShiftOf(header), 4 * j + 4)
        == before + Four(words[j], header, PrevAt(before, last, 4 * j))
  {
    hide DecodeOne, Nibble, PrevAt, ShiftOf, Predict;
    var ds, s := Unpack(words), ShiftOf(header);
    var before := DecodeUpTo(ds, last, predict, s, 4 * j);
    DecodeSplit(ds, last, predict, s, 4 * j, 4);
    assert Unpack([words[j]]) == ds[4 * j..4 * j + 4] by {
      forall i: nat | i <= 3 ensures Unpack([words[j]])[i] == ds[4 * j + i] {
        UnpackAt(words, j, i);
        UnpackAt([words[j]], 0, i);
      }
    }
    DecodePrefix(Unpack([words[j]]), ds[4 * j..], PrevAt(before, last, 4 * j), predict, s, 4);
  }

  lemma PartGrows(ram: Ram, c: nat, last: Prev, j: nat)
    requires c + 8 <= RAM_SIZE && j < 7
    ensures var before, after := BlockPart(ram, c, last, j), BlockPart(ram, c, last, j + 1);
      var s := Four(ram[c + 1 + j], ram[c], PrevAt(before, last, 4 * j));
      after == before + s && PrevAt(after, last, 4 * j + 4) == Prev(s[3], s[2])
  {
    hide Four, DecodeUpTo;
    FourIsPart(ram[c + 1..c + 8], j, last, ram[c], Predict(ram[c]));
    assert ram[c + 1..c + 8][j] == ram[c + 1 + j];
  }

  /** Playing on from a block start into the block at `c`: after `j` words. */
  ghost predicate InBlock(ram: Ram, w: Walk, n: nat, c: nat, j: nat)
    requires InRam(w) && c + 8 <= RAM_SIZE && j <= 7
  {
    var p, q := Rounds(ram, w, n), Rounds(ram, w, n + j);
    && !q.stop
    && q.samples == p.samples + BlockPart(ram, c, p.walk.last, j)
    && q.walk == Walk(At(c, 1 + j), if LoopStart(ram[c]) then c else p.walk.loopIndex, ram[c],
                      PrevAt(BlockPart(ram, c, p.walk.last, j), p.walk.last, 4 * j))
  }

  /** The voice is about to begin the block at `c`. */
  predicate AtBlock(w: Walk, c: nat) {
    && w.cur % 8 == 0 && !Stops(w) && c % 8 == 0 && c < RAM_SIZE
    && c == if End(w.header) then w.loopIndex else w.cur
  }

  lemma PartZero(ram: Ram, c: nat, last: Prev)
    requires c + 8 <= RAM_SIZE
    ensures BlockPart(ram, c, last, 0) == [] && PrevAt([], last, 0) == last
  {}

  lemma InsideBlock(c: nat, j: nat)
    requires c % 8 == 0 && c < RAM_SIZE && 1 <= j <= 7
    ensures c + 8 <= RAM_SIZE && At(c, j) == c + j && (c + j) % 8 == j && Inc(c + j) == At(c, 1 + j) && Inc(c) == c + 1
  {}

  /** A round in the middle of a block. */
  lemma RoundInside(ram: Ram, w: Walk, c: nat, j: nat)
    requires InRam(w) && c % 8 == 0 && c + 8 <= RAM_SIZE && 1 <= j <= 7 && w.cur == At(c, j)
    ensures var s := Four(ram[c + j], w.header, w.last);
      Round(ram, w) == Progress(Walk(At(c, 1 + j), w.loopIndex, w.header, Prev(s[3], s[2])), s, false)
  {
    hide Four;
    InsideBlock(c, j);
  }

  /** The round that reads the header of a block and its first word. */
  lemma RoundAtStart(ram: Ram, w: Walk, c: nat)
    requires InRam(w) && AtBlock(w, c) && c + 8 <= RAM_SIZE
    ensures var s := Four(ram[c + 1], ram[c], w.last);
      Round(ram, w)
        == Progress(Walk(At(c, 2), if LoopStart(ram[c]) then c else w.loopIndex, ram[c], Prev(s[3], s[2])), s, false)
  {
    hide Four, LoopStart;
    InsideBlock(c, 1);
  }

  lemma OneMoreRound(ram: Ram, w: Walk, n: nat)
    requires InRam(w) && !Rounds(ram, w, n).stop
    ensures var p := Rounds(ram, w, n); var q := Round(ram, p.walk);
      Rounds(ram, w, n + 1) == Progress(q.walk, p.samples + q.samples, q.stop)
  {}

  lemma FirstWord(ram: Ram, w: Walk, n: nat, c: nat)
    requires InRam(w) && AtBlock(Rounds(ram, w, n).walk, c) && !Rounds(ram, w, n).stop && c + 8 <= RAM_SIZE
    ensures InBlock(ram, w, n, c, 1)
  {
    hide BlockPart, Four, LoopStart, AtBlock, At, Rounds, Round, PrevAt;
    var p := Rounds(ram, w, n);
    OneMoreRound(ram, w, n);
    RoundAtStart(ram, p.walk, c);
    PartZero(ram, c, p.walk.last);
    PartGrows(ram, c, p.walk.last, 0);
  }

  lemma NextWord(ram: Ram, w: Walk, n: nat, c: nat, j: nat)
    requires InRam(w) && c % 8 == 0 && 1 <= j < 7 && c + 8 <= RAM_SIZE && InBlock(ram, w, n, c, j)
    ensures InBlock(ram, w, n, c, j + 1)
  {
    hide BlockPart, Four, LoopStart, At, Rounds, Round, PrevAt;
    OneMoreRound(ram, w, n + j);
    RoundInside(ram, Rounds(ram, w, n + j).walk, c, 1 + j);
    PartGrows(ram, c, Rounds(ram, w, n).walk.last, j);
  }

  lemma {:induction false} PlayWords(ram: Ram, w: Walk, n: nat, c: nat, j: nat)
    requires InRam(w) && AtBlock(Rounds(ram, w, n).walk, c) && !Rounds(ram, w, n).stop && 1 <= j <= 7
    ensures c + 8 <= RAM_SIZE && InBlock(ram, w, n, c, j)
  {
    hide InBlock, End, Stops, Rounds;
    if j == 1 {
      FirstWord(ram, w, n, c);
    } else {
      PlayWords(ram, w, n, c, j - 1);
      NextWord(ram, w, n, c, j - 1);
    }
  }

  /** From `p` to `q` the block samples `s` were decoded. */
  predicate Advanced(p: Progress, q: Progress, s: seq<int>, cur: nat, loopIndex: nat, header: nat) {
    && !q.stop && q.samples == p.samples + s
    && |s| == 28 && q.walk == Walk(cur, loopIndex, header, Prev(s[27], s[26]))
  }

  /** A whole block: seven rounds, 28 samples, and on to the next block start. */
  lemma PlayBlock(ram: Ram, w: Walk, n: nat, c: nat)
    requires InRam(w) && AtBlock(Rounds(ram, w, n).walk, c) && !Rounds(ram, w, n).stop
    ensures c + 8 <= RAM_SIZE
    ensures var p := Rounds(ram, w, n);
      Advanced(p, Rounds(ram, w, n + 7), BlockSamples(ram, c, p.walk.last),
               At(c, 8), if LoopStart(ram[c]) then c else p.walk.loopIndex, ram[c])
  {
    PlayWords(ram, w, n, c, 7);
  }

  // ---------- A stream ----------

  /** The last loop start among the first `i` blocks. */
  function LoopBlock(words: seq<nat>, i: nat): Option<nat> {
    if i == 0 then None
    else if LoopStart(HeaderAt(words, i - 1)) then Some(i - 1)
    else LoopBlock(words, i - 1)
  }

  function LoopSample(block: Option<nat>): Option<nat> {
    if block.Some? then Some(block.value * 28) else None
  }

  function LoopAddress(start: nat, block: Option<nat>, before: nat): nat {
    if block.Some? then At(start, 8 * block.value) else before
  }

  lemma BlockAddress(start: nat, i: nat)
    requires start < RAM_SIZE && start % 8 == 0
    ensures At(start, 8 * i) % 8 == 0 && At(start, 8 * i) + 8 <= RAM_SIZE
    ensures At(At(start, 8 * i), 8) == At(start, 8 * i + 8)
  {}

  lemma WordAddress(start: nat, i: nat, j: nat)
    requires start < RAM_SIZE && start % 8 == 0 && j < 8
    ensures At(start, 8 * i + j) == At(start, 8 * i) + j
  {
    BlockAddress(start, i);
    DivModUnique(start + 8 * i + j, RAM_SIZE, (start + 8 * i) / RAM_SIZE, At(start, 8 * i) + j);
  }

  /** A block of the stream, found in sound RAM. */
  lemma SameWords(ram: Ram, start: nat, words: seq<nat>, i: nat)
    requires Loaded(ram, start, words) && 8 * i + 8 <= |words|
    ensures var c := At(start, 8 * i);
      c + 8 <= RAM_SIZE && ram[c] == words[8 * i] && ram[c + 1..c + 8] == words[8 * i + 1..8 * i + 8]
  {
    hide At;
    var c := At(start, 8 * i);
    BlockAddress(start, i);
    var inRam, inWords := ram[c..c + 8], words[8 * i..8 * i + 8];
    forall j: nat | j < 8 ensures inRam[j] == inWords[j] {
      WordAddress(start, i, j);
      assert ram[At(start, 8 * i + j)] == words[8 * i + j];
    }
    assert inRam == inWords;
    assert ram[c + 1..c + 8] == inRam[1..] && ram[c] == inRam[0];
  }

  /** A voice with walk `w`, just started on a stream of `n` blocks in sound RAM. */
  ghost predicate Started(ram: Ram, start: nat, words: seq<nat>, n: nat, w: Walk) {
    Loaded(ram, start, words) && Playable(words, n) && InRam(w) && w.cur == start && !End(w.header)
  }

  function HeaderAt(words: seq<nat>, i: nat): nat { if 8 * i < |words| then words[8 * i] else 0 }

  /** What the tool decodes from block `i`; the first block needs nothing before it. */
  function ToolBlock(words: seq<nat>, i: nat, last: Prev): seq<int> {
    if 8 * i + 8 <= |words| && Nrad.ParseHeader(words[8 * i]).filter < Nrad.FILTERS
    then Nrad.DecodedBlock(words, i, if i == 0 then Prev(0, 0) else last)
    else []
  }

  /** A block of the stream sounds the same to both decoders. */
  lemma SameBlock(ram: Ram, start: nat, words: seq<nat>, n: nat, w: Walk, i: nat, last: Prev)
    requires Started(ram, start, words, n, w) && i < n
    ensures At(start, 8 * i) + 8 <= RAM_SIZE && ram[At(start, 8 * i)] == HeaderAt(words, i)
    ensures BlockSamples(ram, At(start, 8 * i), last) == ToolBlock(words, i, last)
  {
    hide At, Unpack, End;
    SameWords(ram, start, words, i);
    var h := words[8 * i];
    assert GoodHeader(h, i == n - 1);
    SameDecoding(Unpack(words[8 * i + 1..8 * i + 8]), h, last, if i == 0 then Prev(0, 0) else last);
  }

  lemma SameDecoding(ds: seq<int>, h: nat, last: Prev, prev: Prev)
    requires h / 16 % 16 < Nrad.FILTERS && h % 16 <= 12 && (last == prev || h / 16 % 16 == 0)
    ensures Decode(ds, last, Predict(h), ShiftOf(h)) == Decode(ds, prev, Nrad.Filter(h / 16 % 16), h % 16)
  {
    SamePrediction(h);
    DecodeSame(ds, last, Predict(h), Nrad.Filter(h / 16 % 16), h % 16, |ds|);
    if last != prev {
      NoPrediction(h);
      DecodeForgets(ds, last, prev, Nrad.Filter(h / 16 % 16), h % 16, |ds|);
    }
  }

  /** Where the voice stands when `i` blocks of the stream have been played. */
  ghost predicate Reached(p: Progress, start: nat, words: seq<nat>, w: Walk, i: nat) {
    && !p.stop && p.walk.cur == At(start, 8 * i)
    && p.walk.loopIndex == LoopAddress(start, LoopBlock(words, i), w.loopIndex)
    && p.walk.header == if i == 0 then w.header else HeaderAt(words, i - 1)
  }

  /** The voice does not stop or loop before the end of the stream. */
  lemma BlockBegins(ram: Ram, start: nat, words: seq<nat>, n: nat, w: Walk, p: Progress, i: nat)
    requires Started(ram, start, words, n, w) && Reached(p, start, words, w, i) && i < n
    ensures AtBlock(p.walk, At(start, 8 * i))
  {
    hide LoopBlock, At, IsLoop, LoopAddress;
    BlockAddress(start, i);
    if i > 0 { assert GoodHeader(words[8 * (i - 1)], i - 1 == n - 1); }
  }

  lemma LoopMoves(start: nat, words: seq<nat>, i: nat, before: nat)
    ensures LoopAddress(start, LoopBlock(words, i + 1), before)
         == if LoopStart(HeaderAt(words, i)) then At(start, 8 * i) else LoopAddress(start, LoopBlock(words, i), before)
  {}

  /** One block further in the sound RAM. */
  lemma PlayedBlock(ram: Ram, start: nat, words: seq<nat>, n: nat, w: Walk, i: nat)
    requires Started(ram, start, words, n, w) && i < n && InRam(w)
    requires Reached(Rounds(ram, w, 7 * i), start, words, w, i)
    ensures var p, q := Rounds(ram, w, 7 * i), Rounds(ram, w, 7 * i + 7);
      var s := ToolBlock(words, i, p.walk.last);
      && Reached(q, start, words, w, i + 1)
      && q.samples == p.samples + s && |s| == 28 && q.walk.last == Prev(s[27], s[26])
  {
    hide Rounds, Started, At, BlockSamples, ToolBlock, LoopStart, AtBlock, HeaderAt, LoopAddress, LoopBlock, InRam;
    var p, c := Rounds(ram, w, 7 * i), At(start, 8 * i);
    LoopMoves(start, words, i, w.loopIndex);
    BlockBegins(ram, start, words, n, w, p, i);
    SameBlock(ram, start, words, n, w, i, p.walk.last);
    StartedAligned(ram, start, words, n, w, i);
    PlayBlock(ram, w, 7 * i, c);
  }

  lemma StartedAligned(ram: Ram, start: nat, words: seq<nat>, n: nat, w: Walk, i: nat)
    requires Started(ram, start, words, n, w)
    ensures At(At(start, 8 * i), 8) == At(start, 8 * (i + 1))
  {
    hide At;
    BlockAddress(start, i);
  }

  /** One block further in `decode_nrad_raw`. */
  lemma DecodeBlockStep(ram: Ram, start: nat, words: seq<nat>, n: nat, w: Walk, i: nat, last: Prev, done: seq<int>)
    requires Started(ram, start, words, n, w) && i < n
    ensures var s := ToolBlock(words, i, last);
      |s| == 28 &&
      Nrad.DecodeFrom(words, i, if i == 0 then Prev(0, 0) else last, done, LoopSample(LoopBlock(words, i)))
      == if i == n - 1
         then Nrad.Decoded(done + s, if IsLoop(HeaderAt(words, i)) then LoopSample(LoopBlock(words, n)) else None)
         else Nrad.DecodeFrom(words, i + 1, Prev(s[27], s[26]), done + s, LoopSample(LoopBlock(words, i + 1)))
  {
    hide Nrad.DecodedBlock, Loaded, InRam;
    assert GoodHeader(words[8 * i], i == n - 1);
  }

  /** The tool has come as far as the voice. */
  ghost predicate InStep(p: Progress, words: seq<nat>, i: nat) {
    Nrad.DecodeStream(words)
      == Nrad.DecodeFrom(words, i, if i == 0 then Prev(0, 0) else p.walk.last, p.samples,
                         LoopSample(LoopBlock(words, i)))
  }

  lemma {:induction false} PlayedUpTo(ram: Ram, start: nat, words: seq<nat>, n: nat, w: Walk, i: nat)
    requires Started(ram, start, words, n, w) && i < n && InRam(w)
    ensures Reached(Rounds(ram, w, 7 * i), start, words, w, i) && InStep(Rounds(ram, w, 7 * i), words, i)
  {
    hide Reached, ToolBlock, Nrad.DecodeFrom, LoopBlock, HeaderAt, IsLoop, InRam, Round;
    if i == 0 {
      StartReached(ram, start, words, n, w);
    } else {
      hide Started, Nrad.DecodeStream, Rounds;
      PlayedUpTo(ram, start, words, n, w, i - 1);
      PlayedBlock(ram, start, words, n, w, i - 1);
      var p := Rounds(ram, w, 7 * (i - 1));
      DecodeBlockStep(ram, start, words, n, w, i - 1, p.walk.last, p.samples);
    }
  }

  lemma StartReached(ram: Ram, start: nat, words: seq<nat>, n: nat, w: Walk)
    requires Started(ram, start, words, n, w)
    ensures Reached(Rounds(ram, w, 0), start, words, w, 0) && InStep(Rounds(ram, w, 0), words, 0)
  {
    hide Nrad.DecodeFrom;
  }

  /** After the last block comes the loop target (an earlier one when the stream has none), or silence. */
  predicate Ends(q: Walk, start: nat, words: seq<nat>, n: nat, before: nat)
    requires n > 0
  {
    if IsLoop(HeaderAt(words, n - 1)) then AtBlock(q, LoopAddress(start, LoopBlock(words, n), before)) else Stops(q)
  }

  lemma StreamEnds(ram: Ram, start: nat, words: seq<nat>, n: nat, w: Walk, q: Progress)
    requires Started(ram, start, words, n, w) && Reached(q, start, words, w, n)
    ensures n > 0 && Ends(q.walk, start, words, n, w.loopIndex)
  {
    BlockAddress(start, n);
    hide Loaded, At;
    assert GoodHeader(words[8 * (n - 1)], n - 1 == n - 1);
    var block := LoopBlock(words, n);
    if block.Some? { BlockAddress(start, block.value); }
  }

  /**
   * A voice that starts on a stream pushes exactly the samples that the tool decodes from it,
   * whatever was decoded before. Then it stops, or goes to the block where the tool sees the loop
   * point.
   */
  lemma TwoDecodersAgree(ram: Ram, start: nat, words: seq<nat>, n: nat, w: Walk)
    requires Started(ram, start, words, n, w) && InRam(w) && n > 0
    ensures var q := Rounds(ram, w, 7 * n);
      var loopSample := if IsLoop(HeaderAt(words, n - 1)) then LoopSample(LoopBlock(words, n)) else None;
      && !q.stop && Nrad.DecodeStream(words) == Nrad.Decoded(q.samples, loopSample)
      && Ends(q.walk, start, words, n, w.loopIndex)
  {
    hide Rounds, Started, ToolBlock, Nrad.DecodeFrom, Nrad.DecodeStream, LoopBlock, HeaderAt, IsLoop, InRam;
    hide Ends, LoopAddress, At, LoopSample;
    var i := n - 1;
    PlayedUpTo(ram, start, words, n, w, i);
    PlayedBlock(ram, start, words, n, w, i);
    var p := Rounds(ram, w, 7 * i);
    DecodeBlockStep(ram, start, words, n, w, i, p.walk.last, p.samples);
    StreamEnds(ram, start, words, n, w, Rounds(ram, w, 7 * n));
  }

  // ---------- Streams from the encoder ----------

  lemma DumpedHeader(samples: seq<int>, loopSample: Option<nat>, out: seq<nat>, i: nat)
    requires Nrad.Stream(samples, loopSample, out, Nrad.NumBlocks(|samples|)) && i < Nrad.NumBlocks(|samples|)
    ensures GoodHeader(out[8 * i], i == Nrad.NumBlocks(|samples|) - 1)
    ensures i == 0 ==> out[8 * i] / 16 % 16 == 0
  {
    hide Nrad.FilterOf, Nrad.ShiftOf, Nrad.Carry;
    assert Nrad.BlockAt(samples, loopSample, out, i);
    Nrad.HeaderRoundTrip(Nrad.HeaderOf(samples, loopSample, i));
    if i == 0 { FirstFilter(samples); }
  }

  /** Whatever the encoder dumps is such a stream. */
  lemma DumpIsPlayable(samples: seq<int>, loopSample: Option<nat>, out: seq<nat>)
    requires |samples| > 0 && Nrad.Stream(samples, loopSample, out, Nrad.NumBlocks(|samples|))
    ensures Playable(out, Nrad.NumBlocks(|samples|))
  {
    hide GoodHeader, Nrad.BlockAt;
    var n := Nrad.NumBlocks(|samples|);
    DumpedHeader(samples, loopSample, out, 0);
    forall i | 0 <= i < n ensures GoodHeader(out[8 * i], i == n - 1) {
      DumpedHeader(samples, loopSample, out, i);
    }
  }

  lemma FirstFilter(samples: seq<int>)
    requires |samples| > 0
    ensures Nrad.FilterOf(samples, 0) == 0
  {}

  /** From samples to sound: encoded, loaded and started, a voice plays the encoder's reconstruction. */
  lemma VoicePlaysReconstruction(samples: seq<int>, loopSample: Option<nat>, out: seq<nat>,
                                 ram: Ram, start: nat, w: Walk)
    requires |samples| > 0 && Nrad.Stream(samples, loopSample, out, Nrad.NumBlocks(|samples|))
    requires Loaded(ram, start, out) && InRam(w) && w.cur == start && !End(w.header)
    ensures Started(ram, start, out, Nrad.NumBlocks(|samples|), w)
    ensures var n := Nrad.NumBlocks(|samples|);
      Rounds(ram, w, 7 * n).samples == Nrad.Reconstruction(samples, n)
  {
    DumpIsPlayable(samples, loopSample, out);
    hide Nrad.Stream, Nrad.DecodeStream, Loaded, Playable, Rounds, Nrad.Reconstruction, LoopBlock, AtBlock;
    TwoDecodersAgree(ram, start, out, Nrad.NumBlocks(|samples|), w);
    Nrad.RoundTrip(samples, loopSample, out);
  }
}

/**
 * The DMA engine of the emulator (src/dma.rs) for transfers from memory to memory, through its ring
 * buffer of 32 words. Reading a word costs one cycle from RAM and 20 from ROM.
 */
module Dma {
  import opened Arith
  import opened Wrappers
  import opened MemoryMap
  import opened Ring

  const RAM_WORDS: nat := 0x8_0000
  const BUF_LEN: nat := 32
  const CPU_FREQ: nat := 22_579_200

  /** The index of the word at an address, in RAM or in ROM. */
  function Index(a: nat): nat { if a < ROM_BASE then a / 4 else (a - ROM_BASE) / 4 }

  function Cost(src: nat): (c: nat)
    ensures c == 1 || c == 20
  {
    if InRam(src) then 1 else 20
  }

  function Min(a: nat, b: nat): nat { if a < b then a else b }

  /** How many words so many cycles pay for. */
  function Affordable(src: nat, cycles: nat): nat { if InRam(src) then cycles else cycles / 20 }

  lemma AffordableIs(src: nat, cycles: nat)
    ensures Affordable(src, cycles) == cycles / Cost(src)
  {}

  /** The next `n` words to read; the source panics at any other address. */
  predicate SourceOk(rom: seq<nat>, src: nat, n: nat) {
    || n == 0
    || (src % 4 == 0 && src + 4 * (n - 1) < RAM_LEN)
    || (src % 4 == 0 && ROM_BASE <= src && src + 4 * (n - 1) < ROM_BASE + ROM_LEN && Index(src) + n <= |rom|)
  }

  /** The next `n` words to write; other destinations than RAM are left out. */
  predicate TargetOk(dst: nat, n: nat) { n == 0 || (dst % 4 == 0 && dst + 4 * (n - 1) < RAM_LEN) }

  /** The words to be copied. */
  function Words(ram: seq<nat>, rom: seq<nat>, src: nat, n: nat): (w: seq<nat>)
    requires |ram| == RAM_WORDS && SourceOk(rom, src, n)
    ensures |w| == n
  {
    if n == 0 then [] else (if InRam(src) then ram else rom)[Index(src)..Index(src) + n]
  }

  /** RAM after the plain copy of some words. */
  function Copied(ram: seq<nat>, dst: nat, words: seq<nat>): (r: seq<nat>)
    requires |ram| == RAM_WORDS && TargetOk(dst, |words|)
    ensures |r| == RAM_WORDS
  {
    if words == [] then ram else ram[..Index(dst)] + words + ram[Index(dst) + |words|..]
  }

  function Sum(s: seq<nat>, n: nat): nat
    requires n <= |s|
  {
    if n == 0 then 0 else Sum(s, n - 1) + s[n - 1]
  }

  /**
   * A transfer: RAM and the addresses when it started, its length, and how many words each pass
   * through the buffer has moved so far.
   */
  datatype Job = Job(ram: seq<nat>, src: nat, dst: nat, len: nat, passes: seq<nat>) {
    function Moved(): nat { Sum(passes, |passes|) }

    predicate Ok(rom: seq<nat>) {
      && |ram| == RAM_WORDS && SourceOk(rom, src, len) && TargetOk(dst, len) && Moved() <= len
      && forall k :: 0 <= k < |passes| ==> 0 < passes[k] <= BUF_LEN
    }

    /** The same transfer, perhaps further on. */
    predicate Continues(j: Job) { this == j.(passes := passes) && j.passes <= passes }
  }

  /** One pass: read some words, then write them. */
  function Pass(ram: seq<nat>, rom: seq<nat>, src: nat, dst: nat, n: nat): (r: seq<nat>)
    requires |ram| == RAM_WORDS
    ensures |r| == RAM_WORDS
  {
    if SourceOk(rom, src, n) && TargetOk(dst, n) then Copied(ram, dst, Words(ram, rom, src, n)) else ram
  }

  /** RAM after the first `k` passes. */
  function After(rom: seq<nat>, j: Job, k: nat): (r: seq<nat>)
    requires |j.ram| == RAM_WORDS && k <= |j.passes|
    ensures |r| == RAM_WORDS
  {
    if k == 0 then j.ram
    else
      var n := Sum(j.passes, k - 1);
      Pass(After(rom, j, k - 1), rom, j.src + 4 * n, j.dst + 4 * n, j.passes[k - 1])
  }

  lemma {:induction false} SumGrows(s: seq<nat>, k: nat)
    requires k <= |s|
    ensures Sum(s, k) <= Sum(s, |s|)
    decreases |s| - k
  {
    if k < |s| { SumGrows(s, k + 1); }
  }

  lemma {:induction false} SumOfPrefix(s: seq<nat>, m: nat, k: nat)
    requires k <= |s|
    ensures Sum(s + [m], k) == Sum(s, k)
  {
    if k > 0 { SumOfPrefix(s, m, k - 1); }
  }

  /** Any piece of a good transfer is good. */
  lemma Splits(rom: seq<nat>, src: nat, dst: nat, len: nat, n: nat, m: nat)
    requires SourceOk(rom, src, len) && TargetOk(dst, len) && n + m <= len
    ensures SourceOk(rom, src + 4 * n, m) && TargetOk(dst + 4 * n, m)
    ensures m > 0 ==> InRam(src + 4 * n) == InRam(src) && Index(src + 4 * n) == Index(src) + n
    ensures m > 0 ==> Index(dst + 4 * n) == Index(dst) + n && Index(dst) + n + m <= RAM_WORDS
    ensures m > 0 && InRam(src) ==> Index(src) + n + m <= RAM_WORDS
  {}

  lemma {:induction false} AfterPrefix(rom: seq<nat>, j: Job, m: nat, k: nat)
    requires |j.ram| == RAM_WORDS && k <= |j.passes|
    ensures After(rom, j.(passes := j.passes + [m]), k) == After(rom, j, k)
  {
    hide Pass;
    if k > 0 {
      SumOfPrefix(j.passes, m, k - 1);
      AfterPrefix(rom, j, m, k - 1);
    }
  }

  /** One more pass. */
  lemma NextPassIs(rom: seq<nat>, j: Job, m: nat)
    requires j.Ok(rom) && 0 < m <= BUF_LEN && j.Moved() + m <= j.len
    ensures var next, n := j.(passes := j.passes + [m]), j.Moved();
      && next.Ok(rom) && next.Moved() == n + m && |j.ram| == RAM_WORDS
      && SourceOk(rom, j.src + 4 * n, m) && TargetOk(j.dst + 4 * n, m)
      && After(rom, next, |next.passes|) == Pass(After(rom, j, |j.passes|), rom, j.src + 4 * n, j.dst + 4 * n, m)
  {
    hide Pass, SourceOk, TargetOk, Sum;
    SumOfNext(j.passes, m);
    AfterPrefix(rom, j, m, |j.passes|);
    Splits(rom, j.src, j.dst, j.len, j.Moved(), m);
  }

  lemma SumOfNext(s: seq<nat>, m: nat)
    ensures Sum(s + [m], |s|) == Sum(s, |s|) && Sum(s + [m], |s| + 1) == Sum(s, |s|) + m
  {
    SumOfPrefix(s, m, |s|);
  }

  // ---------- What the passes add up to ----------

  /** The destination is inside the words to be read, behind the first of them. */
  predicate Upward(j: Job) { InRam(j.src) && Index(j.src) < Index(j.dst) < Index(j.src) + j.Moved() }

  /** After `k` passes RAM is as after a single pass for all their words: the plain copy. */
  predicate IsPlain(rom: seq<nat>, j: Job, k: nat)
    requires |j.ram| == RAM_WORDS && k <= |j.passes|
  {
    After(rom, j, k) == Pass(j.ram, rom, j.src, j.dst, Sum(j.passes, k))
  }

  /** However the words are split into passes: the copy is the plain one unless it overlaps upward. */
  lemma {:induction false} PlainCopy(rom: seq<nat>, j: Job, k: nat)
    requires j.Ok(rom) && k <= |j.passes| && (!Upward(j) || k <= 1)
    ensures IsPlain(rom, j, k)
  {
    hide Pass, SourceOk, TargetOk;
    if k > 0 {
      var n, m := Sum(j.passes, k - 1), j.passes[k - 1];
      PlainCopy(rom, j, k - 1);
      SumGrows(j.passes, k);
      Splits(rom, j.src, j.dst, j.len, 0, n + m);
      OnePassMore(j.ram, rom, j.src, j.dst, n, m);
    } else {
      NoWords(j.ram, rom, j.src, j.dst);
    }
  }

  lemma NoWords(ram: seq<nat>, rom: seq<nat>, src: nat, dst: nat)
    requires |ram| == RAM_WORDS
    ensures Pass(ram, rom, src, dst, 0) == ram
  {}

  /** After the plain copy of `n` words the next words are still there, and their copy completes the plain one. */
  lemma OnePassMore(ram: seq<nat>, rom: seq<nat>, src: nat, dst: nat, n: nat, m: nat)
    requires |ram| == RAM_WORDS && SourceOk(rom, src, n + m) && TargetOk(dst, n + m) && m > 0
    requires InRam(src) && Index(src) < Index(dst) < Index(src) + n + m ==> n == 0
    ensures Pass(Pass(ram, rom, src, dst, n), rom, src + 4 * n, dst + 4 * n, m) == Pass(ram, rom, src, dst, n + m)
  {
    hide SourceOk, TargetOk, Words, Copied, Index;
    Splits(rom, src, dst, n + m, 0, n);
    Splits(rom, src, dst, n + m, n, m);
    var words := Words(ram, rom, src, n + m);
    FirstWords(ram, rom, src, n + m, n);
    StillThere(ram, rom, src, dst, n, m);
    CopiedTwice(ram, dst, words, n);
  }

  lemma StillThere(ram: seq<nat>, rom: seq<nat>, src: nat, dst: nat, n: nat, m: nat)
    requires |ram| == RAM_WORDS && SourceOk(rom, src, n + m) && TargetOk(dst, n + m) && m > 0
    requires InRam(src) && Index(src) < Index(dst) < Index(src) + n + m ==> n == 0
    ensures SourceOk(rom, src + 4 * n, m)
    ensures Words(Pass(ram, rom, src, dst, n), rom, src + 4 * n, m) == Words(ram, rom, src, n + m)[n..]
  {
    hide SourceOk, TargetOk;
    Splits(rom, src, dst, n + m, 0, n);
    Splits(rom, src, dst, n + m, n, m);
    var i, words, r := Index(src), Words(ram, rom, src, n), Pass(ram, rom, src, dst, n);
    if InRam(src) {
      forall x | i + n <= x < i + n + m ensures r[x] == ram[x] {
        OutsideCopy(ram, dst, words, x);
      }
      hide Pass;
      SliceOfSlice(ram, i, n, m);
      SameSlice(r, ram, i + n, m);
    } else {
      SliceOfSlice(rom, i, n, m);
    }
  }

  lemma SliceOfSlice(s: seq<nat>, i: nat, n: nat, m: nat)
    requires i + n + m <= |s|
    ensures s[i..i + (n + m)][n..] == s[i + n..i + n + m]
  {}

  lemma SameSlice(s: seq<nat>, t: seq<nat>, i: nat, n: nat)
    requires i + n <= |s| == |t| && forall x :: i <= x < i + n ==> s[x] == t[x]
    ensures s[i..i + n] == t[i..i + n]
  {}

  lemma OutsideCopy(ram: seq<nat>, dst: nat, words: seq<nat>, x: nat)
    requires |ram| == RAM_WORDS && TargetOk(dst, |words|) && x < RAM_WORDS
    requires words == [] || x < Index(dst) || Index(dst) + |words| <= x
    ensures Copied(ram, dst, words)[x] == ram[x]
  {}

  /** Two copies, one behind the other, are one copy. */
  lemma CopiedTwice(ram: seq<nat>, dst: nat, words: seq<nat>, n: nat)
    requires |ram| == RAM_WORDS && n < |words| && TargetOk(dst, |words|)
    ensures TargetOk(dst, n) && TargetOk(dst + 4 * n, |words| - n)
    ensures Copied(Copied(ram, dst, words[..n]), dst + 4 * n, words[n..]) == Copied(ram, dst, words)
  {
    TargetSplits(dst, |words|, n);
    hide Index, TargetOk;
    WrittenTwice(ram, Index(dst), words, n);
  }

  lemma TargetSplits(dst: nat, len: nat, n: nat)
    requires TargetOk(dst, len) && n < len
    ensures TargetOk(dst, n) && TargetOk(dst, n + 1) && TargetOk(dst + 4 * n, len - n)
    ensures TargetOk(dst + 4 * n + 4, len - n - 1)
    ensures Index(dst + 4 * n) == Index(dst) + n == (dst + 4 * n) / 4 && Index(dst) + len <= RAM_WORDS
  {}

  lemma WrittenTwice(s: seq<nat>, i: nat, words: seq<nat>, n: nat)
    requires i + |words| <= |s| && n < |words|
    ensures var t := s[..i] + words[..n] + s[i + n..];
      |t| == |s| && t[..i + n] + words[n..] + t[i + |words|..] == s[..i] + words + s[i + |words|..]
  {
    var t := s[..i] + words[..n] + s[i + n..];
    assert t[..i + n] == s[..i] + words[..n];
    assert t[i + |words|..] == s[i + |words|..];
    assert words[..n] + words[n..] == words;
  }

  /** Where a word of pass number `k` comes from. */
  lemma PassReads(rom: seq<nat>, j: Job, k: nat, w: nat)
    requires j.Ok(rom) && 0 < k <= |j.passes| && InRam(j.src) && Sum(j.passes, k - 1) <= w < Sum(j.passes, k)
    ensures Index(j.dst) + w < RAM_WORDS && Index(j.src) + w < RAM_WORDS
    ensures After(rom, j, k)[Index(j.dst) + w] == After(rom, j, k - 1)[Index(j.src) + w]
  {
    hide Pass, SourceOk, TargetOk, Index;
    var n, m := Sum(j.passes, k - 1), j.passes[k - 1];
    SumGrows(j.passes, k);
    Splits(rom, j.src, j.dst, j.len, n, m);
    PassIs(After(rom, j, k - 1), rom, j.src + 4 * n, j.dst + 4 * n, m, w - n);
  }

  /** It leaves alone what the passes before it have written. */
  lemma PassKeeps(rom: seq<nat>, j: Job, k: nat, w: nat)
    requires j.Ok(rom) && 0 < k <= |j.passes| && w < Sum(j.passes, k - 1)
    ensures Index(j.dst) + w < RAM_WORDS
    ensures After(rom, j, k)[Index(j.dst) + w] == After(rom, j, k - 1)[Index(j.dst) + w]
  {
    hide Pass, SourceOk, TargetOk, Index;
    var n, m := Sum(j.passes, k - 1), j.passes[k - 1];
    SumGrows(j.passes, k);
    Splits(rom, j.src, j.dst, j.len, n, m);
    PassLeaves(After(rom, j, k - 1), rom, j.src + 4 * n, j.dst + 4 * n, m, Index(j.dst) + w);
  }

  lemma PassIs(ram: seq<nat>, rom: seq<nat>, src: nat, dst: nat, n: nat, v: nat)
    requires |ram| == RAM_WORDS && SourceOk(rom, src, n) && TargetOk(dst, n) && InRam(src) && v < n
    ensures Index(src) + n <= RAM_WORDS && Index(dst) + n <= RAM_WORDS
    ensures Pass(ram, rom, src, dst, n)[Index(dst) + v] == ram[Index(src) + v]
  {
    var words := Words(ram, rom, src, n);
    assert words[v] == ram[Index(src) + v];
  }

  lemma PassLeaves(ram: seq<nat>, rom: seq<nat>, src: nat, dst: nat, n: nat, x: nat)
    requires |ram| == RAM_WORDS && x < RAM_WORDS && (x < Index(dst) || Index(dst) + n <= x)
    ensures Pass(ram, rom, src, dst, n)[x] == ram[x]
  {}

  /** A word that a pass has written stays, up to the last pass. */
  lemma {:induction false} WrittenStays(rom: seq<nat>, j: Job, k: nat, last: nat, w: nat)
    requires j.Ok(rom) && 0 < k <= last <= |j.passes| && InRam(j.src) && w < Sum(j.passes, k)
    ensures Index(j.dst) + w < RAM_WORDS
    ensures After(rom, j, last)[Index(j.dst) + w] == After(rom, j, k)[Index(j.dst) + w]
    decreases last
  {
    hide After, SourceOk, TargetOk, Index;
    SumUpTo(j.passes, k, |j.passes|);
    Splits(rom, j.src, j.dst, j.len, w, 1);
    if k < last {
      SumUpTo(j.passes, k, last - 1);
      WrittenStays(rom, j, k, last - 1, w);
      PassKeeps(rom, j, last, w);
    }
  }

  lemma {:induction false} SumUpTo(s: seq<nat>, k: nat, n: nat)
    requires k <= n <= |s|
    ensures Sum(s, k) <= Sum(s, n)
    decreases n
  {
    if k < n { SumUpTo(s, k, n - 1); }
  }

  /** The pass that moved a word. */
  lemma {:induction false} PassOf(s: seq<nat>, n: nat, w: nat) returns (k: nat)
    requires n <= |s| && w < Sum(s, n)
    ensures 0 < k <= n && Sum(s, k - 1) <= w < Sum(s, k)
  {
    if w < Sum(s, n - 1) { k := PassOf(s, n - 1, w); } else { k := n; }
  }

  /** The first word that an upward overlapping copy in several passes gets wrong. */
  function FirstWrong(j: Job): nat
    requires |j.passes| > 0
  {
    var distance := Index(j.dst) - Index(j.src);
    if distance < j.passes[0] then j.passes[0] else distance
  }

  /** It was overwritten, before it was read, with the word that many places before it. */
  lemma OverwrittenFirst(rom: seq<nat>, j: Job)
    requires j.Ok(rom) && Upward(j) && |j.passes| > 1
    ensures var w, s, d := FirstWrong(j), Index(j.src), Index(j.dst);
      && w < j.Moved() && d + w < RAM_WORDS && w >= d - s
      && After(rom, j, |j.passes|)[d + w] == j.ram[s + w - (d - s)]
  {
    hide After, Pass, Index, SourceOk, TargetOk;
    var w, s, d, n := FirstWrong(j), Index(j.src), Index(j.dst), |j.passes|;
    assert Sum(j.passes, 1) == j.passes[0] && Sum(j.passes, 2) == j.passes[0] + j.passes[1] by {
      assert Sum(j.passes, 1) == Sum(j.passes, 0) + j.passes[0];
    }
    SumUpTo(j.passes, 2, n);
    var k := PassOf(j.passes, n, w);
    if k == 1 { assert false; }
    PassReads(rom, j, k, w);
    WrittenStays(rom, j, k, n, w);
    var v := w - (d - s);
    PassReads(rom, j, 1, v);
    WrittenStays(rom, j, 1, k - 1, v);
    FirstState(rom, j);
    assert s + w == d + v;
  }

  lemma FirstState(rom: seq<nat>, j: Job)
    requires j.Ok(rom)
    ensures After(rom, j, 0) == j.ram
  {}

  /** The exact condition under which the engine copies faithfully, whatever RAM holds. */
  lemma PlainIff(rom: seq<nat>, j: Job)
    requires j.Ok(rom)
    ensures (forall ram | |ram| == RAM_WORDS :: IsPlain(rom, j.(ram := ram), |j.passes|))
      <==> !Upward(j) || |j.passes| <= 1
  {
    if !Upward(j) || |j.passes| <= 1 {
      forall ram: seq<nat> | |ram| == RAM_WORDS ensures IsPlain(rom, j.(ram := ram), |j.passes|) {
        PlainCopy(rom, j.(ram := ram), |j.passes|);
      }
    } else {
      var j' := j.(ram := seq(RAM_WORDS, i => i));
      OverwrittenFirst(rom, j');
      PlainAt(rom, j', FirstWrong(j'));
      assert !IsPlain(rom, j', |j.passes|);
    }
  }

  lemma PlainAt(rom: seq<nat>, j: Job, w: nat)
    requires j.Ok(rom) && w < j.Moved() && InRam(j.src)
    ensures Index(j.dst) + w < RAM_WORDS && Index(j.src) + w < RAM_WORDS
    ensures IsPlain(rom, j, |j.passes|) ==> After(rom, j, |j.passes|)[Index(j.dst) + w] == j.ram[Index(j.src) + w]
  {
    hide After, Pass, SourceOk, TargetOk, Index;
    Splits(rom, j.src, j.dst, j.len, 0, j.Moved());
    PassIs(j.ram, rom, j.src, j.dst, j.Moved(), w);
  }

  // ---------- Word by word ----------

  /** The word number `w` of the source, as it was when the transfer started. */
  function SourceWord(rom: seq<nat>, j: Job, w: nat): nat
    requires j.Ok(rom) && w < j.Moved()
  {
    SourceInside(rom, j, w);
    if InRom(j.src) then rom[(j.src - ROM_BASE) / 4 + w] else j.ram[j.src / 4 + w]
  }

  lemma SourceInside(rom: seq<nat>, j: Job, w: nat)
    requires j.Ok(rom) && w < j.Moved()
    ensures if InRom(j.src) then (j.src - ROM_BASE) / 4 + w < |rom| else j.src / 4 + w < RAM_WORDS
    ensures j.dst / 4 + w < RAM_WORDS
  {}

  /**
   * Word for word: each word that was moved is at its place behind the destination address, if the
   * source was ROM, or if it was RAM and the destination is not inside the words to be read and behind
   * the first of them, or if there was one pass only.
   */
  lemma CopiedWord(rom: seq<nat>, j: Job, w: nat)
    requires j.Ok(rom) && w < j.Moved()
    requires InRom(j.src) || !(j.src < j.dst < j.src + 4 * j.Moved()) || |j.passes| <= 1
    ensures j.dst / 4 + w < RAM_WORDS
    ensures After(rom, j, |j.passes|)[j.dst / 4 + w] == SourceWord(rom, j, w)
  {
    hide After, Pass, Words, Index, SourceOk, TargetOk, Upward, Sum, InRam, InRom;
    if |j.passes| > 1 { NotUpward(rom, j); }
    PlainCopy(rom, j, |j.passes|);
    Splits(rom, j.src, j.dst, j.len, 0, j.Moved());
    WordOf(j.ram, rom, j.src, j.Moved(), w);
    PassWord(j.ram, rom, j.src, j.dst, j.Moved(), w);
  }

  lemma WordOf(ram: seq<nat>, rom: seq<nat>, src: nat, n: nat, w: nat)
    requires |ram| == RAM_WORDS && SourceOk(rom, src, n) && w < n
    ensures if InRom(src) then (src - ROM_BASE) / 4 + w < |rom| else src / 4 + w < RAM_WORDS
    ensures Words(ram, rom, src, n)[w] == if InRom(src) then rom[(src - ROM_BASE) / 4 + w] else ram[src / 4 + w]
  {}

  lemma PassWord(ram: seq<nat>, rom: seq<nat>, src: nat, dst: nat, n: nat, w: nat)
    requires |ram| == RAM_WORDS && SourceOk(rom, src, n) && TargetOk(dst, n) && w < n
    ensures dst / 4 + w < RAM_WORDS && Pass(ram, rom, src, dst, n)[dst / 4 + w] == Words(ram, rom, src, n)[w]
  {
    hide Words, SourceOk;
  }

  lemma NotUpward(rom: seq<nat>, j: Job)
    requires j.Ok(rom) && (InRom(j.src) || !(j.src < j.dst < j.src + 4 * j.Moved()))
    ensures !Upward(j)
  {}

  /** And every other word of RAM is left alone, always. */
  lemma {:induction false} OtherWords(rom: seq<nat>, j: Job, k: nat, x: nat)
    requires j.Ok(rom) && k <= |j.passes| && x < RAM_WORDS
    requires x < j.dst / 4 || j.dst / 4 + Sum(j.passes, k) <= x
    ensures After(rom, j, k)[x] == j.ram[x]
  {
    hide Pass, SourceOk, TargetOk, Index;
    if k > 0 {
      var n, m := Sum(j.passes, k - 1), j.passes[k - 1];
      OtherWords(rom, j, k - 1, x);
      SumGrows(j.passes, k);
      Splits(rom, j.src, j.dst, j.len, n, m);
      OutsidePass(j.dst, n, m, x);
      PassLeaves(After(rom, j, k - 1), rom, j.src + 4 * n, j.dst + 4 * n, m, x);
    }
  }

  lemma OutsidePass(dst: nat, n: nat, m: nat, x: nat)
    requires TargetOk(dst + 4 * n, m) && m > 0 && (x < dst / 4 || dst / 4 + n + m <= x)
    ensures x < Index(dst + 4 * n) || Index(dst + 4 * n) + m <= x
  {}

  /** Up to the first wrong word every word is right. */
  lemma RightBefore(rom: seq<nat>, j: Job, v: nat)
    requires j.Ok(rom) && Upward(j) && |j.passes| > 1 && v < FirstWrong(j) && v < j.Moved()
    ensures j.dst / 4 + v < RAM_WORDS && j.src / 4 + v < RAM_WORDS
    ensures After(rom, j, |j.passes|)[j.dst / 4 + v] == j.ram[j.src / 4 + v]
  {
    hide After, SourceOk, TargetOk;
    SourceInside(rom, j, v);
    Splits(rom, j.src, j.dst, j.len, v, 1);
    var k := PassOf(j.passes, |j.passes|, v);
    PassReads(rom, j, k, v);
    WrittenStays(rom, j, k, |j.passes|, v);
    if k == 1 { FirstState(rom, j); } else { NotYetWritten(rom, j, k, v); }
  }

  /** A word that is read behind the first pass before anything at its place was written. */
  lemma NotYetWritten(rom: seq<nat>, j: Job, k: nat, v: nat)
    requires j.Ok(rom) && Upward(j) && 1 < k <= |j.passes| && v < FirstWrong(j) && Sum(j.passes, k - 1) <= v
    requires Index(j.src) + v < RAM_WORDS
    ensures After(rom, j, k - 1)[Index(j.src) + v] == j.ram[Index(j.src) + v]
  {
    hide After, SourceOk, TargetOk;
    FirstPassIs(j.passes);
    SumUpTo(j.passes, 1, k - 1);
    assert Index(j.src) + v < j.dst / 4;
    OtherWords(rom, j, k - 1, Index(j.src) + v);
  }

  lemma FirstPassIs(passes: seq<nat>)
    requires |passes| > 0
    ensures Sum(passes, 1) == passes[0]
  {
    assert Sum(passes, 0) == 0;
  }

  /** Reading a word takes 1 cycle from RAM and 20 from ROM: so many words are paid for, and the rest is left. */
  predicate PaysFor(src: nat, rem: nat, cycles: nat, moved: nat, left: nat) {
    if InRam(src) then moved == Min(rem, cycles) && left == cycles - moved
    else moved == Min(rem, cycles / 20) && left == cycles - 20 * moved
  }

  lemma PaysExactly(src: nat, rem: nat, cycles: nat)
    ensures var k := Min(rem, Affordable(src, cycles));
      k <= rem && Cost(src) * k <= cycles && PaysFor(src, rem, cycles, k, cycles - Cost(src) * k)
  {}

  class Engine {
    var src: nat
    var dst: nat
    var remWords: nat
    const buf: Fifo<nat>
    const ram: array<nat>
    const rom: seq<nat>
    /** The transfer that was started last. */
    ghost var job: Job

    ghost predicate Valid()
      reads this, buf, buf.buffer, ram
    {
      && buf.Valid() && buf.buffer.Length == BUF_LEN && ram.Length == RAM_WORDS && ram != buf.buffer
      && src < U32 && dst < U32
    }

    /** Between two runs: the buffer is empty, and the transfer is where its passes have brought it. */
    ghost predicate Ready()
      reads this, buf, buf.buffer, ram
    {
      && Valid() && buf.Contents() == [] && job.Ok(rom) && remWords == job.len - job.Moved()
      && src == job.src + 4 * job.Moved() && dst == job.dst + 4 * job.Moved()
      && ram[..] == After(rom, job, |job.passes|)
    }

    constructor (romWords: seq<nat>)
      ensures Ready() && remWords == src == dst == 0 && rom == romWords
      ensures fresh(buf) && fresh(buf.buffer) && fresh(ram)
    {
      assert IsPow2(BUF_LEN) by {
        Pow2Values();
        assert Pow2(5) == 2 * Pow2(4);
      }
      buf := new Fifo<nat>(BUF_LEN);
      ram := new nat[RAM_WORDS];
      rom := romWords;
      src, dst, remWords := 0, 0, 0;
      new;
      job := Job(ram[..], 0, 0, 0, []);
    }

    /** A store to the length register starts a transfer. */
    method Start(len: nat)
      requires Valid() && len < U32 && SourceOk(rom, src, len) && TargetOk(dst, len)
      modifies this`remWords, this`job, buf`readIdx, buf`writeIdx
      ensures Ready() && remWords == len && job == Job(ram[..], src, dst, len, [])
    {
      remWords := len;
      buf.Clear();
      job := Job(ram[..], src, dst, len, []);
    }

    /** Stores to the address registers; a transfer that is under way goes on from there. */
    method SetSource(a: nat)
      requires Ready() && a < U32 && SourceOk(rom, a, remWords)
      modifies this`src, this`job
      ensures Ready() && job == Job(ram[..], a, dst, remWords, [])
    {
      NowOk();
      src := a;
      job := Job(ram[..], a, dst, remWords, []);
    }

    method SetTarget(a: nat)
      requires Ready() && a < U32 && TargetOk(a, remWords)
      modifies this`dst, this`job
      ensures Ready() && job == Job(ram[..], src, a, remWords, [])
    {
      NowOk();
      dst := a;
      job := Job(ram[..], src, a, remWords, []);
    }

    /** A store by the CPU to a word of RAM, perhaps during a transfer. */
    method StoreWord(i: nat, v: nat)
      requires Ready() && i < RAM_WORDS
      modifies this`job, ram
      ensures Ready() && ram[..] == old(ram[..])[i := v] && job == Job(ram[..], src, dst, remWords, [])
    {
      NowOk();
      ram[i] := v;
      job := Job(ram[..], src, dst, remWords, []);
    }

    lemma NowOk()
      requires Ready()
      ensures SourceOk(rom, src, remWords) && TargetOk(dst, remWords)
      ensures remWords > 0 ==> Cost(src) == Cost(job.src)
      ensures remWords > 0 ==> forall c :: Affordable(src, c) == Affordable(job.src, c)
    {
      Splits(rom, job.src, job.dst, job.len, job.Moved(), remWords);
    }

    predicate IsRunning()
      requires Valid()
      reads this, buf, buf.buffer, ram
    {
      remWords > 0 || !buf.IsEmpty()
    }

    /** Reads the word at the source, if the cycles pay for it. */
    method FetchWord(cycles: nat) returns (v: Option<nat>, left: nat)
      requires Valid() && remWords > 0 && SourceOk(rom, src, remWords)
      ensures v.Some? == (cycles >= Cost(src)) && left == cycles - (if v.Some? then Cost(src) else 0)
      ensures v.Some? ==> v.value == Words(ram[..], rom, src, remWords)[0]
    {
      if InRam(src) {
        if cycles >= 1 {
          return Some(ram[src / 4]), cycles - 1;
        }
      } else if InRom(src) {
        if cycles >= 20 {
          return Some(rom[(src - ROM_BASE) / 4]), cycles - 20;
        }
      }
      return None, cycles;
    }

    /** One pass of the loop of `dma_refill_buf`; false when the cycles are used up. */
    method ReadOne(cycles: nat) returns (more: bool, left: nat)
      requires Valid() && remWords > 0 && SourceOk(rom, src, remWords) && |buf.Contents()| < BUF_LEN
      modifies this`src, this`remWords, buf, buf.buffer
      ensures Valid() && more == (cycles >= Cost(old(src)))
      ensures !more ==>
        left == cycles && src == old(src) && remWords == old(remWords) && buf.Contents() == old(buf.Contents())
      ensures more ==> left == cycles - Cost(old(src)) && src == (old(src) + 4) % U32 && remWords == old(remWords) - 1
      ensures more ==> buf.Contents() == old(buf.Contents()) + [Words(ram[..], rom, old(src), old(remWords))[0]]
    {
      hide SourceOk, Words, Cost;
      var v;
      v, left := FetchWord(cycles);
      if v.None? {
        return false, left;
      }
      buf.Push(v.value);
      remWords := remWords - 1;
      src := (src + 4) % U32;
      return true, left;
    }

    /** `dma_refill_buf`: read words until the buffer is full, the source is done or the cycles are used up. */
    method RefillBuf(cycles: nat) returns (left: nat, ghost n: nat)
      requires Valid() && SourceOk(rom, src, remWords)
      modifies this`src, this`remWords, buf, buf.buffer
      ensures Valid() && SourceOk(rom, src, remWords) && n <= old(remWords) && remWords == old(remWords) - n
      ensures src == old(src) + 4 * n && (remWords > 0 ==> Cost(src) == Cost(old(src)))
      ensures Words(ram[..], rom, src, remWords) == Words(ram[..], rom, old(src), old(remWords))[n..]
      ensures buf.Contents() == old(buf.Contents()) + Words(ram[..], rom, old(src), old(remWords))[..n]
      ensures left == cycles - Cost(old(src)) * n
      ensures remWords == 0 || |buf.Contents()| == BUF_LEN || left < Cost(old(src))
    {
      hide SourceOk, Words, Cost;
      left, n := cycles, 0;
      ghost var words, cost := Words(ram[..], rom, src, remWords), Cost(src);
      while remWords > 0 && !buf.IsFull()
        invariant Valid() && SourceOk(rom, src, remWords)
        invariant n <= old(remWords) && remWords == old(remWords) - n && src == old(src) + 4 * n
        invariant remWords > 0 ==> Cost(src) == cost
        invariant Words(ram[..], rom, src, remWords) == words[n..]
        invariant left == cycles - cost * n
        invariant ram[..] == old(ram[..]) && buf.Contents() == old(buf.Contents()) + words[..n]
        decreases remWords
      {
        ReadsNext(ram[..], rom, src, remWords);
        var more;
        more, left := ReadOne(left);
        if !more {
          return;
        }
        assert words[..n + 1] == words[..n] + [words[n]];
        MulDistributes(cost, n);
        n := n + 1;
      }
    }

    /** The inner loop of `run_dma_cycles`: write out the whole buffer. */
    method DrainBuf()
      requires Valid() && TargetOk(dst, |buf.Contents()|)
      modifies this`dst, buf`readIdx, ram
      ensures Valid() && buf.Contents() == []
      ensures TargetOk(old(dst), |old(buf.Contents())|) && dst == old(dst) + 4 * |old(buf.Contents())|
      ensures ram[..] == Copied(old(ram[..]), old(dst), old(buf.Contents()))
    {
      hide Copied, TargetOk;
      ghost var words, n := buf.Contents(), 0;
      TargetPrefix(dst, |words|, 0);
      NothingCopied(ram[..], dst);
      while true
        invariant Valid() && n <= |words| && buf.Contents() == words[n..] && dst == old(dst) + 4 * n
        invariant TargetOk(old(dst), |words|) && TargetOk(old(dst), n)
        invariant ram[..] == Copied(old(ram[..]), old(dst), words[..n])
        decreases |words| - n
      {
        var v := buf.Front();
        if v.None? {
          assert words[..n] == words;
          break;
        }
        WritesNext(old(ram[..]), old(dst), words, n);
        ram[dst / 4] := v.value;
        dst := (dst + 4) % U32;
        var _ := buf.Pop();
        n := n + 1;
      }
    }

    /** One pass of the outer loop of `run_dma_cycles`: fill the buffer and write it out; false when stalled. */
    method CopyPass(cycles: nat) returns (more: bool, left: nat, ghost m: nat)
      requires Ready()
      modifies this`src, this`dst, this`remWords, this`job, buf, buf.buffer, ram
      ensures Ready() && m == Min(Min(BUF_LEN, old(remWords)), Affordable(old(src), cycles)) && more == (m > 0)
      ensures remWords == old(remWords) - m && src == old(src) + 4 * m && (remWords > 0 ==> Cost(src) == Cost(old(src)))
      ensures job == old(job).(passes := old(job.passes) + if m > 0 then [m] else [])
      ensures left == cycles - Cost(old(src)) * m && (!more ==> remWords == 0 || left < Cost(old(src)))
    {
      hide Copied, TargetOk, SourceOk, Words, Cost, After, Affordable, Job.Ok;
      NowOk();
      ghost var before := ram[..];
      left, m := RefillBuf(cycles);
      AllPaidFor(old(src), cycles, Min(BUF_LEN, old(remWords)), m);
      if buf.IsEmpty() {
        return false, left, m;
      }
      NextPassIs(rom, job, m);
      FirstWords(before, rom, old(src), old(remWords), m);
      assert buf.Contents() == Words(before, rom, old(src), m) && ram[..] == before;
      DrainBuf();
      job := job.(passes := job.passes + [m]);
      return true, left, m;
    }

    /**
     * `run_dma_cycles`: moves as many words as the cycles pay for, in passes of up to 32, and gives the
     * other cycles back.
     */
    method RunDmaCycles(cycles: nat) returns (back: nat, next: nat)
      requires Ready()
      modifies this`src, this`dst, this`remWords, this`job, buf, buf.buffer, ram
      ensures Ready() && next == 128 && job.Continues(old(job))
      ensures var k := Min(old(remWords), Affordable(old(src), cycles));
        remWords == old(remWords) - k && src == old(src) + 4 * k && back == cycles - Cost(old(src)) * k
    {
      hide Ready, Affordable, Cost;
      var left := cycles;
      ghost var cost, n := Cost(src), 0;
      while true
        invariant Ready() && job.Continues(old(job)) && left == cycles - cost * n
        invariant n <= old(remWords) && remWords == old(remWords) - n && src == old(src) + 4 * n
        invariant remWords > 0 ==> Cost(src) == cost
        decreases remWords
      {
        var more;
        ghost var m;
        more, left, m := CopyPass(left);
        PaysTwice(cost, n, m);
        n := n + m;
        if !more {
          AllPaidFor(old(src), cycles, old(remWords), n);
          return left, 128;
        }
      }
    }

    /** `run`, given the elapsed cycles: what to rewind, when to sync again, and whether to signal the end. */
    method Run(elapsed: nat) returns (back: nat, delay: nat, done: bool)
      requires Ready()
      modifies this`src, this`dst, this`remWords, this`job, buf, buf.buffer, ram
      ensures Ready() && job.Continues(old(job))
      ensures var k := Min(old(remWords), Affordable(old(src), elapsed));
        && remWords == old(remWords) - k && src == old(src) + 4 * k && done == (old(remWords) > 0 == remWords)
        && back == (if old(remWords) > 0 then elapsed - Cost(old(src)) * k else 0)
      ensures old(remWords) > 0 ==> PaysFor(old(src), old(remWords), elapsed, old(remWords) - remWords, back)
      ensures delay == if remWords > 0 then 128 else CPU_FREQ
      ensures back <= elapsed && (remWords > 0 ==> back < Cost(old(src)))
    {
      hide *;
      PaysExactly(src, remWords, elapsed);
      IsReady();
      AllPaid(src, elapsed, remWords);
      ContinuesItself(job);
      var wasRunning := IsRunning();
      back, delay := 0, CPU_FREQ;
      if wasRunning {
        back, delay := RunDmaCycles(elapsed);
      }
      IsReady();
      var isRunning := IsRunning();
      done := wasRunning && !isRunning;
      if !isRunning {
        delay := CPU_FREQ;
      }
    }

    lemma IsReady()
      requires Ready()
      ensures Valid() && IsRunning() == (remWords > 0) && job.Moved() == job.len - remWords
    {}

    /** After so many cycles in all: the words they paid for, what was given back, and the signals of the end. */
    ghost predicate Spent(j: Job, total: nat, back: nat, signals: nat)
      reads this, buf, buf.buffer, ram
    {
      var n := Min(j.len, Affordable(j.src, total));
      && Ready() && job.Continues(j) && job.Moved() == n && signals == (if 0 < j.len == n then 1 else 0)
      && (n < j.len ==> back == total - Cost(j.src) * n)
    }

    /** One more call of `run`, with the cycles given back before. */
    method RunSlice(slice: nat, back: nat, signals: nat, ghost j: Job, ghost total: nat)
      returns (back': nat, signals': nat)
      requires Spent(j, total, back, signals)
      modifies this`src, this`dst, this`remWords, this`job, buf, buf.buffer, ram
      ensures Spent(j, total + slice, back', signals')
    {
      hide Ready, Affordable, Cost, Job.Ok;
      ghost var n := Min(j.len, Affordable(j.src, total));
      IsReady();
      NowOk();
      SlicesAdd(j.src, total, slice, j.len, n);
      var delay, done;
      back', delay, done := Run(back + slice);
      IsReady();
      signals' := signals + if done then 1 else 0;
    }

    /**
     * However the cycles are split over calls of `run`, with the cycles given back added to the next
     * call: how many words have been copied depends only on their sum, and the end is signalled once.
     */
    method CopyInSlices(slices: seq<nat>) returns (back: nat, signals: nat)
      requires Ready() && job.passes == []
      modifies this`src, this`dst, this`remWords, this`job, buf, buf.buffer, ram
      ensures Spent(old(job), Sum(slices, |slices|), back, signals)
    {
      hide Ready;
      IsReady();
      back, signals := 0, 0;
      for i := 0 to |slices|
        invariant Spent(old(job), Sum(slices, i), back, signals)
      {
        back, signals := RunSlice(slices[i], back, signals, old(job), Sum(slices, i));
      }
    }
  }

  lemma ContinuesItself(j: Job)
    ensures j.Continues(j)
  {}

  lemma PaysTwice(cost: nat, n: nat, m: nat)
    ensures cost * (n + m) == cost * n + cost * m
  {}

  lemma FirstWords(ram: seq<nat>, rom: seq<nat>, src: nat, len: nat, m: nat)
    requires |ram| == RAM_WORDS && SourceOk(rom, src, len) && m <= len
    ensures SourceOk(rom, src, m) && Words(ram, rom, src, len)[..m] == Words(ram, rom, src, m)
  {}

  /** Cycles given back and added to the next slice pay for the same words as one large slice. */
  lemma SlicesAdd(src: nat, total: nat, slice: nat, len: nat, n: nat)
    requires n == Min(len, Affordable(src, total))
    ensures Cost(src) * n <= total
    ensures n < len ==>
      var k := Min(len - n, Affordable(src, total - Cost(src) * n + slice));
      && n + k == Min(len, Affordable(src, total + slice))
      && total - Cost(src) * n + slice - Cost(src) * k == total + slice - Cost(src) * (n + k)
    ensures n == len ==> Min(len, Affordable(src, total + slice)) == len
  {}

  lemma AllPaid(src: nat, cycles: nat, len: nat)
    ensures var k := Min(len, Affordable(src, cycles));
      k <= len && Cost(src) * k <= cycles && (k < len ==> cycles - Cost(src) * k < Cost(src))
  {}

  /** The largest number of words that the cycles pay for. */
  lemma AllPaidFor(src: nat, cycles: nat, len: nat, n: nat)
    requires n <= len && Cost(src) * n <= cycles && (n == len || cycles - Cost(src) * n < Cost(src))
    ensures n == Min(len, Affordable(src, cycles))
  {}

  lemma TargetPrefix(dst: nat, len: nat, n: nat)
    requires TargetOk(dst, len) && n <= len
    ensures TargetOk(dst, n)
  {}

  lemma NothingCopied(ram: seq<nat>, dst: nat)
    requires |ram| == RAM_WORDS
    ensures TargetOk(dst, 0) && Copied(ram, dst, []) == ram
  {}

  lemma WritesNext(ram: seq<nat>, dst: nat, words: seq<nat>, n: nat)
    requires |ram| == RAM_WORDS && n < |words| && TargetOk(dst, |words|)
    ensures var a := dst + 4 * n;
      && a / 4 < RAM_WORDS && (a + 4) % U32 == a + 4 && TargetOk(dst, n) && TargetOk(dst, n + 1)
      && Copied(ram, dst, words[..n + 1]) == Copied(ram, dst, words[..n])[a / 4 := words[n]]
  {
    TargetSplits(dst, |words|, n);
    hide Index, TargetOk;
    WrittenOne(ram, Index(dst), words, n);
  }

  lemma WrittenOne(s: seq<nat>, i: nat, words: seq<nat>, n: nat)
    requires i + n < |s| && n < |words|
    ensures s[..i] + words[..n + 1] + s[i + (n + 1)..] == (s[..i] + words[..n] + s[i + n..])[i + n := words[n]]
  {}

  lemma MulDistributes(c: nat, n: nat)
    ensures c * (n + 1) == c * n + c
  {}

  /** After the next word to read comes the rest of the words. */
  lemma ReadsNext(ram: seq<nat>, rom: seq<nat>, src: nat, len: nat)
    requires |ram| == RAM_WORDS && SourceOk(rom, src, len) && len > 0 && src < U32
    ensures src + 4 < U32 && (src + 4) % U32 == src + 4 && SourceOk(rom, src + 4, len - 1)
    ensures Words(ram, rom, src, len)[1..] == Words(ram, rom, src + 4, len - 1)
    ensures len > 1 ==> Cost(src + 4) == Cost(src)
  {}
}

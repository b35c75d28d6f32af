/**
 * The cache of decoded instruction pages (src/cpu/decoder.rs) over the memory map of
 * nr32-common/src/memmap.rs. Decoding one instruction word is a parameter: `dec(op, pc)` gives the
 * instruction and the address of the next one.
 */
module PageCache {
  import opened Arith
  import opened Wrappers
  import opened MemoryMap

  const PAGE_LEN_BYTES: nat := 0x1000
  const PAGE_LEN_OP: nat := 0x800
  const PAGE_CACHE_MAX: nat := 64
  const PAGE_TOTAL: nat := 0x4200

  /** `!0`, the page number that no address has. */
  const NO_PAGE: nat := 0xffff_ffff

  /** RAM and ROM contents, one 32-bit word per element; the loaded ROM may be short. */
  datatype Memory = Memory(ram: seq<nat>, rom: seq<nat>)

  predicate Mapped(addr: nat) { InRam(addr) || InRom(addr) }

  function LutIdx(addr: nat): (i: nat)
    requires Mapped(addr)
    ensures i < PAGE_TOTAL
  {
    if InRam(addr) then addr / PAGE_LEN_BYTES else (addr - ROM_BASE + RAM_LEN) / PAGE_LEN_BYTES
  }

  /** The base address of a page, and the inverse of LutIdx on page bases. */
  function LutIdxToBase(i: nat): (base: nat)
    requires i < PAGE_TOTAL
    ensures Mapped(base) && base % PAGE_LEN_BYTES == 0 && LutIdx(base) == i
  {
    var off := i * PAGE_LEN_BYTES;
    if i >= LutIdx(ROM_BASE) then off - RAM_LEN + ROM_BASE else off
  }

  lemma LutIdxOfPage(pc: nat)
    requires Mapped(pc)
    ensures LutIdxToBase(LutIdx(pc)) == pc / PAGE_LEN_BYTES * PAGE_LEN_BYTES
    ensures Mapped(pc / PAGE_LEN_BYTES * PAGE_LEN_BYTES)
  {}

  // ---------- Decoding straight from memory ----------

  /** The result of a fetch: `(Instruction, next_pc)`, `InvalidAddress`, or the panic of `lut_idx`. */
  datatype Fetched<I> = Inst(inst: I, npc: nat) | InvalidAddress(pc: nat) | Panic

  function Word(mem: seq<nat>, i: nat): nat { if i < |mem| then mem[i] else 0xffff_ffff }

  /** The 32 bits at byte offset `off` of a memory, for an even `off`. */
  function OpAt(mem: seq<nat>, off: nat): nat {
    var w := Word(mem, off / 4);
    if off % 4 == 0 then w else Word(mem, off / 4 + 1) % 0x1_0000 * 0x1_0000 + w / 0x1_0000
  }

  function MemOf(m: Memory, addr: nat): seq<nat>
    requires Mapped(addr)
  {
    if InRom(addr) then m.rom else m.ram
  }

  function OffsetOf(addr: nat): nat
    requires Mapped(addr)
  {
    if InRom(addr) then addr - ROM_BASE else addr
  }

  type Dec<I> = (nat, nat) -> (I, nat)

  /** Fetch and decode without any cache. */
  function Direct<I>(dec: Dec<I>, m: Memory, pc: nat): Fetched<I> {
    if pc % 2 != 0 then InvalidAddress(pc)
    else if !Mapped(pc) then Fetched.Panic
    else
      var (i, npc) := dec(OpAt(MemOf(m, pc), OffsetOf(pc)), pc);
      Inst(i, npc)
  }

  /** The byte at an address, little end first; a ROM that is shorter than its place reads as ones. */
  function ByteAt(m: Memory, addr: nat): nat
    requires Mapped(addr)
  {
    var (mem, i) := if addr < 0x20_0000 then (m.ram, addr / 4) else (m.rom, (addr - 0x2000_0000) / 4);
    var w := if i < |mem| then mem[i] else 0xffff_ffff;
    if addr % 4 == 0 then w % 0x100
    else if addr % 4 == 1 then w / 0x100 % 0x100
    else if addr % 4 == 2 then w / 0x1_0000 % 0x100
    else w / 0x100_0000 % 0x100
  }

  /**
   * What a fetch decodes: odd addresses are refused, unmapped ones panic, and otherwise it is the four
   * bytes from the address on, the first of them lowest, or two of them at the end of RAM or ROM.
   */
  lemma DirectIs<I>(dec: Dec<I>, m: Memory, pc: nat)
    requires WordsOk(m.ram) && WordsOk(m.rom)
    ensures pc % 2 != 0 ==> Direct(dec, m, pc) == InvalidAddress(pc)
    ensures pc % 2 == 0 && !Mapped(pc) ==> Direct(dec, m, pc) == Fetched.Panic
    ensures pc % 2 == 0 && Mapped(pc) ==>
      exists op :: IsOp(m, pc, op) && Direct(dec, m, pc) == Inst(dec(op, pc).0, dec(op, pc).1)
  {
    if pc % 2 == 0 && Mapped(pc) {
      BytesOfOp(m, pc);
      hide OpAt, IsOp, Mapped, MemOf, OffsetOf;
    }
  }

  /** The number whose bytes are at an address and behind it. */
  predicate IsOp(m: Memory, pc: nat, op: nat) {
    && Mapped(pc) && Mapped(pc + 1) && op % 0x1_0000 == ByteAt(m, pc) + 0x100 * ByteAt(m, pc + 1)
    && (Mapped(pc + 2) ==> Mapped(pc + 3) && op / 0x1_0000 == ByteAt(m, pc + 2) + 0x100 * ByteAt(m, pc + 3))
  }

  lemma BytesOfOp(m: Memory, pc: nat)
    requires pc % 2 == 0 && Mapped(pc) && WordsOk(m.ram) && WordsOk(m.rom)
    ensures IsOp(m, pc, OpAt(MemOf(m, pc), OffsetOf(pc)))
  {
    hide OpAt, ByteAt, Half, Mapped, InRam, InRom, MemOf, OffsetOf, WordsOk;
    NextAddresses(pc);
    HalfAt(m, pc);
    if Mapped(pc + 2) { HalfAt(m, pc + 2); }
    OpHalves(MemOf(m, pc), OffsetOf(pc));
  }

  ghost predicate WordsOk(mem: seq<nat>) { forall i :: 0 <= i < |mem| ==> mem[i] < 0x1_0000_0000 }

  /** RAM and ROM do not touch. */
  lemma NextAddresses(pc: nat)
    requires pc % 2 == 0 && Mapped(pc)
    ensures Mapped(pc + 1) && OffsetOf(pc) % 2 == 0
    ensures forall m: Memory :: WordsOk(m.ram) && WordsOk(m.rom) ==> WordsOk(MemOf(m, pc))
    ensures Mapped(pc + 2) ==> Mapped(pc + 3) && OffsetOf(pc + 2) == OffsetOf(pc) + 2
    ensures Mapped(pc + 2) ==> forall m: Memory :: MemOf(m, pc + 2) == MemOf(m, pc)
  {}

  /** The 16 bits at an even byte offset. */
  function Half(mem: seq<nat>, off: nat): nat {
    if off % 4 == 0 then Word(mem, off / 4) % 0x1_0000 else Word(mem, off / 4) / 0x1_0000
  }

  lemma HalfAt(m: Memory, pc: nat)
    requires pc % 2 == 0 && Mapped(pc) && WordsOk(m.ram) && WordsOk(m.rom)
    ensures Mapped(pc + 1) && Half(MemOf(m, pc), OffsetOf(pc)) == ByteAt(m, pc) + 0x100 * ByteAt(m, pc + 1)
  {
    NextAddresses(pc);
    var w := Word(MemOf(m, pc), OffsetOf(pc) / 4);
    assert w < 0x1_0000_0000;
    BytesOfWord(w);
    SameWord(pc);
    hide Word;
  }

  lemma SameWord(pc: nat)
    requires pc % 2 == 0 && Mapped(pc)
    ensures OffsetOf(pc) % 4 == pc % 4
    ensures Mapped(pc + 1) && OffsetOf(pc + 1) / 4 == OffsetOf(pc) / 4 && (pc + 1) % 4 == pc % 4 + 1
  {
    NextAddresses(pc);
    var q, r := pc / 4, pc % 4;
    EvenRemainder(pc);
    DivModUnique(pc + 1, 4, q, r + 1);
    if InRom(pc) {
      var base := ROM_BASE / 4;
      DivModUnique(pc - ROM_BASE, 4, q - base, r);
      DivModUnique(pc + 1 - ROM_BASE, 4, q - base, r + 1);
    }
  }

  lemma EvenRemainder(x: nat)
    requires x % 2 == 0
    ensures x == 4 * (x / 4) + x % 4 && (x % 4 == 0 || x % 4 == 2)
  {}

  lemma OpHalves(mem: seq<nat>, off: nat)
    requires off % 2 == 0 && WordsOk(mem)
    ensures OpAt(mem, off) % 0x1_0000 == Half(mem, off) && OpAt(mem, off) / 0x1_0000 == Half(mem, off + 2)
  {
    var q := off / 4;
    var lo, hi := Word(mem, q), Word(mem, q + 1);
    assert lo < 0x1_0000_0000 && hi < 0x1_0000_0000;
    EvenRemainder(off);
    if off % 4 == 0 {
      DivModUnique(off + 2, 4, q, 2);
    } else {
      DivModUnique(off + 2, 4, q + 1, 0);
      DivModUnique(hi % 0x1_0000 * 0x1_0000 + lo / 0x1_0000, 0x1_0000, hi % 0x1_0000, lo / 0x1_0000);
    }
    hide Word;
  }

  lemma BytesOfWord(w: nat)
    requires w < 0x1_0000_0000
    ensures w % 0x1_0000 == w % 0x100 + 0x100 * (w / 0x100 % 0x100)
    ensures w / 0x1_0000 == w / 0x1_0000 % 0x100 + 0x100 * (w / 0x100_0000 % 0x100)
  {}

  // ---------- The cache ----------

  datatype Page<I> = Page(instructions: seq<(I, nat)>, base: nat)

  /** A page holds, at every other byte, what decoding from `m` gives there. */
  ghost predicate PageIs<I>(dec: Dec<I>, m: Memory, page: Page<I>) {
    && |page.instructions| == PAGE_LEN_OP
    && forall k {:trigger page.instructions[k]} :: 0 <= k < PAGE_LEN_OP ==>
         EntryIs(dec, m, page.base * PAGE_LEN_BYTES, k, page.instructions[k])
  }

  ghost predicate EntryIs<I>(dec: Dec<I>, m: Memory, base: nat, k: nat, e: (I, nat)) {
    Direct(dec, m, base + 2 * k) == Inst(e.0, e.1)
  }

  /** The page table and the pages list each other. */
  ghost predicate LutOk<I>(pages: seq<Page<I>>, lut: seq<Option<nat>>) {
    && |lut| == PAGE_TOTAL
    && (forall l :: 0 <= l < PAGE_TOTAL && lut[l].Some? ==>
          lut[l].value < |pages| && pages[lut[l].value].base * PAGE_LEN_BYTES == LutIdxToBase(l))
    && (forall i :: 0 <= i < |pages| ==> Listed(pages, lut, i))
  }

  ghost predicate Listed<I>(pages: seq<Page<I>>, lut: seq<Option<nat>>, i: nat)
    requires i < |pages| && |lut| == PAGE_TOTAL
  {
    var base := pages[i].base * PAGE_LEN_BYTES;
    Mapped(base) && lut[LutIdx(base)] == Some(i)
  }

  lemma LutAppend<I>(pages: seq<Page<I>>, lut: seq<Option<nat>>, l: nat, page: Page<I>)
    requires LutOk(pages, lut) && l < PAGE_TOTAL && lut[l].None?
    requires page.base * PAGE_LEN_BYTES == LutIdxToBase(l)
    ensures LutOk(pages + [page], lut[l := Some(|pages|)])
  {
    var pages', lut' := pages + [page], lut[l := Some(|pages|)];
    forall i | 0 <= i < |pages'| ensures Listed(pages', lut', i) {
      if i < |pages| { assert Listed(pages, lut, i); }
    }
  }

  lemma LutReplace<I>(pages: seq<Page<I>>, lut: seq<Option<nat>>, l: nat, ip: nat, page: Page<I>)
    requires LutOk(pages, lut) && l < PAGE_TOTAL && lut[l].None? && ip < |pages|
    requires page.base * PAGE_LEN_BYTES == LutIdxToBase(l)
    ensures Listed(pages, lut, ip)
    ensures LutOk(pages[ip := page], lut[LutIdx(pages[ip].base * PAGE_LEN_BYTES) := None][l := Some(ip)])
  {
    assert Listed(pages, lut, ip);
    var pages', lut' := pages[ip := page], lut[LutIdx(pages[ip].base * PAGE_LEN_BYTES) := None][l := Some(ip)];
    forall i | 0 <= i < |pages| ensures Listed(pages', lut', i) {
      if i != ip { assert Listed(pages, lut, i); }
    }
    forall k | 0 <= k < PAGE_TOTAL && lut'[k].Some?
      ensures lut'[k].value < |pages| && pages'[lut'[k].value].base * PAGE_LEN_BYTES == LutIdxToBase(k)
    {
      if k != l { assert lut[k].value != ip; }
    }
  }

  class Decoder<I(0)> {
    const dec: Dec<I>
    var pages: seq<Page<I>>
    var pageLut: seq<Option<nat>>
    var lastUsedPage: (nat, nat)
    /** The memory each page was decoded from, and all such memories since the last invalidation. */
    ghost var snaps: seq<Memory>
    ghost var seen: set<Memory>

    ghost predicate Valid()
      reads this
    {
      && LutOk(pages, pageLut) && |pages| <= PAGE_CACHE_MAX && |snaps| == |pages|
      && (lastUsedPage == (NO_PAGE, 0) ||
            (lastUsedPage.1 < |pages| && pages[lastUsedPage.1].base == lastUsedPage.0))
      && (forall i :: 0 <= i < |pages| ==> snaps[i] in seen && PageIs(dec, snaps[i], pages[i]))
    }

    constructor (dec: Dec<I>)
      ensures Valid() && this.dec == dec && seen == {}
    {
      this.dec := dec;
      pages, pageLut, lastUsedPage := [], seq(PAGE_TOTAL, _ => None), (NO_PAGE, 0);
      snaps, seen := [], {};
    }

    method Invalidate()
      modifies this
      ensures Valid() && pages == [] && seen == {}
    {
      pages := [];
      pageLut := seq(PAGE_TOTAL, _ => None);
      lastUsedPage := (NO_PAGE, 0);
      snaps, seen := [], {};
    }

    /** Unlist the page `ip`, whichever the hit scores select, so that its place can be reused. */
    method EvictPage(ip: nat)
      requires Valid() && ip < |pages|
      modifies this`pageLut, this`lastUsedPage
      ensures Mapped(pages[ip].base * PAGE_LEN_BYTES)
      ensures pageLut == old(pageLut)[LutIdx(pages[ip].base * PAGE_LEN_BYTES) := None]
      ensures lastUsedPage == (NO_PAGE, 0)
    {
      assert Listed(pages, pageLut, ip);
      var oldIdx := LutIdx(pages[ip].base * PAGE_LEN_BYTES);
      pageLut := pageLut[oldIdx := None];
      lastUsedPage := (NO_PAGE, 0);
    }

    /** The decoding loop of `decode_page`. */
    method DecodeInstructions(m: Memory, base: nat) returns (instructions: seq<(I, nat)>)
      requires Mapped(base) && base % PAGE_LEN_BYTES == 0
      ensures PageIs(dec, m, Page(instructions, base / PAGE_LEN_BYTES))
    {
      var mem := if InRom(base) then m.rom else m.ram;
      var memOff := (if InRom(base) then base - ROM_BASE else base) / 4;
      instructions := [];
      for opOff := 0 to PAGE_LEN_OP
        invariant |instructions| == opOff
        invariant forall k {:trigger instructions[k]} :: 0 <= k < opOff ==> EntryIs(dec, m, base, k, instructions[k])
      {
        var woff := memOff + opOff / 2;
        var w := Word(mem, woff);
        var pc := base + opOff * 2;
        var op := w;
        if opOff % 2 != 0 {
          var ilo := w / 0x1_0000;
          var ihi := Word(mem, woff + 1);
          op := ihi % 0x1_0000 * 0x1_0000 + ilo;
        }
        OpIsDirect(m, base, opOff);
        instructions := instructions + [dec(op, pc)];
      }
      assert base / PAGE_LEN_BYTES * PAGE_LEN_BYTES == base;
    }

    /** Decode the page number `lidx`, store it and return its place. */
    method DecodePage(m: Memory, lidx: nat, victim: nat) returns (ip: nat)
      requires Valid() && lidx < PAGE_TOTAL && pageLut[lidx].None? && victim < PAGE_CACHE_MAX
      modifies this
      ensures Valid() && seen == old(seen) + {m}
      ensures ip < |pages| && pages[ip].base * PAGE_LEN_BYTES == LutIdxToBase(lidx) && snaps[ip] == m
    {
      var base := LutIdxToBase(lidx);
      var instructions := DecodeInstructions(m, base);
      var page := Page(instructions, base / PAGE_LEN_BYTES);
      var pl := |pages|;
      seen := seen + {m};
      if pl < PAGE_CACHE_MAX {
        LutAppend(pages, pageLut, lidx, page);
        pages, snaps := pages + [page], snaps + [m];
        pageLut := pageLut[lidx := Some(pl)];
        ip := pl;
      } else {
        ip := victim;
        LutReplace(pages, pageLut, lidx, ip, page);
        EvictPage(ip);
        pages, snaps := pages[ip := page], snaps[ip := m];
        pageLut := pageLut[lidx := Some(ip)];
      }
    }

    /**
     * `fetch_instruction`, `victim` being the page that would be evicted. What it returns is what
     * decoding `pc` gives in the current memory or in one seen since the last invalidation; the
     * branch for a page with another base is never taken.
     */
    method FetchInstruction(m: Memory, pc: nat, victim: nat) returns (r: Fetched<I>)
      requires Valid() && victim < PAGE_CACHE_MAX && pc < 0x1_0000_0000
      modifies this
      ensures Valid()
      ensures seen == old(seen) || (seen == old(seen) + {m} && r == Direct(dec, m, pc))
      ensures pc % 2 == 0 && Mapped(pc) ==> exists h :: h in seen && r == Direct(dec, h, pc)
      ensures !(pc % 2 == 0 && Mapped(pc)) ==> r == Direct(dec, m, pc) && seen == old(seen)
    {
      if pc % 2 != 0 {
        return InvalidAddress(pc);
      }
      var pcBase := pc / PAGE_LEN_BYTES;
      var ipos := pc / 2 % PAGE_LEN_OP;
      var (luPage, luIdx) := lastUsedPage;
      if pcBase == luPage {
        Position(luIdx, pc);
        var (i, npc) := pages[luIdx].instructions[ipos];
        return Inst(i, npc);
      }
      if !Mapped(pc) {
        return Fetched.Panic;
      }
      LutIdxOfPage(pc);
      var lutIdx := LutIdx(pc);
      var pageIdx;
      match pageLut[lutIdx] {
        case Some(pi) => pageIdx := pi;
        case None => pageIdx := DecodePage(m, lutIdx, victim);
      }
      if pages[pageIdx].base != pcBase {
        r := InvalidAddress(pc);
      } else {
        Position(pageIdx, pc);
        lastUsedPage := (pcBase, pageIdx);
        var (i, npc) := pages[pageIdx].instructions[ipos];
        r := Inst(i, npc);
      }
    }

    /** The entry of a cached page for an even address on it. */
    lemma Position(i: nat, pc: nat)
      requires Valid() && i < |pages| && pages[i].base == pc / PAGE_LEN_BYTES && pc % 2 == 0
      ensures Mapped(pc) && |pages[i].instructions| == PAGE_LEN_OP
      ensures var e := pages[i].instructions[pc / 2 % PAGE_LEN_OP];
        Inst(e.0, e.1) == Direct(dec, snaps[i], pc) && snaps[i] in seen
    {
      hide LutIdx, MemOf, OffsetOf, OpAt;
      assert Listed(pages, pageLut, i);
      OnPage(pc);
      MappedOnPage(pc);
      assert EntryIs(dec, snaps[i], pages[i].base * PAGE_LEN_BYTES, pc / 2 % PAGE_LEN_OP,
                     pages[i].instructions[pc / 2 % PAGE_LEN_OP]);
    }
  }

  lemma OnPage(pc: nat)
    requires pc % 2 == 0
    ensures pc / PAGE_LEN_BYTES * PAGE_LEN_BYTES + 2 * (pc / 2 % PAGE_LEN_OP) == pc
  {
    assert pc == 2 * (pc / 2) && pc / 2 == 0x800 * (pc / 2 / 0x800) + pc / 2 % 0x800;
    DivModUnique(pc, PAGE_LEN_BYTES, pc / 2 / 0x800, 2 * (pc / 2 % 0x800));
  }

  lemma MappedOnPage(pc: nat)
    requires Mapped(pc / PAGE_LEN_BYTES * PAGE_LEN_BYTES)
    ensures Mapped(pc)
  {}

  /** The word that `decode_page` assembles for its entry number `opOff`. */
  lemma OpIsDirect(m: Memory, base: nat, opOff: nat)
    requires Mapped(base) && base % PAGE_LEN_BYTES == 0 && opOff < PAGE_LEN_OP
    ensures Mapped(base + 2 * opOff) && (base + 2 * opOff) % 2 == 0
    ensures var mem, woff := MemOf(m, base), OffsetOf(base) / 4 + opOff / 2;
      OpAt(MemOf(m, base + 2 * opOff), OffsetOf(base + 2 * opOff)) ==
        if opOff % 2 == 0 then Word(mem, woff)
        else Word(mem, woff + 1) % 0x1_0000 * 0x1_0000 + Word(mem, woff) / 0x1_0000
  {
    SamePage(m, base, opOff);
    HalfWord(OffsetOf(base), opOff);
  }

  lemma SamePage(m: Memory, base: nat, k: nat)
    requires Mapped(base) && base % PAGE_LEN_BYTES == 0 && k < PAGE_LEN_OP
    ensures Mapped(base + 2 * k) && MemOf(m, base + 2 * k) == MemOf(m, base)
    ensures (base + 2 * k) % 2 == 0
    ensures OffsetOf(base + 2 * k) == OffsetOf(base) + 2 * k && OffsetOf(base) % 4 == 0
  {
    var q := base / PAGE_LEN_BYTES;
    assert base == 4096 * q;
    if InRam(base) { assert q < 0x200; } else { assert 0x2_0000 <= q < 0x2_4000; }
  }

  lemma HalfWord(off: nat, k: nat)
    requires off % 4 == 0
    ensures (off + 2 * k) / 4 == off / 4 + k / 2
    ensures (off + 2 * k) % 4 == 0 <==> k % 2 == 0
  {
    var a, b := off / 4, k / 2;
    assert off + 2 * k == 4 * (a + b) + 2 * (k % 2);
  }

  // ---------- Every run ----------

  datatype Event = Fetch(pc: nat, victim: nat) | Store(m: Memory) | FenceI

  /** Memory before event `j`. */
  ghost function Current(m0: Memory, events: seq<Event>, j: nat): Memory
    requires j <= |events|
  {
    if j == 0 then m0
    else if events[j - 1].Store? then events[j - 1].m
    else Current(m0, events, j - 1)
  }

  /** Every memory there has been between the last FENCE.I before event `j` and that event. */
  ghost function Window(m0: Memory, events: seq<Event>, j: nat): (w: set<Memory>)
    requires j <= |events|
    ensures Current(m0, events, j) in w
  {
    if j == 0 then {m0}
    else if events[j - 1].FenceI? then {Current(m0, events, j)}
    else Window(m0, events, j - 1) + {Current(m0, events, j)}
  }

  /** A fetch is the direct decoding of a memory that was there after the last FENCE.I. */
  ghost predicate FetchOk<I>(dec: Dec<I>, m0: Memory, events: seq<Event>, j: nat, out: Option<Fetched<I>>)
    requires j < |events|
  {
    events[j].Fetch? ==>
      exists h {:trigger Direct(dec, h, events[j].pc)} ::
        h in Window(m0, events, j) && out == Some(Direct(dec, h, events[j].pc))
  }

  /** Whatever is fetched, stored, evicted and flushed, every fetch is right. */
  method Replay<I(0)>(dec: Dec<I>, m0: Memory, events: seq<Event>) returns (outs: seq<Option<Fetched<I>>>)
    requires forall j :: 0 <= j < |events| && events[j].Fetch? ==>
      events[j].pc < 0x1_0000_0000 && events[j].victim < PAGE_CACHE_MAX
    ensures |outs| == |events|
    ensures forall j :: 0 <= j < |events| ==> FetchOk(dec, m0, events, j, outs[j])
  {
    var d := new Decoder(dec);
    var m := m0;
    outs := [];
    for j := 0 to |events|
      invariant d.Valid() && d.dec == dec && fresh(d)
      invariant m == Current(m0, events, j) && d.seen <= Window(m0, events, j)
      invariant |outs| == j
      invariant forall i :: 0 <= i < j ==> FetchOk(dec, m0, events, i, outs[i])
    {
      var out := None;
      match events[j] {
        case Fetch(pc, victim) =>
          var r := d.FetchInstruction(m, pc, victim);
          out := Some(r);
        case Store(m') =>
          m := m';
        case FenceI =>
          d.Invalidate();
      }
      assert FetchOk(dec, m0, events, j, out);
      outs := outs + [out];
    }
  }

  /** Without a store since the last FENCE.I, the only such memory is the current one. */
  lemma {:induction false} NoStoreSinceFence(m0: Memory, events: seq<Event>, f: nat, j: nat)
    requires f < j <= |events| && events[f].FenceI?
    requires forall k :: f < k < j ==> !events[k].Store?
    ensures Window(m0, events, j) == {Current(m0, events, j)}
  {
    if j > f + 1 { NoStoreSinceFence(m0, events, f, j - 1); }
  }
}

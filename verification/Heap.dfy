/**
 * `NrHeap` of nr32-rt/src/allocator.rs: block headers edited in place through their addresses,
 * proved to do to the block list exactly what HeapSpec says.
 */
module Heap {
  import opened Wrappers
  import opened HeapSpec

  const MAGIC: nat := 0x1337

  /** `MemBlock`; the null pointer is 0. */
  datatype Header = Header(size: nat, next: nat, prev: nat, used: bool, magic: nat)

  ghost function AddrAt(l: seq<Block>, i: int): nat {
    if 0 <= i < |l| then l[i].addr else 0
  }

  ghost function HeaderOf(l: seq<Block>, i: nat): Header
    requires i < |l|
  {
    Header(l[i].size, AddrAt(l, i + 1), AddrAt(l, i - 1), l[i].used, MAGIC)
  }

  /** Memory holds the header of every block of the list, linked both ways. */
  ghost predicate Linked(mem: map<nat, Header>, l: seq<Block>) {
    forall i {:trigger HeaderAt(mem, l, i)} :: 0 <= i < |l| ==> HeaderAt(mem, l, i)
  }

  ghost predicate HeaderAt(mem: map<nat, Header>, l: seq<Block>, i: nat)
    requires i < |l|
  {
    l[i].addr in mem && mem[l[i].addr] == HeaderOf(l, i)
  }

  /** Memory reads as a block header at `addr`: what `is_valid` tests. */
  predicate HasMagic(mem: map<nat, Header>, addr: nat) {
    addr in mem && mem[addr].magic == MAGIC
  }

  ghost predicate OnList(l: seq<Block>, addr: nat) {
    exists i :: 0 <= i < |l| && l[i].addr == addr
  }

  lemma DistinctAddresses(l: seq<Block>, start: nat, limit: nat)
    requires Tiles(l, start, limit)
    ensures forall i, j :: 0 <= i < j < |l| ==> l[i].addr < l[j].addr
    ensures forall i :: 0 <= i < |l| ==> start <= l[i].addr
  {
    forall i, j | 0 <= i < j < |l| ensures l[i].addr < l[j].addr { TilesOrdered(l, start, limit, i, j); }
    forall i | 0 <= i < |l| ensures start <= l[i].addr { TilesOrdered(l, start, limit, i, 0); }
  }

  /** Memory after `relink` on the block at `b`. */
  ghost function RelinkMem(m: map<nat, Header>, b: nat): map<nat, Header>
    requires Relinkable(m, b)
  {
    var nb, pb := m[b].next, m[b].prev;
    var m1 := if nb != 0 then m[nb := m[nb].(prev := b)] else m;
    if pb != 0 then m1[pb := m1[pb].(next := b)] else m1
  }

  ghost predicate Relinkable(m: map<nat, Header>, b: nat) {
    b in m && (m[b].next != 0 ==> m[b].next in m) && (m[b].prev != 0 ==> m[b].prev in m)
  }

  lemma {:induction false} FirstFitIs(l: seq<Block>, n: nat, i: nat)
    requires i <= |l|
    requires forall j :: 0 <= j < i ==> !Fits(l[j], n)
    requires i < |l| ==> Fits(l[i], n)
    ensures FirstFit(l, n) == i
  {}

  /** How a header of the list after a split reads in terms of the list before. */
  lemma SplitHeader(l: seq<Block>, l': seq<Block>, i: nat, k: nat)
    requires i < |l| && |l'| == |l| + 1 && k < |l'|
    requires l'[..i] == l[..i] && l'[i + 2..] == l[i + 1..] && l'[i].addr == l[i].addr
    ensures k < i ==> HeaderOf(l', k) == HeaderOf(l, k)
    ensures k == i ==>
      HeaderOf(l', k) == HeaderOf(l, i).(size := l'[i].size, used := l'[i].used, next := l'[i + 1].addr)
    ensures k == i + 1 ==> HeaderOf(l', k) == Header(l'[k].size, AddrAt(l, i + 1), l[i].addr, l'[k].used, MAGIC)
    ensures k == i + 2 ==> HeaderOf(l', k) == HeaderOf(l, k - 1).(prev := l'[i + 1].addr)
    ensures k > i + 2 ==> HeaderOf(l', k) == HeaderOf(l, k - 1)
    ensures k < i ==> l'[k] == l[k]
    ensures k > i + 1 ==> l'[k] == l[k - 1]
  {
    assert forall j :: 0 <= j < i ==> l'[j] == l'[..i][j] == l[..i][j] == l[j];
    assert forall j :: i + 2 <= j < |l'| ==> l'[j] == l'[i + 2..][j - i - 2] == l[i + 1..][j - i - 2] == l[j - 1];
  }

  /** How a header of the list after a merge reads in terms of the list before. */
  lemma MergeHeader(l: seq<Block>, l': seq<Block>, i: nat, k: nat)
    requires i + 1 < |l| && l' == MergeAt(l, i) && k < |l'|
    ensures k < i ==> HeaderOf(l', k) == HeaderOf(l, k) && l'[k] == l[k]
    ensures k == i ==>
      HeaderOf(l', k) == HeaderOf(l, i).(size := l[i].size + HEADER_SIZE + l[i + 1].size, next := AddrAt(l, i + 2))
    ensures k == i + 1 ==> HeaderOf(l', k) == HeaderOf(l, k + 1).(prev := l[i].addr)
    ensures k > i + 1 ==> HeaderOf(l', k) == HeaderOf(l, k + 1)
    ensures k > i ==> l'[k] == l[k + 1]
  {}

  lemma LinkedFlag(m: map<nat, Header>, l: seq<Block>, start: nat, limit: nat, i: nat, used: bool)
    requires Linked(m, l) && Tiles(l, start, limit) && i < |l|
    ensures HeaderAt(m, l, i)
    ensures Linked(m[l[i].addr := m[l[i].addr].(used := used)], l[i := l[i].(used := used)])
  {
    assert HeaderAt(m, l, i);
    DistinctAddresses(l, start, limit);
    var l' := l[i := l[i].(used := used)];
    var m' := m[l[i].addr := m[l[i].addr].(used := used)];
    forall k | 0 <= k < |l'| ensures HeaderAt(m', l', k) {
      assert HeaderAt(m, l, k);
      assert k != i ==> l[k].addr != l[i].addr;
    }
  }

  /** Memory after the block at `b` has absorbed its successor. */
  ghost function AbsorbMem(m: map<nat, Header>, b: nat): map<nat, Header>
    requires b in m && m[b].next in m
  {
    var nh := m[m[b].next];
    m[b := m[b].(size := m[b].size + (nh.size + HEADER_SIZE), next := nh.next)]
  }

  lemma MergeReady(m: map<nat, Header>, l: seq<Block>, start: nat, limit: nat, i: nat)
    requires Linked(m, l) && Tiles(l, start, limit) && i + 1 < |l| && start > 0
    ensures var b := l[i].addr;
      && b in m && m[b].next == l[i + 1].addr && m[b].next in m
      && Relinkable(AbsorbMem(m, b), b)
      && AbsorbMem(m, b)[b].next == AddrAt(l, i + 2) && AbsorbMem(m, b)[b].prev == AddrAt(l, i - 1)
  {
    DistinctAddresses(l, start, limit);
    assert HeaderAt(m, l, i) && HeaderAt(m, l, i + 1);
    assert i + 2 < |l| ==> HeaderAt(m, l, i + 2);
    assert i > 0 ==> HeaderAt(m, l, i - 1);
  }

  lemma LinkedMerge(m: map<nat, Header>, l: seq<Block>, start: nat, limit: nat, i: nat)
    requires Linked(m, l) && Tiles(l, start, limit) && i + 1 < |l| && start > 0
    ensures var b := l[i].addr;
      && b in m && m[b].next == l[i + 1].addr && m[b].next in m
      && Relinkable(AbsorbMem(m, b), b)
      && Linked(RelinkMem(AbsorbMem(m, b), b), MergeAt(l, i))
  {
    MergeReady(m, l, start, limit, i);
    DistinctAddresses(l, start, limit);
    var b := l[i].addr;
    var m2 := RelinkMem(AbsorbMem(m, b), b);
    var l' := MergeAt(l, i);
    forall k | 0 <= k < |l'| ensures HeaderAt(m2, l', k) {
      MergeHeader(l, l', i, k);
      var o := if k <= i then k else k + 1;
      assert HeaderAt(m, l, o) && HeaderAt(m, l, i + 1);
      assert o != i ==> l[o].addr != b;
      assert i > 0 && o != i - 1 ==> l[o].addr != AddrAt(l, i - 1);
      assert i + 2 < |l| && o != i + 2 ==> l[o].addr != AddrAt(l, i + 2);
    }
  }

  /** Memory after the block at `b` has been cut to `n` bytes and its tail made a block. */
  ghost function SplitMem(m: map<nat, Header>, b: nat, n: nat): map<nat, Header>
    requires b in m && m[b].size >= n + MIN_SIZE
  {
    m[b := m[b].(used := true, size := n)]
     [b + HEADER_SIZE + n := Header(m[b].size - n - HEADER_SIZE, m[b].next, b, false, MAGIC)]
  }

  /** The block that a split leaves behind can be linked in. */
  lemma SplitRelinks(m: map<nat, Header>, l: seq<Block>, start: nat, limit: nat, i: nat, n: nat)
    requires Linked(m, l) && WellFormed(l, start, limit) && start > 0
    requires i < |l| && Fits(l[i], n) && l[i].size - n > MIN_SIZE && n % ALIGN == 0
    ensures var b, nb := l[i].addr, l[i].Payload() + n;
      b in m && m[b] == HeaderOf(l, i) && Relinkable(SplitMem(m, b, n), nb)
  {
    DistinctAddresses(l, start, limit);
    assert HeaderAt(m, l, i);
    assert i + 1 < |l| ==> HeaderAt(m, l, i + 1);
  }

  /** What stands in memory after a split at `b`: two new headers and a new link of the one behind. */
  lemma SplitMemAt(m: map<nat, Header>, b: nat, n: nat, a: nat)
    requires b in m && b != 0 && m[b].size >= n + MIN_SIZE && a in m && a != b + HEADER_SIZE + n
    requires var after := m[b].next; after != b && after != b + HEADER_SIZE + n && (after != 0 ==> after in m)
    ensures Relinkable(SplitMem(m, b, n), b + HEADER_SIZE + n)
    ensures var nb, after := b + HEADER_SIZE + n, m[b].next;
      var m2 := RelinkMem(SplitMem(m, b, n), nb);
      && a in m2 && b in m2 && nb in m2
      && m2[b] == m[b].(used := true, size := n, next := nb)
      && m2[nb] == Header(m[b].size - n - HEADER_SIZE, after, b, false, MAGIC)
      && (a != b ==> m2[a] == if a == after && a != 0 then m[a].(prev := nb) else m[a])
  {}

  /** Header `k` of the list after a split. */
  lemma SplitLinks(m: map<nat, Header>, l: seq<Block>, start: nat, limit: nat, i: nat, n: nat, k: nat)
    requires Linked(m, l) && WellFormed(l, start, limit) && start > 0
    requires i < |l| && Fits(l[i], n) && l[i].size - n > MIN_SIZE && n % ALIGN == 0
    requires k < |AllocAt(l, i, n)| && l[i].addr in m && m[l[i].addr] == HeaderOf(l, i)
    requires Relinkable(SplitMem(m, l[i].addr, n), l[i].Payload() + n)
    ensures HeaderAt(RelinkMem(SplitMem(m, l[i].addr, n), l[i].Payload() + n), AllocAt(l, i, n), k)
  {
    var l' := AllocAt(l, i, n);
    AllocKeeps(l, start, limit, i, n);
    DistinctAddresses(l, start, limit);
    DistinctAddresses(l', start, limit);
    var b, nb := l[i].addr, l[i].Payload() + n;
    assert l'[i] == Block(b, n, true) && l'[i + 1] == Block(nb, l[i].size - n - HEADER_SIZE, false);
    hide AllocAt, WellFormed, SplitMem, RelinkMem;
    SplitHeader(l, l', i, k);
    var j := if k <= i then k else k - 1;
    assert HeaderAt(m, l, j);
    assert i + 1 < |l| ==> l'[i + 2] == l[i + 1] && HeaderAt(m, l, i + 1);
    assert k != i + 1 ==> l'[k].addr == l[j].addr;
    SplitMemAt(m, b, n, l[j].addr);
  }

  lemma LinkedSplit(m: map<nat, Header>, l: seq<Block>, start: nat, limit: nat, i: nat, n: nat)
    requires Linked(m, l) && WellFormed(l, start, limit) && start > 0
    requires i < |l| && Fits(l[i], n) && l[i].size - n > MIN_SIZE && n % ALIGN == 0
    ensures var b, nb := l[i].addr, l[i].Payload() + n;
      && b in m && m[b] == HeaderOf(l, i)
      && Relinkable(SplitMem(m, b, n), nb)
      && Linked(RelinkMem(SplitMem(m, b, n), nb), AllocAt(l, i, n))
  {
    SplitRelinks(m, l, start, limit, i, n);
    var m2, l' := RelinkMem(SplitMem(m, l[i].addr, n), l[i].Payload() + n), AllocAt(l, i, n);
    hide AllocAt, WellFormed, HeaderAt, RelinkMem, SplitMem, Relinkable;
    forall k | 0 <= k < |l'| ensures HeaderAt(m2, l', k) {
      SplitLinks(m, l, start, limit, i, n, k);
    }
  }

  lemma InitFacts(startAddr: nat, size: nat)
    requires startAddr + size <= WORD && size >= MIN_SIZE && AlignUp(startAddr, ALIGN) != 0
    ensures var start := AlignUp(startAddr, ALIGN);
      && startAddr <= start < startAddr + ALIGN && start % ALIGN == 0
      && start + AlignDown(size - (start - startAddr), ALIGN) == AlignDown(startAddr + size, ALIGN)
      && AlignDown(size - (start - startAddr), ALIGN) >= HEADER_SIZE
      && AlignDown(size - (start - startAddr), ALIGN) % ALIGN == 0
  {
    AlignUpFacts(startAddr);
    var start := AlignUp(startAddr, ALIGN);
    AlignDownShift(startAddr + size, start);
    AlignDownFacts(size - (start - startAddr));
  }

  lemma OneBlock(start: nat, size: nat)
    requires start % ALIGN == 0 && size % ALIGN == 0
    ensures WellFormed([Block(start, size, false)], start, start + HEADER_SIZE + size)
  {
    var l := [Block(start, size, false)];
    assert l[1..] == [];
    assert Tiles(l[1..], l[0].End(), l[0].End());
  }

  /** The block that `raw_free` finds by subtracting the header from the pointer. */
  lemma OnListIndex(l: seq<Block>, start: nat, limit: nat, ptr: nat) returns (i: nat)
    requires Tiles(l, start, limit) && limit <= WORD && 0 < ptr < WORD
    requires OnList(l, (ptr + WORD - HEADER_SIZE) % WORD)
    ensures i == Find(l, ptr) < |l| && l[i].addr == (ptr + WORD - HEADER_SIZE) % WORD
  {
    var j: nat :| j < |l| && l[j].addr == (ptr + WORD - HEADER_SIZE) % WORD;
    TilesOrdered(l, start, limit, j, 0);
    assert l[j].Payload() == ptr;
    i := Find(l, ptr);
  }

  class NrHeap {
    var heapStart: nat
    var mem: map<nat, Header>
    ghost var blocks: seq<Block>
    ghost var limit: nat

    ghost predicate Valid()
      reads this
    {
      && Linked(mem, blocks)
      && (heapStart == 0 ==> blocks == [])
      && (heapStart != 0 ==> blocks != [] && WellFormed(blocks, heapStart, limit) && limit <= WORD)
    }

    /** `NrHeap::empty()`; memory may hold anything. */
    constructor (memory: map<nat, Header>)
      ensures Valid() && heapStart == 0 && blocks == [] && mem == memory
    {
      heapStart, mem, blocks, limit := 0, memory, [], 0;
    }

    /** The heap takes all the aligned room there is, as one free block, or stays empty. */
    method Init(startAddr: nat, size: nat)
      requires startAddr + size <= WORD
      modifies this
      ensures Valid()
      ensures size >= MIN_SIZE && AlignUp(startAddr, ALIGN) != 0 ==>
        && heapStart == AlignUp(startAddr, ALIGN)
        && limit == AlignDown(startAddr + size, ALIGN)
        && |blocks| == 1 && blocks[0].addr == heapStart && blocks[0].End() == limit && !blocks[0].used
      ensures !(size >= MIN_SIZE && AlignUp(startAddr, ALIGN) != 0) ==> heapStart == 0 && blocks == []
    {
      var start := AlignUp(startAddr, ALIGN);
      if size >= MIN_SIZE && start != 0 {
        InitFacts(startAddr, size);
        var off := start - startAddr;
        var heapSize := AlignDown(size - off, ALIGN);
        heapStart := start;
        mem := mem[start := Header(heapSize - HEADER_SIZE, 0, 0, false, MAGIC)];
        blocks, limit := [Block(start, heapSize - HEADER_SIZE, false)], start + heapSize;
        OneBlock(start, heapSize - HEADER_SIZE);
      } else {
        heapStart, blocks := 0, [];
      }
    }

    /** `MemBlock::relink`: the neighbours of `b` point back at it. */
    method Relink(b: nat)
      requires Relinkable(mem, b)
      modifies this`mem
      ensures mem == RelinkMem(old(mem), b)
    {
      var nb, pb := mem[b].next, mem[b].prev;
      if nb != 0 {
        mem := mem[nb := mem[nb].(prev := b)];
      }
      if pb != 0 {
        mem := mem[pb := mem[pb].(next := b)];
      }
    }

    lemma AlignUpIsAligned(size: nat)
      ensures AlignUp(size, ALIGN) % ALIGN == 0
    {}

    lemma FirstBlock()
      requires Valid()
      ensures heapStart == AddrAt(blocks, 0) && (heapStart == 0 ==> |blocks| == 0)
    {}

    /** What the iterator reads at a block of the list, and where it goes from there. */
    lemma BlockAt(i: nat)
      requires Valid() && i <= |blocks| && AddrAt(blocks, i) != 0
      ensures i < |blocks| && heapStart != 0 && blocks[i].addr in mem
      ensures mem[blocks[i].addr] == HeaderOf(blocks, i)
      ensures AddrAt(blocks, i + 1) == 0 ==> i + 1 == |blocks|
    {
      assert HeaderAt(mem, blocks, i);
      DistinctAddresses(blocks, heapStart, limit);
    }

    /**
     * The search of `raw_alloc` over the list of headers. The iterator's test of the magic number never
     * fails: every header it reaches is one of the list's.
     */
    method FindFit(n: nat) returns (b: nat, ghost i: nat)
      requires Valid()
      ensures i == FirstFit(blocks, n) && b == AddrAt(blocks, i)
      ensures b != 0 ==> i < |blocks| && heapStart != 0
      ensures b == 0 ==> i == |blocks|
    {
      hide Valid, HeaderAt, FirstFit;
      b, i := heapStart, 0;
      FirstBlock();
      while b != 0
        invariant i <= |blocks| && b == AddrAt(blocks, i)
        invariant forall j :: 0 <= j < i ==> !Fits(blocks[j], n)
        invariant b == 0 ==> i == |blocks|
        decreases |blocks| - i
      {
        BlockAt(i);
        assert HasMagic(mem, b);
        if !mem[b].used && mem[b].size >= n {
          FirstFitIs(blocks, n, i);
          return;
        }
        b := mem[b].next;
        i := i + 1;
      }
      FirstFitIs(blocks, n, |blocks|);
    }

    /** First fit: the first free block that is large enough is used, and split if it pays. */
    method RawAlloc(size: nat, align: nat) returns (ptr: nat)
      requires Valid()
      modifies this`mem, this`blocks
      ensures Valid()
      ensures (blocks, ptr) == Alloc(old(blocks), size, align)
    {
      hide Valid, FirstFit, AlignUp, AllocAt;
      if align > ALIGN {
        return 0;
      }
      var n := AlignUp(size, ALIGN);
      AlignUpIsAligned(size);
      var b;
      ghost var i;
      b, i := FindFit(n);
      if b == 0 {
        return 0;
      }
      Take(b, n, i);
      ptr := b + HEADER_SIZE;
    }

    /** The block at `b`, number `i` on the list, becomes used and gives up its tail. */
    method Take(b: nat, n: nat, ghost i: nat)
      requires Valid() && heapStart != 0 && i < |blocks| && b == blocks[i].addr
      requires Fits(blocks[i], n) && n % ALIGN == 0
      modifies this`mem, this`blocks
      ensures Valid()
      ensures blocks == AllocAt(old(blocks), i, n)
    {
      assert HeaderAt(mem, blocks, i);
      AllocKeeps(blocks, heapStart, limit, i, n);
      var bsz := mem[b].size;
      var remaining := bsz - n;
      if remaining > MIN_SIZE {
        LinkedSplit(mem, blocks, heapStart, limit, i, n);
        var nb := b + HEADER_SIZE + n;
        mem := mem[b := mem[b].(used := true)];
        mem := mem[b := mem[b].(size := n)];
        mem := mem[nb := Header(remaining - HEADER_SIZE, mem[b].next, b, false, MAGIC)];
        assert mem == SplitMem(old(mem), b, n);
        Relink(nb);
      } else {
        LinkedFlag(mem, blocks, heapStart, limit, i, true);
        mem := mem[b := mem[b].(used := true)];
        assert AllocAt(blocks, i, n) == blocks[i := blocks[i].(used := true)];
      }
      blocks := AllocAt(blocks, i, n);
    }

    /** The address computation of `raw_free`, which wraps. */
    function BlockOf(ptr: nat): nat { (ptr + WORD - HEADER_SIZE) % WORD }

    /**
     * `raw_free`. As in the source, the caller must not pass a pointer to something that reads as
     * a block header but is not (any more) a block of the heap; null and everything that does not
     * read as a header are refused.
     */
    method RawFree(ptr: nat) returns (r: Result<(), SysError>)
      requires Valid() && ptr < WORD
      requires ptr != 0 && HasMagic(mem, BlockOf(ptr)) ==> OnList(blocks, BlockOf(ptr))
      modifies this`mem, this`blocks
      ensures Valid()
      ensures r == if ptr != 0 && old(HasMagic(mem, BlockOf(ptr))) then Ok(()) else Err(Invalid)
      ensures r.Err? ==> blocks == old(blocks) && mem == old(mem)
      ensures r.Ok? ==> Find(old(blocks), ptr) < |old(blocks)|
      ensures r.Ok? ==> blocks == FreeAt(old(blocks), Find(old(blocks), ptr))
    {
      if ptr == 0 {
        return Err(Invalid);
      }
      var b := BlockOf(ptr);
      if b !in mem || mem[b].magic != MAGIC {
        return Err(Invalid);
      }
      ghost var i := OnListIndex(blocks, heapStart, limit, ptr);
      Release(b, i);
      r := Ok(());
    }

    /** The block at `b`, number `i` on the list, becomes free and merges with its neighbours. */
    method Release(b: nat, ghost i: nat)
      requires Valid() && heapStart != 0 && i < |blocks| && b == blocks[i].addr
      modifies this`mem, this`blocks
      ensures Valid()
      ensures blocks == FreeAt(old(blocks), i)
    {
      FreeKeeps(blocks, heapStart, limit, i);
      LinkedFlag(mem, blocks, heapStart, limit, i, false);
      FlagKeepsTiles(blocks, heapStart, limit, i, false);
      mem := mem[b := mem[b].(used := false)];
      blocks := blocks[i := blocks[i].(used := false)];

      MergeNext(b, i);
      assert HeaderAt(mem, blocks, i);
      var pb := mem[b].prev;
      MergePrev(b, pb, i);
    }

    /** First half of the coalescing in `raw_free`. */
    method MergeNext(b: nat, ghost i: nat)
      requires heapStart != 0 && Linked(mem, blocks) && Tiles(blocks, heapStart, limit)
      requires i < |blocks| && b == blocks[i].addr
      modifies this`mem, this`blocks
      ensures Linked(mem, blocks) && Tiles(blocks, heapStart, limit)
      ensures i < |blocks| && b == blocks[i].addr
      ensures blocks ==
        if i + 1 < |old(blocks)| && !old(blocks)[i + 1].used then MergeAt(old(blocks), i) else old(blocks)
    {
      assert HeaderAt(mem, blocks, i);
      if i + 1 < |blocks| {
        DistinctAddresses(blocks, heapStart, limit);
        assert HeaderAt(mem, blocks, i + 1);
      }
      var nb := mem[b].next;
      if nb != 0 && !mem[nb].used {
        LinkedMerge(mem, blocks, heapStart, limit, i);
        MergeKeepsTiles(blocks, heapStart, limit, i);
        mem := mem[b := mem[b].(size := mem[b].size + (mem[nb].size + HEADER_SIZE))];
        mem := mem[b := mem[b].(next := mem[nb].next)];
        assert mem == AbsorbMem(old(mem), b);
        Relink(b);
        blocks := MergeAt(blocks, i);
      }
    }

    /** Second half of the coalescing in `raw_free`. */
    method MergePrev(b: nat, pb: nat, ghost i: nat)
      requires heapStart != 0 && Linked(mem, blocks) && Tiles(blocks, heapStart, limit)
      requires i < |blocks| && b == blocks[i].addr && pb == AddrAt(blocks, i - 1)
      modifies this`mem, this`blocks
      ensures Linked(mem, blocks) && Tiles(blocks, heapStart, limit)
      ensures blocks == if i > 0 && !old(blocks)[i - 1].used then MergeAt(old(blocks), i - 1) else old(blocks)
    {
      if i > 0 {
        DistinctAddresses(blocks, heapStart, limit);
        assert HeaderAt(mem, blocks, i - 1) && HeaderAt(mem, blocks, i);
      }
      if pb != 0 && !mem[pb].used {
        LinkedMerge(mem, blocks, heapStart, limit, i - 1);
        MergeKeepsTiles(blocks, heapStart, limit, i - 1);
        mem := mem[pb := mem[pb].(size := mem[pb].size + (mem[b].size + HEADER_SIZE))];
        mem := mem[pb := mem[pb].(next := mem[b].next)];
        assert mem == AbsorbMem(old(mem), pb);
        Relink(pb);
        blocks := MergeAt(blocks, i - 1);
      }
    }
  }
}

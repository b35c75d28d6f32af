/** What the heap promises, over every sequence of allocations and frees. */
module HeapTheorems {
  import opened HeapSpec

  // ---------- One call ----------

  ghost function Live(l: seq<Block>): set<(nat, nat)> {
    set i | 0 <= i < |l| && l[i].used :: (l[i].Payload(), l[i].size)
  }

  lemma LiveIntro(l: seq<Block>, i: nat)
    requires i < |l| && l[i].used
    ensures (l[i].Payload(), l[i].size) in Live(l)
  {}

  /** Two live payloads are disjoint, 16-aligned and inside the heap. */
  lemma LiveDisjoint(l: seq<Block>, start: nat, limit: nat, a: (nat, nat), b: (nat, nat))
    requires WellFormed(l, start, limit) && a in Live(l) && b in Live(l)
    ensures a.0 % ALIGN == 0 && start + HEADER_SIZE <= a.0 && a.0 + a.1 <= limit
    ensures a != b ==> a.0 + a.1 + HEADER_SIZE <= b.0 || b.0 + b.1 + HEADER_SIZE <= a.0
  {
    var i :| 0 <= i < |l| && l[i].used && a == (l[i].Payload(), l[i].size);
    var j :| 0 <= j < |l| && l[j].used && b == (l[j].Payload(), l[j].size);
    TilesOrdered(l, start, limit, i, j);
    TilesOrdered(l, start, limit, j, i);
  }

  /** First fit is complete: an allocation fails exactly when no free block is large enough. */
  lemma AllocFailsIff(l: seq<Block>, start: nat, limit: nat, size: nat, align: nat)
    requires WellFormed(l, start, limit)
    ensures Alloc(l, size, align).1 == 0 <==>
      align > ALIGN || forall b :: b in l ==> b.used || b.size < AlignUp(size, ALIGN)
    ensures Alloc(l, size, align).1 == 0 ==> Alloc(l, size, align).0 == l
  {
    var i := FirstFit(l, AlignUp(size, ALIGN));
    if i < |l| {
      assert l[i] in l && Fits(l[i], AlignUp(size, ALIGN));
    } else {
      forall b | b in l ensures b.used || b.size < AlignUp(size, ALIGN) {
        var j :| 0 <= j < |l| && l[j] == b;
        assert !Fits(l[j], AlignUp(size, ALIGN));
      }
    }
  }

  /**
   * What an allocation does, in bytes: the first free block that has room for the size, rounded up to
   * 16, is taken, whole if at most 32 bytes would be left of it; otherwise the rest of it becomes a free
   * block behind a header of 16 bytes.
   */
  lemma AllocIs(l: seq<Block>, size: nat, align: nat) returns (i: nat)
    requires align <= 16 && size <= 0x1_0000_0000 - 16
    ensures i <= |l| && forall j :: 0 <= j < i ==> l[j].used || l[j].size < (size + 15) / 16 * 16
    ensures var (l', p) := Alloc(l, size, align);
      if i == |l| then l' == l && p == 0
      else
        var n, b := (size + 15) / 16 * 16, l[i];
        && !b.used && b.size >= n && p == b.addr + 16
        && l' == (if b.size <= n + 32 then l[i := b.(used := true)]
                  else l[..i] + [Block(b.addr, n, true), Block(b.addr + 16 + n, b.size - n - 16, false)] + l[i + 1..])
  {
    AlignUpFacts(size);
    var n := AlignUp(size, ALIGN);
    assert n == (size + 15) / 16 * 16;
    hide AlignUp;
    i := FirstFit(l, n);
    if i < |l| { assert l[..i] + [l[i].(used := true)] + l[i + 1..] == l[i := l[i].(used := true)]; }
  }

  /** A successful allocation adds one live payload and leaves every other one alone. */
  lemma AllocAddsOne(l: seq<Block>, start: nat, limit: nat, size: nat, align: nat) returns (got: nat)
    requires WellFormed(l, start, limit) && size < WORD
    requires Alloc(l, size, align).1 != 0
    ensures var (l', p) := Alloc(l, size, align);
      && WellFormed(l', start, limit)
      && Live(l') == Live(l) + {(p, got)}
      && (forall a :: a in Live(l) ==> a.0 != p)
      && (size <= got <==> size <= WORD - ALIGN)
      && got <= AlignUp(size, ALIGN) + MIN_SIZE
  {
    var n := AlignUp(size, ALIGN);
    AlignUpFacts(size);
    var i := FirstFit(l, n);
    AllocKeeps(l, start, limit, i, n);
    var l' := AllocAt(l, i, n);
    var c := Carve(l[i], n);
    got := c[0].size;
    assert l'[i] == c[0];
    forall a | a in Live(l) ensures a in Live(l') && a.0 != l[i].Payload() {
      var k :| 0 <= k < |l| && l[k].used && a == (l[k].Payload(), l[k].size);
      TilesOrdered(l, start, limit, k, i);
      TilesOrdered(l, start, limit, i, k);
      LiveIntro(l', if k < i then k else k + |c| - 1);
    }
    LiveIntro(l', i);
    forall a | a in Live(l') ensures a in Live(l) || a == (l[i].Payload(), got) {
      var k :| 0 <= k < |l'| && l'[k].used && a == (l'[k].Payload(), l'[k].size);
      if k < i { LiveIntro(l, k); } else if k >= i + |c| { LiveIntro(l, k - |c| + 1); }
    }
  }

  /** The size check cannot see a request that wraps: it is served with an empty payload. */
  lemma WrappedRequestIsShort()
    ensures var (l, p) := Alloc([Block(16, 4064, false)], 0xFFFF_FFF8, 8);
      p == 32 && Live(l) == {(32, 0)}
  {
    var l0 := [Block(16, 4064, false)];
    AlignUpFacts(0xFFFF_FFF8);
    assert FirstFit(l0, 0) == 0;
    assert AllocAt(l0, 0, 0) == [Block(16, 0, true), Block(32, 4048, false)];
    LiveIntro(AllocAt(l0, 0, 0), 0);
  }

  lemma FlagRemovesOne(l: seq<Block>, start: nat, limit: nat, i: nat)
    requires Tiles(l, start, limit) && i < |l|
    ensures Live(l[i := l[i].(used := false)]) == Live(l) - {(l[i].Payload(), l[i].size)}
  {
    var l' := l[i := l[i].(used := false)];
    forall a | a in Live(l') ensures a in Live(l) && a != (l[i].Payload(), l[i].size) {
      var k :| 0 <= k < |l'| && l'[k].used && a == (l'[k].Payload(), l'[k].size);
      LiveIntro(l, k);
      TilesOrdered(l, start, limit, k, i);
      TilesOrdered(l, start, limit, i, k);
    }
    forall a | a in Live(l) && a != (l[i].Payload(), l[i].size) ensures a in Live(l') {
      var k :| 0 <= k < |l| && l[k].used && a == (l[k].Payload(), l[k].size);
      LiveIntro(l', k);
    }
  }

  lemma MergeKeepsLive(l: seq<Block>, i: nat)
    requires i + 1 < |l| && !l[i].used && !l[i + 1].used
    ensures Live(MergeAt(l, i)) == Live(l)
  {
    var l' := MergeAt(l, i);
    forall a | a in Live(l') ensures a in Live(l) {
      var k :| 0 <= k < |l'| && l'[k].used && a == (l'[k].Payload(), l'[k].size);
      LiveIntro(l, if k < i then k else k + 1);
    }
    forall a | a in Live(l) ensures a in Live(l') {
      var k :| 0 <= k < |l| && l[k].used && a == (l[k].Payload(), l[k].size);
      LiveIntro(l', if k < i then k else k - 1);
    }
  }

  /** A free removes exactly that payload from the live ones. */
  lemma FreeRemovesOne(l: seq<Block>, start: nat, limit: nat, i: nat)
    requires WellFormed(l, start, limit) && i < |l|
    ensures WellFormed(FreeAt(l, i), start, limit)
    ensures Live(FreeAt(l, i)) == Live(l) - {(l[i].Payload(), l[i].size)}
  {
    FreeKeeps(l, start, limit, i);
    FlagRemovesOne(l, start, limit, i);
    var l1 := l[i := l[i].(used := false)];
    if i + 1 < |l1| && !l1[i + 1].used { MergeKeepsLive(l1, i); }
    var l2 := if i + 1 < |l1| && !l1[i + 1].used then MergeAt(l1, i) else l1;
    if i > 0 && !l2[i - 1].used { MergeKeepsLive(l2, i - 1); }
  }

  /** Freeing what was just allocated restores the heap, block for block. */
  lemma FreeUndoesAlloc(l: seq<Block>, start: nat, limit: nat, i: nat, size: nat)
    requires WellFormed(l, start, limit) && i < |l| && Fits(l[i], size)
    ensures i < |AllocAt(l, i, size)| && FreeAt(AllocAt(l, i, size), i) == l
  {
    var l' := AllocAt(l, i, size);
    var c := Carve(l[i], size);
    assert l'[i] == c[0];
    if i > 0 { assert l[i - 1].used; assert l'[i - 1] == l[i - 1]; }
    if i + 1 < |l| { assert l[i + 1].used; assert l'[i + |c|] == l[i + 1]; }
    var l1 := l'[i := l'[i].(used := false)];
    if |c| == 2 {
      assert l1[i + 1] == c[1];
      assert MergeAt(l1, i) == l;
    } else {
      assert l1 == l;
    }
  }

  /** Freeing a block that is free already, while its header is still on the list, is harmless. */
  lemma DoubleFreeOnList(l: seq<Block>, i: nat)
    requires NoFreeNeighbours(l) && i < |l| && !l[i].used
    ensures FreeAt(l, i) == l
  {
    assert i + 1 < |l| ==> l[i + 1].used;
    assert i > 0 ==> l[i - 1].used;
    assert l[i := l[i].(used := false)] == l;
  }

  // ---------- Every sequence of calls ----------

  datatype Call = AllocCall(size: nat, align: nat) | FreeCall(ptr: nat)

  function Apply(l: seq<Block>, c: Call): seq<Block> {
    match c
    case AllocCall(size, align) => Alloc(l, size, align).0
    case FreeCall(ptr) => if Find(l, ptr) < |l| then FreeAt(l, Find(l, ptr)) else l
  }

  function ApplyAll(l: seq<Block>, calls: seq<Call>): seq<Block>
    decreases calls
  {
    if calls == [] then l else ApplyAll(Apply(l, calls[0]), calls[1..])
  }

  /** The single free block made by `init`. */
  function InitList(start: nat, limit: nat): seq<Block>
    requires start + HEADER_SIZE <= limit
  {
    [Block(start, limit - start - HEADER_SIZE, false)]
  }

  lemma {:induction false} EveryRunIsWellFormed(l: seq<Block>, start: nat, limit: nat, calls: seq<Call>)
    requires WellFormed(l, start, limit)
    ensures WellFormed(ApplyAll(l, calls), start, limit)
    decreases calls
  {
    if calls != [] {
      match calls[0] {
        case AllocCall(size, align) =>
          var n := AlignUp(size, ALIGN);
          if align <= ALIGN && FirstFit(l, n) < |l| {
            AllocKeeps(l, start, limit, FirstFit(l, n), n);
          }
        case FreeCall(ptr) => if Find(l, ptr) < |l| { FreeKeeps(l, start, limit, Find(l, ptr)); }
      }
      EveryRunIsWellFormed(Apply(l, calls[0]), start, limit, calls[1..]);
    }
  }

  lemma InitWellFormed(start: nat, limit: nat)
    requires start + HEADER_SIZE <= limit && start % ALIGN == 0 && limit % ALIGN == 0
    ensures WellFormed(InitList(start, limit), start, limit)
  {
    var l := InitList(start, limit);
    assert l[1..] == [];
    assert Tiles(l[1..], limit, limit);
  }

  lemma UsedIsLive(l: seq<Block>)
    ensures forall i :: 0 <= i < |l| && l[i].used ==> (l[i].Payload(), l[i].size) in Live(l)
  {}

  lemma TwoBlocksOneUsed(l: seq<Block>)
    requires NoFreeNeighbours(l) && |l| >= 2
    ensures exists i :: 0 <= i < |l| && l[i].used
  {
    assert l[0].used || l[1].used;
  }

  /** Whatever was allocated and in whatever order it was freed, the empty heap is one free block. */
  lemma Confluence(start: nat, limit: nat, calls: seq<Call>)
    requires start + HEADER_SIZE <= limit && start % ALIGN == 0 && limit % ALIGN == 0
    requires Live(ApplyAll(InitList(start, limit), calls)) == {}
    ensures ApplyAll(InitList(start, limit), calls) == InitList(start, limit)
  {
    InitWellFormed(start, limit);
    var l := ApplyAll(InitList(start, limit), calls);
    EveryRunIsWellFormed(InitList(start, limit), start, limit, calls);
    UsedIsLive(l);
    assert forall i :: 0 <= i < |l| ==> !l[i].used;
    if |l| >= 2 { TwoBlocksOneUsed(l); }
    assert |l| == 1 && l[1..] == [] && Tiles(l[1..], l[0].End(), limit);
    assert l == [l[0]];
  }

  function Footprint(l: seq<Block>): nat {
    if l == [] then 0 else HEADER_SIZE + l[0].size + Footprint(l[1..])
  }

  /** Headers and sizes always add up to the heap that `init` was given. */
  lemma {:induction false} BytesConserved(l: seq<Block>, start: nat, limit: nat)
    requires Tiles(l, start, limit)
    ensures Footprint(l) == limit - start
  {
    if l != [] { BytesConserved(l[1..], l[0].End(), limit); }
  }
}

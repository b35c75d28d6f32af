/**
 * The kernel's heap (nr32-rt/src/allocator.rs) as a list of blocks in address order: what an
 * allocation and a free do to the list, and what every sequence of them keeps.
 */
module HeapSpec {

  /** `MemBlock::ALIGN`, `HEADER_SIZE` and `MIN_SIZE` on the 32-bit target. */
  const ALIGN: nat := 16
  const HEADER_SIZE: nat := 16
  const MIN_SIZE: nat := HEADER_SIZE + ALIGN

  const WORD: nat := 0x1_0000_0000

  /** `align_down` and `align_up`: the addition wraps at the word size. */
  function AlignDown(x: nat, align: nat): nat
    requires align > 0
  {
    x - x % align
  }

  function AlignUp(x: nat, align: nat): nat
    requires align > 0
  {
    AlignDown((x + align - 1) % WORD, align)
  }

  /** The header starts at `addr`; `size` payload bytes follow it. */
  datatype Block = Block(addr: nat, size: nat, used: bool) {
    function Payload(): nat { addr + HEADER_SIZE }
    function End(): nat { addr + HEADER_SIZE + size }
  }

  /** Blocks tile `[start, limit)` exactly, every address and size 16-aligned. */
  ghost predicate Tiles(l: seq<Block>, start: nat, limit: nat) {
    if l == [] then start == limit
    else
      && l[0].addr == start
      && l[0].addr % ALIGN == 0 && l[0].size % ALIGN == 0
      && Tiles(l[1..], l[0].End(), limit)
  }

  ghost predicate NoFreeNeighbours(l: seq<Block>) {
    forall i :: 0 <= i < |l| - 1 ==> l[i].used || l[i + 1].used
  }

  ghost predicate WellFormed(l: seq<Block>, start: nat, limit: nat) {
    Tiles(l, start, limit) && NoFreeNeighbours(l)
  }

  // ---------- Operations ----------

  predicate Fits(b: Block, size: nat) { !b.used && b.size >= size }

  /** Index of the first free block of at least `size` bytes, or the length of the list. */
  function FirstFit(l: seq<Block>, size: nat): (i: nat)
    ensures i <= |l|
    ensures forall j :: 0 <= j < i ==> !Fits(l[j], size)
    ensures i < |l| ==> Fits(l[i], size)
  {
    if l == [] then 0
    else if Fits(l[0], size) then 0
    else 1 + FirstFit(l[1..], size)
  }

  /** Block `i` becomes used, its tail split off if more than `MIN_SIZE` bytes would be left. */
  function AllocAt(l: seq<Block>, i: nat, size: nat): seq<Block>
    requires i < |l| && l[i].size >= size
  {
    l[..i] + Carve(l[i], size) + l[i + 1..]
  }

  function Carve(b: Block, size: nat): seq<Block>
    requires b.size >= size
  {
    var rest := b.size - size;
    if rest > MIN_SIZE then
      [Block(b.addr, size, true), Block(b.Payload() + size, rest - HEADER_SIZE, false)]
    else [b.(used := true)]
  }

  /** Block `i` absorbs block `i + 1`. */
  function MergeAt(l: seq<Block>, i: nat): seq<Block>
    requires i + 1 < |l|
  {
    l[..i] + [l[i].(size := l[i].size + HEADER_SIZE + l[i + 1].size)] + l[i + 2..]
  }

  /** Block `i` becomes free and is merged with its free neighbours, the next one first. */
  function FreeAt(l: seq<Block>, i: nat): seq<Block>
    requires i < |l|
  {
    var l1 := l[i := l[i].(used := false)];
    var l2 := if i + 1 < |l1| && !l1[i + 1].used then MergeAt(l1, i) else l1;
    if i > 0 && !l2[i - 1].used then MergeAt(l2, i - 1) else l2
  }

  /** `raw_alloc`: the new list and the pointer returned, 0 for failure. */
  function Alloc(l: seq<Block>, size: nat, align: nat): (seq<Block>, nat) {
    if align > ALIGN then (l, 0)
    else
      var n := AlignUp(size, ALIGN);
      var i := FirstFit(l, n);
      if i < |l| then (AllocAt(l, i, n), l[i].Payload()) else (l, 0)
  }

  /** Index of the block with this payload pointer, or the length of the list. */
  function Find(l: seq<Block>, ptr: nat): (i: nat)
    ensures i <= |l|
    ensures i < |l| ==> l[i].Payload() == ptr
    ensures i == |l| ==> forall j :: 0 <= j < |l| ==> l[j].Payload() != ptr
  {
    if l == [] then 0 else if l[0].Payload() == ptr then 0 else 1 + Find(l[1..], ptr)
  }

  // ---------- Tiling ----------

  lemma {:induction false} TilesSplit(a: seq<Block>, b: seq<Block>, start: nat, limit: nat) returns (mid: nat)
    requires Tiles(a + b, start, limit)
    ensures Tiles(a, start, mid) && Tiles(b, mid, limit)
    ensures b != [] ==> mid == b[0].addr
  {
    if a == [] {
      assert a + b == b;
      mid := start;
    } else {
      assert (a + b)[1..] == a[1..] + b;
      mid := TilesSplit(a[1..], b, a[0].End(), limit);
    }
  }

  lemma {:induction false} TilesJoin(a: seq<Block>, b: seq<Block>, start: nat, mid: nat, limit: nat)
    requires Tiles(a, start, mid) && Tiles(b, mid, limit)
    ensures Tiles(a + b, start, limit)
  {
    if a == [] {
      assert a + b == b;
    } else {
      assert (a + b)[1..] == a[1..] + b;
      TilesJoin(a[1..], b, a[0].End(), mid, limit);
    }
  }

  /** Blocks lie one after the other: payloads and headers of different blocks never overlap. */
  lemma {:induction false} TilesOrdered(l: seq<Block>, start: nat, limit: nat, i: nat, j: nat)
    requires Tiles(l, start, limit) && i < |l|
    ensures start <= l[i].addr && l[i].End() <= limit
    ensures l[i].addr % ALIGN == 0 && l[i].size % ALIGN == 0
    ensures i < j < |l| ==> l[i].End() <= l[j].addr
    ensures i + 1 < |l| ==> l[i].End() == l[i + 1].addr
    ensures i + 1 == |l| ==> l[i].End() == limit
  {
    TilesBounds(l[1..], l[0].End(), limit);
    if i == 0 {
      if i < j < |l| { TilesOrdered(l[1..], l[0].End(), limit, j - 1, 0); }
    } else {
      TilesOrdered(l[1..], l[0].End(), limit, i - 1, if j > 0 then j - 1 else 0);
    }
  }

  lemma {:induction false} TilesBounds(l: seq<Block>, start: nat, limit: nat)
    requires Tiles(l, start, limit)
    ensures start <= limit
  {
    if l != [] { TilesBounds(l[1..], l[0].End(), limit); }
  }

  /** Replacing the middle of a tiling by another tiling of the same range. */
  lemma TilesReplace(a: seq<Block>, b: seq<Block>, b': seq<Block>, c: seq<Block>,
                     start: nat, limit: nat, lo: nat, hi: nat)
    requires Tiles(a + b + c, start, limit) && b != []
    requires b[0].addr == lo && b[|b| - 1].End() == hi
    requires Tiles(b, lo, hi) ==> Tiles(b', lo, hi)
    ensures Tiles(a + b' + c, start, limit)
  {
    hide Tiles;
    assert a + b + c == a + (b + c) && (b + c)[0] == b[0];
    var m1 := TilesSplit(a, b + c, start, limit);
    var m2 := TilesSplit(b, c, m1, limit);
    TilesOrdered(b, m1, m2, |b| - 1, 0);
    TilesJoin(b', c, lo, hi, limit);
    TilesJoin(a, b' + c, start, m1, limit);
    assert a + b' + c == a + (b' + c);
  }

  lemma AlignUpFacts(size: nat)
    requires size < WORD
    ensures AlignUp(size, ALIGN) % ALIGN == 0
    ensures AlignUp(size, ALIGN) >= size <==> size <= WORD - ALIGN
    ensures size > WORD - ALIGN ==> AlignUp(size, ALIGN) == 0
    ensures size <= WORD - ALIGN ==> AlignUp(size, ALIGN) < size + ALIGN
  {}

  lemma AlignDownFacts(x: nat)
    ensures AlignDown(x, ALIGN) % ALIGN == 0
    ensures x - ALIGN < AlignDown(x, ALIGN) <= x
  {}

  lemma AlignDownShift(x: nat, off: nat)
    requires x >= off && off % ALIGN == 0
    ensures AlignDown(x, ALIGN) == off + AlignDown(x - off, ALIGN)
  {}

  lemma AllocKeeps(l: seq<Block>, start: nat, limit: nat, i: nat, size: nat)
    requires WellFormed(l, start, limit) && i < |l| && Fits(l[i], size) && size % ALIGN == 0
    ensures WellFormed(AllocAt(l, i, size), start, limit)
  {
    var b := l[i];
    assert l == l[..i] + [b] + l[i + 1..];
    TilesOrdered(l, start, limit, i, 0);
    var c := Carve(b, size);
    CarveTiles(b, size);
    TilesReplace(l[..i], [b], c, l[i + 1..], start, limit, b.addr, b.End());
    AllocKeepsNeighbours(l, i, size);
  }

  lemma CarveTiles(b: Block, size: nat)
    requires b.size >= size && size % ALIGN == 0 && b.addr % ALIGN == 0 && b.size % ALIGN == 0
    ensures Tiles(Carve(b, size), b.addr, b.End())
  {
    var c := Carve(b, size);
    if |c| == 2 {
      assert c[1..] == [c[1]] && c[1..][1..] == [];
      assert Tiles(c[1..], c[0].End(), b.End());
    } else {
      assert c[1..] == [];
    }
  }

  lemma AllocKeepsNeighbours(l: seq<Block>, i: nat, size: nat)
    requires NoFreeNeighbours(l) && i < |l| && Fits(l[i], size)
    ensures NoFreeNeighbours(AllocAt(l, i, size))
  {
    var c := Carve(l[i], size);
    var l' := AllocAt(l, i, size);
    forall k | 0 <= k < |l'| - 1 ensures l'[k].used || l'[k + 1].used {
      if k < i - 1 { assert l[k].used || l[k + 1].used; }
      else if k + 1 == i || k == i {}
      else if k == i + 1 && |c| == 2 { assert l[i].used || l[i + 1].used; }
      else { var o := k - |c| + 1; assert l[o].used || l[o + 1].used; }
    }
  }

  lemma MergeKeepsTiles(l: seq<Block>, start: nat, limit: nat, i: nat)
    requires Tiles(l, start, limit) && i + 1 < |l|
    ensures Tiles(MergeAt(l, i), start, limit)
  {
    var pair := [l[i], l[i + 1]];
    assert l == l[..i] + pair + l[i + 2..];
    TilesOrdered(l, start, limit, i, 0);
    TilesOrdered(l, start, limit, i + 1, 0);
    var m := l[i].(size := l[i].size + HEADER_SIZE + l[i + 1].size);
    assert [m][1..] == [];
    assert Tiles([m], l[i].addr, l[i + 1].End());
    TilesReplace(l[..i], pair, [m], l[i + 2..], start, limit, l[i].addr, l[i + 1].End());
  }

  lemma FlagKeepsTiles(l: seq<Block>, start: nat, limit: nat, i: nat, used: bool)
    requires Tiles(l, start, limit) && i < |l|
    ensures Tiles(l[i := l[i].(used := used)], start, limit)
  {
    var b := l[i];
    assert l == l[..i] + [b] + l[i + 1..];
    TilesOrdered(l, start, limit, i, 0);
    var c := [b.(used := used)];
    assert c[1..] == [];
    assert Tiles(c, b.addr, b.End());
    TilesReplace(l[..i], [b], c, l[i + 1..], start, limit, b.addr, b.End());
    assert l[i := l[i].(used := used)] == l[..i] + c + l[i + 1..];
  }

  lemma FreeKeeps(l: seq<Block>, start: nat, limit: nat, i: nat)
    requires WellFormed(l, start, limit) && i < |l|
    ensures WellFormed(FreeAt(l, i), start, limit)
  {
    var l1 := l[i := l[i].(used := false)];
    FlagKeepsTiles(l, start, limit, i, false);
    var l2 := if i + 1 < |l1| && !l1[i + 1].used then MergeAt(l1, i) else l1;
    if l2 != l1 { MergeKeepsTiles(l1, start, limit, i); }
    if i > 0 && !l2[i - 1].used { MergeKeepsTiles(l2, start, limit, i - 1); }
    FreeKeepsNeighbours(l, i);
  }

  lemma FreeKeepsNeighbours(l: seq<Block>, i: nat)
    requires NoFreeNeighbours(l) && i < |l|
    ensures NoFreeNeighbours(FreeAt(l, i))
  {
    var l1 := l[i := l[i].(used := false)];
    var l2 := if i + 1 < |l1| && !l1[i + 1].used then MergeAt(l1, i) else l1;
    // the only free neighbours left are i - 1 and i
    assert forall k :: 0 <= k < |l2| - 1 && k != i - 1 ==> l2[k].used || l2[k + 1].used by {
      forall k | 0 <= k < |l2| - 1 && k != i - 1 ensures l2[k].used || l2[k + 1].used {
        var o := if k < i || |l2| == |l1| then k else k + 1;
        assert l[o].used || l[o + 1].used;
      }
    }
    if i > 0 && !l2[i - 1].used {
      var l3 := MergeAt(l2, i - 1);
      forall k | 0 <= k < |l3| - 1 ensures l3[k].used || l3[k + 1].used {
        var o := if k < i - 1 then k else k + 1;
        assert l2[o].used || l2[o + 1].used;
      }
    }
  }
}

/**
 * src/fifo.rs: a ring buffer whose indices run freely through the 32-bit integers. The emulator
 * keeps decoded audio samples and words under DMA in such rings.
 */
module Ring {
  import opened Arith
  import opened Wrappers

  predicate IsPow2(n: nat) { exists k: nat :: k < 31 && n == Pow2(k) }

  /** A power of two up to 2^31 divides 2^32, so that an index keeps its slot when it wraps. */
  lemma Divides(n: nat)
    requires IsPow2(n)
    ensures 0 < n < U32 && n * (U32 / n) == U32
  {
    var k: nat :| k < 31 && n == Pow2(k);
    Pow2Add(k, 32 - k);
    Pow2Values();
    Pow2Mono(k, 31);
    DivModUnique(U32, n, Pow2(32 - k), 0);
  }

  lemma WrapKeepsSlot(x: nat, n: nat)
    requires IsPow2(n)
    ensures n > 0 && x % U32 % n == x % n
  {
    hide IsPow2;
    Divides(n);
    var c := U32 / n;
    assert x == U32 * (x / U32) + x % U32;
    SlotOfSum(x % U32, n, c, x / U32);
  }

  lemma SlotOfSum(y: nat, n: nat, c: nat, q: nat)
    requires n > 0
    ensures (n * c * q + y) % n == y % n
  {
    MulAssoc(n, c, q);
    assert n * (c * q + y / n) == n * (c * q) + n * (y / n);
    DivModUnique(n * c * q + y, n, c * q + y / n, y % n);
  }

  /** Where element `k` of a ring with read index `r` lies. */
  function Slot(r: nat, k: nat, n: nat): (i: nat)
    requires n > 0
    ensures i < n
  {
    (r + k) % n
  }

  /** The elements between the indices, oldest first. */
  function Window<T>(buffer: seq<T>, r: nat, len: nat): (s: seq<T>)
    requires 0 < |buffer|
    ensures |s| == len
  {
    seq(len, k requires 0 <= k => buffer[Slot(r, k, |buffer|)])
  }

  lemma SlotsDiffer(r: nat, k: nat, len: nat, n: nat)
    requires k < len < n
    ensures Slot(r, k, n) != Slot(r, len, n)
  {
    ModDistinct(r + k, r + len, n);
  }

  lemma WindowPush<T>(buffer: seq<T>, r: nat, len: nat, v: T)
    requires len < |buffer|
    ensures Window(buffer[Slot(r, len, |buffer|) := v], r, len + 1) == Window(buffer, r, len) + [v]
  {
    forall k | 0 <= k < len ensures Slot(r, k, |buffer|) != Slot(r, len, |buffer|) {
      SlotsDiffer(r, k, len, |buffer|);
    }
  }

  lemma WindowPop<T>(buffer: seq<T>, r: nat, len: nat)
    requires 0 < len && IsPow2(|buffer|)
    ensures |buffer| > 0 && Window(buffer, r, len)[1..] == Window(buffer, (r + 1) % U32, len - 1)
  {
    Divides(|buffer|);
    forall k | 1 <= k < len ensures Slot(r, k, |buffer|) == Slot((r + 1) % U32, k - 1, |buffer|) {
      SlotWraps(r, k - 1, |buffer|);
    }
  }

  lemma SlotWraps(r: nat, k: nat, n: nat)
    requires IsPow2(n)
    ensures n > 0 && Slot((r + 1) % U32, k, n) == Slot(r, k + 1, n)
  {
    hide IsPow2;
    WrapKeepsSlot(r + 1, n);
    SumMod((r + 1) % U32, r + 1, k, n);
  }

  lemma SumMod(a: nat, b: nat, k: nat, n: nat)
    requires n > 0 && a % n == b % n
    ensures (a + k) % n == (b + k) % n
  {
    var m := a % n + k;
    assert n * (a / n + m / n) == n * (a / n) + n * (m / n);
    assert n * (b / n + m / n) == n * (b / n) + n * (m / n);
    DivModUnique(a + k, n, a / n + m / n, m % n);
    DivModUnique(b + k, n, b / n + m / n, m % n);
  }

  /** `wrapping_sub` of two 32-bit numbers. */
  function WrappingSub(a: nat, b: nat): (d: nat)
    requires a < U32 && b < U32
    ensures d < U32
  {
    if a >= b then a - b else a + U32 - b
  }

  /** The write index points just past the newest element, and one more step makes the queue longer by one. */
  lemma WriteSlot(w: nat, r: nat, n: nat)
    requires IsPow2(n) && w < U32 && r < U32 && WrappingSub(w, r) < n
    ensures n > 0 && w % n == Slot(r, WrappingSub(w, r), n)
    ensures WrappingSub((w + 1) % U32, r) == WrappingSub(w, r) + 1
  {
    hide IsPow2;
    Divides(n);
    WrapKeepsSlot(r + WrappingSub(w, r), n);
  }

  /** The read index points to the oldest element, and one more step makes the queue shorter by one. */
  lemma ReadSlot<T>(w: nat, r: nat, buffer: seq<T>)
    requires IsPow2(|buffer|) && w < U32 && r < U32 && w != r
    ensures |buffer| > 0 && WrappingSub(w, (r + 1) % U32) == WrappingSub(w, r) - 1
    ensures Window(buffer, r, WrappingSub(w, r))[0] == buffer[r % |buffer|]
  {
    Divides(|buffer|);
  }

  class Fifo<T(0)> {
    const buffer: array<T>
    var writeIdx: nat
    var readIdx: nat

    ghost predicate Valid()
      reads this, buffer
    {
      IsPow2(buffer.Length) && writeIdx < U32 && readIdx < U32 && WrappingSub(writeIdx, readIdx) <= buffer.Length
    }

    function Len(): nat
      requires writeIdx < U32 && readIdx < U32
      reads this
    {
      WrappingSub(writeIdx, readIdx)
    }

    /** The queue that the ring stands for. */
    ghost function Contents(): (s: seq<T>)
      requires Valid()
      reads this, buffer
      ensures |s| == Len() <= buffer.Length
    {
      Divides(buffer.Length);
      Window(buffer[..], readIdx, Len())
    }

    constructor (n: nat)
      requires IsPow2(n)
      ensures Valid() && Contents() == [] && buffer.Length == n && fresh(buffer)
    {
      buffer := new T[n];
      writeIdx, readIdx := 0, 0;
    }

    predicate IsFull()
      requires Valid()
      reads this, buffer
      ensures IsFull() <==> |Contents()| == buffer.Length
    {
      Divides(buffer.Length);
      writeIdx == (readIdx + buffer.Length) % U32
    }

    predicate IsEmpty()
      requires Valid()
      reads this, buffer
      ensures IsEmpty() <==> Contents() == []
    {
      writeIdx == readIdx
    }

    /** Drops `v` when the ring is full. */
    method Push(v: T)
      requires Valid()
      modifies this`writeIdx, buffer
      ensures Valid()
      ensures Contents() == if |old(Contents())| == buffer.Length then old(Contents()) else old(Contents()) + [v]
    {
      if IsFull() {
        return;
      }
      hide IsPow2, Window, WrappingSub, Slot;
      WriteSlot(writeIdx, readIdx, buffer.Length);
      WindowPush(buffer[..], readIdx, Len(), v);
      var idx := writeIdx % buffer.Length;
      ghost var before := buffer[..];
      buffer[idx] := v;
      assert buffer[..] == before[idx := v];
      writeIdx := (writeIdx + 1) % U32;
    }

    method Pop() returns (r: Option<T>)
      requires Valid()
      modifies this`readIdx
      ensures Valid()
      ensures old(Contents()) == [] ==> r == None && Contents() == []
      ensures old(Contents()) != [] ==> r == Some(old(Contents())[0]) && Contents() == old(Contents())[1..]
    {
      if IsEmpty() {
        return None;
      }
      hide IsPow2, Window, WrappingSub, Slot;
      ReadSlot(writeIdx, readIdx, buffer[..]);
      WindowPop(buffer[..], readIdx, Len());
      var idx := readIdx % buffer.Length;
      readIdx := (readIdx + 1) % U32;
      return Some(buffer[idx]);
    }

    method Front() returns (r: Option<T>)
      requires Valid()
      ensures r == if Contents() == [] then None else Some(Contents()[0])
    {
      if IsEmpty() {
        return None;
      }
      Divides(buffer.Length);
      return Some(buffer[readIdx % buffer.Length]);
    }

    /** Indexing from the oldest element; the source asserts that the index is in the queue. */
    function At(index: nat): (v: T)
      requires Valid() && index < Len()
      reads this, buffer
      ensures v == Contents()[index]
    {
      Divides(buffer.Length);
      buffer[(readIdx + index) % buffer.Length]
    }

    method Clear()
      requires Valid()
      modifies this`readIdx, this`writeIdx
      ensures Valid() && Contents() == []
    {
      writeIdx, readIdx := 0, 0;
    }

    method Discard(n: nat)
      requires Valid()
      modifies this`readIdx
      ensures Valid()
      ensures Contents() == if n <= |old(Contents())| then old(Contents())[n..] else []
    {
      for i := 0 to n
        invariant Valid()
        invariant Contents() == if i <= |old(Contents())| then old(Contents())[i..] else []
      {
        var _ := Pop();
      }
    }
  }
}

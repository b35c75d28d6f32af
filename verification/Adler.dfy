/** nr32-sys/src/adler32.rs: the checksum of section 2.2 of RFC 1950, on bytes given as numbers. */
module Adler {

  const MOD_ADLER: nat := 65521

  ghost predicate AreBytes(s: seq<nat>) { forall i :: 0 <= i < |s| ==> s[i] < 0x100 }

  /** The sum s1 of RFC 1950 before any reduction: one plus all bytes. */
  function Sum1(data: seq<nat>, n: nat): nat
    requires n <= |data|
  {
    if n == 0 then 1 else Sum1(data, n - 1) + data[n - 1]
  }

  /** The sum s2: all the values that s1 took on. */
  function Sum2(data: seq<nat>, n: nat): nat
    requires n <= |data|
  {
    if n == 0 then 0 else Sum2(data, n - 1) + Sum1(data, n)
  }

  /** RFC 1950, section 2.2: s2 * 65536 + s1, both modulo 65521. */
  function Checksum(data: seq<nat>): (c: nat)
    ensures c < 0x1_0000_0000
  {
    Sum2(data, |data|) % MOD_ADLER * 0x1_0000 + Sum1(data, |data|) % MOD_ADLER
  }

  /** Reducing early changes nothing. */
  lemma ReduceEarly(x: nat, y: nat)
    ensures (x % MOD_ADLER + y) % MOD_ADLER == (x + y) % MOD_ADLER
    ensures (x % MOD_ADLER + y % MOD_ADLER) % MOD_ADLER == (x + y) % MOD_ADLER
  {}

  /** The sums over a prefix do not depend on what follows. */
  lemma {:induction false} SumsOfPrefix(s: seq<nat>, t: seq<nat>, n: nat)
    requires n <= |s|
    ensures Sum1(s + t, n) == Sum1(s, n) && Sum2(s + t, n) == Sum2(s, n)
  {
    if n > 0 { SumsOfPrefix(s, t, n - 1); }
  }

  class Adler32 {
    var a: nat
    var b: nat
    /** All the data so far. */
    ghost var seen: seq<nat>

    ghost predicate Valid()
      reads this
    {
      a == Sum1(seen, |seen|) % MOD_ADLER && b == Sum2(seen, |seen|) % MOD_ADLER
    }

    constructor ()
      ensures Valid() && seen == []
    {
      a, b, seen := 1, 0, [];
    }

    /** More data; neither 32-bit sum of a step wraps around. */
    method Update(data: seq<nat>)
      requires Valid() && AreBytes(data)
      modifies this
      ensures Valid() && seen == old(seen) + data
    {
      ghost var all, n := seen + data, |seen|;
      SumsOfPrefix(seen, data, n);
      for i := 0 to |data|
        invariant a == Sum1(all, n + i) % MOD_ADLER && b == Sum2(all, n + i) % MOD_ADLER
      {
        ReduceEarly(Sum1(all, n + i), data[i]);
        ReduceEarly(Sum2(all, n + i), Sum1(all, n + i + 1));
        assert all[n + i] == data[i];
        assert a + data[i] < 0x1_0000_0000;
        a := (a + data[i]) % MOD_ADLER;
        assert b + a < 0x1_0000_0000;
        b := (b + a) % MOD_ADLER;
      }
      seen := all;
    }

    /** `b` in the upper and `a` in the lower 16 bits: the checksum of all the data, in however many pieces it came. */
    function Hash(): (h: nat)
      requires Valid()
      reads this
      ensures h == Checksum(seen)
    {
      b * 0x1_0000 + a
    }
  }

  method Compute(data: seq<nat>) returns (c: nat)
    requires AreBytes(data)
    ensures c == Checksum(data)
  {
    var h := new Adler32();
    h.Update(data);
    assert [] + data == data;
    return h.Hash();
  }

  lemma {:induction false} SumsOfOnes(s: seq<nat>, n: nat)
    requires n <= |s| && forall k :: 0 <= k < |s| ==> s[k] == 0xff
    ensures Sum1(s, n) == 1 + 255 * n && 2 * Sum2(s, n) == 2 * n + 255 * (n * (n + 1))
  {
    if n > 0 {
      SumsOfOnes(s, n - 1);
      assert n * (n + 1) == (n - 1) * n + 2 * n;
    }
  }

  /** Known values: of no data, of "a" and of "abc", and of 23 bytes of ones, which exceed the modulus. */
  lemma KnownChecksums(ones: seq<nat>)
    requires |ones| == 23 && forall k :: 0 <= k < |ones| ==> ones[k] == 0xff
    ensures Checksum([]) == 1 && Checksum([0x61]) == 0x0062_0062 && Checksum([0x61, 0x62, 0x63]) == 0x024d_0127
    ensures Checksum(ones) == 0x1312_16ea
  {
    SumsOfOnes(ones, 23);
    var one, s := [0x61], [0x61, 0x62, 0x63];
    assert Sum1(one, 1) == 0x62 && Sum2(one, 1) == 0x62;
    assert Sum1(s, 1) == 0x62 && Sum1(s, 2) == 0xc4 && Sum1(s, 3) == 0x127;
    assert Sum2(s, 1) == 0x62 && Sum2(s, 2) == 0x126 && Sum2(s, 3) == 0x24d;
  }

  lemma {:induction false} SumOfChanged(s: seq<nat>, t: seq<nat>, k: nat, n: nat)
    requires |s| == |t| && k < |s| && n <= |s| && forall i :: 0 <= i < |s| && i != k ==> s[i] == t[i]
    ensures if k < n then Sum1(t, n) + s[k] == Sum1(s, n) + t[k] else Sum1(t, n) == Sum1(s, n)
  {
    if n > 0 { SumOfChanged(s, t, k, n - 1); }
  }

  /** A single byte that has changed always shows. */
  lemma ChangedByteShows(s: seq<nat>, t: seq<nat>, k: nat)
    requires AreBytes(s) && AreBytes(t) && |s| == |t| && k < |s| && s[k] != t[k]
    requires forall i :: 0 <= i < |s| && i != k ==> s[i] == t[i]
    ensures Checksum(s) != Checksum(t)
  {
    SumOfChanged(s, t, k, |s|);
    hide Sum1, Sum2;
    NearbyDiffer(Sum1(s, |s|), Sum1(t, |t|));
    DifferentSums(Sum2(s, |s|), Sum1(s, |s|), Sum2(t, |t|), Sum1(t, |t|));
  }

  lemma DifferentSums(x: nat, a: nat, y: nat, b: nat)
    requires a % MOD_ADLER != b % MOD_ADLER
    ensures x % MOD_ADLER * 0x1_0000 + a % MOD_ADLER != y % MOD_ADLER * 0x1_0000 + b % MOD_ADLER
  {
    LowHalves(x % MOD_ADLER, a % MOD_ADLER, y % MOD_ADLER, b % MOD_ADLER);
  }

  lemma LowHalves(x: nat, a: nat, y: nat, b: nat)
    requires a < 0x1_0000 && b < 0x1_0000 && a != b
    ensures x * 0x1_0000 + a != y * 0x1_0000 + b
  {}

  lemma NearbyDiffer(a: nat, b: nat)
    requires a != b && -0x100 < a - b < 0x100
    ensures a % MOD_ADLER != b % MOD_ADLER
  {}
}

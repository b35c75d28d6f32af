/** Facts about division, remainder and powers of two that several modules need. */
module Arith {

  const U32: nat := 0x1_0000_0000

  lemma DivModUnique(x: int, n: nat, q: int, m: nat)
    requires x == n * q + m && m < n
    ensures x / n == q && x % n == m
  {
    var d := x / n - q;
    assert n * d == n * (x / n) - n * q;
    assert n * d == m - x % n;
    assert d >= 1 ==> n * d >= n;
    assert d <= -1 ==> n * d <= n * -1;
  }

  lemma ModDistinct(a: nat, b: nat, n: nat)
    requires a < b < a + n
    ensures a % n != b % n
  {
    var d := b / n - a / n;
    assert n * d == n * (b / n) - n * (a / n);
    assert b - a == n * d + (b % n - a % n);
    assert d >= 1 ==> n * d >= n;
    assert d <= 0 ==> n * d <= 0;
  }

  lemma ModPeriod(a: nat, n: nat)
    requires n > 0
    ensures (a + n) % n == a % n
  {
    assert n * (a / n + 1) == n * (a / n) + n;
    DivModUnique(a + n, n, a / n + 1, a % n);
  }

  lemma MulLe(a: int, b: int, c: int)
    requires a <= b && 0 <= c
    ensures a * c <= b * c
  {}

  lemma MulLt(a: int, b: int, c: int)
    requires a < b && 0 < c
    ensures a * c < b * c
  {}

  /** Squares of non-negative numbers keep their order. */
  lemma SquareLe(a: int, b: int)
    requires 0 <= a <= b
    ensures a * a <= b * b
  {
    MulLe(a, b, a);
    MulLe(a, b, b);
  }

  lemma SquareOfProduct(a: int, b: int)
    ensures (a * b) * (a * b) == (a * a) * (b * b)
  {}

  lemma SquareOfDifference(a: int, b: int)
    ensures (a - b) * (a - b) == a * a - 2 * (a * b) + b * b
  {}

  lemma MulAssoc(a: int, b: int, c: int)
    ensures (a * b) * c == a * (b * c) == (a * c) * b
  {}

  function Pow2(n: nat): (p: nat)
    ensures p > 0
  {
    if n == 0 then 1 else 2 * Pow2(n - 1)
  }

  lemma {:induction false} Pow2Add(m: nat, n: nat)
    ensures Pow2(m + n) == Pow2(m) * Pow2(n)
  {
    if m > 0 {
      Pow2Add(m - 1, n);
      MulAssoc(2, Pow2(m - 1), Pow2(n));
    }
  }

  lemma {:induction false} Pow2Mono(m: nat, n: nat)
    requires m <= n
    ensures Pow2(m) <= Pow2(n)
  {
    if m < n { Pow2Mono(m, n - 1); }
  }

  lemma Pow2Values()
    ensures Pow2(0) == 1 && Pow2(1) == 2 && Pow2(2) == 4 && Pow2(3) == 8 && Pow2(4) == 16
    ensures Pow2(8) == 0x100 && Pow2(12) == 0x1000
    ensures Pow2(15) == 0x8000 && Pow2(16) == 0x1_0000 && Pow2(17) == 0x2_0000
    ensures Pow2(31) == 0x8000_0000 && Pow2(32) == 0x1_0000_0000
  {
    assert Pow2(2) == 4 && Pow2(4) == 16;
    Pow2Add(4, 4);
    Pow2Add(8, 4);
    Pow2Add(8, 8);
    assert Pow2(16) == 2 * Pow2(15) && Pow2(17) == 2 * Pow2(16);
    Pow2Add(16, 16);
    assert Pow2(32) == 2 * Pow2(31);
  }

  /** Arithmetic shift to the right: floor division by a power of two, one place at a time. */
  function Shr(x: int, k: nat): int {
    if k == 0 then x else Shr(x, k - 1) / 2
  }

  /** Shift to the left, without loss. */
  function Shl(x: int, k: nat): int {
    if k == 0 then x else 2 * Shl(x, k - 1)
  }

  lemma {:induction false} ShlAdd(x: int, k: nat, n: nat)
    ensures Shl(Shl(x, k), n) == Shl(x, k + n)
  {
    if n > 0 { ShlAdd(x, k, n - 1); }
  }

  lemma {:induction false} ShrOfShl(x: int, k: nat, n: nat)
    requires n <= k
    ensures Shr(Shl(x, k), n) == Shl(x, k - n)
  {
    if n > 0 { ShrOfShl(x, k, n - 1); }
  }

  /** Shifting out and back in loses less than one unit of the last place kept. */
  lemma {:induction false} ShlOfShr(x: int, k: nat)
    ensures 0 <= x - Shl(Shr(x, k), k) < Pow2(k)
  {
    if k > 0 {
      ShlOfShr(x, k - 1);
      ShlOfHalf(Shr(x, k - 1), k - 1);
    }
  }

  lemma {:induction false} ShlOfHalf(x: int, k: nat)
    ensures Shl(x, k) - 2 * Shl(x / 2, k) == if x % 2 == 0 then 0 else Pow2(k)
  {
    if k > 0 { ShlOfHalf(x, k - 1); }
  }

  lemma {:induction false} ShlMono(x: int, y: int, k: nat)
    requires x <= y
    ensures Shl(x, k) <= Shl(y, k)
  {
    if k > 0 { ShlMono(x, y, k - 1); }
  }

  lemma {:induction false} ShrMono(x: int, y: int, k: nat)
    requires x <= y
    ensures Shr(x, k) <= Shr(y, k)
  {
    if k > 0 { ShrMono(x, y, k - 1); }
  }

  lemma {:induction false} ShlIsPow2(k: nat)
    ensures Shl(1, k) == Pow2(k)
    ensures Shl(-1, k) + Pow2(k) == 0
  {
    if k > 0 { ShlIsPow2(k - 1); }
  }

  /** Shifts by whole nibbles are products and quotients by 16. */
  lemma ShlNibble(x: int, k: nat)
    ensures Shl(x, k + 4) == 16 * Shl(x, k)
  {
    assert Shl(x, k + 2) == 4 * Shl(x, k);
    assert Shl(x, k + 4) == 4 * Shl(x, k + 2);
  }

  lemma ShrNibble(x: int, k: nat)
    ensures Shr(x, k + 4) == Shr(x, k) / 16
  {
    var y := Shr(x, k);
    assert Shr(x, k + 2) == y / 2 / 2 == y / 4;
    assert Shr(x, k + 4) == y / 4 / 2 / 2 == y / 16;
  }

  lemma NibbleShifts(x: int)
    ensures Shl(x, 0) == x && Shl(x, 4) == 16 * x && Shl(x, 8) == 256 * x && Shl(x, 12) == 4096 * x
    ensures Shr(x, 0) == x && Shr(x, 4) == x / 16 && Shr(x, 8) == x / 16 / 16 && Shr(x, 12) == x / 16 / 16 / 16
  {
    ShlNibble(x, 0);
    ShlNibble(x, 4);
    ShlNibble(x, 8);
    ShrNibble(x, 0);
    ShrNibble(x, 4);
    ShrNibble(x, 8);
  }
}

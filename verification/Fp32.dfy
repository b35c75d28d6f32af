/**
 * s16.16 fixed point (nr32-sys/src/math/fp32.rs): `sqrt`, on raw 32-bit values. A shift to the
 * left by `h` is a product with 2^h, a shift to the right a floor division.
 */
module Fp32 {
  import opened Arith

  const MIN: int := -0x8000_0000
  const MAX: int := 0x7fff_ffff
  const ONE: int := 0x1_0000

  predicate InWord(x: int) { MIN <= x <= MAX }

  /** `leading_zeros` of a positive word: at least `n`, where the search starts. */
  function LeadingZeros(x: int, n: nat): (r: nat)
    requires 0 < n <= 31 && 0 < x < Pow2(32 - n)
    ensures n <= r <= 31 && Pow2(31 - r) <= x < Pow2(32 - r)
    decreases 31 - n
  {
    if x >= Pow2(31 - n) then n else LeadingZeros(x, n + 1)
  }

  /** Conversion of a 64-bit result to 32 bits, which keeps the low half. */
  function Truncate(v: int): int {
    var m := v % 0x1_0000_0000;
    if m > MAX then m - 0x1_0000_0000 else m
  }

  /** Signed division, rounding towards zero. */
  function Quot(a: int, b: int): int
    requires b != 0
  {
    if a >= 0 then a / b else -(-a / b)
  }

  /** `Div<Fp32>`. */
  function Div(a: int, b: int): int
    requires b != 0
  {
    Truncate(Quot(a * ONE, b))
  }

  function SaturatingAdd(a: int, b: int): int {
    if a + b > MAX then MAX else if a + b < MIN then MIN else a + b
  }

  // ---------- Square root ----------

  /** The first estimate: half the magnitude. */
  function Guess(x: int): int
    requires 0 < x <= MAX
  {
    Pow2Values();
    var lz := LeadingZeros(x, 1);
    if x >= ONE then
      if lz <= 16 then x / Pow2((16 - lz) / 2) else 0  // never the case: see GuessLarge
    else
      if lz >= 15 then x * Pow2((lz - 15) / 2) else 0  // never the case: see GuessSmall
  }

  /** One round of Newton's method. */
  function Round(x: int, s: int): int
    requires s != 0
  {
    Quot(SaturatingAdd(s, Div(x, s)), 2)
  }

  /** `n` rounds, stopping early only where the source would divide by zero. */
  function Rounds(x: int, s: int, n: nat): int
    decreases n
  {
    if n == 0 || s == 0 then s else Rounds(x, Round(x, s), n - 1)
  }

  /** `f` is the integer square root of `a`. */
  ghost predicate IsRoot(f: int, a: int) { f >= 0 && f * f <= a < (f + 1) * (f + 1) }

  /** How far an estimate may be from `g`, the root rounded up, after `i` rounds. */
  ghost predicate Near(i: nat, s: int, g: int) {
    && g > 0 && s >= 1
    && if i == 0 then 5 * g <= 8 * s && 5 * s <= 8 * g
       else if i == 1 then g - 1 <= s && 8 * (s - g) <= g
       else if i == 2 then g - 1 <= s && 128 * (s - g) <= g
       else if i == 3 then g - 1 <= s && 32768 * (s - g) <= g
       else g - 1 <= s <= g
  }

  /**
   * `sqrt`: the root of the value, rounded down or one more. No round divides by zero, overflows
   * or saturates: see NewtonRound.
   */
  method Sqrt(x: int) returns (r: int)
    requires InWord(x)
    ensures InWord(r)
    ensures x == 0 ==> r == 0
    ensures x < 0 ==> r == MIN
    ensures x > 0 ==> IsRoot(r, x * ONE) || IsRoot(r - 1, x * ONE)
    ensures x > 0 ==> r == NthEstimate(x, 4)
    ensures x > 0 ==> forall f: nat :: IsRoot(f, x * ONE) && 64 * ((f + 1) * (f + 1) - x * ONE) > f + 1 ==> r == f
  {
    if x == 0 { return x; }
    if x < 0 { return MIN; }
    var s := Guess(x);
    ghost var f := RootExists(x * ONE);
    RootRange(x, f);
    GuessNear(x, f);
    for i := 0 to 4
      invariant Near(i, s, f + 1) && InWord(s)
      invariant Rounds(x, Guess(x), 4) == Rounds(x, s, 4 - i)
    {
      NewtonRound(x, f, s, i);
      s := Quot(SaturatingAdd(s, Div(x, s)), 2);
    }
    r := s;
    forall g: nat | IsRoot(g, x * ONE) && 64 * ((g + 1) * (g + 1) - x * ONE) > g + 1 ensures r == g {
      RoundedUpIff(x, g);
    }
  }

  lemma {:induction false} RootUpTo(a: nat, n: nat) returns (f: nat)
    requires a < (n + 1) * (n + 1)
    ensures IsRoot(f, a)
  {
    if n * n <= a { f := n; } else { f := RootUpTo(a, n - 1); }
  }

  lemma RootExists(a: nat) returns (f: nat)
    ensures IsRoot(f, a)
  {
    f := RootUpTo(a, a);
  }

  /** If `f` is below `n` then so is the square below `n * n`. */
  lemma RootBelow(f: int, a: int, n: int)
    requires IsRoot(f, a) && n >= 0
    ensures f < n <==> a < n * n
  {
    if f < n { SquareLe(f + 1, n); } else { SquareLe(n, f); }
  }

  lemma RootRange(x: int, f: int)
    requires 0 < x <= MAX && IsRoot(f, x * ONE)
    ensures 256 <= f < 0x100_0000
    ensures x >= ONE ==> f >= ONE
  {
    RootBelow(f, x * ONE, 256);
    RootBelow(f, x * ONE, 0x100_0000);
    RootBelow(f, x * ONE, ONE);
  }

  // ---------- One round, over the integers ----------

  /** Newton's step never falls below the root. */
  lemma StepAbove(a: nat, f: nat, s: int, q: int, s': int)
    requires s >= 1 && f * f <= a && s * q <= a < s * q + s && s' == (s + q) / 2
    ensures s' >= f
  {
    ProductBelowSquare(s, f);
    if q + 1 <= 2 * f - s {
      MulLe(q + 1, 2 * f - s, s);
    }
  }

  lemma ProductBelowSquare(s: int, f: int)
    ensures (2 * f - s) * s <= f * f
  {
    SquareOfDifference(s, f);
    assert (s - f) * (s - f) >= 0;
    assert (2 * f - s) * s == 2 * (s * f) - s * s;
  }

  /** Newton's step squares the distance to the root. */
  lemma StepBelow(a: nat, g: nat, s: int, q: int, s': int)
    requires s >= 1 && a < g * g && s * q <= a < s * q + s && s' == (s + q) / 2
    ensures 2 * (s * (s' - g)) < (s - g) * (s - g)
  {
    SquareOfDifference(s, g);
    MulLe(2 * s', s + q, s);
    assert (2 * s') * s == 2 * (s * s');
    assert (s + q) * s == s * s + s * q;
    assert s * (s' - g) == s * s' - s * g;
  }

  /** A first estimate within [5/8, 8/5] is within 1/8 after a round. */
  lemma FirstRound(s: int, g: int, e: int)
    requires g > 0 && s > 0 && 5 * g <= 8 * s && 5 * s <= 8 * g
    requires 2 * (s * e) < (s - g) * (s - g)
    ensures 8 * e <= g
  {
    SquareOfDifference(s, g);
    CrossProduct(s, g);
    if g <= 8 * e {
      MulLe(g, 8 * e, s);
      MulAssoc(8, e, s);
      FirstRoundLinear(s * s, g * g, s * g, s * e);
    }
  }

  lemma CrossProduct(s: int, g: int)
    requires g > 0 && s > 0 && 5 * g <= 8 * s && 5 * s <= 8 * g
    ensures 89 * (s * g) >= 40 * (s * s) + 40 * (g * g) && s * g > 0
  {
    MulLe(0, 8 * s - 5 * g, 8 * g - 5 * s);
    assert (8 * s - 5 * g) * (8 * g - 5 * s) == 89 * (s * g) - 40 * (s * s) - 40 * (g * g);
    MulLt(0, s, g);
  }

  lemma FirstRoundLinear(ss: int, gg: int, sg: int, se: int)
    requires 89 * sg >= 40 * ss + 40 * gg && sg > 0
    requires 2 * se < ss - 2 * sg + gg
    ensures 8 * se < sg
  {}

  /** A distance of g/k becomes g/(2 k^2). */
  lemma LaterRound(s: int, g: int, k: int, e': int)
    requires g > 0 && k > 0 && g - 1 <= s && 1 <= s && k * (s - g) <= g
    requires 2 * (s * e') < (s - g) * (s - g)
    ensures 2 * ((k * k) * e') <= g
  {
    var e := s - g;
    assert e == -1 ==> e * e == 1;
    MulLt(0, k, k);
    if e' <= 0 {
      MulLe(e', 0, k * k);
    } else if e >= 0 {
      MulLe(g, s, e');
      MulLe(0, e, k);
      SquareLe(k * e, g);
      SquareOfProduct(k, e);
      MulLe(2 * (g * e'), e * e, k * k);
      Rearrange(g, e', k * k);
      CancelSquare(2 * ((k * k) * e'), g);
    } else {
      MulLe(1, e', s);
    }
  }

  lemma Rearrange(g: int, e: int, kk: int)
    ensures (2 * (g * e)) * kk == (2 * (kk * e)) * g
  {}

  lemma CancelSquare(x: int, g: int)
    requires g > 0 && x * g <= g * g
    ensures x <= g
  {
    if g < x { MulLt(g, x, g); }
  }

  /** The last round leaves no distance at all: the root is below 2^24. */
  lemma LastRound(s: int, g: int, e': int)
    requires 0 < g <= 0x100_0000 && g - 1 <= s && 1 <= s && 32768 * (s - g) <= g
    requires 2 * (s * e') < (s - g) * (s - g)
    ensures e' <= 0
  {
    var e := s - g;
    assert e == -1 ==> e * e == 1;
    if e >= 0 { MulLe(e, 512, e); }
    if e' >= 1 { MulLe(1, e', s); }
  }

  lemma FloorDivision(x: nat, p: nat)
    requires p > 0
    ensures (x / p) * p <= x < (x / p + 1) * p && 0 <= x / p <= x
    ensures p * (x / p) <= x < p * (x / p) + p
  {
    assert x == p * (x / p) + x % p;
    MulLe(1, p, x / p);
    assert (x / p + 1) * p == p * (x / p) + p;
  }

  /** The quotient fits the word, and the sum does not saturate. */
  lemma QuotientFits(a: nat, g: nat, s: int)
    requires s >= 1 && a < g * g && 0 < g <= 0x100_0000 && s <= 2 * g && g <= 2 * s + 2
    ensures 0 <= a / s <= 4 * g + 4
    ensures s * (a / s) <= a < s * (a / s) + s
  {
    var q := a / s;
    FloorDivision(a, s);
    if 4 * g + 4 < q {
      MulLt(4 * g + 4, q, s);
      SquareBelowProduct(g, s);
    }
  }

  lemma SquareBelowProduct(g: int, s: int)
    requires s >= 1 && 0 < g <= 2 * s + 2
    ensures g * g <= (4 * g + 4) * s
  {
    MulLe(g, 2 * s + 2, g);
    assert (2 * s + 2) * g == 2 * (s * g) + 2 * g;
    assert (4 * g + 4) * s == 4 * (s * g) + 4 * s;
    MulLe(1, s, g);
  }

  /** A round computes over the integers what it says, and brings the estimate nearer. */
  lemma NewtonRound(x: int, f: nat, s: int, i: nat)
    requires 0 < x <= MAX && IsRoot(f, x * ONE) && 256 <= f < 0x100_0000
    requires i < 4 && Near(i, s, f + 1)
    ensures Round(x, s) == (s + x * ONE / s) / 2
    ensures Near(i + 1, Round(x, s), f + 1) && InWord(Round(x, s))
  {
    var a, g := x * ONE, f + 1;
    QuotientFits(a, g, s);
    var q := a / s;
    assert Quot(a, s) == q && Div(x, s) == q && SaturatingAdd(s, q) == s + q;
    var s' := (s + q) / 2;
    assert Round(x, s) == s';
    StepAbove(a, f, s, q, s');
    StepBelow(a, g, s, q, s');
    if i == 0 {
      FirstRound(s, g, s' - g);
    } else if i == 1 {
      LaterRound(s, g, 8, s' - g);
    } else if i == 2 {
      LaterRound(s, g, 128, s' - g);
    } else {
      LastRound(s, g, s' - g);
    }
  }

  // ---------- The first estimate ----------

  lemma GuessNear(x: int, f: nat)
    requires 0 < x <= MAX && IsRoot(f, x * ONE) && 256 <= f < 0x100_0000
    ensures Near(0, Guess(x), f + 1) && InWord(Guess(x))
  {
    Pow2Values();
    var lz := LeadingZeros(x, 1);
    if x >= ONE {
      GuessLarge(x, f, lz);
    } else {
      GuessSmall(x, f, lz);
    }
  }

  /** From s p <= x < 2^17 p^2 to s^2 < 2 A. */
  lemma Upper(x: int, p: nat, s: int)
    requires x > 0 && p > 0 && s >= 0 && s * p <= x < 0x2_0000 * (p * p)
    ensures s * s < 2 * (x * ONE)
  {
    SquareLe(s * p, x) by { MulLe(0, s, p); }
    SquareOfProduct(s, p);
    MulLt(x, 0x2_0000 * (p * p), x);
    MulLt(0, p, p);
    assert (0x2_0000 * (p * p)) * x == (2 * (x * ONE)) * (p * p);
    if s * s >= 2 * (x * ONE) { MulLe(2 * (x * ONE), s * s, p * p); }
  }

  /** From x <= t p and 2^15 p^2 <= x to A <= 2 t^2. */
  lemma Lower(x: int, p: nat, t: int)
    requires x > 0 && p > 0 && t >= 0 && x <= t * p && 0x8000 * (p * p) <= x
    ensures x * ONE <= 2 * (t * t)
  {
    SquareLe(x, t * p);
    SquareOfProduct(t, p);
    MulLe(0x8000 * (p * p), x, x);
    MulLt(0, p, p);
    assert 2 * ((0x8000 * (p * p)) * x) == (x * ONE) * (p * p);
    if 2 * (t * t) < x * ONE { MulLt(2 * (t * t), x * ONE, p * p); }
  }

  /** From bounds on the square to bounds on the estimate. */
  lemma Span(f: int, s: int)
    requires f >= 256 && s >= 0
    requires s * s < 2 * ((f + 1) * (f + 1))
    requires f * f <= 2 * ((s + 1) * (s + 1))
    ensures Near(0, s, f + 1)
  {
    var g := f + 1;
    if 5 * s > 8 * g {
      SquareLe(8 * g, 5 * s);
      SquareOfProduct(8, g);
      SquareOfProduct(5, s);
    }
    if 8 * s < 5 * g {
      var u := 5 * f + 13;
      SquareLe(8 * (s + 1), u);
      SquareOfProduct(8, s + 1);
      assert u * u == 25 * (f * f) + 130 * f + 169;
      MulLe(256, f, f);
    }
  }

  lemma ScaledSquare(h: nat, m: nat, k: nat)
    requires k == 2 * h + m
    ensures Pow2(k) == Pow2(m) * (Pow2(h) * Pow2(h))
  {
    Pow2Add(h, h);
    assert k == m + 2 * h;
    Pow2Add(m, 2 * h);
  }

  lemma GuessLarge(x: int, f: nat, lz: nat)
    requires ONE <= x <= MAX && IsRoot(f, x * ONE) && 256 <= f
    requires 1 <= lz <= 31 && Pow2(31 - lz) <= x < Pow2(32 - lz)
    ensures lz <= 15
    ensures Near(0, x / Pow2((16 - lz) / 2), f + 1)
    ensures InWord(x / Pow2((16 - lz) / 2))
  {
    Pow2Values();
    if lz > 15 { Pow2Mono(32 - lz, 16); }
    var h := (16 - lz) / 2;
    var p := Pow2(h);
    if (16 - lz) % 2 == 0 {
      ScaledSquare(h, 15, 31 - lz);
      ScaledSquare(h, 16, 32 - lz);
    } else {
      ScaledSquare(h, 16, 31 - lz);
      ScaledSquare(h, 17, 32 - lz);
    }
    var s := x / p;
    FloorDivision(x, p);
    Upper(x, p, s);
    Lower(x, p, s + 1);
    Span(f, s);
  }

  lemma GuessSmall(x: int, f: nat, lz: nat)
    requires 0 < x < ONE && IsRoot(f, x * ONE) && 256 <= f
    requires 1 <= lz <= 31 && Pow2(31 - lz) <= x < Pow2(32 - lz)
    ensures lz >= 16
    ensures Near(0, x * Pow2((lz - 15) / 2), f + 1)
    ensures InWord(x * Pow2((lz - 15) / 2))
  {
    Pow2Values();
    if lz < 16 { Pow2Mono(16, 31 - lz); }
    var h := (lz - 15) / 2;
    var p := Pow2(h);
    SmallScale(x, h, lz);
    SmallSquare(x, p, f);
    Span(f, x * p);
    SmallFits(x, h);
  }

  lemma SmallFits(x: nat, h: nat)
    requires x < ONE && h <= 8
    ensures InWord(x * Pow2(h))
  {
    Pow2Values();
    Pow2Mono(h, 8);
    MulLe(0, Pow2(h), x);
    MulLe(Pow2(h), 256, x);
  }

  lemma SmallScale(x: nat, h: nat, lz: nat)
    requires 16 <= lz <= 31 && Pow2(31 - lz) <= x < Pow2(32 - lz) && h == (lz - 15) / 2
    ensures 0x8000 <= x * (Pow2(h) * Pow2(h)) < 0x2_0000
  {
    Pow2Values();
    Pow2Add(h, h);
    MulLe(Pow2(31 - lz), x, Pow2(2 * h));
    MulLt(x, Pow2(32 - lz), Pow2(2 * h));
    Pow2Add(31 - lz, 2 * h);
    Pow2Add(32 - lz, 2 * h);
    Pow2Mono(15, 31 - lz + 2 * h);
    Pow2Mono(32 - lz + 2 * h, 17);
  }

  lemma SmallSquare(x: nat, p: nat, f: nat)
    requires x > 0 && p > 0 && IsRoot(f, x * ONE) && 0x8000 <= x * (p * p) < 0x2_0000
    ensures x * p >= 0
    ensures (x * p) * (x * p) < 2 * ((f + 1) * (f + 1))
    ensures f * f <= 2 * ((x * p + 1) * (x * p + 1))
  {
    var s, y := x * p, p * p;
    MulLe(0, x, p);
    SquareOfProduct(x, p);
    MulAssoc(x, x, y);
    MulLe(0x8000, x * y, x);
    MulLt(x * y, 0x2_0000, x);
    SquareLe(s, s + 1);
  }

  // ---------- When the result is rounded down ----------

  /** A round comes out at `g` or above exactly when the estimate is far enough from `g`. */
  lemma StepReaches(a: nat, g: int, s: int, q: int)
    requires s >= 1 && s * q <= a < s * q + s
    ensures (s + q) / 2 >= g <==> g * g - a <= (s - g) * (s - g)
  {
    var t := 2 * g - s;
    assert (s - g) * (s - g) - (g * g - a) == a - s * t;
    if q >= t { MulLe(t, q, s); } else { MulLe(q + 1, t, s); }
  }

  lemma LastRoundExact(x: int, f: nat, s: int)
    requires 0 < x <= MAX && IsRoot(f, x * ONE) && 256 <= f < 0x100_0000 && Near(3, s, f + 1)
    ensures Round(x, s) == f || Round(x, s) == f + 1
    ensures Round(x, s) == f + 1 <==> (f + 1) * (f + 1) - x * ONE <= (s - f - 1) * (s - f - 1)
  {
    var a := x * ONE;
    NewtonRound(x, f, s, 3);
    FloorDivision(a, s);
    StepReaches(a, f + 1, s, a / s);
  }

  /** The third estimate is so near that only a value just below a square can be rounded up. */
  lemma FarFromSquare(f: nat, s: int, d: int)
    requires f < 0x100_0000 && Near(3, s, f + 1) && 64 * d > f + 1 && f >= 256
    ensures d > (s - f - 1) * (s - f - 1)
  {
    SmallSquareOfError(s - (f + 1), f + 1);
  }

  lemma SmallSquareOfError(e: int, g: int)
    requires -1 <= e && 32768 * e <= g && 256 < g <= 0x100_0000
    ensures 64 * (e * e) <= g
  {
    if e >= 0 { MulLe(e, 512, e); } else { assert e * e == 1; }
  }

  lemma NearAfter(x: int, f: nat, i: nat)
    requires 0 < x <= MAX && IsRoot(f, x * ONE) && i <= 4
    ensures 256 <= f < 0x100_0000 && Near(i, NthEstimate(x, i), f + 1)
  {
    hide Rounds, Round, Near, Guess, IsRoot;
    RootRange(x, f);
    GuessNear(x, f);
    RoundsNone(x);
    if i > 0 {
      NearAfter(x, f, i - 1);
      NearIsPositive(i - 1, NthEstimate(x, i - 1), f + 1);
      NewtonRound(x, f, NthEstimate(x, i - 1), i - 1);
      NextEstimate(x, Guess(x), i - 1);
    }
  }

  lemma RoundsNone(x: int)
    requires 0 < x <= MAX
    ensures NthEstimate(x, 0) == Guess(x)
  {}

  lemma NearIsPositive(i: nat, s: int, g: int)
    requires Near(i, s, g)
    ensures s >= 1
  {}

  /** The estimate after `i` rounds. */
  function NthEstimate(x: int, i: nat): int
    requires 0 < x <= MAX
  {
    Rounds(x, Guess(x), i)
  }

  lemma {:induction false} NextEstimate(x: int, s: int, i: nat)
    requires Rounds(x, s, i) != 0
    ensures Rounds(x, s, i + 1) == Round(x, Rounds(x, s, i))
    decreases i
  {
    if i > 0 { NextEstimate(x, Round(x, s), i - 1); }
  }

  /**
   * `sqrt` rounds down unless the value is just below a square: the result is one more than the
   * root `f` exactly when the distance of x * 2^16 to the next square is at most the square of the
   * distance of the third estimate to f + 1. At more than (f + 1) / 64 below the square it never is.
   */
  lemma RoundedUpIff(x: int, f: nat)
    requires 0 < x <= MAX && IsRoot(f, x * ONE)
    ensures var (r, s, d) := (NthEstimate(x, 4), NthEstimate(x, 3), (f + 1) * (f + 1) - x * ONE);
      && (r == f || r == f + 1)
      && (r == f + 1 <==> d <= (s - f - 1) * (s - f - 1))
      && (64 * d > f + 1 ==> r == f)
  {
    hide Rounds, Round, Near, Guess, IsRoot;
    NearAfter(x, f, 3);
    NearIsPositive(3, NthEstimate(x, 3), f + 1);
    var s, d := NthEstimate(x, 3), (f + 1) * (f + 1) - x * ONE;
    NextEstimate(x, Guess(x), 3);
    LastRoundExact(x, f, s);
    if 64 * d > f + 1 { FarFromSquare(f, s, d); }
  }

  /** "One more" does happen: the root of this value is 6023056 and a fraction. */
  lemma OneMoreHappens()
    ensures IsRoot(6023056, 553546381 * ONE)
    ensures NthEstimate(553546381, 4) == 6023057
  {
    var x := 553546381;
    Pow2Values();
    Pow2Add(16, 8);
    Pow2Add(24, 4);
    assert Pow2(29) == 2 * Pow2(28) && Pow2(30) == 2 * Pow2(29);
    assert LeadingZeros(x, 1) == LeadingZeros(x, 2) == 2;
    Pow2Add(4, 3);
    assert Guess(x) == 4324581;
    assert Round(x, 4324581) == 6356594;
    assert Round(x, 6356594) == 6031807;
    assert Round(x, 6031807) == 6023063;
    assert Round(x, 6023063) == 6023057;
    assert Rounds(x, 6023063, 1) == Rounds(x, 6023057, 0);
  }
}

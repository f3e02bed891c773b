/**
 * Signed integers of a fixed bit width, as the MLIR `arith` dialect computes on
 * them: `addi` and `muli` wrap around modulo 2^w, `divsi` truncates toward zero,
 * and the smallest and largest representable values stand in for -inf and +inf.
 */
module Ints {

  /** Bit widths of the integer element types (i1 .. i64). */
  type Width = w: nat | 1 <= w <= 64 witness 64

  function Pow2(n: nat): (r: nat)
    ensures r >= 1
  {
    if n == 0 then 1 else 2 * Pow2(n - 1)
  }

  function MinInt(w: Width): int { 0 - Pow2(w - 1) }

  function MaxInt(w: Width): int { Pow2(w - 1) - 1 }

  predicate InRange(w: Width, x: int) { MinInt(w) <= x <= MaxInt(w) }

  /** Two's-complement wrap-around of an exact integer result to width w. */
  function Wrap(w: Width, x: int): (r: int)
    ensures InRange(w, r)
    ensures InRange(w, x) ==> r == x
  {
    var m, h := Pow2(w), Pow2(w - 1);
    assert m == 2 * h;
    var r := (x + h) % m - h;
    if InRange(w, x) then
      ModOfRange(x + h, m);
      r
    else
      r
  }

  /** `arith.addi` on w-bit operands. */
  function AddI(w: Width, a: int, b: int): int { Wrap(w, a + b) }

  /** `arith.muli` on w-bit operands. */
  function MulI(w: Width, a: int, b: int): int { Wrap(w, a * b) }

  /** Division truncating toward zero, as C and `arith.divsi` do (for a nonzero divisor). */
  function TruncDiv(a: int, b: int): (q: int)
    requires b != 0
    ensures a >= 0 && b > 0 ==> q == a / b
    ensures (a < 0) == (b < 0) ==> q >= 0
    ensures (a < 0) != (b < 0) ==> q <= 0
  {
    var x, y := Abs(a), Abs(b);
    DivNonNegative(x, y);
    var qa := x / y;
    if (a < 0) != (b < 0) then -qa else qa
  }

  lemma DivNonNegative(x: int, y: int)
    requires x >= 0 && y > 0
    ensures x / y >= 0
  {
    if x / y < 0 {
      MulLeMono(x / y, -1, y);
    }
  }

  function Abs(x: int): nat { if x < 0 then -x else x }

  /**
   * `arith.divsi` on w-bit operands. `arith.divsi` leaves the one overflowing
   * quotient, MinInt / -1, undefined; the model chooses its wrapped value, MinInt.
   */
  function DivSI(w: Width, a: int, b: int): int
    requires b != 0
  {
    Wrap(w, TruncDiv(a, b))
  }

  lemma ModOfRange(x: int, m: int)
    requires 0 <= x < m
    ensures x % m == x
  {
  }

  /** Adding a multiple of m does not change the remainder. */
  lemma {:induction false} ModAddMultiple(x: int, q: int, m: int)
    requires m > 0
    ensures (x + q * m) % m == x % m
  {
    var y := x + q * m;
    var r := x % m;
    assert x == (x / m) * m + r;
    assert y == (x / m + q) * m + r;
    ModUnique(y, x / m + q, r, m);
  }

  /** The Euclidean remainder is the only r in [0, m) with y == d*m + r. */
  lemma ModUnique(y: int, d: int, r: int, m: int)
    requires m > 0 && 0 <= r < m && y == d * m + r
    ensures y % m == r
  {
    var d0, r0 := y / m, y % m;
    assert y == d0 * m + r0;
    assert (d - d0) * m == r0 - r;
    if d > d0 {
      MulAtLeast(d - d0, m);
    } else if d < d0 {
      MulAtLeast(d0 - d, m);
    }
  }

  lemma MulAtLeast(k: int, m: int)
    requires k >= 1 && m > 0
    ensures k * m >= m
  {
  }

  /** Wrapping an intermediate result and then adding is the same as wrapping once. */
  lemma WrapAddLeft(w: Width, x: int, y: int)
    ensures Wrap(w, Wrap(w, x) + y) == Wrap(w, x + y)
  {
    var m, h := Pow2(w), Pow2(w - 1);
    var q := (x + h) / m;
    assert x + h == q * m + (x + h) % m;
    assert Wrap(w, x) + y + h == (x + y + h) + (-q) * m;
    ModAddMultiple(x + y + h, -q, m);
  }

  lemma WrapAddRight(w: Width, x: int, y: int)
    ensures Wrap(w, x + Wrap(w, y)) == Wrap(w, x + y)
  {
    WrapAddLeft(w, y, x);
    assert x + Wrap(w, y) == Wrap(w, y) + x;
    assert x + y == y + x;
  }

  /** One multiply-accumulate step with `muli` and `addi` keeps the accumulator equal to the wrapped exact sum. */
  lemma MulAddStep(w: Width, s: int, x: int, y: int)
    ensures AddI(w, Wrap(w, s), MulI(w, x, y)) == Wrap(w, s + x * y)
  {
    WrapAddLeft(w, s, Wrap(w, x * y));
    WrapAddRight(w, s, x * y);
  }

  /** Wrapping a factor and then multiplying is the same as wrapping once. */
  lemma WrapMulLeft(w: Width, x: int, y: int)
    ensures Wrap(w, Wrap(w, x) * y) == Wrap(w, x * y)
  {
    var m, h := Pow2(w), Pow2(w - 1);
    var q := (x + h) / m;
    var wx := Wrap(w, x);
    WrapDef(w, x);
    assert wx == x - q * m;
    Distrib(x, q, m, y);
    assert wx * y + h == (x * y + h) + (-(q * y)) * m;
    ModAddMultiple(x * y + h, -(q * y), m);
    WrapDef(w, wx * y);
    WrapDef(w, x * y);
  }

  lemma WrapDef(w: Width, x: int)
    ensures Wrap(w, x) == (x + Pow2(w - 1)) % Pow2(w) - Pow2(w - 1)
  {
  }

  lemma Distrib(x: int, q: int, m: int, y: int)
    ensures (x - q * m) * y == x * y - (q * y) * m
  {
  }

  // ---------------------------------------------------------------------------
  // Facts about multiplication and division used by the index arithmetic
  // ---------------------------------------------------------------------------

  lemma MulLeMono(a: int, b: int, m: int)
    requires a <= b && m >= 0
    ensures a * m <= b * m
  {
  }

  /** d*m + b with d < p and b < m stays below p*m. */
  lemma AffineBound(d: int, b: int, p: int, m: int)
    requires 0 <= d < p && 0 <= b < m
    ensures 0 <= d * m + b < p * m
  {
    MulLeMono(d, p - 1, m);
    assert (p - 1) * m + m == p * m;
    MulLeMono(0, d, m);
  }

  /** Quotient and remainder of n by m > 0 rebuild n, and the quotient stays below k when n < k*m. */
  lemma DivModSplit(n: int, m: int, k: int)
    requires 0 <= n < k * m && m > 0
    ensures n == (n / m) * m + n % m && 0 <= n % m < m
    ensures 0 <= n / m < k
  {
    if n / m >= k {
      MulLeMono(k, n / m, m);
    }
  }

  /** The decomposition d*m + b with 0 <= b < m is unique. */
  lemma DivModUnique(d1: int, b1: int, d2: int, b2: int, m: int)
    requires 0 <= b1 < m && 0 <= b2 < m && d1 * m + b1 == d2 * m + b2
    ensures d1 == d2 && b1 == b2
  {
    if d1 < d2 {
      MulLeMono(d1 + 1, d2, m);
    } else if d2 < d1 {
      MulLeMono(d2 + 1, d1, m);
    }
  }
}

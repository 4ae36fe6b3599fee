/**
 * `Math.round(x * k) / k`, the rounding the statistics tables apply, over
 * exact rationals. `Math.round` rounds to the nearest integer with halves
 * going up, which over the reals is `floor(x + 1/2)`.
 */
module Rounding {

  /** `Math.round(x)`. */
  function RoundHalfUp(x: real): (n: int)
    ensures x - 0.5 < n as real <= x + 0.5
  {
    (x + 0.5).Floor
  }

  /** The interval bound of `RoundHalfUp` pins the result down: only one integer fits. */
  lemma RoundHalfUpUnique(x: real, n: int)
    requires x - 0.5 < n as real <= x + 0.5
    ensures RoundHalfUp(x) == n
  {
  }

  lemma RoundHalfUpMonotone(x: real, y: real)
    requires x <= y
    ensures RoundHalfUp(x) <= RoundHalfUp(y)
  {
  }

  /** `Math.round(x * scale) / scale`: the nearest multiple of `1 / scale`, halves up. */
  function RoundTo(x: real, scale: nat): real
    requires scale > 0
  {
    RoundHalfUp(x * scale as real) as real / scale as real
  }

  /** `x` is a whole number of steps `1 / scale`, such as a percentage shown to one decimal place. */
  predicate OnGrid(x: real, scale: nat)
    requires scale > 0
  {
    (x * scale as real).Floor as real == x * scale as real
  }

  /** `Math.round(x * scale) / scale` is a whole number of steps. */
  lemma RoundToOnGrid(x: real, scale: nat)
    requires scale > 0
    ensures OnGrid(RoundTo(x, scale), scale)
  {
    var k := scale as real;
    var n := RoundHalfUp(x * k);
    var r := RoundTo(x, scale);
    RoundToUnfold(x, scale, k);
    StepsTimesScale(n, k);
    assert r * k == n as real;
    assert (r * k).Floor == n;
    assert (r * k).Floor == (r * scale as real).Floor;
    assert (r * scale as real).Floor as real == r * scale as real;
    assert OnGrid(r, scale);
  }

  /** A whole number of steps within half a step of `x` is the rounding of `x`: the two facts pin it down. */
  lemma RoundToUnique(x: real, y: real, scale: nat)
    requires scale > 0
    requires OnGrid(y, scale)
    requires x - 0.5 / scale as real < y <= x + 0.5 / scale as real
    ensures y == RoundTo(x, scale)
  {
    var k := scale as real;
    var n := (y * k).Floor;
    assert n == (y * scale as real).Floor;
    BandScaled(x, y, k);
    RoundHalfUpUnique(x * k, n);
    GridValue(y, k, n);
    RoundToUnfold(x, scale, k);
  }

  lemma StepsTimesScale(n: int, k: real)
    requires k > 0.0
    ensures n as real / k * k == n as real
  {
  }

  lemma GridValue(y: real, k: real, n: int)
    requires k > 0.0 && y * k == n as real
    ensures y == n as real / k
  {
  }

  /** Half a step either side of `x`, scaled up by `k`, is half a unit either side of `x * k`. */
  lemma BandScaled(x: real, y: real, k: real)
    requires k > 0.0
    requires x - 0.5 / k < y <= x + 0.5 / k
    ensures x * k - 0.5 < y * k <= x * k + 0.5
  {
    assert (x - 0.5 / k) * k == x * k - 0.5;
    assert (x + 0.5 / k) * k == x * k + 0.5;
    ScaleStrict(x - 0.5 / k, y, k);
    ScaleMono(y, x + 0.5 / k, k);
  }

  lemma ScaleStrict(a: real, b: real, k: real)
    requires a < b && k > 0.0
    ensures a * k < b * k
  {
  }

  /** The rounded value is the nearest step: within half a step of `x`. */
  lemma RoundToClose(x: real, scale: nat)
    requires scale > 0
    ensures x - 0.5 / scale as real < RoundTo(x, scale) <= x + 0.5 / scale as real
  {
    var k := scale as real;
    RoundToBounds(x, k, RoundHalfUp(x * k));
    RoundToUnfold(x, scale, k);
  }

  lemma RoundToBounds(x: real, k: real, n: int)
    requires k > 0.0
    requires x * k - 0.5 < n as real <= x * k + 0.5
    ensures x - 0.5 / k < n as real / k <= x + 0.5 / k
  {
    var q := n as real / k;
    assert q * k == n as real;
    assert (x - 0.5 / k) * k == x * k - 0.5;
    assert (x + 0.5 / k) * k == x * k + 0.5;
  }

  /** Rounding never leaves an interval whose ends are whole numbers, such as `[0, 100]` for a percentage. */
  lemma RoundToWithin(x: real, scale: nat, lo: int, hi: int)
    requires scale > 0
    requires lo as real <= x <= hi as real
    ensures lo as real <= RoundTo(x, scale) <= hi as real
  {
    var k := scale as real;
    var y := x * k;
    ScaleMono(lo as real, x, k);
    ScaleMono(x, hi as real, k);
    CastProduct(lo, scale);
    CastProduct(hi, scale);
    RoundHalfUpWithin(y, lo * scale, hi * scale);
    DivideBounds(RoundHalfUp(y), scale, lo, hi);
    RoundToUnfold(x, scale, k);
  }

  /** Rounding a value between two integers stays between them. */
  lemma RoundHalfUpWithin(y: real, lo: int, hi: int)
    requires lo as real <= y <= hi as real
    ensures lo <= RoundHalfUp(y) <= hi
  {
    RoundHalfUpMonotone(lo as real, y);
    RoundHalfUpMonotone(y, hi as real);
    RoundHalfUpUnique(lo as real, lo);
    RoundHalfUpUnique(hi as real, hi);
  }

  lemma DivideBounds(n: int, scale: nat, lo: int, hi: int)
    requires scale > 0
    requires lo * scale <= n <= hi * scale
    ensures lo as real <= n as real / scale as real <= hi as real
  {
    var k := scale as real;
    assert lo as real * k <= n as real <= hi as real * k;
  }

  lemma CastProduct(a: int, b: nat)
    ensures (a * b) as real == a as real * b as real
  {
  }

  lemma ScaleMono(a: real, b: real, k: real)
    requires a <= b && k >= 0.0
    ensures a * k <= b * k
  {
  }

  /** Rounding preserves order. */
  lemma RoundToMonotone(x: real, y: real, scale: nat)
    requires scale > 0
    requires x <= y
    ensures RoundTo(x, scale) <= RoundTo(y, scale)
  {
    var k := scale as real;
    var m, n := RoundHalfUp(x * k), RoundHalfUp(y * k);
    assert m <= n by {
      ScaledRoundMonotone(x, y, k);
    }
    assert RoundTo(x, scale) == m as real / k by {
      RoundToUnfold(x, scale, k);
    }
    assert RoundTo(y, scale) == n as real / k by {
      RoundToUnfold(y, scale, k);
    }
    DivideMono(m as real, n as real, k);
  }

  lemma ScaledRoundMonotone(x: real, y: real, k: real)
    requires x <= y && k >= 0.0
    ensures RoundHalfUp(x * k) <= RoundHalfUp(y * k)
  {
    ScaleMono(x, y, k);
    RoundHalfUpMonotone(x * k, y * k);
  }

  lemma RoundToUnfold(x: real, scale: nat, k: real)
    requires scale > 0 && k == scale as real
    ensures RoundTo(x, scale) == RoundHalfUp(x * k) as real / k
  {
  }

  lemma DivideMono(a: real, b: real, k: real)
    requires a <= b && k > 0.0
    ensures a / k <= b / k
  {
    assert a / k * k == a && b / k * k == b;
  }

  /** A whole number of steps `n / scale` rounds to itself. */
  lemma RoundToExact(n: int, scale: nat)
    requires scale > 0
    ensures RoundTo(n as real / scale as real, scale) == n as real / scale as real
  {
    var k := scale as real;
    var x := n as real / k;
    assert x * k == n as real;
    assert RoundHalfUp(x * k) == n by {
      RoundHalfUpUnique(n as real, n);
    }
    assert RoundTo(x, scale) == RoundHalfUp(x * k) as real / k by {
      RoundToUnfold(x, scale, k);
    }
  }
}

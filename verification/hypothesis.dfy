/**
 * `chiSquareTest`: a one-degree-of-freedom chi-square test of the toss
 * winners' record against an even split, classified at the 5% level.
 *
 * The p-value's series (the regularised lower incomplete gamma function) is
 * floating-point numerics; it is a parameter here, and only the shell that
 * `chiSquarePValue` wraps around it is modelled.
 */
module HypothesisTest {
  import opened Records
  import opened Seqs
  import opened Rounding
  import opened Aggregation

  /** The significance level. */
  const Alpha: real := 0.05

  /** `Math.max(0, Math.min(1, v))`. */
  function Clamp01(v: real): (r: real)
    ensures 0.0 <= r <= 1.0
    ensures 0.0 <= v <= 1.0 ==> r == v
    ensures v < 0.0 ==> r == 0.0
    ensures v > 1.0 ==> r == 1.0
  {
    if 1.0 < v then 1.0 else if v < 0.0 then 0.0 else v
  }

  /**
   * `chiSquarePValue(x, k)`: 1 for a statistic that is not positive,
   * otherwise one minus the regularised lower incomplete gamma
   * `lowerRatio(k / 2, x / 2)`, clamped into `[0, 1]`.
   */
  function PValue(x: real, k: nat, lowerRatio: (real, real) -> real): (p: real)
    ensures 0.0 <= p <= 1.0
    ensures x <= 0.0 ==> p == 1.0
    ensures x > 0.0 && 0.0 <= lowerRatio(k as real / 2.0, x / 2.0) <= 1.0 ==>
      p == 1.0 - lowerRatio(k as real / 2.0, x / 2.0)
  {
    if x <= 0.0 then 1.0 else Clamp01(1.0 - lowerRatio(k as real / 2.0, x / 2.0))
  }

  /** The two fixed sentences of the result; their wording is not modelled. */
  datatype Interpretation = SignificantRelationship | NoSignificantRelationship

  /** A JavaScript number as far as the test needs one: a finite value, or `NaN`. */
  datatype Number = Finite(value: real) | NaN

  datatype ChiSquareResult = ChiSquareResult(
    chiSquare: Number,
    pValue: Number,
    degreesOfFreedom: int,
    significant: bool,
    interpretation: Interpretation)

  /** `v ** 2` over the reals. */
  function Square(v: real): real
  {
    v * v
  }

  /** The square of a whole number, kept in the integers where it is easy to reason about. */
  function IntSquare(d: int): nat
  {
    if d < 0 then (-d) * (-d) else d * d
  }

  /**
   * The statistic `chiSquareTest` computes (src/lib/statistics.ts:60): the
   * squared deviations of the `a` wins and `total - a` losses from an
   * expected `total / 2` each, over that expectation. It is
   * `(a - b)^2 / total`, zero exactly at an even split and never above the
   * number of matches.
   */
  function ChiSquareStatistic(a: nat, total: nat): (chi: real)
    requires 0 < total && a <= total
    ensures chi == IntSquare(a - (total - a)) as real / total as real
    ensures chi >= 0.0
    ensures chi == 0.0 <==> a == total - a
    ensures chi <= total as real
  {
    var b := total - a;
    var expectedWin := total as real * 0.5;
    var expectedLoss := total as real * 0.5;
    var chi := Square(a as real - expectedWin) / expectedWin + Square(b as real - expectedLoss) / expectedLoss;
    ChiSquareAlgebra(a, b, total);
    chi
  }

  /** Both terms are `(a - b)^2 / (2 * total)`, so the statistic is `(a - b)^2 / total`. */
  lemma ChiSquareAlgebra(a: nat, b: nat, total: nat)
    requires 0 < total && a + b == total
    ensures var e := total as real * 0.5;
      var chi := Square(a as real - e) / e + Square(b as real - e) / e;
      && chi == IntSquare(a - b) as real / total as real
      && chi >= 0.0
      && (chi == 0.0 <==> a == b)
      && chi <= total as real
  {
    var n := total as real;
    var e := n * 0.5;
    var d := (a - b) as real;
    assert a as real - e == d / 2.0;
    assert b as real - e == -d / 2.0;
    assert Square(a as real - e) == Square(d) / 4.0;
    assert Square(b as real - e) == Square(d) / 4.0;
    var chi := Square(a as real - e) / e + Square(b as real - e) / e;
    assert chi == Square(d) / n by {
      DivideHalf(Square(d) / 4.0, n);
    }
    CastSquare(a - b);
    var q := IntSquare(a - b);
    IntSquareZero(a - b);
    IntSquareBound(a - b, total);
    CastProduct(total, total);
    DivideNonneg(q as real, n);
    DivideAtMost(q as real, n);
  }

  /** `q / (n / 2) + q / (n / 2)` is `4q / n`. */
  lemma DivideHalf(q: real, n: real)
    requires n > 0.0
    ensures q / (n * 0.5) + q / (n * 0.5) == 4.0 * q / n
  {
    assert q / (n * 0.5) == 2.0 * q / n;
  }

  /** The real square of a whole number is its integer square. */
  lemma CastSquare(d: int)
    ensures Square(d as real) == IntSquare(d) as real
  {
    if d < 0 {
      assert (-d) as real == -(d as real);
      assert ((-d) * (-d)) as real == (-d) as real * (-d) as real;
    } else {
      assert (d * d) as real == d as real * d as real;
    }
  }

  lemma IntSquareZero(d: int)
    ensures IntSquare(d) == 0 <==> d == 0
  {
    if d != 0 {
      var e := if d < 0 then -d else d;
      assert e * e >= e;
    }
  }

  lemma IntSquareBound(d: int, n: nat)
    requires d <= n && -d <= n
    ensures IntSquare(d) <= n * n
  {
    var e := if d < 0 then -d else d;
    assert e * e <= n * e <= n * n;
  }

  lemma IntSquareMonotone(d: nat, d': nat)
    requires d <= d'
    ensures IntSquare(d) <= IntSquare(d')
  {
    assert d * d <= d' * d <= d' * d';
  }

  lemma DivideNonneg(q: real, n: real)
    requires q >= 0.0 && n > 0.0
    ensures q / n >= 0.0
    ensures q / n == 0.0 <==> q == 0.0
  {
  }

  lemma DivideAtMost(q: real, n: real)
    requires n > 0.0 && q <= n * n
    ensures q / n <= n
  {
    assert q / n * n == q;
  }

  /**
   * `chiSquareTest`: the statistic to three decimals, the p-value to four,
   * classified on the unrounded p-value. With no matches the expected counts
   * are 0, both quotients are `0 / 0`, and `NaN` runs through to the result,
   * where `NaN < 0.05` is false.
   */
  function ChiSquareTest(ms: seq<MatchRecord>, lowerRatio: (real, real) -> real): (r: ChiSquareResult)
    ensures r.degreesOfFreedom == 1
    ensures r.interpretation == (if r.significant then SignificantRelationship else NoSignificantRelationship)
    ensures |ms| == 0 ==> r.chiSquare == NaN && r.pValue == NaN && !r.significant
    ensures |ms| > 0 ==> r.chiSquare.Finite? && r.pValue.Finite?
    ensures |ms| > 0 ==>
      var a := TossWinnerWins(ms);
      var exact := IntSquare(a - (|ms| - a)) as real / |ms| as real;
      r.chiSquare.Finite? && exact - 0.0005 < r.chiSquare.value <= exact + 0.0005
    ensures |ms| > 0 ==> r.chiSquare.Finite? && 0.0 <= r.chiSquare.value <= |ms| as real
    ensures |ms| > 0 ==> r.pValue.Finite? && 0.0 <= r.pValue.value <= 1.0
    ensures r.significant ==> r.pValue.Finite? && r.pValue.value <= Alpha
    ensures !r.significant && r.pValue.Finite? ==> r.pValue.value >= Alpha
    ensures 2 * TossWinnerWins(ms) == |ms| > 0 ==>
      r.chiSquare == Finite(0.0) && r.pValue == Finite(1.0) && !r.significant
    ensures |ms| > 0 ==>
      var chi := ChiSquareStatistic(TossWinnerWins(ms), |ms|);
      var p := PValue(chi, 1, lowerRatio);
      && r.chiSquare == Finite(RoundTo(chi, 1000))
      && r.pValue == Finite(RoundTo(p, 10000))
      && r.significant == (p < Alpha)
  {
    if |ms| == 0 then
      ChiSquareResult(NaN, NaN, 1, false, NoSignificantRelationship)
    else
      var a := TossWinnerWins(ms);
      var total := |ms|;
      var chiSq := ChiSquareStatistic(a, total);
      var pValue := PValue(chiSq, 1, lowerRatio);
      var significant := pValue < Alpha;
      RoundedStatistic(chiSq, total);
      RoundedPValue(pValue);
      ChiSquareResult(
        Finite(RoundTo(chiSq, 1000)),
        Finite(RoundTo(pValue, 10000)),
        1,
        significant,
        if significant then SignificantRelationship else NoSignificantRelationship)
  }

  /**
   * The test with the empty case answered as "no evidence": statistic 0,
   * p-value 1, not significant. On any non-empty list it is `ChiSquareTest`.
   */
  function GuardedChiSquareTest(ms: seq<MatchRecord>, lowerRatio: (real, real) -> real): (r: ChiSquareResult)
    ensures r.chiSquare.Finite? && r.pValue.Finite?
    ensures 0.0 <= r.chiSquare.value && 0.0 <= r.pValue.value <= 1.0
    ensures r.significant ==> r.pValue.value <= Alpha
    ensures !r.significant ==> r.pValue.value >= Alpha
    ensures |ms| == 0 ==> r.chiSquare == Finite(0.0) && r.pValue == Finite(1.0) && !r.significant
    ensures |ms| > 0 ==> r == ChiSquareTest(ms, lowerRatio)
  {
    if |ms| == 0 then
      ChiSquareResult(Finite(0.0), Finite(1.0), 1, false, NoSignificantRelationship)
    else
      ChiSquareTest(ms, lowerRatio)
  }

  /** Rounding the statistic keeps it in `[0, total]`, within half a step, and keeps 0 at 0. */
  lemma RoundedStatistic(chi: real, total: nat)
    requires 0.0 <= chi <= total as real
    ensures chi - 0.0005 < RoundTo(chi, 1000) <= chi + 0.0005
    ensures 0.0 <= RoundTo(chi, 1000) <= total as real
    ensures chi == 0.0 ==> RoundTo(chi, 1000) == 0.0
  {
    RoundToClose(chi, 1000);
    RoundToWithin(chi, 1000, 0, total);
    if chi == 0.0 {
      RoundToWithin(chi, 1000, 0, 0);
    }
  }

  /** Rounding to four decimals never moves a p-value across the 5% line, and keeps 1 at 1. */
  lemma RoundedPValue(p: real)
    requires 0.0 <= p <= 1.0
    ensures 0.0 <= RoundTo(p, 10000) <= 1.0
    ensures p < Alpha ==> RoundTo(p, 10000) <= Alpha
    ensures p >= Alpha ==> RoundTo(p, 10000) >= Alpha
    ensures p == 1.0 ==> RoundTo(p, 10000) == 1.0
  {
    RoundToWithin(p, 10000, 0, 1);
    RoundToExact(500, 10000);
    assert 500 as real / 10000 as real == Alpha;
    if p < Alpha {
      RoundToMonotone(p, Alpha, 10000);
    } else {
      RoundToMonotone(Alpha, p, 10000);
    }
    if p == 1.0 {
      RoundToWithin(p, 10000, 1, 1);
    }
  }

  /** Swapping wins and losses leaves the statistic unchanged. */
  lemma ChiSquareSymmetric(a: nat, total: nat)
    requires 0 < total && a <= total
    ensures ChiSquareStatistic(a, total) == ChiSquareStatistic(total - a, total)
  {
    var d := a - (total - a);
    assert (total - a) - a == -d;
    assert IntSquare(-d) == IntSquare(d);
  }

  /** The statistic grows as the wins move away from an even split. */
  lemma ChiSquareMonotone(a: nat, a': nat, total: nat)
    requires 0 < total && a <= total && a' <= total
    requires total <= 2 * a <= 2 * a'
    ensures ChiSquareStatistic(a, total) <= ChiSquareStatistic(a', total)
  {
    var d, d' := 2 * a - total, 2 * a' - total;
    assert a - (total - a) == d && a' - (total - a') == d';
    IntSquareMonotone(d, d');
    DivideMono(IntSquare(d) as real, IntSquare(d') as real, total as real);
  }
}

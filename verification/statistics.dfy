/**
 * The running statistics of the heat-bath simulator (`arrayRunningAverage`
 * and `EnergyAnalysis`), over exact reals: the prefix mean of the energy
 * series, the prefix mean of its squares, and the heat capacity
 * `beta^2 * perParticle * (<E^2> - <E>^2)` built from them.
 */
module Statistics {

  /** The sum of a series, added from the front. */
  function Sum(xs: seq<real>): real
    decreases |xs|
  {
    if |xs| == 0 then 0.0 else Sum(xs[..|xs| - 1]) + xs[|xs| - 1]
  }

  /** The sum of the squares of a series. */
  function SumSq(xs: seq<real>): real
    decreases |xs|
  {
    if |xs| == 0 then 0.0 else SumSq(xs[..|xs| - 1]) + xs[|xs| - 1] * xs[|xs| - 1]
  }

  /** The entrywise square of a series (`energySquared_array` from `energy_array`). */
  function Squares(xs: seq<real>): (ys: seq<real>)
    ensures |ys| == |xs|
    ensures forall i :: 0 <= i < |xs| ==> ys[i] == xs[i] * xs[i]
  {
    seq(|xs|, i requires 0 <= i < |xs| => xs[i] * xs[i])
  }

  /** `arrayRunningAverage(xs, i)`: the mean of the entries `0..i`. */
  function RunningAverage(xs: seq<real>, i: nat): real
    requires i < |xs|
  {
    Sum(xs[..i + 1]) / ((i + 1) as real)
  }

  /** `heatCapacity_array[i]` from the energy series, `inv_temperature` and `per_particle`. */
  function HeatCapacity(beta: real, perParticle: real, es: seq<real>, i: nat): real
    requires i < |es|
  {
    var mean := RunningAverage(es, i);
    (beta * beta) * perParticle * (RunningAverage(Squares(es), i) - mean * mean)
  }

  /** The sum of squared distances of the entries from `y`. */
  function Deviation(xs: seq<real>, y: real): real
    decreases |xs|
  {
    if |xs| == 0 then 0.0
    else
      var z := xs[|xs| - 1] - y;
      Deviation(xs[..|xs| - 1], y) + z * z
  }

  /** The squares' sum is the sum of the squares' series. */
  lemma {:induction false} SumOfSquares(xs: seq<real>)
    ensures Sum(Squares(xs)) == SumSq(xs)
    decreases |xs|
  {
    if |xs| > 0 {
      var init := xs[..|xs| - 1];
      SquaresPrefix(xs, |xs| - 1);
      SumOfSquares(init);
    }
  }

  lemma SquaresPrefix(xs: seq<real>, k: nat)
    requires k <= |xs|
    ensures Squares(xs)[..k] == Squares(xs[..k])
  {
    forall i | 0 <= i < k
      ensures Squares(xs)[..k][i] == Squares(xs[..k])[i]
    {
      assert Squares(xs)[i] == xs[i] * xs[i];
    }
  }

  /** The algebra of one step of `DeviationExpands`. */
  lemma DeviationStep(d: real, q: real, s: real, n: real, x: real, y: real, d': real, q': real, s': real, n': real)
    requires d == q - 2.0 * y * s + n * y * y
    requires d' == d + (x - y) * (x - y) && q' == q + x * x && s' == s + x && n' == n + 1.0
    ensures d' == q' - 2.0 * y * s' + n' * y * y
  {
  }

  /** The deviation from `y` expands to `SumSq - 2 y Sum + n y^2`. */
  lemma {:induction false} DeviationExpands(xs: seq<real>, y: real)
    ensures Deviation(xs, y) == SumSq(xs) - 2.0 * y * Sum(xs) + (|xs| as real) * y * y
    decreases |xs|
  {
    if |xs| > 0 {
      var init, x := xs[..|xs| - 1], xs[|xs| - 1];
      var d, q, s, n := Deviation(init, y), SumSq(init), Sum(init), |init| as real;
      var d', q', s', n' := Deviation(xs, y), SumSq(xs), Sum(xs), |xs| as real;
      SumSqSnoc(xs);
      DeviationExpands(init, y);
      DeviationStep(d, q, s, n, x, y, d', q', s', n');
    }
  }

  lemma SumSqSnoc(xs: seq<real>)
    requires |xs| > 0
    ensures SumSq(xs) == SumSq(xs[..|xs| - 1]) + xs[|xs| - 1] * xs[|xs| - 1]
  {
  }

  /** A sum of squares is never negative. */
  lemma {:induction false} DeviationNonNegative(xs: seq<real>, y: real)
    ensures Deviation(xs, y) >= 0.0
    decreases |xs|
  {
    if |xs| > 0 {
      var z := xs[|xs| - 1] - y;
      DeviationNonNegative(xs[..|xs| - 1], y);
      SquareNonNegative(z);
    }
  }

  lemma SquareNonNegative(z: real)
    ensures z * z >= 0.0
  {
  }

  /**
   * The mean of the squares is never below the square of the mean: their
   * difference is the mean squared deviation from the mean.
   */
  lemma MeanSquareAtLeastSquaredMean(xs: seq<real>, i: nat)
    requires i < |xs|
    ensures RunningAverage(Squares(xs), i) >= RunningAverage(xs, i) * RunningAverage(xs, i)
  {
    var p := xs[..i + 1];
    SquaresPrefix(xs, i + 1);
    SumOfSquares(p);
    PrefixVariance(p);
    Substitute(RunningAverage(Squares(xs), i), RunningAverage(xs, i), SumSq(p) / (|p| as real), Sum(p) / (|p| as real));
  }

  /** Over a non-empty series, `SumSq/n - (Sum/n)^2` is non-negative. */
  lemma PrefixVariance(p: seq<real>)
    requires |p| > 0
    ensures SumSq(p) / (|p| as real) - (Sum(p) / (|p| as real)) * (Sum(p) / (|p| as real)) >= 0.0
  {
    AroundMean(p, Sum(p) / (|p| as real));
  }

  lemma AroundMean(p: seq<real>, m: real)
    requires |p| > 0 && m == Sum(p) / (|p| as real)
    ensures SumSq(p) / (|p| as real) - m * m >= 0.0
  {
    AroundAny(p, m);
    VarianceStep(|p| as real, Sum(p), SumSq(p), m, SumSq(p) / (|p| as real));
  }

  /** `SumSq - 2 y Sum + n y^2` is a sum of squares, whatever `y` is. */
  lemma AroundAny(p: seq<real>, y: real)
    ensures SumSq(p) - 2.0 * y * Sum(p) + (|p| as real) * y * y >= 0.0
  {
    DeviationExpands(p, y);
    DeviationNonNegative(p, y);
  }

  lemma Substitute(a: real, b: real, ms: real, m: real)
    requires a == ms && b == m && ms - m * m >= 0.0
    ensures a >= b * b
  {
  }

  /** The algebra of `MeanSquareAtLeastSquaredMean`: `n * (q/n - m^2)` is the deviation from the mean `m`. */
  lemma VarianceStep(n: real, s: real, q: real, m: real, ms: real)
    requires n > 0.0 && m == s / n && ms == q / n
    requires q - 2.0 * m * s + n * m * m >= 0.0
    ensures ms - m * m >= 0.0
  {
    assert m * n == s && ms * n == q;
    assert m * s == (m * m) * n;
    assert (ms - m * m) * n == q - 2.0 * m * s + n * m * m;
    PositiveFactor(ms - m * m, n);
  }

  lemma PositiveFactor(v: real, w: real)
    requires w > 0.0 && v * w >= 0.0
    ensures v >= 0.0
  {
  }

  /** `heatCapacity_array[0] == 0`: one sample has no spread. */
  lemma HeatCapacityAtStart(beta: real, perParticle: real, es: seq<real>)
    requires |es| > 0
    ensures HeatCapacity(beta, perParticle, es, 0) == 0.0
  {
    assert es[..1] == [es[0]];
    SquaresPrefix(es, 1);
    assert Squares(es[..1]) == [es[0] * es[0]] by {
      assert Squares(es[..1])[0] == es[0] * es[0];
    }
    assert Sum([es[0]]) == es[0] by { assert [es[0]][..0] == []; }
    assert Sum([es[0] * es[0]]) == es[0] * es[0] by { assert [es[0] * es[0]][..0] == []; }
  }

  /** With a non-negative `per_particle`, every heat capacity is non-negative. */
  lemma HeatCapacityNonNegative(beta: real, perParticle: real, es: seq<real>, i: nat)
    requires i < |es| && perParticle >= 0.0
    ensures HeatCapacity(beta, perParticle, es, i) >= 0.0
  {
    MeanSquareAtLeastSquaredMean(es, i);
    var mean := RunningAverage(es, i);
    var v := RunningAverage(Squares(es), i) - mean * mean;
    assert beta * beta >= 0.0;
    assert (beta * beta) * perParticle >= 0.0;
  }

  /** The running average of entries that all lie in `[lo, hi]` lies there too. */
  lemma {:induction false} SumBounds(xs: seq<real>, lo: real, hi: real)
    requires forall k :: 0 <= k < |xs| ==> lo <= xs[k] <= hi
    ensures (|xs| as real) * lo <= Sum(xs) <= (|xs| as real) * hi
    decreases |xs|
  {
    if |xs| > 0 {
      var init := xs[..|xs| - 1];
      SumBounds(init, lo, hi);
      BoundsStep(|init| as real, lo, hi, Sum(init), xs[|xs| - 1], |xs| as real, Sum(xs));
    }
  }

  lemma BoundsStep(n: real, lo: real, hi: real, s: real, x: real, n': real, s': real)
    requires n * lo <= s <= n * hi && lo <= x <= hi && n' == n + 1.0 && s' == s + x
    ensures n' * lo <= s' <= n' * hi
  {
  }

  lemma RunningAverageBounds(xs: seq<real>, i: nat, lo: real, hi: real)
    requires i < |xs|
    requires forall k :: 0 <= k <= i ==> lo <= xs[k] <= hi
    ensures lo <= RunningAverage(xs, i) <= hi
  {
    var n := (i + 1) as real;
    SumBounds(xs[..i + 1], lo, hi);
    var m := RunningAverage(xs, i);
    assert m * n == Sum(xs[..i + 1]);
  }

  /** Each running average extends the previous one by the next entry. */
  lemma RunningAverageStep(xs: seq<real>, i: nat)
    requires 0 < i < |xs|
    ensures RunningAverage(xs, i) * ((i + 1) as real) == RunningAverage(xs, i - 1) * (i as real) + xs[i]
  {
    assert xs[..i + 1][..i] == xs[..i];
  }

  /** The running average at every index. */
  function RunningAverages(xs: seq<real>): (ys: seq<real>)
    ensures |ys| == |xs|
  {
    seq(|xs|, k requires 0 <= k < |xs| => RunningAverage(xs, k))
  }

  /** The squared running average at every index. */
  function AveragesSquared(xs: seq<real>): (ys: seq<real>)
    ensures |ys| == |xs|
  {
    seq(|xs|, k requires 0 <= k < |xs| => RunningAverage(xs, k) * RunningAverage(xs, k))
  }

  /** The heat capacity at every index. */
  function HeatCapacities(beta: real, perParticle: real, es: seq<real>): (hs: seq<real>)
    ensures |hs| == |es|
  {
    seq(|es|, k requires 0 <= k < |es| => HeatCapacity(beta, perParticle, es, k))
  }

  /** Writing the next reference value extends a prefix that already agrees with the reference. */
  lemma ExtendPrefix(xs: seq<real>, ys: seq<real>, i: nat, v: real)
    requires i < |xs| == |ys| && xs[..i] == ys[..i] && ys[i] == v
    ensures xs[i := v][..i + 1] == ys[..i + 1]
  {
    var zs := xs[i := v];
    forall k | 0 <= k <= i
      ensures zs[k] == ys[k]
    {
      if k < i {
        assert xs[..i][k] == ys[..i][k];
      }
    }
    assert zs[..i + 1] == ys[..i + 1];
  }
}

/** Pearson correlation over exact reals: the value returned lies in [-1, 1]. */
module Correlation {
  import opened FrameModels
  import opened Ranks

  function Dot(xs: seq<real>, ys: seq<real>): real
    requires |xs| == |ys|
  {
    if xs == [] then 0.0
    else Dot(xs[..|xs| - 1], ys[..|ys| - 1]) + xs[|xs| - 1] * ys[|ys| - 1]
  }

  function Centred(xs: seq<real>, mean: real): (r: seq<real>)
    ensures |r| == |xs|
  {
    if xs == [] then [] else Centred(xs[..|xs| - 1], mean) + [xs[|xs| - 1] - mean]
  }

  function Mean(xs: seq<real>): real
    requires xs != []
  {
    Sum(xs) / |xs| as real
  }

  function Covariance(xs: seq<real>, ys: seq<real>): real
    requires |xs| == |ys| > 0
  {
    Dot(Centred(xs, Mean(xs)), Centred(ys, Mean(ys))) / |xs| as real
  }

  function Variance(xs: seq<real>): real
    requires xs != []
  {
    Covariance(xs, xs)
  }

  /** The squared length of `a - t b`. */
  function Gap(a: seq<real>, b: seq<real>, t: real): real
    requires |a| == |b|
  {
    if a == [] then 0.0
    else
      var d := a[|a| - 1] - t * b[|b| - 1];
      Gap(a[..|a| - 1], b[..|b| - 1], t) + d * d
  }

  lemma ExpandStep(x: real, y: real, t: real, p: real, q: real, r: real)
    ensures (p - 2.0 * t * q + t * t * r) + (x - t * y) * (x - t * y)
            == (p + x * x) - 2.0 * t * (q + x * y) + t * t * (r + y * y)
  {
    assert (x - t * y) * (x - t * y) == x * x - 2.0 * t * (x * y) + t * t * (y * y);
  }

  lemma SquareNonNegative(x: real)
    ensures x * x >= 0.0
  {
  }

  lemma PositiveProduct(x: real, y: real)
    requires x > 0.0 && y > 0.0
    ensures x * y > 0.0
  {
  }

  lemma SquarePositive(x: real)
    ensures x != 0.0 ==> x * x > 0.0
  {
    if x > 0.0 {
      PositiveProduct(x, x);
    } else if x < 0.0 {
      var y := -x;
      PositiveProduct(y, y);
      assert y * y == x * x;
    }
  }

  lemma DotEnds(a: seq<real>, b: seq<real>, n: nat)
    requires |a| == |b|
    ensures a == [] ==> Dot(a, b) == 0.0
    ensures |a| == n + 1 ==> Dot(a, b) == Dot(a[..n], b[..n]) + a[n] * b[n]
  {
  }

  lemma GapEnds(a: seq<real>, b: seq<real>, n: nat, t: real)
    requires |a| == |b|
    ensures a == [] ==> Gap(a, b, t) == 0.0
    ensures |a| == n + 1 ==> Gap(a, b, t) == Gap(a[..n], b[..n], t) + (a[n] - t * b[n]) * (a[n] - t * b[n])
  {
  }

  lemma {:induction false} GapExpands(a: seq<real>, b: seq<real>, t: real)
    requires |a| == |b|
    ensures Gap(a, b, t) == Dot(a, a) - 2.0 * t * Dot(a, b) + t * t * Dot(b, b)
    ensures Gap(a, b, t) >= 0.0
  {
    hide Dot, Gap;
    var n := if a == [] then 0 else |a| - 1;
    DotEnds(a, a, n);
    DotEnds(a, b, n);
    DotEnds(b, b, n);
    GapEnds(a, b, n, t);
    if a != [] {
      GapExpands(a[..n], b[..n], t);
      ExpandStep(a[n], b[n], t, Dot(a[..n], a[..n]), Dot(a[..n], b[..n]), Dot(b[..n], b[..n]));
      SquareNonNegative(a[n] - t * b[n]);
    }
  }

  lemma {:induction false} NoLengthNoDot(a: seq<real>, b: seq<real>)
    requires |a| == |b|
    ensures Dot(b, b) >= 0.0
    ensures Dot(a, b) != 0.0 ==> Dot(b, b) > 0.0
  {
    if a != [] {
      var n := |a| - 1;
      NoLengthNoDot(a[..n], b[..n]);
      SquareNonNegative(b[n]);
      SquarePositive(b[n]);
      assert b[n] == 0.0 ==> a[n] * b[n] == 0.0;
    }
  }

  lemma AtTheMinimum(p: real, q: real, r: real)
    requires r > 0.0
    requires p - 2.0 * (q / r) * q + (q / r) * (q / r) * r >= 0.0
    ensures q * q <= p * r
  {
    var t := q / r;
    assert t * r == q;
    assert (t * t) * r == t * (t * r) == t * q;
    assert p - t * q >= 0.0;
    assert (p - t * q) * r >= 0.0;
    assert (p - t * q) * r == p * r - q * (t * r);
  }

  /** The Cauchy-Schwarz bound. */
  lemma DotBounded(a: seq<real>, b: seq<real>)
    requires |a| == |b|
    ensures Dot(a, b) * Dot(a, b) <= Dot(a, a) * Dot(b, b)
  {
    hide Dot, Gap;
    NoLengthNoDot(a, b);
    var p, q, r := Dot(a, a), Dot(a, b), Dot(b, b);
    if r > 0.0 {
      GapExpands(a, b, q / r);
      AtTheMinimum(p, q, r);
    } else {
      assert q == 0.0 && r == 0.0;
    }
  }

  lemma ScaledBound(q: real, p: real, r: real, n: real)
    requires n > 0.0 && q * q <= p * r
    ensures (q / n) * (q / n) <= (p / n) * (r / n)
  {
    var m := 1.0 / n;
    assert q / n == q * m && p / n == p * m && r / n == r * m;
    assert m > 0.0;
    assert (q * m) * (q * m) == (q * q) * (m * m);
    assert (p * m) * (r * m) == (p * r) * (m * m);
    SquareNonNegative(m);
    ScaleUp(q * q, p * r, m * m);
  }

  lemma ScaleUp(x: real, y: real, k: real)
    requires x <= y && k >= 0.0
    ensures x * k <= y * k
  {
    assert (y - x) * k >= 0.0;
  }

  /** Covariance squared never exceeds the product of the variances. */
  lemma CovarianceBounded(xs: seq<real>, ys: seq<real>)
    requires |xs| == |ys| > 0
    ensures Covariance(xs, ys) * Covariance(xs, ys) <= Variance(xs) * Variance(ys)
  {
    hide Dot, Centred, Mean;
    var a, b := Centred(xs, Mean(xs)), Centred(ys, Mean(ys));
    DotBounded(a, b);
    ScaledBound(Dot(a, b), Dot(a, a), Dot(b, b), |xs| as real);
  }

  lemma LargerSquare(c: real, d: real)
    requires d > 0.0
    ensures c > d ==> c * c > d * d
  {
    if c > d {
      PositiveProduct(c - d, c + d);
      assert (c - d) * (c + d) == c * c - d * d;
    }
  }

  lemma UnitRatio(c: real, d: real)
    requires d > 0.0 && c * c <= d * d
    ensures -1.0 <= c / d <= 1.0
  {
    LargerSquare(c, d);
    LargerSquare(-c, d);
    assert (-c) * (-c) == c * c;
    var r := c / d;
    assert r * d == c;
  }

  /** The non-negative square root of a variance. */
  ghost predicate IsDeviation(std: real, xs: seq<real>)
    requires xs != []
  {
    std >= 0.0 && std * std == Variance(xs)
  }

  const TINY := 0.000000000001

  /** `None` when either deviation is below the threshold. */
  function Pearson(xs: seq<real>, ys: seq<real>, stdX: real, stdY: real): (r: Option<real>)
    requires |xs| == |ys| > 0
    requires IsDeviation(stdX, xs) && IsDeviation(stdY, ys)
    ensures r.Some? ==> -1.0 <= r.value <= 1.0
  {
    if stdX < TINY || stdY < TINY then None
    else
      PearsonBounded(xs, ys, stdX, stdY);
      Some(Covariance(xs, ys) / (stdX * stdY))
  }

  lemma ProductOfSquares(x: real, y: real)
    ensures (x * x) * (y * y) == (x * y) * (x * y)
  {
  }

  lemma PearsonBounded(xs: seq<real>, ys: seq<real>, stdX: real, stdY: real)
    requires |xs| == |ys| > 0
    requires IsDeviation(stdX, xs) && IsDeviation(stdY, ys) && stdX > 0.0 && stdY > 0.0
    ensures stdX * stdY > 0.0
    ensures -1.0 <= Covariance(xs, ys) / (stdX * stdY) <= 1.0
  {
    hide Covariance;
    CovarianceBounded(xs, ys);
    ProductOfSquares(stdX, stdY);
    UnitRatio(Covariance(xs, ys), stdX * stdY);
  }

  /** A signal correlates perfectly with itself. */
  lemma SelfCorrelation(xs: seq<real>, std: real)
    requires xs != [] && IsDeviation(std, xs) && std >= TINY
    ensures Pearson(xs, xs, std, std) == Some(1.0)
  {
    hide Covariance;
    PositiveProduct(std, std);
    var v := std * std;
    assert Covariance(xs, xs) == v;
    assert v / v == 1.0;
  }

  /** Rank correlation: Pearson correlation of the ranks. */
  function Spearman(xs: seq<real>, ys: seq<real>, stdX: real, stdY: real): (r: Option<real>)
    requires |xs| == |ys| > 0
    requires IsDeviation(stdX, RankSeq(xs)) && IsDeviation(stdY, RankSeq(ys))
    ensures r.Some? ==> -1.0 <= r.value <= 1.0
  {
    Pearson(RankSeq(xs), RankSeq(ys), stdX, stdY)
  }

  /** A signal that rises exactly when another does has the same ranks, so a rank
      correlation of the two is exactly one. */
  lemma MonotoneSignalsCorrelate(xs: seq<real>, ys: seq<real>, std: real)
    requires |xs| == |ys| > 0
    requires forall i, j :: 0 <= i < |xs| && 0 <= j < |xs| ==> (xs[i] < xs[j] <==> ys[i] < ys[j])
    requires IsDeviation(std, RankSeq(xs)) && std >= TINY
    ensures RankSeq(xs) == RankSeq(ys)
    ensures Spearman(xs, ys, std, std) == Some(1.0)
  {
    hide RankSeq, Pearson, IsDeviation;
    RanksSeeOrderOnly(xs, ys);
    SelfCorrelation(RankSeq(xs), std);
  }
}

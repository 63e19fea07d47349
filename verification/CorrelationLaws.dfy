/** What a correlation coefficient measures: how pairs of samples move together. */
module CorrelationLaws {
  import opened FrameModels
  import opened Ranks
  import opened Correlation

  /** The products of the differences from one more pair of samples. */
  function Against(xs: seq<real>, ys: seq<real>, x: real, y: real): real
    requires |xs| == |ys|
  {
    if xs == [] then 0.0
    else
      var n := |xs| - 1;
      Against(xs[..n], ys[..n], x, y) + (xs[n] - x) * (ys[n] - y)
  }

  /** The sum of `(xs[i] - xs[j]) * (ys[i] - ys[j])` over all pairs of indices i < j. */
  function Concordance(xs: seq<real>, ys: seq<real>): real
    requires |xs| == |ys|
  {
    if xs == [] then 0.0
    else
      var n := |xs| - 1;
      Concordance(xs[..n], ys[..n]) + Against(xs[..n], ys[..n], xs[n], ys[n])
  }

  lemma ConcordanceStep(xs: seq<real>, ys: seq<real>, n: nat)
    requires |xs| == |ys|
    ensures xs == [] ==> Concordance(xs, ys) == 0.0
    ensures |xs| == n + 1 ==> Concordance(xs, ys)
                              == Concordance(xs[..n], ys[..n]) + Against(xs[..n], ys[..n], xs[n], ys[n])
  {
    hide Against;
  }

  lemma SumStep(xs: seq<real>, n: nat)
    ensures xs == [] ==> Sum(xs) == 0.0
    ensures |xs| == n + 1 ==> Sum(xs) == Sum(xs[..n]) + xs[n]
  {
  }

  lemma AgainstStep(xs: seq<real>, ys: seq<real>, x: real, y: real, n: nat)
    requires |xs| == |ys|
    ensures xs == [] ==> Against(xs, ys, x, y) == 0.0
    ensures |xs| == n + 1 ==> Against(xs, ys, x, y) == Against(xs[..n], ys[..n], x, y) + (xs[n] - x) * (ys[n] - y)
  {
  }

  // ----- a coefficient through its pairs

  lemma ProductOfDifferences(a: real, b: real, x: real, y: real)
    ensures (a - x) * (b - y) == a * b - x * b - y * a + x * y
  {
  }

  lemma AgainstArithmetic(d: real, sx: real, sy: real, n: real, a: real, b: real, x: real, y: real)
    ensures (d - x * sy - y * sx + n * (x * y)) + (a - x) * (b - y)
            == (d + a * b) - x * (sy + b) - y * (sx + a) + (n + 1.0) * (x * y)
  {
    ProductOfDifferences(a, b, x, y);
    assert x * (sy + b) == x * sy + x * b;
    assert y * (sx + a) == y * sx + y * a;
    assert (n + 1.0) * (x * y) == n * (x * y) + x * y;
  }

  lemma {:induction false} AgainstExpands(xs: seq<real>, ys: seq<real>, x: real, y: real)
    requires |xs| == |ys|
    ensures Against(xs, ys, x, y) == Dot(xs, ys) - x * Sum(ys) - y * Sum(xs) + |xs| as real * (x * y)
  {
    hide Against, Dot, Sum;
    var n := if xs == [] then 0 else |xs| - 1;
    AgainstStep(xs, ys, x, y, n);
    DotEnds(xs, ys, n);
    SumStep(xs, n);
    SumStep(ys, n);
    if xs != [] {
      AgainstExpands(xs[..n], ys[..n], x, y);
      AgainstArithmetic(Dot(xs[..n], ys[..n]), Sum(xs[..n]), Sum(ys[..n]), n as real, xs[n], ys[n], x, y);
    }
  }

  lemma ConcordanceArithmetic(d: real, sx: real, sy: real, n: real, x: real, y: real)
    ensures (n * d - sx * sy) + (d - x * sy - y * sx + n * (x * y))
            == (n + 1.0) * (d + x * y) - (sx + x) * (sy + y)
  {
    assert (n + 1.0) * (d + x * y) == n * d + n * (x * y) + d + x * y;
    assert (sx + x) * (sy + y) == sx * sy + sx * y + x * sy + x * y;
  }

  lemma {:induction false} ConcordanceExpands(xs: seq<real>, ys: seq<real>)
    requires |xs| == |ys|
    ensures Concordance(xs, ys) == |xs| as real * Dot(xs, ys) - Sum(xs) * Sum(ys)
  {
    hide Against, Concordance, Dot, Sum;
    var n := if xs == [] then 0 else |xs| - 1;
    ConcordanceStep(xs, ys, n);
    DotEnds(xs, ys, n);
    SumStep(xs, n);
    SumStep(ys, n);
    if xs != [] {
      ConcordanceExpands(xs[..n], ys[..n]);
      AgainstExpands(xs[..n], ys[..n], xs[n], ys[n]);
      ConcordanceArithmetic(Dot(xs[..n], ys[..n]), Sum(xs[..n]), Sum(ys[..n]), n as real, xs[n], ys[n]);
    }
  }

  lemma CentredStep(xs: seq<real>, mean: real, n: nat)
    ensures xs == [] ==> Centred(xs, mean) == []
    ensures |xs| == n + 1 ==>
              Centred(xs, mean)[..n] == Centred(xs[..n], mean) && Centred(xs, mean)[n] == xs[n] - mean
  {
  }

  lemma {:induction false} CentredDot(xs: seq<real>, ys: seq<real>, x: real, y: real)
    requires |xs| == |ys|
    ensures Dot(Centred(xs, x), Centred(ys, y)) == Against(xs, ys, x, y)
  {
    hide Against, Dot, Centred;
    var n := if xs == [] then 0 else |xs| - 1;
    AgainstStep(xs, ys, x, y, n);
    CentredStep(xs, x, n);
    CentredStep(ys, y, n);
    DotEnds(Centred(xs, x), Centred(ys, y), n);
    if xs != [] {
      CentredDot(xs[..n], ys[..n], x, y);
    }
  }

  lemma MeansCancel(n: real, d: real, sx: real, sy: real)
    requires n > 0.0
    ensures var c := d - (sx / n) * sy - (sy / n) * sx + n * ((sx / n) * (sy / n));
            (c / n) * (n * n) == n * d - sx * sy
  {
    var p, q := sx / n, sy / n;
    assert p * n == sx && q * n == sy;
    var c := d - p * sy - q * sx + n * (p * q);
    assert n * (p * q) == (n * p) * q == sx * q;
    assert c == d - p * sy;
    assert (c / n) * (n * n) == ((c / n) * n) * n == c * n;
    assert c * n == n * d - (p * n) * sy;
  }

  /** Covariance, scaled by the square of the sample count, is the sum over all pairs. */
  lemma CovarianceOfPairs(xs: seq<real>, ys: seq<real>)
    requires |xs| == |ys| > 0
    ensures Covariance(xs, ys) * (|xs| as real * |xs| as real) == Concordance(xs, ys)
  {
    hide Against, Concordance, Dot, Sum, Centred;
    CentredDot(xs, ys, Mean(xs), Mean(ys));
    AgainstExpands(xs, ys, Mean(xs), Mean(ys));
    ConcordanceExpands(xs, ys);
    MeansCancel(|xs| as real, Dot(xs, ys), Sum(xs), Sum(ys));
  }

  lemma SquaredCount(xs: seq<real>) returns (m: real)
    requires xs != []
    ensures m == |xs| as real * |xs| as real && m > 0.0
  {
    m := |xs| as real * |xs| as real;
    PositiveProduct(|xs| as real, |xs| as real);
  }

  lemma SameScaled(x: real, y: real, m: real)
    requires m > 0.0
    ensures x * m == y * m <==> x == y
  {
    if x * m == y * m {
      assert (x - y) * m == 0.0;
    }
  }

  /** A deviation measures all pairs of a signal with itself. */
  lemma DeviationOfPairs(std: real, xs: seq<real>)
    requires xs != []
    ensures IsDeviation(std, xs)
            <==> std >= 0.0 && (std * std) * (|xs| as real * |xs| as real) == Concordance(xs, xs)
  {
    hide Covariance, Concordance;
    CovarianceOfPairs(xs, xs);
    var m := SquaredCount(xs);
    SameScaled(std * std, Variance(xs), m);
  }

  /** The coefficient exists unless a deviation is below a millionth of a millionth, and
      then, scaled by both deviations and the square of the sample count, it is the sum
      over all pairs of the products of their differences. */
  lemma PearsonOfPairs(xs: seq<real>, ys: seq<real>, stdX: real, stdY: real)
    requires |xs| == |ys| > 0
    requires IsDeviation(stdX, xs) && IsDeviation(stdY, ys)
    ensures var r := Pearson(xs, ys, stdX, stdY);
            && (r.None? <==> stdX < 0.000000000001 || stdY < 0.000000000001)
            && (r.Some? ==>
                  r.value * ((stdX * stdY) * (|xs| as real * |xs| as real)) == Concordance(xs, ys))
  {
    hide Covariance, Concordance, IsDeviation;
    CovarianceOfPairs(xs, ys);
    if stdX >= TINY && stdY >= TINY {
      PositiveProduct(stdX, stdY);
      var d, m := stdX * stdY, |xs| as real * |xs| as real;
      var r := Covariance(xs, ys) / d;
      assert r * d == Covariance(xs, ys);
      assert r * (d * m) == (r * d) * m;
    }
  }

  lemma SignOfProduct(r: real, k: real)
    requires k > 0.0
    ensures r > 0.0 <==> r * k > 0.0
    ensures r == 0.0 <==> r * k == 0.0
  {
    if r > 0.0 {
      PositiveProduct(r, k);
    } else if r < 0.0 {
      PositiveProduct(-r, k);
      assert (-r) * k == -(r * k);
    }
  }

  lemma PositiveScale(xs: seq<real>, stdX: real, stdY: real)
    requires xs != [] && stdX >= TINY && stdY >= TINY
    ensures (stdX * stdY) * (|xs| as real * |xs| as real) > 0.0
  {
    var m := SquaredCount(xs);
    PositiveProduct(stdX, stdY);
    PositiveProduct(stdX * stdY, m);
  }

  /** Its sign is that of the sum over pairs: positive when they mostly rise together. */
  lemma PearsonSign(xs: seq<real>, ys: seq<real>, stdX: real, stdY: real)
    requires |xs| == |ys| > 0
    requires IsDeviation(stdX, xs) && IsDeviation(stdY, ys)
    requires Pearson(xs, ys, stdX, stdY).Some?
    ensures var r := Pearson(xs, ys, stdX, stdY).value;
            && (r > 0.0 <==> Concordance(xs, ys) > 0.0)
            && (r == 0.0 <==> Concordance(xs, ys) == 0.0)
            && (r < 0.0 <==> Concordance(xs, ys) < 0.0)
  {
    hide IsDeviation, Pearson, Concordance;
    PearsonOfPairs(xs, ys, stdX, stdY);
    PositiveScale(xs, stdX, stdY);
    SignOfProduct(Pearson(xs, ys, stdX, stdY).value, (stdX * stdY) * (|xs| as real * |xs| as real));
  }

  // ----- reflection

  /** The signal turned over: `c - x` for each x. */
  function Turned(xs: seq<real>, c: real): (r: seq<real>)
    ensures |r| == |xs|
    ensures forall i :: 0 <= i < |xs| ==> r[i] == c - xs[i]
  {
    if xs == [] then [] else Turned(xs[..|xs| - 1], c) + [c - xs[|xs| - 1]]
  }

  lemma {:induction false} AgainstTurned(xs: seq<real>, ys: seq<real>, x: real, y: real, c: real)
    requires |xs| == |ys|
    ensures Against(Turned(xs, c), ys, c - x, y) == -Against(xs, ys, x, y)
    ensures Against(ys, Turned(xs, c), y, c - x) == -Against(ys, xs, y, x)
  {
    hide Against, Turned;
    var t := Turned(xs, c);
    if xs == [] {
      AgainstStep(xs, ys, x, y, 0);
      AgainstStep(t, ys, c - x, y, 0);
      AgainstStep(ys, xs, y, x, 0);
      AgainstStep(ys, t, y, c - x, 0);
    } else {
      var n := |xs| - 1;
      AgainstTurned(xs[..n], ys[..n], x, y, c);
      TurnedStep(xs, n, c);
      AgainstOneMore(xs, t, ys, x, y, c, n);
    }
  }

  lemma AgainstOneMore(xs: seq<real>, t: seq<real>, ys: seq<real>, x: real, y: real, c: real, n: nat)
    requires |xs| == |ys| == |t| == n + 1 && t[n] == c - xs[n]
    requires Against(t[..n], ys[..n], c - x, y) == -Against(xs[..n], ys[..n], x, y)
    requires Against(ys[..n], t[..n], y, c - x) == -Against(ys[..n], xs[..n], y, x)
    ensures Against(t, ys, c - x, y) == -Against(xs, ys, x, y)
    ensures Against(ys, t, y, c - x) == -Against(ys, xs, y, x)
  {
    hide Against;
    var turned := c - x;
    AgainstStep(xs, ys, x, y, n);
    AgainstStep(t, ys, turned, y, n);
    AgainstStep(ys, xs, y, x, n);
    AgainstStep(ys, t, y, turned, n);
    TurnedProduct(t[n], xs[n], x, ys[n], y, c);
    assert (t[n] - turned) * (ys[n] - y) == -((xs[n] - x) * (ys[n] - y));
    assert (ys[n] - y) * (t[n] - turned) == -((ys[n] - y) * (xs[n] - x));
  }

  lemma TurnedStep(xs: seq<real>, n: nat, c: real)
    requires |xs| == n + 1
    ensures Turned(xs, c)[..n] == Turned(xs[..n], c) && Turned(xs, c)[n] == c - xs[n]
  {
  }

  lemma TurnedProduct(turned: real, a: real, x: real, b: real, y: real, c: real)
    requires turned == c - a
    ensures (turned - (c - x)) * (b - y) == -((a - x) * (b - y))
    ensures (b - y) * (turned - (c - x)) == -((b - y) * (a - x))
  {
    var d, e := a - x, b - y;
    assert turned - (c - x) == -d;
    assert (-d) * e == -(d * e) && e * (-d) == -(e * d);
  }

  lemma {:induction false} ConcordanceTurned(xs: seq<real>, ys: seq<real>, c: real)
    requires |xs| == |ys|
    ensures Concordance(Turned(xs, c), ys) == -Concordance(xs, ys)
    ensures Concordance(ys, Turned(xs, c)) == -Concordance(ys, xs)
  {
    hide Against, Turned, Concordance;
    var n := if xs == [] then 0 else |xs| - 1;
    var t := Turned(xs, c);
    ConcordanceStep(xs, ys, n);
    ConcordanceStep(t, ys, n);
    ConcordanceStep(ys, xs, n);
    ConcordanceStep(ys, t, n);
    if xs != [] {
      ConcordanceTurned(xs[..n], ys[..n], c);
      TurnedStep(xs, n, c);
      AgainstTurned(xs[..n], ys[..n], xs[n], ys[n], c);
    }
  }

  /** A signal turned over keeps its deviation. */
  lemma DeviationTurned(std: real, xs: seq<real>, c: real)
    requires xs != []
    ensures IsDeviation(std, Turned(xs, c)) <==> IsDeviation(std, xs)
  {
    hide IsDeviation, Concordance;
    ConcordanceTurned(xs, Turned(xs, c), c);
    ConcordanceTurned(xs, xs, c);
    DeviationOfPairs(std, xs);
    DeviationOfPairs(std, Turned(xs, c));
  }

  lemma OppositeQuotient(r: real, s: real, k: real)
    requires k > 0.0 && s * k == -(r * k)
    ensures s == -r
  {
    assert (s + r) * k == 0.0;
    SignOfProduct(s + r, k);
  }

  /** Turning one signal over negates the coefficient. */
  lemma TurnedSignalNegates(xs: seq<real>, ys: seq<real>, stdX: real, stdY: real, c: real)
    requires |xs| == |ys| > 0
    requires IsDeviation(stdX, xs) && IsDeviation(stdY, ys)
    ensures IsDeviation(stdX, Turned(xs, c))
    ensures var r, s := Pearson(xs, ys, stdX, stdY), Pearson(Turned(xs, c), ys, stdX, stdY);
            (r.None? <==> s.None?) && (r.Some? && s.Some? ==> s.value == -r.value)
  {
    hide IsDeviation, Pearson, Concordance;
    DeviationTurned(stdX, xs, c);
    ConcordanceTurned(xs, ys, c);
    PearsonOfPairs(xs, ys, stdX, stdY);
    PearsonOfPairs(Turned(xs, c), ys, stdX, stdY);
    if Pearson(xs, ys, stdX, stdY).Some? {
      PositiveScale(xs, stdX, stdY);
      OppositeQuotient(Pearson(xs, ys, stdX, stdY).value, Pearson(Turned(xs, c), ys, stdX, stdY).value,
                       (stdX * stdY) * (|xs| as real * |xs| as real));
    }
  }

  // ----- ranks

  /** The indices of the samples below a value, and of those that equal it. */
  function Below(xs: seq<real>, v: real): set<nat> {
    set i: nat | i < |xs| && xs[i] < v
  }

  function Equal(xs: seq<real>, v: real): set<nat> {
    set i: nat | i < |xs| && xs[i] == v
  }

  lemma OneMoreSample(init: seq<real>, x: real, v: real)
    ensures Below(init + [x], v) == Below(init, v) + if x < v then {|init|} else {}
    ensures Equal(init + [x], v) == Equal(init, v) + if x == v then {|init|} else {}
  {
    var xs := init + [x];
    assert forall i :: 0 <= i < |init| ==> xs[i] == init[i];
    assert xs[|init|] == x;
  }

  lemma {:induction false} CountsAreSets(xs: seq<real>, v: real)
    ensures CountLess(Enumerate(xs), v) == |Below(xs, v)|
    ensures CountEqual(Enumerate(xs), v) == |Equal(xs, v)|
  {
    hide Below, Equal;
    if xs == [] {
      NoSamples(v);
    } else {
      var init, x := xs[..|xs| - 1], xs[|xs| - 1];
      assert xs == init + [x];
      CountsAreSets(init, v);
      OneMoreSample(init, x, v);
      hide CountLess, CountEqual;
      CountsAppend(Enumerate(init), (|init|, x), v);
      IndexIsNew(init, v);
      OneMore(Below(init, v), |init|);
      OneMore(Equal(init, v), |init|);
    }
  }

  lemma OneMore(s: set<nat>, n: nat)
    requires n !in s
    ensures |s + {n}| == |s| + 1 && s + {} == s
  {
  }

  lemma IndexIsNew(init: seq<real>, v: real)
    ensures |init| !in Below(init, v) && |init| !in Equal(init, v)
  {
  }

  lemma NoSamples(v: real)
    ensures Below([], v) == {} && Equal([], v) == {}
  {
  }

  /** The rank of a sample: the number of smaller ones, and the middle of those equal to
      it, from one. */
  lemma RankReads(xs: seq<real>, k: nat)
    requires k < |xs|
    ensures RankSeq(xs)[k] == |Below(xs, xs[k])| as real + (|Equal(xs, xs[k])| as real + 1.0) / 2.0
  {
    hide CountLess, CountEqual, Below, Equal;
    CountsAreSets(xs, xs[k]);
  }

  ghost predicate OppositelyOrdered(xs: seq<real>, ys: seq<real>) {
    |xs| == |ys| && forall i, j :: 0 <= i < |xs| && 0 <= j < |xs| ==> (xs[i] < xs[j] <==> ys[i] > ys[j])
  }

  function Indices(n: nat): (r: set<nat>)
    ensures |r| == n
    ensures forall i: nat :: i in r <==> i < n
  {
    if n == 0 then {} else Indices(n - 1) + {n - 1}
  }

  lemma DisjointParts(a: set<nat>, b: set<nat>, c: set<nat>, n: nat)
    requires a !! b && (a + b) !! c && a + b + c == Indices(n)
    ensures |a| + |b| + |c| == n
  {
  }

  lemma OppositeAt(xs: seq<real>, ys: seq<real>, k: nat, i: nat)
    requires OppositelyOrdered(xs, ys) && k < |xs| && i < |xs|
    ensures xs[i] == xs[k] <==> ys[i] == ys[k]
    ensures ys[i] < ys[k] <==> xs[i] > xs[k]
  {
  }

  lemma OppositeSets(xs: seq<real>, ys: seq<real>, k: nat)
    requires OppositelyOrdered(xs, ys) && k < |xs|
    ensures Equal(ys, ys[k]) == Equal(xs, xs[k])
    ensures Below(xs, xs[k]) !! Equal(xs, xs[k]) && (Below(xs, xs[k]) + Equal(xs, xs[k])) !! Below(ys, ys[k])
    ensures Below(xs, xs[k]) + Equal(xs, xs[k]) + Below(ys, ys[k]) == Indices(|xs|)
  {
    var less, same, more := Below(xs, xs[k]), Equal(xs, xs[k]), Below(ys, ys[k]);
    hide OppositelyOrdered, Indices;
    forall i: nat
      ensures i in Equal(ys, ys[k]) <==> i in same
      ensures i in less + same + more <==> i in Indices(|xs|)
      ensures !(i in less && i in same) && !(i in less + same && i in more)
    {
      if i < |xs| {
        OppositeAt(xs, ys, k, i);
      }
    }
  }

  /** Oppositely ordered signals have ranks that add up to one more than the count. */
  lemma OppositeRanks(xs: seq<real>, ys: seq<real>, k: nat)
    requires OppositelyOrdered(xs, ys) && k < |xs|
    ensures RankSeq(xs)[k] + RankSeq(ys)[k] == |xs| as real + 1.0
  {
    hide RankSeq, Below, Equal, Indices;
    RankReads(xs, k);
    RankReads(ys, k);
    OppositeSets(xs, ys, k);
    DisjointParts(Below(xs, xs[k]), Equal(xs, xs[k]), Below(ys, ys[k]), |xs|);
  }

  /** So their rank correlation is exactly minus one. */
  lemma OppositeSignalsCorrelate(xs: seq<real>, ys: seq<real>, std: real)
    requires xs != [] && OppositelyOrdered(xs, ys)
    requires IsDeviation(std, RankSeq(xs)) && std >= TINY
    ensures IsDeviation(std, RankSeq(ys))
    ensures Spearman(xs, ys, std, std) == Some(-1.0)
  {
    hide IsDeviation, Pearson, RankSeq;
    var c := |xs| as real + 1.0;
    var a := RankSeq(xs);
    forall k | 0 <= k < |ys|
      ensures RankSeq(ys)[k] == Turned(a, c)[k]
    {
      OppositeRanks(xs, ys, k);
    }
    assert RankSeq(ys) == Turned(a, c);
    SelfCorrelation(a, std);
    TurnedSignalNegates(a, a, std, std, c);
    Reversed(a, Turned(a, c), std);
  }

  lemma Reversed(a: seq<real>, b: seq<real>, std: real)
    requires |a| == |b| > 0 && IsDeviation(std, a) && IsDeviation(std, b)
    ensures Pearson(a, b, std, std) == Pearson(b, a, std, std)
  {
    hide Centred, Mean;
    DotSymmetric(Centred(a, Mean(a)), Centred(b, Mean(b)));
  }

  lemma {:induction false} DotSymmetric(a: seq<real>, b: seq<real>)
    requires |a| == |b|
    ensures Dot(a, b) == Dot(b, a)
  {
    if a != [] {
      DotSymmetric(a[..|a| - 1], b[..|b| - 1]);
    }
  }
}

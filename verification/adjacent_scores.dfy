/**
 * One observation of the adjacent-category likelihood: the score of each category, and the identity
 * between the coded Hessian entries and the expected products of scores.
 */
module AdjacentScores {
  import opened Vectors

  /** Category probabilities: nonnegative, summing to one. */
  ghost predicate IsDistribution(prob: Vec) {
    prob != [] && (forall k :: 0 <= k < |prob| ==> prob[k] >= 0.0) && Mean(prob, |prob|, One) == 1.0
  }

  function One(y: nat): real { 1.0 }

  function Value(y: nat): real { y as real }

  function Square(y: nat): real { Value(y) * Value(y) }

  /** The sum of f over the first k categories, weighted by their probabilities; categories are 1, 2, ... */
  function Mean(prob: Vec, k: nat, f: nat -> real): real
    requires k <= |prob|
  {
    if k == 0 then 0.0 else Mean(prob, k - 1, f) + prob[k - 1] * f(k)
  }

  lemma MeanStep(prob: Vec, k: nat, f: nat -> real, fk: real)
    requires 0 < k <= |prob| && f(k) == fk
    ensures Mean(prob, k, f) == Mean(prob, k - 1, f) + Times(prob[k - 1], fk)
  {}

  lemma {:induction false} MeanLinear(prob: Vec, k: nat, a: real, f: nat -> real, b: real, g: nat -> real,
                                      h: nat -> real)
    requires k <= |prob| && forall y: nat :: 1 <= y <= k ==> h(y) == a * f(y) + b * g(y)
    ensures Mean(prob, k, h) == a * Mean(prob, k, f) + b * Mean(prob, k, g)
  {
    if k > 0 {
      MeanLinear(prob, k - 1, a, f, b, g, h);
      LinearStep(prob[k - 1], a, f(k), b, g(k), Mean(prob, k - 1, f), Mean(prob, k - 1, g));
    } else {
      assert a * 0.0 + b * 0.0 == 0.0;
    }
  }

  lemma LinearStep(p: real, a: real, x: real, b: real, y: real, mx: real, my: real)
    ensures (a * mx + b * my) + p * (a * x + b * y) == a * (mx + p * x) + b * (my + p * y)
  {}

  /** f restricted to the categories up to c. */
  function UpTo(c: nat, f: nat -> real): nat -> real { (y: nat) => if y <= c then f(y) else 0.0 }

  lemma UpToAt(c: nat, f: nat -> real, y: nat)
    ensures UpTo(c, f)(y) == if y <= c then f(y) else 0.0
  {}

  lemma {:induction false} MeanUpTo(prob: Vec, k: nat, c: nat, f: nat -> real)
    requires c <= |prob| && k <= |prob|
    ensures Mean(prob, k, UpTo(c, f)) == Mean(prob, if k < c then k else c, f)
  {
    if k > 0 {
      MeanUpTo(prob, k - 1, c, f);
    }
  }

  // What the code accumulates.

  /** cdf[j] and prefix_first_moment[j], for thresholds j = 0, ..., K - 2. */
  function Cdf(prob: Vec, j: nat): real
    requires j < |prob|
  {
    Mean(prob, j + 1, One)
  }

  function PrefixMoment(prob: Vec, j: nat): real
    requires j < |prob|
  {
    Mean(prob, j + 1, Value)
  }

  function ExpectedY(prob: Vec): real { Mean(prob, |prob|, Value) }

  function VarianceY(prob: Vec): real { Mean(prob, |prob|, Square) - ExpectedY(prob) * ExpectedY(prob) }

  /** Parameters: K - 1 thresholds, then the coefficients of the covariates `x`. */
  function Thresholds(prob: Vec): nat
    requires prob != []
  {
    |prob| - 1
  }

  /** The gradient contribution of an observation in category y: parameter a. */
  function Score(prob: Vec, x: Vec, y: nat, a: nat): real
    requires prob != [] && a < Thresholds(prob) + |x|
  {
    if a < Thresholds(prob) then
      if a < y - 1 then Cdf(prob, a) else -(1.0 - Cdf(prob, a))
    else -(x[a - Thresholds(prob)] * (y as real - ExpectedY(prob)))
  }

  /** The Hessian contribution of an observation as the blocks of the code compute it. */
  function HessianEntry(prob: Vec, x: Vec, a: nat, b: nat): real
    requires prob != [] && a < Thresholds(prob) + |x| && b < Thresholds(prob) + |x|
  {
    var m := Thresholds(prob);
    if a < m && b < m then
      if a <= b then Cdf(prob, a) * (1.0 - Cdf(prob, b)) else Cdf(prob, b) * (1.0 - Cdf(prob, a))
    else if a < m then (PrefixMoment(prob, a) - ExpectedY(prob) * Cdf(prob, a)) * x[b - m]
    else if b < m then (PrefixMoment(prob, b) - ExpectedY(prob) * Cdf(prob, b)) * x[a - m]
    else if a <= b then VarianceY(prob) * x[b - m] * x[a - m]
    else VarianceY(prob) * x[a - m] * x[b - m]
  }

  /** Both kinds of score are centred statistics: a threshold indicator, or the category itself. */
  function Statistic(prob: Vec, a: nat): nat -> real
    requires prob != []
  {
    if a < Thresholds(prob) then UpTo(a + 1, One) else Value
  }

  function Expectation(prob: Vec, a: nat): real
    requires prob != []
  {
    if a < Thresholds(prob) then Cdf(prob, a) else ExpectedY(prob)
  }

  function Weight(prob: Vec, x: Vec, a: nat): real
    requires prob != [] && a < Thresholds(prob) + |x|
  {
    if a < Thresholds(prob) then -1.0 else -x[a - Thresholds(prob)]
  }

  lemma NegatedProduct(x: real, z: real)
    ensures -(x * z) == (-x) * z
  {}

  lemma ScoreIsCentred(prob: Vec, x: Vec, y: nat, a: nat)
    requires prob != [] && a < Thresholds(prob) + |x|
    ensures Score(prob, x, y, a) == Weight(prob, x, a) * (Statistic(prob, a)(y) - Expectation(prob, a))
  {
    hide Cdf, ExpectedY;
    if a < Thresholds(prob) {
      UpToAt(a + 1, One, y);
    } else {
      NegatedProduct(x[a - Thresholds(prob)], y as real - ExpectedY(prob));
    }
  }

  lemma ExpectationIsMean(prob: Vec, a: nat)
    requires prob != []
    ensures Mean(prob, |prob|, Statistic(prob, a)) == Expectation(prob, a)
  {
    if a < Thresholds(prob) {
      MeanUpTo(prob, |prob|, a + 1, One);
    }
  }

  function ScoreOf(prob: Vec, x: Vec, a: nat): nat -> real
    requires prob != [] && a < Thresholds(prob) + |x|
  {
    (y: nat) => Score(prob, x, y, a)
  }

  lemma CentredSplit(w: real, s: real, e: real)
    ensures w * (s - e) == w * s + (-(w * e)) * 1.0
  {}

  /** The gradient averages to zero over the category. */
  lemma ScoreMeanIsZero(prob: Vec, x: Vec, a: nat)
    requires IsDistribution(prob) && a < Thresholds(prob) + |x|
    ensures Mean(prob, |prob|, ScoreOf(prob, x, a)) == 0.0
  {
    hide Score, Statistic, Weight, Expectation;
    var s, w, e := Statistic(prob, a), Weight(prob, x, a), Expectation(prob, a);
    forall y: nat
      ensures ScoreOf(prob, x, a)(y) == w * s(y) + (-(w * e)) * One(y)
    {
      ScoreIsCentred(prob, x, y, a);
      CentredSplit(w, s(y), e);
    }
    MeanLinear(prob, |prob|, w, s, -(w * e), One, ScoreOf(prob, x, a));
    ExpectationIsMean(prob, a);
  }

  /** E[S_a S_b] of the raw statistics: a shorter prefix sum, a prefix moment, or a second moment. */
  function CrossMoment(prob: Vec, a: nat, b: nat): real
    requires prob != []
  {
    var m := Thresholds(prob);
    if a < m && b < m then Cdf(prob, if a <= b then a else b)
    else if a < m then PrefixMoment(prob, a)
    else if b < m then PrefixMoment(prob, b)
    else Mean(prob, |prob|, Square)
  }

  function Multiply(f: nat -> real, g: nat -> real): nat -> real { (y: nat) => f(y) * g(y) }

  lemma {:induction false} MeanSame(prob: Vec, k: nat, f: nat -> real, g: nat -> real)
    requires k <= |prob| && forall y: nat :: f(y) == g(y)
    ensures Mean(prob, k, f) == Mean(prob, k, g)
  {
    if k > 0 {
      MeanSame(prob, k - 1, f, g);
    }
  }

  lemma CrossMomentIsMean(prob: Vec, a: nat, b: nat)
    requires prob != []
    ensures Mean(prob, |prob|, Multiply(Statistic(prob, a), Statistic(prob, b))) == CrossMoment(prob, a, b)
  {
    var m := Thresholds(prob);
    var h := Multiply(Statistic(prob, a), Statistic(prob, b));
    if a < m && b < m {
      var c := if a <= b then a + 1 else b + 1;
      forall y: nat
        ensures h(y) == UpTo(c, One)(y)
      {
        UpToAt(a + 1, One, y);
        UpToAt(b + 1, One, y);
        UpToAt(c, One, y);
      }
      MeanSame(prob, |prob|, h, UpTo(c, One));
      MeanUpTo(prob, |prob|, c, One);
    } else if a < m {
      forall y: nat
        ensures h(y) == UpTo(a + 1, Value)(y)
      {
        UpToAt(a + 1, One, y);
        UpToAt(a + 1, Value, y);
      }
      MeanSame(prob, |prob|, h, UpTo(a + 1, Value));
      MeanUpTo(prob, |prob|, a + 1, Value);
    } else if b < m {
      forall y: nat
        ensures h(y) == UpTo(b + 1, Value)(y)
      {
        UpToAt(b + 1, One, y);
        UpToAt(b + 1, Value, y);
      }
      MeanSame(prob, |prob|, h, UpTo(b + 1, Value));
      MeanUpTo(prob, |prob|, b + 1, Value);
    } else {
      MeanSame(prob, |prob|, h, Square);
    }
  }

  function Combine(a: real, f: nat -> real, b: real, g: nat -> real): nat -> real {
    (y: nat) => a * f(y) + b * g(y)
  }

  /** (S - d)(T - e), expanded. */
  function CentredProduct(s: nat -> real, t: nat -> real, d: real, e: real): nat -> real {
    Combine(1.0, Combine(1.0, Combine(1.0, Multiply(s, t), -e, s), -d, t), d * e, One)
  }

  lemma CentredProductAt(s: nat -> real, t: nat -> real, d: real, e: real, y: nat)
    ensures CentredProduct(s, t, d, e)(y)
         == 1.0 * (1.0 * (1.0 * (s(y) * t(y)) + (-e) * s(y)) + (-d) * t(y)) + (d * e) * 1.0
  {
    var first := Combine(1.0, Multiply(s, t), -e, s);
    var second := Combine(1.0, first, -d, t);
    assert first(y) == 1.0 * (s(y) * t(y)) + (-e) * s(y);
    assert second(y) == 1.0 * first(y) + (-d) * t(y);
  }

  /** E[(S - d)(T - e)] = E[S T] - d e when d and e are the means of S and T. */
  lemma Covariance(prob: Vec, s: nat -> real, t: nat -> real, d: real, e: real)
    requires IsDistribution(prob)
    requires Mean(prob, |prob|, s) == d && Mean(prob, |prob|, t) == e
    ensures Mean(prob, |prob|, CentredProduct(s, t, d, e)) == Mean(prob, |prob|, Multiply(s, t)) - Times(d, e)
  {
    var k := |prob|;
    var first := Combine(1.0, Multiply(s, t), -e, s);
    var second := Combine(1.0, first, -d, t);
    hide Mean, Multiply;
    MeanLinear(prob, k, 1.0, Multiply(s, t), -e, s, first);
    MeanLinear(prob, k, 1.0, first, -d, t, second);
    MeanLinear(prob, k, 1.0, second, d * e, One, CentredProduct(s, t, d, e));
    CovarianceSum(Mean(prob, k, Multiply(s, t)), d, e);
  }

  lemma CovarianceSum(m: real, d: real, e: real)
    ensures 1.0 * (1.0 * (1.0 * m + (-e) * d) + (-d) * e) + (d * e) * 1.0 == m - d * e
  {}

  function ScoreProduct(prob: Vec, x: Vec, a: nat, b: nat): nat -> real
    requires prob != [] && a < Thresholds(prob) + |x| && b < Thresholds(prob) + |x|
  {
    Multiply(ScoreOf(prob, x, a), ScoreOf(prob, x, b))
  }

  lemma ProductExpands(p: real, q: real, c: real, w: real, v: real, s: real, t: real, d: real, e: real)
    requires p == w * (s - d) && q == v * (t - e)
    requires c == 1.0 * (1.0 * (1.0 * (s * t) + (-e) * s) + (-d) * t) + (d * e) * 1.0
    ensures p * q == Times(Times(w, v), c)
  {
    assert (s - d) * (t - e) == c;
    assert (w * (s - d)) * (v * (t - e)) == (w * v) * ((s - d) * (t - e)) by { Regroup(w, s - d, v, t - e); }
  }

  lemma Regroup(w: real, p: real, v: real, q: real)
    ensures (w * p) * (v * q) == (w * v) * (p * q)
  {}

  lemma MeanScaled(prob: Vec, c: real, f: nat -> real, h: nat -> real)
    requires forall y: nat :: h(y) == Times(c, f(y))
    ensures Mean(prob, |prob|, h) == Times(c, Mean(prob, |prob|, f))
  {
    MeanLinear(prob, |prob|, c, f, 0.0, f, h);
  }

  lemma ScoreProductExpands(prob: Vec, x: Vec, a: nat, b: nat, y: nat)
    requires prob != [] && a < Thresholds(prob) + |x| && b < Thresholds(prob) + |x|
    ensures ScoreProduct(prob, x, a, b)(y)
         == Times(Times(Weight(prob, x, a), Weight(prob, x, b)),
                  CentredProduct(Statistic(prob, a), Statistic(prob, b), Expectation(prob, a), Expectation(prob, b))(y))
  {
    hide Score, Weight, Expectation, Statistic, Times;
    ScoreIsCentred(prob, x, y, a);
    ScoreIsCentred(prob, x, y, b);
    var s, t, d, e := Statistic(prob, a), Statistic(prob, b), Expectation(prob, a), Expectation(prob, b);
    CentredProductAt(s, t, d, e, y);
    ProductExpands(Score(prob, x, y, a), Score(prob, x, y, b), CentredProduct(s, t, d, e)(y),
                   Weight(prob, x, a), Weight(prob, x, b), s(y), t(y), d, e);
  }

  /** The information identity: each coded Hessian entry is the expected product of two scores. */
  lemma InformationIdentity(prob: Vec, x: Vec, a: nat, b: nat)
    requires IsDistribution(prob) && a < Thresholds(prob) + |x| && b < Thresholds(prob) + |x|
    ensures Mean(prob, |prob|, ScoreProduct(prob, x, a, b)) == HessianEntry(prob, x, a, b)
  {
    hide Weight, Expectation, Statistic, HessianEntry, Mean, CrossMoment, IsDistribution, Times;
    hide CentredProduct, ScoreProduct;
    var s, t, d, e := Statistic(prob, a), Statistic(prob, b), Expectation(prob, a), Expectation(prob, b);
    var scale, centred := Times(Weight(prob, x, a), Weight(prob, x, b)), CentredProduct(s, t, d, e);
    forall y: nat
      ensures ScoreProduct(prob, x, a, b)(y) == Times(scale, centred(y))
    {
      ScoreProductExpands(prob, x, a, b, y);
    }
    MeanScaled(prob, scale, centred, ScoreProduct(prob, x, a, b));
    ExpectationIsMean(prob, a);
    ExpectationIsMean(prob, b);
    Covariance(prob, s, t, d, e);
    CrossMomentIsMean(prob, a, b);
    EntryIsCovariance(prob, x, a, b);
  }

  lemma ThresholdEntry(c: real, d: real)
    ensures ((-1.0) * (-1.0)) * (c - c * d) == c * (1.0 - d)
    ensures ((-1.0) * (-1.0)) * (d - c * d) == d * (1.0 - c)
  {}

  lemma MixedEntry(x: real, m: real, c: real, e: real)
    ensures ((-1.0) * (-x)) * (m - c * e) == (m - e * c) * x
    ensures ((-x) * (-1.0)) * (m - e * c) == (m - e * c) * x
  {}

  lemma CovariateEntry(x: real, z: real, v: real)
    ensures ((-x) * (-z)) * v == v * z * x
    ensures ((-x) * (-z)) * v == v * x * z
  {}

  lemma EntryIsCovariance(prob: Vec, x: Vec, a: nat, b: nat)
    requires prob != [] && a < Thresholds(prob) + |x| && b < Thresholds(prob) + |x|
    ensures Times(Times(Weight(prob, x, a), Weight(prob, x, b)),
                  CrossMoment(prob, a, b) - Times(Expectation(prob, a), Expectation(prob, b)))
         == HessianEntry(prob, x, a, b)
  {
    if a < Thresholds(prob) && b < Thresholds(prob) {
      hide Cdf, ExpectedY, Mean;
      ThresholdEntry(Cdf(prob, a), Cdf(prob, b));
    } else {
      CovariateEntries(prob, x, a, b);
    }
  }

  lemma CovariateEntries(prob: Vec, x: Vec, a: nat, b: nat)
    requires prob != [] && a < Thresholds(prob) + |x| && b < Thresholds(prob) + |x|
    requires a >= Thresholds(prob) || b >= Thresholds(prob)
    ensures Times(Times(Weight(prob, x, a), Weight(prob, x, b)),
                  CrossMoment(prob, a, b) - Times(Expectation(prob, a), Expectation(prob, b)))
         == HessianEntry(prob, x, a, b)
  {
    hide Cdf, PrefixMoment, ExpectedY, Mean;
    var m, e := Thresholds(prob), ExpectedY(prob);
    if a < m {
      MixedEntry(x[b - m], PrefixMoment(prob, a), Cdf(prob, a), e);
    } else if b < m {
      MixedEntry(x[a - m], PrefixMoment(prob, b), Cdf(prob, b), e);
    } else {
      CovariateEntry(x[a - m], x[b - m], Mean(prob, |prob|, Square) - e * e);
    }
  }
}

/**
 * The negative log-likelihood of the adjacent-category model and the slope its gradient claims: the
 * objective lies above every tangent, so the objective is convex and the coded gradient is its gradient.
 */
module AdjacentObjective {
  import opened Vectors
  import opened AdjacentScores
  import opened AdjacentInformation
  import opened LogSumExp

  /** log_unnorm: entry k is the sum of alpha[j] - eta over j >= k, so the last one is zero. */
  function LogUnnorm(alpha: Vec, eta: real): (u: Vec)
    ensures |u| == |alpha| + 1
  {
    if alpha == [] then [0.0]
    else
      var rest := LogUnnorm(alpha[1..], eta);
      [rest[0] + (alpha[0] - eta)] + rest
  }

  /** The model: neighbouring categories differ by eta minus the threshold between them. */
  lemma {:induction false} NeighbourLogOdds(alpha: Vec, eta: real, k: nat)
    requires k < |alpha|
    ensures LogUnnorm(alpha, eta)[k + 1] - LogUnnorm(alpha, eta)[k] == eta - alpha[k]
  {
    if k > 0 {
      NeighbourLogOdds(alpha[1..], eta, k - 1);
    }
  }

  lemma {:induction false} LastIsZero(alpha: Vec, eta: real)
    ensures LogUnnorm(alpha, eta)[|alpha|] == 0.0
  {
    if alpha != [] {
      LastIsZero(alpha[1..], eta);
    }
  }

  lemma {:induction false} LogUnnormLinear(a: Vec, b: Vec, h: real, k: real)
    requires |a| == |b|
    ensures Minus(LogUnnorm(b, k), LogUnnorm(a, h)) == LogUnnorm(Minus(b, a), k - h)
  {
    if a != [] {
      LogUnnormLinear(a[1..], b[1..], h, k);
      assert Minus(b, a)[1..] == Minus(b[1..], a[1..]);
      MinusGrows(LogUnnorm(a[1..], h), a[0] - h, LogUnnorm(b[1..], k), b[0] - k);
    }
  }

  /** One more entry in front, an increment above the next one. */
  lemma MinusGrows(u: Vec, x: real, v: Vec, y: real)
    requires |u| == |v| && u != []
    ensures Minus([v[0] + y] + v, [u[0] + x] + u) == [Minus(v, u)[0] + (y - x)] + Minus(v, u)
  {}

  // The slope along the thresholds, by summation by parts.

  /** The sum of (a[j] - h) times the score of threshold j, over j < k. */
  function ThresholdSlope(prob: Vec, a: Vec, h: real, y: nat, k: nat): real
    requires |prob| == |a| + 1 && k <= |a|
  {
    if k == 0 then 0.0
    else ThresholdSlope(prob, a, h, y, k - 1) + Times(a[k - 1] - h, Score(prob, [], y, k - 1))
  }

  /** What the categories beyond the observed one contribute. */
  function Passed(d: Vec, y: nat, k: nat): real
    requires 1 <= y <= |d| && k < |d|
  {
    if k <= y - 1 then 0.0 else d[y - 1] - d[k]
  }

  lemma {:induction false} SummationByParts(prob: Vec, a: Vec, h: real, y: nat, k: nat)
    requires |prob| == |a| + 1 && k <= |a| && 1 <= y <= |prob|
    ensures ThresholdSlope(prob, a, h, y, k)
         == Mean(prob, k, At(LogUnnorm(a, h)))
            - Times(LogUnnorm(a, h)[k], Mean(prob, k, One)) - Passed(LogUnnorm(a, h), y, k)
  {
    var d := LogUnnorm(a, h);
    if k > 0 {
      hide LogUnnorm, Times, At, Score;
      SummationByParts(prob, a, h, y, k - 1);
      NeighbourLogOdds(a, h, k - 1);
      AtIs(d, k);
      MeanStep(prob, k, At(d), d[k - 1]);
      MeanStep(prob, k, One, 1.0);
      PartStep(d[k - 1], d[k], prob[k - 1], Mean(prob, k - 1, One));
      TimesOne(prob[k - 1]);
      ThresholdScore(prob, y, k - 1);
      SlopeStep(a[k - 1] - h, Mean(prob, k, One));
    } else {
      TimesZero(d[0]);
    }
  }

  lemma TimesOne(p: real)
    ensures Times(p, 1.0) == p
  {}

  lemma ThresholdScore(prob: Vec, y: nat, j: nat)
    requires j + 1 < |prob|
    ensures Score(prob, [], y, j) == if j < y - 1 then Mean(prob, j + 1, One) else Mean(prob, j + 1, One) - 1.0
  {}

  lemma SlopeStep(c: real, m: real)
    ensures Times(c, m - 1.0) == Times(c, m) - c
  {}

  lemma PartStep(d: real, next: real, p: real, m: real)
    ensures Times(d - next, m + p) - Times(d, m) == Times(p, d) - Times(next, m + p)
  {}

  /** The whole slope along the thresholds: the mean of the differences less the observed one. */
  lemma WholeSlope(prob: Vec, a: Vec, h: real, y: nat)
    requires |prob| == |a| + 1 && 1 <= y <= |prob|
    ensures ThresholdSlope(prob, a, h, y, |a|)
         == Mean(prob, |prob|, At(LogUnnorm(a, h))) - LogUnnorm(a, h)[y - 1]
  {
    hide LogUnnorm, Times, At, ThresholdSlope;
    var d := LogUnnorm(a, h);
    SummationByParts(prob, a, h, y, |a|);
    LastIsZero(a, h);
    TimesZero(Mean(prob, |a|, One));
    AtIs(d, |prob|);
    MeanStep(prob, |prob|, At(d), 0.0);
    TimesZero(prob[|a|]);
  }

  /** With unit differences and no shift: the category is ahead of its mean. */
  function Units(m: nat): (a: Vec)
    ensures |a| == m && forall j :: 0 <= j < m ==> a[j] == 1.0
  {
    seq(m, j => 1.0)
  }

  lemma {:induction false} UnitsCount(m: nat, k: nat)
    requires k <= m
    ensures LogUnnorm(Units(m), 0.0)[k] == (m - k) as real
  {
    assert m > 0 ==> Units(m)[1..] == Units(m - 1);
    if m == 0 {
    } else if k > 0 {
      UnitsCount(m - 1, k - 1);
    } else {
      UnitsCount(m - 1, 0);
    }
  }

  lemma {:induction false} MeanAgrees(prob: Vec, k: nat, f: nat -> real, g: nat -> real)
    requires k <= |prob| && forall y: nat :: 1 <= y <= k ==> f(y) == g(y)
    ensures Mean(prob, k, f) == Mean(prob, k, g)
  {
    if k > 0 {
      MeanAgrees(prob, k - 1, f, g);
    }
  }

  lemma UnitSlope(prob: Vec, m: nat, y: nat)
    requires IsDistribution(prob) && |prob| == m + 1 && 1 <= y <= |prob|
    ensures ThresholdSlope(prob, Units(m), 0.0, y, m) == y as real - ExpectedY(prob)
  {
    var d := LogUnnorm(Units(m), 0.0);
    var g := Combine((m + 1) as real, One, -1.0, Value);
    forall k: nat | 1 <= k <= m + 1
      ensures At(d)(k) == g(k)
    {
      UnitsCount(m, k - 1);
      AtIs(d, k);
      assert (m - (k - 1)) as real == (m + 1) as real * One(k) + (-1.0) * Value(k);
    }
    MeanAgrees(prob, m + 1, At(d), g);
    MeanLinear(prob, m + 1, (m + 1) as real, One, -1.0, Value, g);
    WholeSlope(prob, Units(m), 0.0, y);
    UnitsCount(m, y - 1);
  }

  lemma SlopeParts(x: real, h: real, s: real, w: real, u: real)
    ensures (w - Times(h, u)) + Times(x - h, s) == (w + Times(x - 0.0, s)) - Times(h, u + Times(1.0 - 0.0, s))
  {}

  lemma {:induction false} SlopeShift(prob: Vec, a: Vec, h: real, y: nat, k: nat)
    requires |prob| == |a| + 1 && k <= |a|
    ensures ThresholdSlope(prob, a, h, y, k)
         == ThresholdSlope(prob, a, 0.0, y, k) - Times(h, ThresholdSlope(prob, Units(|a|), 0.0, y, k))
  {
    hide Times, Score;
    if k > 0 {
      SlopeShift(prob, a, h, y, k - 1);
      SlopeParts(a[k - 1], h, Score(prob, [], y, k - 1), ThresholdSlope(prob, a, 0.0, y, k - 1),
                 ThresholdSlope(prob, Units(|a|), 0.0, y, k - 1));
    } else {
      TimesZero(h);
    }
  }

  /** The two halves of the gradient against a step: thresholds, then covariates. */
  lemma {:induction false} SlopeIsDot(prob: Vec, x: Vec, a: Vec, y: nat, k: nat)
    requires |prob| == |a| + 1 && k <= |a|
    ensures Dot(Scores(prob, x, y)[..k], a[..k]) == ThresholdSlope(prob, a, 0.0, y, k)
  {
    if k > 0 {
      hide Score, Times, Scores;
      SlopeIsDot(prob, x, a, y, k - 1);
      PrefixDot(Scores(prob, x, y), a, k);
      ScoresAt(prob, x, y, k - 1);
      TimesCommutes(Score(prob, [], y, k - 1), a[k - 1] - 0.0);
    }
  }

  lemma PrefixDot(s: Vec, a: Vec, k: nat)
    requires 0 < k <= |s| && k <= |a|
    ensures Dot(s[..k], a[..k]) == Dot(s[..k - 1], a[..k - 1]) + Times(s[k - 1], a[k - 1])
  {
    hide Times;
    DotLast(s[..k], a[..k]);
    assert s[..k][..k - 1] == s[..k - 1] && a[..k][..k - 1] == a[..k - 1];
  }

  lemma TimesCommutes(x: real, y: real)
    ensures Times(x, y) == Times(y, x)
  {}

  lemma ScoresAt(prob: Vec, x: Vec, y: nat, j: nat)
    requires j + 1 < |prob|
    ensures Scores(prob, x, y)[j] == Score(prob, [], y, j)
  {
    SameThresholdScore(prob, x, y, j);
  }

  lemma SameThresholdScore(prob: Vec, x: Vec, y: nat, j: nat)
    requires j + 1 < |prob|
    ensures Score(prob, x, y, j) == Score(prob, [], y, j)
  {}

  // One observation.

  /** Parameters: m thresholds and then the coefficients. */
  function Predictor(params: Vec, m: nat, x: Vec): real
    requires |params| == m + |x|
  {
    Dot(x, params[m..])
  }

  function LogWeights(params: Vec, m: nat, x: Vec): (u: Vec)
    requires |params| == m + |x|
    ensures |u| == m + 1
  {
    LogUnnorm(params[..m], Predictor(params, m, x))
  }

  function Probabilities(e: Elementary, params: Vec, m: nat, x: Vec): (prob: Vec)
    requires |params| == m + |x|
    ensures |prob| == m + 1
  {
    Softmax(e, LogWeights(params, m, x))
  }

  function Loss(e: Elementary, params: Vec, m: nat, x: Vec, y: nat): real
    requires |params| == m + |x| && 1 <= y <= m + 1
  {
    LogTotal(e, LogWeights(params, m, x)) - LogWeights(params, m, x)[y - 1]
  }

  lemma StepOfWeights(params: Vec, next: Vec, m: nat, x: Vec)
    requires |params| == |next| == m + |x|
    ensures Minus(LogWeights(next, m, x), LogWeights(params, m, x))
         == LogUnnorm(Minus(next, params)[..m], Dot(x, Minus(next, params)[m..]))
  {
    hide Dot, LogUnnorm;
    LogUnnormLinear(params[..m], next[..m], Predictor(params, m, x), Predictor(next, m, x));
    DotMinus(x, next[m..], params[m..]);
    MinusParts(next, params, m);
  }

  lemma MinusParts(u: Vec, v: Vec, m: nat)
    requires |u| == |v| && m <= |u|
    ensures Minus(u[..m], v[..m]) == Minus(u, v)[..m] && Minus(u[m..], v[m..]) == Minus(u, v)[m..]
  {
  }

  /** The coefficients' scores against a step. */
  lemma CovariateSlope(prob: Vec, x: Vec, y: nat, b: Vec)
    requires prob != [] && |b| == |x|
    ensures Dot(Scores(prob, x, y)[Thresholds(prob)..], b) == -Times(Dot(x, b), y as real - ExpectedY(prob))
  {
    hide ExpectedY, Dot, Scores, Times;
    var ahead := y as real - ExpectedY(prob);
    CovariateScores(prob, x, y);
    DotSymmetric(Scale(-ahead, x), b);
    DotTimes(b, -ahead, x);
    DotSymmetric(b, x);
    TimesNegated(Dot(x, b), ahead);
  }

  lemma TimesNegated(t: real, c: real)
    ensures Times(-c, t) == -Times(t, c)
  {}

  lemma CovariateScores(prob: Vec, x: Vec, y: nat)
    requires prob != []
    ensures Scores(prob, x, y)[Thresholds(prob)..] == Scale(-(y as real - ExpectedY(prob)), x)
  {
    hide ExpectedY, Score;
    var s, c := Scores(prob, x, y)[Thresholds(prob)..], -(y as real - ExpectedY(prob));
    forall i | 0 <= i < |x|
      ensures s[i] == Scale(c, x)[i]
    {
      CovariateScore(prob, x, y, i);
    }
  }

  lemma CovariateScore(prob: Vec, x: Vec, y: nat, i: nat)
    requires prob != [] && i < |x|
    ensures Score(prob, x, y, Thresholds(prob) + i) == -(y as real - ExpectedY(prob)) * x[i]
  {}

  /** The gradient against a step: thresholds `a` and coefficients moving the predictor by `h`. */
  lemma GradientSplits(prob: Vec, x: Vec, y: nat, step: Vec, a: Vec, h: real)
    requires IsDistribution(prob) && 1 <= y <= |prob| && |step| == |a| + |x| && |prob| == |a| + 1
    requires a == step[..|a|] && h == Dot(x, step[|a|..])
    ensures Dot(Scores(prob, x, y), step) == ThresholdSlope(prob, a, h, y, |a|)
  {
    hide IsDistribution, Times, ThresholdSlope, Dot, ExpectedY;
    var m, s := |a|, Scores(prob, x, y);
    DotSplit(s, step, m);
    SlopeIsDot(prob, x, a, y, m);
    assert a[..m] == a;
    CovariateSlope(prob, x, y, step[m..]);
    SlopeShift(prob, a, h, y, m);
    UnitSlope(prob, m, y);
  }

  /** The gradient against any step is the mean change of the log-weights less the observed change. */
  lemma GradientIsSlope(prob: Vec, x: Vec, y: nat, step: Vec, a: Vec, h: real)
    requires IsDistribution(prob) && 1 <= y <= |prob| && |step| == |a| + |x| && |prob| == |a| + 1
    requires a == step[..|a|] && h == Dot(x, step[|a|..])
    ensures Dot(Scores(prob, x, y), step) == Mean(prob, |prob|, At(LogUnnorm(a, h))) - LogUnnorm(a, h)[y - 1]
  {
    hide IsDistribution, ThresholdSlope, Dot;
    GradientSplits(prob, x, y, step, a, h);
    WholeSlope(prob, a, h, y);
  }

  /** One observation's loss lies above its tangent, whose slope is the score vector. */
  lemma LossAboveTangent(e: Elementary, params: Vec, next: Vec, m: nat, x: Vec, y: nat)
    requires Lawful(e) && |params| == |next| == m + |x| && 1 <= y <= m + 1
    ensures Loss(e, next, m, x, y)
         >= Loss(e, params, m, x, y) + Dot(Scores(Probabilities(e, params, m, x), x, y), Minus(next, params))
  {
    hide Lawful, LogWeights, LogTotal, Softmax, IsDistribution, At, Mean, Dot;
    var u, v := LogWeights(params, m, x), LogWeights(next, m, x);
    LogTotalAboveTangent(e, u, v);
    SoftmaxIsDistribution(e, u);
    StepOfWeights(params, next, m, x);
    var step := Minus(next, params);
    GradientIsSlope(Softmax(e, u), x, y, step, step[..m], Dot(x, step[m..]));
  }

  // The whole sample.

  datatype Sample = Sample(x: Mat, y: seq<nat>)

  ghost predicate IsSample(d: Sample, m: nat, p: nat) {
    && |d.x| == |d.y|
    && (forall i :: 0 <= i < |d.x| ==> |d.x[i]| == p)
    && (forall i :: 0 <= i < |d.y| ==> 1 <= d.y[i] <= m + 1)
  }

  ghost function Objective(e: Elementary, d: Sample, m: nat, p: nat, params: Vec, n: nat): real
    requires IsSample(d, m, p) && |params| == m + p && n <= |d.y|
  {
    if n == 0 then 0.0
    else Objective(e, d, m, p, params, n - 1) + Loss(e, params, m, d.x[n - 1], d.y[n - 1])
  }

  ghost function ScoresOf(e: Elementary, d: Sample, m: nat, p: nat, params: Vec, i: nat): (s: Vec)
    requires IsSample(d, m, p) && |params| == m + p && i < |d.y|
    ensures |s| == m + p
  {
    Scores(Probabilities(e, params, m, d.x[i]), d.x[i], d.y[i])
  }

  ghost function Gradient(e: Elementary, d: Sample, m: nat, p: nat, params: Vec, n: nat): (g: Vec)
    requires IsSample(d, m, p) && |params| == m + p && n <= |d.y|
    ensures |g| == m + p
  {
    if n == 0 then Zeros(m + p)
    else Add(Gradient(e, d, m, p, params, n - 1), ScoresOf(e, d, m, p, params, n - 1))
  }

  function Zeros(n: nat): (z: Vec)
    ensures |z| == n && forall i :: 0 <= i < n ==> z[i] == 0.0
  {
    seq(n, i => 0.0)
  }

  /** Convexity, with the coded gradient as the slope of the coded objective. */
  lemma {:induction false} ObjectiveAboveTangent(e: Elementary, d: Sample, m: nat, p: nat, params: Vec, next: Vec,
                                                 n: nat)
    requires Lawful(e) && IsSample(d, m, p) && |params| == |next| == m + p && n <= |d.y|
    ensures Objective(e, d, m, p, next, n)
         >= Objective(e, d, m, p, params, n) + Dot(Minus(next, params), Gradient(e, d, m, p, params, n))
  {
    hide Lawful, Loss, ScoresOf;
    var step := Minus(next, params);
    if n > 0 {
      ObjectiveAboveTangent(e, d, m, p, params, next, n - 1);
      var s := ScoresOf(e, d, m, p, params, n - 1);
      TangentOf(e, d, m, p, params, next, n - 1);
      DotAdd(step, Gradient(e, d, m, p, params, n - 1), s);
    } else {
      DotWithZero(step, Zeros(m + p));
    }
  }

  lemma TangentOf(e: Elementary, d: Sample, m: nat, p: nat, params: Vec, next: Vec, i: nat)
    requires Lawful(e) && IsSample(d, m, p) && |params| == |next| == m + p && i < |d.y|
    ensures Loss(e, next, m, d.x[i], d.y[i])
         >= Loss(e, params, m, d.x[i], d.y[i]) + Dot(Minus(next, params), ScoresOf(e, d, m, p, params, i))
  {
    hide Lawful, Loss, Dot, Scores;
    LossAboveTangent(e, params, next, m, d.x[i], d.y[i]);
    DotSymmetric(Minus(next, params), ScoresOf(e, d, m, p, params, i));
  }

  /** Parameters with a zero gradient minimise the objective. */
  lemma StationaryIsOptimal(e: Elementary, d: Sample, m: nat, p: nat, params: Vec, next: Vec)
    requires Lawful(e) && IsSample(d, m, p) && |params| == |next| == m + p
    requires Gradient(e, d, m, p, params, |d.y|) == Zeros(m + p)
    ensures Objective(e, d, m, p, params, |d.y|) <= Objective(e, d, m, p, next, |d.y|)
  {
    ObjectiveAboveTangent(e, d, m, p, params, next, |d.y|);
    DotWithZero(Minus(next, params), Zeros(m + p));
  }
}

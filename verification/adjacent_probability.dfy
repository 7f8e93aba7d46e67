/**
 * The objective is the likelihood of the model: the probabilities are the only distribution with the odds of
 * the adjacent-category model, and exp(-objective) is the probability of the observed categories.
 */
module AdjacentProbability {
  import opened Vectors
  import opened AdjacentScores
  import opened LogSumExp
  import opened AdjacentObjective

  /** Neighbouring categories have the odds exp(eta - threshold). */
  ghost predicate HasOdds(e: Elementary, prob: Vec, params: Vec, m: nat, x: Vec)
    requires |params| == m + |x| && |prob| == m + 1
  {
    forall k :: 0 <= k < m ==> prob[k + 1] == Times(prob[k], e.exp(Dot(x, params[m..]) - params[k]))
  }

  lemma ProbabilitiesHaveOdds(e: Elementary, params: Vec, m: nat, x: Vec)
    requires Lawful(e) && |params| == m + |x|
    ensures HasOdds(e, Probabilities(e, params, m, x), params, m, x)
  {
    hide Lawful, LogTotal, LogUnnorm, Dot, Times;
    var u, eta := LogWeights(params, m, x), Dot(x, params[m..]);
    forall k | 0 <= k < m
      ensures Softmax(e, u)[k + 1] == Times(Softmax(e, u)[k], e.exp(eta - params[k]))
    {
      NeighbourLogOdds(params[..m], eta, k);
      ExpOfSum(e, u[k] - LogTotal(e, u), eta - params[k]);
      assert (u[k] - LogTotal(e, u)) + (eta - params[k]) == u[k + 1] - LogTotal(e, u);
    }
  }

  lemma {:induction false} SameRatios(e: Elementary, p: Vec, q: Vec, params: Vec, m: nat, x: Vec, k: nat)
    requires |params| == m + |x| && |p| == |q| == m + 1 && k <= m
    requires HasOdds(e, p, params, m, x) && HasOdds(e, q, params, m, x)
    ensures Times(q[k], p[0]) == Times(p[k], q[0])
  {
    hide Dot;
    if k > 0 {
      hide Times;
      SameRatios(e, p, q, params, m, x, k - 1);
      var c := e.exp(Dot(x, params[m..]) - params[k - 1]);
      assert p[k - 1 + 1] == Times(p[k - 1], c) && q[k - 1 + 1] == Times(q[k - 1], c);
      TimesRearrange(q[k - 1], c, p[0]);
      TimesRearrange(p[k - 1], c, q[0]);
    }
  }

  lemma {:induction false} SameTotals(p: Vec, q: Vec, n: nat)
    requires |p| == |q| && n <= |p| && p != []
    requires forall k :: 0 <= k < |p| ==> Times(q[k], p[0]) == Times(p[k], q[0])
    ensures Times(Mean(q, n, One), p[0]) == Times(Mean(p, n, One), q[0])
  {
    hide Times;
    if n > 0 {
      SameTotals(p, q, n - 1);
      MeanStep(p, n, One, 1.0);
      MeanStep(q, n, One, 1.0);
      TimesOne(p[n - 1]);
      TimesOne(q[n - 1]);
      TimesSum(p[0], Mean(q, n - 1, One), q[n - 1]);
      TimesSum(q[0], Mean(p, n - 1, One), p[n - 1]);
    } else {
      TimesZero(p[0]);
      TimesZero(q[0]);
    }
  }

  /** The model has no other distribution. */
  lemma ProbabilitiesUnique(e: Elementary, params: Vec, m: nat, x: Vec, q: Vec)
    requires Lawful(e) && |params| == m + |x| && |q| == m + 1
    requires IsDistribution(q) && HasOdds(e, q, params, m, x)
    ensures q == Probabilities(e, params, m, x)
  {
    hide Lawful, LogWeights, LogTotal, Mean, HasOdds;
    var p := Probabilities(e, params, m, x);
    SoftmaxIsDistribution(e, LogWeights(params, m, x));
    ProbabilitiesHaveOdds(e, params, m, x);
    forall k | 0 <= k < |p|
      ensures Times(q[k], p[0]) == Times(p[k], q[0])
    {
      SameRatios(e, p, q, params, m, x, k);
    }
    SameTotals(p, q, |p|);
    TimesCommutes(1.0, p[0]);
    TimesCommutes(1.0, q[0]);
    TimesOne(p[0]);
    TimesOne(q[0]);
    ExpBounds(e, LogWeights(params, m, x)[0] - LogTotal(e, LogWeights(params, m, x)));
    forall k | 0 <= k < |p|
      ensures q[k] == p[k]
    {
      Cancel(q[k], p[k], p[0]);
    }
  }

  lemma Cancel(x: real, y: real, c: real)
    requires c > 0.0 && Times(x, c) == Times(y, c)
    ensures x == y
  {
    assert (x - y) * c == 0.0;
  }

  /** One observation: exp(-loss) is the probability of the observed category. */
  lemma LossIsLogProbability(e: Elementary, params: Vec, m: nat, x: Vec, y: nat)
    requires |params| == m + |x| && 1 <= y <= m + 1
    ensures e.exp(-Loss(e, params, m, x, y)) == Probabilities(e, params, m, x)[y - 1]
  {
    hide LogTotal, LogWeights;
    var u := LogWeights(params, m, x);
    assert -Loss(e, params, m, x, y) == u[y - 1] - LogTotal(e, u);
  }

  /** The probability of the first n observed categories. */
  ghost function Likelihood(e: Elementary, d: Sample, m: nat, p: nat, params: Vec, n: nat): real
    requires IsSample(d, m, p) && |params| == m + p && n <= |d.y|
  {
    if n == 0 then 1.0
    else Times(Likelihood(e, d, m, p, params, n - 1), Probabilities(e, params, m, d.x[n - 1])[d.y[n - 1] - 1])
  }

  /** The whole objective is the negative logarithm of the likelihood. */
  lemma {:induction false} ObjectiveIsLogLikelihood(e: Elementary, d: Sample, m: nat, p: nat, params: Vec, n: nat)
    requires Lawful(e) && IsSample(d, m, p) && |params| == m + p && n <= |d.y|
    ensures e.exp(-Objective(e, d, m, p, params, n)) == Likelihood(e, d, m, p, params, n)
  {
    hide Lawful, Loss, Probabilities, Times;
    if n == 0 {
      ExpOfZero(e);
    } else {
      ObjectiveIsLogLikelihood(e, d, m, p, params, n - 1);
      var before, loss := Objective(e, d, m, p, params, n - 1), Loss(e, params, m, d.x[n - 1], d.y[n - 1]);
      ExpOfSum(e, -before, -loss);
      assert (-before) + (-loss) == -Objective(e, d, m, p, params, n);
      LossIsLogProbability(e, params, m, d.x[n - 1], d.y[n - 1]);
    }
  }
}

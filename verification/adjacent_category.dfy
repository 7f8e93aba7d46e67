/** The passes of the adjacent-category likelihood over its buffers, against the sums they stand for. */
module AdjacentCategory {
  import opened Vectors
  import opened AdjacentScores
  import opened AdjacentInformation
  import opened LogSumExp
  import opened AdjacentObjective

  /** The backward recurrence for the unnormalised log-probabilities. */
  method FillLogWeights(alpha: Vec, eta: real, u: array<real>)
    requires u.Length == |alpha| + 1
    modifies u
    ensures u[..] == LogUnnorm(alpha, eta)
  {
    var m := |alpha|;
    u[m] := 0.0;
    var k := m;
    while k > 0
      invariant k <= m && u[k..] == LogUnnorm(alpha[k..], eta)
    {
      k := k - 1;
      assert alpha[k..][1..] == alpha[k + 1..];
      u[k] := u[k + 1] + (alpha[k] - eta);
      assert u[k..] == [u[k]] + u[k + 1..];
    }
  }

  /** Cumulative probabilities and the mean category, in one pass. */
  method CumulatePass(prob: array<real>, cdf: array<real>) returns (ey: real)
    requires prob.Length == cdf.Length + 1 && prob != cdf
    modifies cdf
    ensures ey == ExpectedY(prob[..]) && forall j :: 0 <= j < cdf.Length ==> cdf[j] == Cdf(prob[..], j)
  {
    var running := 0.0;
    ey := 0.0;
    for k := 0 to prob.Length
      invariant k < prob.Length ==> running == Mean(prob[..], k, One)
      invariant ey == Mean(prob[..], k, Value)
      invariant forall j :: 0 <= j < k && j < cdf.Length ==> cdf[j] == Cdf(prob[..], j)
    {
      ey := ey + (k + 1) as real * prob[k];
      if k < cdf.Length {
        running := running + prob[k];
        cdf[k] := running;
      }
    }
  }

  /** The observed category splits the thresholds; no test inside the loops. */
  method AddThresholdScores(grad: array<real>, cdf: array<real>, y: nat)
    requires cdf.Length <= grad.Length && cdf != grad && 1 <= y <= cdf.Length + 1
    modifies grad
    ensures forall j :: 0 <= j < cdf.Length ==>
              grad[j] == old(grad[j]) + (if j < y - 1 then cdf[j] else -(1.0 - cdf[j]))
    ensures forall j :: cdf.Length <= j < grad.Length ==> grad[j] == old(grad[j])
  {
    var split := y - 1;
    for j := 0 to split
      invariant forall i :: 0 <= i < j ==> grad[i] == old(grad[i]) + cdf[i]
      invariant forall i :: j <= i < grad.Length ==> grad[i] == old(grad[i])
    {
      grad[j] := grad[j] + cdf[j];
    }
    for j := split to cdf.Length
      invariant forall i :: 0 <= i < split ==> grad[i] == old(grad[i]) + cdf[i]
      invariant forall i :: split <= i < j ==> grad[i] == old(grad[i]) - (1.0 - cdf[i])
      invariant forall i :: j <= i < grad.Length ==> grad[i] == old(grad[i])
    {
      grad[j] := grad[j] - (1.0 - cdf[j]);
    }
  }

  method AddCovariateScores(grad: array<real>, m: nat, x: Vec, ahead: real)
    requires grad.Length == m + |x|
    modifies grad
    ensures forall j :: 0 <= j < m ==> grad[j] == old(grad[j])
    ensures forall b :: m <= b < m + |x| ==> grad[b] == old(grad[b]) - x[b - m] * ahead
  {
    for b := 0 to |x|
      invariant forall j :: 0 <= j < m ==> grad[j] == old(grad[j])
      invariant forall c :: m <= c < m + b ==> grad[c] == old(grad[c]) - x[c - m] * ahead
      invariant forall c :: m + b <= c < m + |x| ==> grad[c] == old(grad[c])
    {
      grad[m + b] := grad[m + b] - x[b] * ahead;
    }
  }

  /** Both parts of the score vector of one observation. */
  method AddScores(grad: array<real>, prob: array<real>, cdf: array<real>, x: Vec, y: nat)
    requires prob.Length == cdf.Length + 1 && grad.Length == cdf.Length + |x| && 1 <= y <= prob.Length
    requires grad != prob && grad != cdf && prob != cdf
    modifies grad, cdf
    ensures grad[..] == Add(old(grad[..]), Scores(prob[..], x, y))
  {
    hide Mean, ExpectedY, Cdf;
    var ey := CumulatePass(prob, cdf);
    AddThresholdScores(grad, cdf, y);
    AddCovariateScores(grad, cdf.Length, x, y as real - ey);
    ghost var target := Add(old(grad[..]), Scores(prob[..], x, y));
    assert forall j :: 0 <= j < cdf.Length ==> grad[j] == target[j];
    assert forall b :: cdf.Length <= b < grad.Length ==> grad[b] == target[b];
    assert grad[..] == target;
  }

  /** Scratch buffers reused across observations. */
  datatype Buffers = Buffers(u: array<real>, prob: array<real>, cdf: array<real>)

  ghost predicate Fits(b: Buffers, m: nat) {
    b.u.Length == m + 1 && b.prob.Length == m + 1 && b.cdf.Length == m
    && b.u != b.prob && b.u != b.cdf && b.prob != b.cdf
  }

  method AddObservation(e: Elementary, params: Vec, m: nat, x: Vec, y: nat, b: Buffers, grad: array<real>)
    returns (loss: real)
    requires |params| == grad.Length == m + |x| && 1 <= y <= m + 1
    requires Fits(b, m) && grad != b.u && grad != b.prob && grad != b.cdf
    modifies grad, b.u, b.prob, b.cdf
    ensures grad[..] == Add(old(grad[..]), Scores(Probabilities(e, params, m, x), x, y))
    ensures loss == Loss(e, params, m, x, y)
  {
    hide LogTotal, Scores;
    FillLogWeights(params[..m], Predictor(params, m, x), b.u);
    assert b.u[..] == LogWeights(params, m, x);
    var logTotal := Normalise(e, b.u, b.prob);
    loss := -(b.u[y - 1] - logTotal);
    AddScores(grad, b.prob, b.cdf, x, y);
  }

  /** `operator()`: the objective, and its gradient into `grad`. */
  method ValueAndGradient(e: Elementary, d: Sample, m: nat, p: nat, params: Vec, grad: array<real>)
    returns (negLL: real)
    requires IsSample(d, m, p) && |params| == grad.Length == m + p
    modifies grad
    ensures negLL == Objective(e, d, m, p, params, |d.y|)
    ensures grad[..] == Gradient(e, d, m, p, params, |d.y|)
  {
    hide Loss, Scores, Probabilities;
    for j := 0 to grad.Length
      invariant forall i :: 0 <= i < j ==> grad[i] == 0.0
    {
      grad[j] := 0.0;
    }
    assert grad[..] == Zeros(m + p);
    negLL := 0.0;
    var u, prob, cdf := new real[m + 1], new real[m + 1], new real[m];
    var b := Buffers(u, prob, cdf);
    for i := 0 to |d.y|
      invariant negLL == Objective(e, d, m, p, params, i)
      invariant grad[..] == Gradient(e, d, m, p, params, i)
    {
      var loss := AddObservation(e, params, m, d.x[i], d.y[i], b, grad);
      negLL := negLL + loss;
    }
  }
}

/** The block-wise accumulation of the Hessian, against the summed entries of its observations. */
module AdjacentHessian {
  import opened Vectors
  import opened AdjacentScores
  import opened AdjacentInformation
  import opened LogSumExp
  import opened AdjacentObjective
  import opened AdjacentCategory

  /** The quantities of one observation from which all blocks are built. */
  datatype Moments = Moments(cdf: Vec, prefix: Vec, ey: real, variance: real)

  ghost predicate MomentsOf(q: Moments, prob: Vec)
    requires prob != []
  {
    && |q.cdf| == |q.prefix| == Thresholds(prob)
    && (forall j :: 0 <= j < |q.cdf| ==> q.cdf[j] == Cdf(prob, j))
    && (forall j :: 0 <= j < |q.prefix| ==> q.prefix[j] == PrefixMoment(prob, j))
    && q.ey == ExpectedY(prob) && q.variance == VarianceY(prob)
  }

  method MomentPass(prob: array<real>, cdf: array<real>, prefix: array<real>) returns (ey: real, ey2: real)
    requires prob.Length == cdf.Length + 1 == prefix.Length + 1
    requires prob != cdf && prob != prefix && cdf != prefix
    modifies cdf, prefix
    ensures ey == ExpectedY(prob[..]) && ey2 == Mean(prob[..], prob.Length, Square)
    ensures forall j :: 0 <= j < cdf.Length ==> cdf[j] == Cdf(prob[..], j)
    ensures forall j :: 0 <= j < prefix.Length ==> prefix[j] == PrefixMoment(prob[..], j)
  {
    var running, moment := 0.0, 0.0;
    ey, ey2 := 0.0, 0.0;
    for k := 0 to prob.Length
      invariant RunningSums(prob[..], k, ey, ey2, running, moment)
      invariant forall j :: 0 <= j < k && j < cdf.Length ==> cdf[j] == Cdf(prob[..], j)
      invariant forall j :: 0 <= j < k && j < cdf.Length ==> prefix[j] == PrefixMoment(prob[..], j)
    {
      hide Mean, RunningSums, Cdf, PrefixMoment, ExpectedY;
      RunningSumsStep(prob[..], k, ey, ey2, running, moment);
      var y := (k + 1) as real;
      ey := ey + y * prob[k];
      ey2 := ey2 + y * y * prob[k];
      if k < cdf.Length {
        running := running + prob[k];
        moment := moment + y * prob[k];
        StorePrefix(cdf, prefix, k, running, moment);
      }
    }
  }

  method StorePrefix(cdf: array<real>, prefix: array<real>, k: nat, running: real, moment: real)
    requires k < cdf.Length == prefix.Length && cdf != prefix
    modifies cdf, prefix
    ensures cdf[k] == running && prefix[k] == moment
    ensures forall j :: 0 <= j < cdf.Length && j != k ==> cdf[j] == old(cdf[j]) && prefix[j] == old(prefix[j])
  {
    cdf[k] := running;
    prefix[k] := moment;
  }

  /** The running sums after k categories; the last category leaves the two prefix sums alone. */
  ghost predicate RunningSums(prob: Vec, k: nat, ey: real, ey2: real, running: real, moment: real)
    requires k <= |prob|
  {
    && ey == Mean(prob, k, Value) && ey2 == Mean(prob, k, Square)
    && (k < |prob| ==> running == Mean(prob, k, One) && moment == Mean(prob, k, Value))
  }

  lemma RunningSumsStep(prob: Vec, k: nat, ey: real, ey2: real, running: real, moment: real)
    requires k < |prob| && RunningSums(prob, k, ey, ey2, running, moment)
    ensures var y, p := (k + 1) as real, prob[k];
            && (k + 1 < |prob| ==>
                  && RunningSums(prob, k + 1, ey + y * p, ey2 + y * y * p, running + p, moment + y * p)
                  && running + p == Cdf(prob, k) && moment + y * p == PrefixMoment(prob, k))
            && (k + 1 == |prob| ==> RunningSums(prob, k + 1, ey + y * p, ey2 + y * y * p, running, moment))
  {
    var y := (k + 1) as real;
    MeanStep(prob, k + 1, Value, y);
    MeanStep(prob, k + 1, Square, y * y);
    Commutes(y, prob[k]);
  }

  lemma Commutes(y: real, p: real)
    ensures y * p == Times(p, y) && y * y * p == Times(p, y * y)
  {}

  // One block at a time.

  function ThresholdCell(cdf: Vec, a: nat, b: nat): real
    requires a < |cdf| && b < |cdf|
  {
    if a <= b then cdf[a] * (1.0 - cdf[b]) else cdf[b] * (1.0 - cdf[a])
  }

  function MixedCell(q: Moments, x: Vec, j: nat, b: nat): real
    requires j < |q.cdf| == |q.prefix| && b < |x|
  {
    (q.prefix[j] - q.ey * q.cdf[j]) * x[b]
  }

  /** Row r, column c of the coefficients' block, r <= c. */
  function CovariateCell(variance: real, x: Vec, r: nat, c: nat): real
    requires r < |x| && c < |x|
  {
    variance * x[c] * x[r]
  }

  method AddThresholdRow(hess: array2<real>, cdf: array<real>, j: nat)
    requires j < cdf.Length <= hess.Length0 == hess.Length1
    modifies hess
    ensures forall a, b :: 0 <= a < hess.Length0 && 0 <= b < hess.Length1 ==>
              hess[a, b] == old(hess[a, b])
                + if (a == j <= b < cdf.Length) || (b == j <= a < cdf.Length) then ThresholdCell(cdf[..], a, b) else 0.0
  {
    for k := j to cdf.Length
      invariant forall a, b :: 0 <= a < hess.Length0 && 0 <= b < hess.Length1 ==>
                  hess[a, b] == old(hess[a, b])
                    + if (a == j <= b < k) || (b == j <= a < k) then ThresholdCell(cdf[..], a, b) else 0.0
    {
      var cell := cdf[j] * (1.0 - cdf[k]);
      hess[j, k] := hess[j, k] + cell;
      if j != k { hess[k, j] := hess[k, j] + cell; }
    }
  }

  method AddThresholdBlock(hess: array2<real>, cdf: array<real>)
    requires cdf.Length <= hess.Length0 == hess.Length1
    modifies hess
    ensures forall a, b :: 0 <= a < hess.Length0 && 0 <= b < hess.Length1 ==>
              hess[a, b] == old(hess[a, b])
                + if a < cdf.Length && b < cdf.Length then ThresholdCell(cdf[..], a, b) else 0.0
  {
    hide ThresholdCell;
    for j := 0 to cdf.Length
      invariant forall a, b :: 0 <= a < hess.Length0 && 0 <= b < hess.Length1 ==>
                  hess[a, b] == old(hess[a, b])
                    + if a < cdf.Length && b < cdf.Length && (a < j || b < j) then ThresholdCell(cdf[..], a, b) else 0.0
    {
      AddThresholdRow(hess, cdf, j);
    }
  }

  method AddMixedRow(hess: array2<real>, q: Moments, x: Vec, j: nat)
    requires j < |q.cdf| == |q.prefix| && hess.Length0 == hess.Length1 == |q.cdf| + |x|
    modifies hess
    ensures forall a, b :: 0 <= a < hess.Length0 && 0 <= b < hess.Length1 ==>
              hess[a, b] == old(hess[a, b])
                + if a == j && b >= |q.cdf| then MixedCell(q, x, j, b - |q.cdf|)
                  else if b == j && a >= |q.cdf| then MixedCell(q, x, j, a - |q.cdf|)
                  else 0.0
  {
    var m := |q.cdf|;
    var covariance := q.prefix[j] - q.ey * q.cdf[j];
    for k := 0 to |x|
      invariant forall a, b :: 0 <= a < hess.Length0 && 0 <= b < hess.Length1 ==>
                  hess[a, b] == old(hess[a, b])
                    + if a == j && m <= b < m + k then MixedCell(q, x, j, b - m)
                      else if b == j && m <= a < m + k then MixedCell(q, x, j, a - m)
                      else 0.0
    {
      var cell := covariance * x[k];
      hess[j, m + k] := hess[j, m + k] + cell;
      hess[m + k, j] := hess[m + k, j] + cell;
    }
  }

  method AddMixedBlock(hess: array2<real>, q: Moments, x: Vec)
    requires |q.cdf| == |q.prefix| && hess.Length0 == hess.Length1 == |q.cdf| + |x|
    modifies hess
    ensures forall a, b :: 0 <= a < hess.Length0 && 0 <= b < hess.Length1 ==>
              hess[a, b] == old(hess[a, b])
                + if a < |q.cdf| <= b then MixedCell(q, x, a, b - |q.cdf|)
                  else if b < |q.cdf| <= a then MixedCell(q, x, b, a - |q.cdf|)
                  else 0.0
  {
    hide MixedCell;
    for j := 0 to |q.cdf|
      invariant forall a, b :: 0 <= a < hess.Length0 && 0 <= b < hess.Length1 ==>
                  hess[a, b] == old(hess[a, b])
                    + if a < j && |q.cdf| <= b then MixedCell(q, x, a, b - |q.cdf|)
                      else if b < j && |q.cdf| <= a then MixedCell(q, x, b, a - |q.cdf|)
                      else 0.0
    {
      AddMixedRow(hess, q, x, j);
    }
  }

  method AddCovariateColumn(hess: array2<real>, m: nat, variance: real, x: Vec, c: nat)
    requires c < |x| && hess.Length0 == hess.Length1 == m + |x|
    modifies hess
    ensures forall a, b :: 0 <= a < hess.Length0 && 0 <= b < hess.Length1 ==>
              hess[a, b] == old(hess[a, b])
                + if b == m + c && m <= a <= b then CovariateCell(variance, x, a - m, c) else 0.0
  {
    var s := variance * x[c];
    for r := 0 to c + 1
      invariant forall a, b :: 0 <= a < hess.Length0 && 0 <= b < hess.Length1 ==>
                  hess[a, b] == old(hess[a, b])
                    + if b == m + c && m <= a < m + r then CovariateCell(variance, x, a - m, c) else 0.0
    {
      hess[m + r, m + c] := hess[m + r, m + c] + s * x[r];
    }
  }

  /** Only the upper triangle, diagonal included. */
  method AddCovariateBlock(hess: array2<real>, m: nat, variance: real, x: Vec)
    requires hess.Length0 == hess.Length1 == m + |x|
    modifies hess
    ensures forall a, b :: 0 <= a < hess.Length0 && 0 <= b < hess.Length1 ==>
              hess[a, b] == old(hess[a, b])
                + if m <= a <= b then CovariateCell(variance, x, a - m, b - m) else 0.0
  {
    hide CovariateCell;
    for c := 0 to |x|
      invariant forall a, b :: 0 <= a < hess.Length0 && 0 <= b < hess.Length1 ==>
                  hess[a, b] == old(hess[a, b])
                    + if m <= a <= b < m + c then CovariateCell(variance, x, a - m, b - m) else 0.0
    {
      AddCovariateColumn(hess, m, variance, x, c);
    }
  }

  // One observation, then all of them.

  /** The coefficients' lower triangle is left for the final mirroring. */
  predicate Accumulated(m: nat, a: nat, b: nat) { a < m || b < m || a <= b }

  method AddBlocks(hess: array2<real>, cdf: array<real>, q: Moments, x: Vec)
    requires q.cdf == cdf[..] && |q.cdf| == |q.prefix| && hess.Length0 == hess.Length1 == |q.cdf| + |x|
    modifies hess
    ensures forall a, b :: 0 <= a < hess.Length0 && 0 <= b < hess.Length1 ==>
              hess[a, b] == old(hess[a, b]) + BlockCell(q, x, a, b)
  {
    hide ThresholdCell, MixedCell, CovariateCell;
    AddThresholdBlock(hess, cdf);
    AddMixedBlock(hess, q, x);
    AddCovariateBlock(hess, cdf.Length, q.variance, x);
  }

  function BlockCell(q: Moments, x: Vec, a: nat, b: nat): real
    requires |q.cdf| == |q.prefix| && a < |q.cdf| + |x| && b < |q.cdf| + |x|
  {
    var m := |q.cdf|;
    if a < m && b < m then ThresholdCell(q.cdf, a, b)
    else if a < m then MixedCell(q, x, a, b - m)
    else if b < m then MixedCell(q, x, b, a - m)
    else if a <= b then CovariateCell(q.variance, x, a - m, b - m)
    else 0.0
  }

  lemma BlockCellIsEntry(q: Moments, prob: Vec, x: Vec, a: nat, b: nat)
    requires prob != [] && MomentsOf(q, prob) && a < Thresholds(prob) + |x| && b < Thresholds(prob) + |x|
    ensures BlockCell(q, x, a, b) == if Accumulated(Thresholds(prob), a, b) then HessianEntry(prob, x, a, b) else 0.0
  {
    hide Cdf, PrefixMoment, ExpectedY, VarianceY;
  }

  /** Everything the blocks need from one observation. */
  method ObservationMoments(e: Elementary, params: Vec, m: nat, x: Vec, b: Buffers, prefix: array<real>)
    returns (q: Moments)
    requires Lawful(e) && |params| == m + |x|
    requires Fits(b, m) && prefix.Length == m && prefix != b.u && prefix != b.prob && prefix != b.cdf
    modifies b.u, b.prob, b.cdf, prefix
    ensures MomentsOf(q, Probabilities(e, params, m, x)) && q.cdf == b.cdf[..]
  {
    hide Lawful, LogTotal, Softmax, Mean, Cdf, PrefixMoment, ExpectedY;
    FillLogWeights(params[..m], Predictor(params, m, x), b.u);
    assert b.u[..] == LogWeights(params, m, x);
    var _ := Normalise(e, b.u, b.prob);
    SoftmaxIsDistribution(e, b.u[..]);
    VarianceNeverClamped(b.prob[..]);
    var ey, ey2 := MomentPass(b.prob, b.cdf, prefix);
    var variance := if ey2 - ey * ey > 0.0 then ey2 - ey * ey else 0.0;
    q := Moments(b.cdf[..], prefix[..], ey, variance);
  }

  method AddInformation(e: Elementary, params: Vec, m: nat, x: Vec, b: Buffers, prefix: array<real>, hess: array2<real>)
    requires Lawful(e) && |params| == hess.Length0 == hess.Length1 == m + |x|
    requires Fits(b, m) && prefix.Length == m && prefix != b.u && prefix != b.prob && prefix != b.cdf
    modifies hess, b.u, b.prob, b.cdf, prefix
    ensures forall a, c :: 0 <= a < m + |x| && 0 <= c < m + |x| ==>
              hess[a, c] == old(hess[a, c])
                + if Accumulated(m, a, c) then HessianEntry(Probabilities(e, params, m, x), x, a, c) else 0.0
  {
    hide Lawful, Probabilities, MomentsOf, HessianEntry, BlockCell, Accumulated;
    var q := ObservationMoments(e, params, m, x, b, prefix);
    ghost var prob := Probabilities(e, params, m, x);
    MomentsLengths(q, prob);
    AddBlocks(hess, b.cdf, q, x);
    forall a: nat, c: nat | a < m + |x| && c < m + |x|
      ensures BlockCell(q, x, a, c) == if Accumulated(m, a, c) then HessianEntry(prob, x, a, c) else 0.0
    {
      BlockCellIsEntry(q, prob, x, a, c);
    }
  }

  lemma MomentsLengths(q: Moments, prob: Vec)
    requires prob != [] && MomentsOf(q, prob)
    ensures |q.cdf| == |q.prefix| == Thresholds(prob)
  {}

  ghost function Observations(e: Elementary, d: Sample, m: nat, p: nat, params: Vec, n: nat): (obs: seq<Observation>)
    requires IsSample(d, m, p) && |params| == m + p && n <= |d.y|
    ensures |obs| == n
    ensures forall i :: 0 <= i < n ==> obs[i] == Observation(Probabilities(e, params, m, d.x[i]), d.x[i])
  {
    seq(n, i requires 0 <= i < n => Observation(Probabilities(e, params, m, d.x[i]), d.x[i]))
  }

  lemma ObservationsSound(e: Elementary, d: Sample, m: nat, p: nat, params: Vec, n: nat)
    requires Lawful(e) && IsSample(d, m, p) && |params| == m + p && n <= |d.y|
    ensures Sound(Observations(e, d, m, p, params, n), m, p)
  {
    hide Lawful, IsDistribution, Softmax;
    forall i | 0 <= i < n
      ensures IsDistribution(Probabilities(e, params, m, d.x[i]))
    {
      SoftmaxIsDistribution(e, LogWeights(params, m, d.x[i]));
    }
  }

  ghost function Information(e: Elementary, d: Sample, m: nat, p: nat, params: Vec, n: nat, a: nat, b: nat): real
    requires Lawful(e) && IsSample(d, m, p) && |params| == m + p && n <= |d.y| && a < m + p && b < m + p
  {
    ObservationsSound(e, d, m, p, params, n);
    TotalEntry(Observations(e, d, m, p, params, n), m, p, a, b)
  }

  lemma InformationStep(e: Elementary, d: Sample, m: nat, p: nat, params: Vec, n: nat, a: nat, b: nat)
    requires Lawful(e) && IsSample(d, m, p) && |params| == m + p && n < |d.y| && a < m + p && b < m + p
    ensures Information(e, d, m, p, params, n + 1, a, b)
         == Information(e, d, m, p, params, n, a, b)
            + HessianEntry(Probabilities(e, params, m, d.x[n]), d.x[n], a, b)
  {
    hide Lawful, IsDistribution, Probabilities, HessianEntry;
    var obs := Observations(e, d, m, p, params, n + 1);
    ObservationsSound(e, d, m, p, params, n + 1);
    assert obs[..n] == Observations(e, d, m, p, params, n);
  }

  /** The last loops copy the coefficients' upper triangle below the diagonal. */
  method Mirror(hess: array2<real>, m: nat, p: nat)
    requires hess.Length0 == hess.Length1 == m + p
    modifies hess
    ensures forall a, b :: 0 <= a < m + p && 0 <= b < m + p ==>
              hess[a, b] == if Accumulated(m, a, b) then old(hess[a, b]) else old(hess[b, a])
  {
    for c := 0 to p
      invariant forall a, b :: 0 <= a < m + p && 0 <= b < m + p ==>
                  hess[a, b] == if Accumulated(m, a, b) || a >= m + c then old(hess[a, b]) else old(hess[b, a])
    {
      for r := 0 to c
        invariant forall a, b :: 0 <= a < m + p && 0 <= b < m + p ==>
                    hess[a, b] ==
                      if Accumulated(m, a, b) || a > m + c || (a == m + c && b >= m + r) then old(hess[a, b])
                      else old(hess[b, a])
      {
        hess[m + c, m + r] := hess[m + r, m + c];
      }
    }
  }

  /** `hessian`: every entry is the expected outer product of the scores, summed over the sample. */
  method Hessian(e: Elementary, d: Sample, m: nat, p: nat, params: Vec) returns (hess: array2<real>)
    requires Lawful(e) && IsSample(d, m, p) && |params| == m + p
    ensures hess.Length0 == hess.Length1 == m + p
    ensures forall a, b :: 0 <= a < m + p && 0 <= b < m + p ==>
              hess[a, b] == Information(e, d, m, p, params, |d.y|, a, b)
  {
    hide Lawful, HessianEntry, Probabilities, Accumulated, Information;
    hess := new real[m + p, m + p]((_, _) => 0.0);
    var u, prob, cdf, prefix := new real[m + 1], new real[m + 1], new real[m], new real[m];
    var buffers := Buffers(u, prob, cdf);
    InformationStart(e, d, m, p, params);
    for i := 0 to |d.y|
      invariant forall a, b :: 0 <= a < m + p && 0 <= b < m + p ==>
                  hess[a, b] == if Accumulated(m, a, b) then Information(e, d, m, p, params, i, a, b) else 0.0
    {
      AddInformation(e, params, m, d.x[i], buffers, prefix, hess);
      forall a: nat, b: nat | a < m + p && b < m + p
        ensures Information(e, d, m, p, params, i + 1, a, b)
             == Information(e, d, m, p, params, i, a, b)
                + HessianEntry(Probabilities(e, params, m, d.x[i]), d.x[i], a, b)
      {
        InformationStep(e, d, m, p, params, i, a, b);
      }
    }
    Mirror(hess, m, p);
    forall a: nat, b: nat | a < m + p && b < m + p
      ensures Information(e, d, m, p, params, |d.y|, a, b) == Information(e, d, m, p, params, |d.y|, b, a)
      ensures Accumulated(m, a, b) || Accumulated(m, b, a)
    {
      InformationSymmetric(e, d, m, p, params, a, b);
    }
  }

  lemma InformationStart(e: Elementary, d: Sample, m: nat, p: nat, params: Vec)
    requires Lawful(e) && IsSample(d, m, p) && |params| == m + p
    ensures forall a, b :: 0 <= a < m + p && 0 <= b < m + p ==> Information(e, d, m, p, params, 0, a, b) == 0.0
  {}

  lemma InformationSymmetric(e: Elementary, d: Sample, m: nat, p: nat, params: Vec, a: nat, b: nat)
    requires Lawful(e) && IsSample(d, m, p) && |params| == m + p && a < m + p && b < m + p
    ensures Information(e, d, m, p, params, |d.y|, a, b) == Information(e, d, m, p, params, |d.y|, b, a)
    ensures Accumulated(m, a, b) || Accumulated(m, b, a)
  {
    hide Lawful;
    ObservationsSound(e, d, m, p, params, |d.y|);
    TotalSymmetric(Observations(e, d, m, p, params, |d.y|), m, p, a, b);
  }

  /** At every parameter vector the Hessian is nonnegative along every direction. */
  lemma ObjectiveCurvesUp(e: Elementary, d: Sample, m: nat, p: nat, params: Vec, hess: Mat, v: Vec)
    requires Lawful(e) && IsSample(d, m, p) && |params| == |v| == m + p && IsMat(hess, m + p, m + p)
    requires forall a, b :: 0 <= a < m + p && 0 <= b < m + p ==>
               hess[a][b] == Information(e, d, m, p, params, |d.y|, a, b)
    ensures Quadratic(hess, v) >= 0.0
  {
    hide Lawful;
    ObservationsSound(e, d, m, p, params, |d.y|);
    var obs := Observations(e, d, m, p, params, |d.y|);
    HessianNonnegative(obs, m, p, v);
    assert forall a :: 0 <= a < m + p ==> hess[a] == Total(obs, m, p)[a];
    assert hess == Total(obs, m, p);
  }
}

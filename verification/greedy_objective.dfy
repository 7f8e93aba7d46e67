/** The balance criterion of the greedy search: from scratch, and after one exchange. */
module GreedyObjective {
  import opened Vectors
  import opened TreatmentArms

  /** 2w - 1. */
  function Signs(w: seq<int>): (u: Vec)
    ensures |u| == |w| && forall i :: 0 <= i < |w| ==> u[i] == 2.0 * w[i] as real - 1.0
  {
    seq(|w|, i requires 0 <= i < |w| => 2.0 * w[i] as real - 1.0)
  }

  ghost predicate Fits(m: Mat, w: seq<int>) { forall r :: 0 <= r < |m| ==> |m[r]| == |w| }

  /** d = M (2w - 1). */
  function Criterion(m: Mat, w: seq<int>): Vec
    requires Fits(m, w)
  {
    MatVec(m, Signs(w))
  }

  /** The sum of absolute differences, or the squared (Mahalanobis) norm. */
  function Norm(absMode: bool, d: Vec): real { if absMode then SumAbs(d) else Dot(d, d) }

  /** The objective of an allocation, recomputed from scratch. */
  function Objective(absMode: bool, m: Mat, w: seq<int>): real
    requires Fits(m, w)
  {
    Norm(absMode, Criterion(m, w))
  }

  /** 2 (M_j - M_i). */
  function Delta(m: Mat, i: nat, j: nat): (e: Vec)
    requires forall r :: 0 <= r < |m| ==> i < |m[r]| && j < |m[r]|
    ensures |e| == |m|
  {
    Scale(2.0, Add(Column(m, j), Scale(-1.0, Column(m, i))))
  }

  /** The objective after an exchange as the code computes it from the caches `d` and `f`. */
  function Candidate(absMode: bool, d: Vec, f: real, delta: Vec): real
    requires |d| == |delta|
  {
    if absMode then SumAbs(Add(d, delta)) else f + 2.0 * Dot(d, delta) + Dot(delta, delta)
  }

  lemma CriterionExchange(m: Mat, w: seq<int>, i: nat, j: nat)
    requires Fits(m, w) && CanExchange(w, i, j)
    ensures Criterion(m, Exchange(w, i, j)) == Add(Criterion(m, w), Delta(m, i, j))
  {
    var u := Signs(w);
    assert Signs(Exchange(w, i, j)) == u[i := -1.0][j := 1.0];
    forall r | 0 <= r < |m|
      ensures Dot(m[r], u[i := -1.0][j := 1.0]) == Dot(m[r], u) + 2.0 * (m[r][j] - m[r][i])
    {
      DotSymmetric(m[r], u);
      DotSymmetric(m[r], u[i := -1.0][j := 1.0]);
      DotUpdate(u, m[r], i, -1.0);
      DotUpdate(u[i := -1.0], m[r], j, 1.0);
    }
  }

  /** The incremental formula is exact: it is the objective of the exchanged allocation. */
  lemma CandidateIsExact(absMode: bool, m: Mat, w: seq<int>, i: nat, j: nat)
    requires Fits(m, w) && CanExchange(w, i, j)
    ensures Candidate(absMode, Criterion(m, w), Objective(absMode, m, w), Delta(m, i, j))
         == Objective(absMode, m, Exchange(w, i, j))
  {
    CriterionExchange(m, w, i, j);
    SquaredNormOfSum(Criterion(m, w), Delta(m, i, j));
  }

  // The claim about unequal arms: with centred covariates the criterion is a fixed positive
  // multiple of half the difference of arm means, so both rank allocations alike.

  function Sum(u: Vec): real { if u == [] then 0.0 else u[0] + Sum(u[1..]) }

  ghost predicate RowsSumToZero(m: Mat) { forall r :: 0 <= r < |m| ==> Sum(m[r]) == 0.0 }

  /** The mean of the entries of `u` over the units with w = v, given that there are `k` of them. */
  function ArmMean(u: Vec, w: seq<int>, v: int, k: nat): real
    requires |u| == |w| && k > 0
  {
    ArmSum(u, w, v) / k as real
  }

  function ArmSum(u: Vec, w: seq<int>, v: int): real
    requires |u| == |w|
  {
    if u == [] then 0.0 else (if w[0] == v then u[0] else 0.0) + ArmSum(u[1..], w[1..], v)
  }

  /** Half the difference of the arm means of every criterion row. */
  function HalfMeanDifference(m: Mat, w: seq<int>, nT: nat): (d: Vec)
    requires Fits(m, w) && 0 < nT < |w|
    ensures |d| == |m|
    ensures forall r :: 0 <= r < |m| ==>
              d[r] == 0.5 * (ArmMean(m[r], w, 1, nT) - ArmMean(m[r], w, 0, |w| - nT))
  {
    seq(|m|, r requires 0 <= r < |m| => 0.5 * (ArmMean(m[r], w, 1, nT) - ArmMean(m[r], w, 0, |w| - nT)))
  }

  lemma {:induction false} ArmSums(u: Vec, w: seq<int>)
    requires |u| == |w| && IsAllocation(w)
    ensures ArmSum(u, w, 1) + ArmSum(u, w, 0) == Sum(u)
    ensures ArmSum(u, w, 1) - ArmSum(u, w, 0) == Dot(u, Signs(w))
  {
    if u != [] {
      assert Signs(w)[1..] == Signs(w[1..]);
      ArmSums(u[1..], w[1..]);
    }
  }

  /** (1/2) (1/n_T + 1/n_C) / 2, the factor between the two criteria. */
  function ArmFactor(n: nat, nT: nat): (c: real)
    requires 0 < nT < n
    ensures c > 0.0
  {
    0.25 * (1.0 / nT as real + 1.0 / (n - nT) as real)
  }

  lemma ArmFactorApplies(s: real, d: real, nT: real, nC: real)
    requires nT > 0.0 && nC > 0.0 && d == 2.0 * s
    ensures 0.5 * (s / nT - (-s) / nC) == 0.25 * (1.0 / nT + 1.0 / nC) * d
  {
    assert s / nT == s * (1.0 / nT);
    assert (-s) / nC == -s * (1.0 / nC);
    Distribute(s, 1.0 / nT, 1.0 / nC);
  }

  lemma MeanDifferenceIsScaledCriterion(m: Mat, w: seq<int>, nT: nat)
    requires Fits(m, w) && IsAllocation(w) && RowsSumToZero(m) && 0 < nT < |w|
    ensures HalfMeanDifference(m, w, nT) == Scale(ArmFactor(|w|, nT), Criterion(m, w))
  {
    hide Scale, Times, ArmFactor, ArmMean, Dot, Sum, Signs;
    forall r | 0 <= r < |m|
      ensures HalfMeanDifference(m, w, nT)[r] == Scale(ArmFactor(|w|, nT), Criterion(m, w))[r]
    {
      RowDifference(m[r], w, nT);
      ScaleTimes(ArmFactor(|w|, nT), Criterion(m, w), r);
    }
  }

  lemma RowDifference(u: Vec, w: seq<int>, nT: nat)
    requires |u| == |w| && IsAllocation(w) && Sum(u) == 0.0 && 0 < nT < |w|
    ensures 0.5 * (ArmMean(u, w, 1, nT) - ArmMean(u, w, 0, |w| - nT)) == Times(ArmFactor(|w|, nT), Dot(u, Signs(w)))
  {
    hide ArmSum, Dot, Sum, Signs;
    ArmSums(u, w);
    var s := ArmSum(u, w, 1);
    assert ArmSum(u, w, 0) == -s;
    ArmFactorApplies(s, Dot(u, Signs(w)), nT as real, (|w| - nT) as real);
  }

  lemma Associate(x: real, y: real, z: real)
    ensures x * (y * z) == (x * y) * z
  {}

  lemma TimesPositive(x: real, y: real)
    requires x > 0.0 && y > 0.0
    ensures Times(x, y) > 0.0
  {}

  /** How a positive factor on the criterion acts on its norm. */
  function NormFactor(absMode: bool, c: real): real { if absMode then c else Times(c, c) }

  lemma NormFactorPositive(absMode: bool, c: real)
    requires c > 0.0
    ensures NormFactor(absMode, c) > 0.0
  {
    TimesPositive(c, c);
  }

  lemma NormScale(absMode: bool, c: real, d: Vec)
    requires c > 0.0
    ensures Norm(absMode, Scale(c, d)) == NormFactor(absMode, c) * Norm(absMode, d)
  {
    hide Dot, SumAbs, Scale;
    SumAbsScale(c, d);
    DotScale(Scale(c, d), c, d);
    DotSymmetric(Scale(c, d), d);
    DotScale(d, c, d);
    Associate(c, c, Dot(d, d));
  }

  lemma PositiveFactorRanks(c: real, x: real, y: real)
    requires c > 0.0
    ensures c * x < c * y <==> x < y
  {
    assert c * y - c * x == c * (y - x);
    if x < y { assert c * (y - x) > 0.0; } else { assert c * (y - x) <= 0.0; }
  }

  /** Every accept decision is the one the general n_T-weighted criterion would take. */
  lemma SameDecisions(absMode: bool, m: Mat, v: seq<int>, w: seq<int>, nT: nat)
    requires |v| == |w| && Fits(m, v) && Fits(m, w) && IsAllocation(v) && IsAllocation(w)
    requires RowsSumToZero(m) && 0 < nT < |w|
    ensures Objective(absMode, m, v) < Objective(absMode, m, w)
       <==> Norm(absMode, HalfMeanDifference(m, v, nT)) < Norm(absMode, HalfMeanDifference(m, w, nT))
  {
    hide Norm, ArmFactor, NormFactor;
    var c := ArmFactor(|w|, nT);
    MeanDifferenceIsScaledCriterion(m, v, nT);
    MeanDifferenceIsScaledCriterion(m, w, nT);
    NormScale(absMode, c, Criterion(m, v));
    NormScale(absMode, c, Criterion(m, w));
    NormFactorPositive(absMode, c);
    PositiveFactorRanks(NormFactor(absMode, c), Objective(absMode, m, v), Objective(absMode, m, w));
  }

  // Building M: any linear map of the centred covariates has rows that sum to zero.

  function Mean(u: Vec): real
    requires u != []
  {
    Sum(u) / |u| as real
  }

  lemma MeanTimesCount(u: Vec)
    requires u != []
    ensures |u| as real * Mean(u) == Sum(u)
  {}

  /** `X_raw` has one row per unit; the result is centred column by column. */
  function Centre(x: Mat, p: nat): (xc: Mat)
    requires |x| > 0 && IsMat(x, |x|, p)
    ensures IsMat(xc, |x|, p)
    ensures forall i, c :: 0 <= i < |x| && 0 <= c < p ==>
              xc[i][c] == x[i][c] - Mean(Column(x, c))
  {
    seq(|x|, i requires 0 <= i < |x| =>
      seq(p, c requires 0 <= c < p => x[i][c] - Mean(Column(x, c))))
  }

  /** M = A X', with A = diag(1/sd)/n or the inverse Cholesky factor over n. */
  function BuildM(a: Mat, xc: Mat, p: nat): (m: Mat)
    requires IsMat(a, p, p) && IsMat(xc, |xc|, p)
    ensures IsMat(m, p, |xc|)
    ensures forall r, i :: 0 <= r < p && 0 <= i < |xc| ==> m[r][i] == Dot(a[r], xc[i])
  {
    seq(p, r requires 0 <= r < p => seq(|xc|, i requires 0 <= i < |xc| => Dot(a[r], xc[i])))
  }

  /** Entry by entry sum of the first k rows. */
  function SumRows(xc: Mat, p: nat, k: nat): (s: Vec)
    requires IsMat(xc, |xc|, p) && k <= |xc|
    ensures |s| == p
  {
    if k == 0 then seq(p, _ => 0.0) else Add(SumRows(xc, p, k - 1), xc[k - 1])
  }

  lemma {:induction false} SumSnoc(u: Vec, x: real)
    ensures Sum(u + [x]) == Sum(u) + x
  {
    if u == [] {
      assert [] + [x] == [x];
    } else {
      assert (u + [x])[1..] == u[1..] + [x];
      SumSnoc(u[1..], x);
    }
  }

  lemma {:induction false} DotZero(u: Vec, p: nat)
    requires |u| == p
    ensures Dot(u, seq(p, _ => 0.0)) == 0.0
  {
    if p > 0 {
      assert seq(p, _ => 0.0)[1..] == seq(p - 1, _ => 0.0);
      DotZero(u[1..], p - 1);
    }
  }

  lemma {:induction false} SumOfDots(a: Vec, xc: Mat, p: nat, u: Vec, k: nat)
    requires |a| == p && IsMat(xc, |xc|, p) && k <= |xc| == |u|
    requires forall i :: 0 <= i < |xc| ==> u[i] == Dot(a, xc[i])
    ensures Sum(u[..k]) == Dot(a, SumRows(xc, p, k))
  {
    if k == 0 {
      DotZero(a, p);
    } else {
      SumOfDots(a, xc, p, u, k - 1);
      DotAdd(a, SumRows(xc, p, k - 1), xc[k - 1]);
      assert u[..k] == u[..k - 1] + [u[k - 1]];
      SumSnoc(u[..k - 1], u[k - 1]);
    }
  }

  lemma {:induction false} SumRowsAt(xc: Mat, p: nat, c: nat, k: nat)
    requires IsMat(xc, |xc|, p) && c < p && k <= |xc|
    ensures SumRows(xc, p, k)[c] == Sum(Column(xc, c)[..k])
  {
    if k > 0 {
      SumRowsAt(xc, p, c, k - 1);
      assert Column(xc, c)[..k] == Column(xc, c)[..k - 1] + [xc[k - 1][c]];
      SumSnoc(Column(xc, c)[..k - 1], xc[k - 1][c]);
    }
  }

  lemma CountStep(k: nat, mean: real)
    ensures (k + 1) as real * mean == k as real * mean + mean
  {}

  lemma {:induction false} SumShifted(u: Vec, v: Vec, mean: real)
    requires |u| == |v| && forall i :: 0 <= i < |u| ==> v[i] == u[i] - mean
    ensures Sum(v) == Sum(u) - |u| as real * mean
  {
    if u != [] {
      CountStep(|u| - 1, mean);
      SumShifted(u[1..], v[1..], mean);
    }
  }

  /** Centring makes M * 1 = 0, whatever the linear map: the hypothesis of `SameDecisions`. */
  lemma CentredRowsSumToZero(a: Mat, x: Mat, p: nat)
    requires |x| > 0 && IsMat(x, |x|, p) && IsMat(a, p, p)
    ensures RowsSumToZero(BuildM(a, Centre(x, p), p))
  {
    var xc := Centre(x, p);
    var m := BuildM(a, xc, p);
    ColumnsSumToZero(x, p);
    forall r | 0 <= r < |m|
      ensures Sum(m[r]) == 0.0
    {
      SumOfDots(a[r], xc, p, m[r], |x|);
      assert m[r][..|x|] == m[r];
      DotZero(a[r], p);
    }
  }

  /** Each column of the centred covariates adds up to zero. */
  lemma ColumnsSumToZero(x: Mat, p: nat)
    requires |x| > 0 && IsMat(x, |x|, p)
    ensures SumRows(Centre(x, p), p, |x|) == seq(p, _ => 0.0)
  {
    hide Sum, Mean, SumRows;
    var xc := Centre(x, p);
    forall c | 0 <= c < p
      ensures SumRows(xc, p, |x|)[c] == 0.0
    {
      SumRowsAt(xc, p, c, |x|);
      assert Column(xc, c)[..|x|] == Column(xc, c);
      CentredColumn(x, p, c);
    }
  }

  lemma CentredColumn(x: Mat, p: nat, c: nat)
    requires |x| > 0 && IsMat(x, |x|, p) && c < p
    ensures Sum(Column(Centre(x, p), c)) == 0.0
  {
    hide Mean, Sum;
    var u, v := Column(x, c), Column(Centre(x, p), c);
    forall i | 0 <= i < |u|
      ensures v[i] == u[i] - Mean(u)
    {}
    SumShifted(u, v, Mean(u));
    MeanTimesCount(u);
  }
}

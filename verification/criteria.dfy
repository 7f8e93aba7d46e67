/** What the criteria of the searches measure, in terms of the sums over each arm. */
module Criteria {
  import opened Vectors
  import opened TreatmentArms
  import opened GreedyObjective
  import opened AnnealingObjective
  import Annealing

  // Inner products and norms.

  function UnitVec(n: nat, i: nat): (u: Vec)
    ensures |u| == n && forall k :: 0 <= k < n ==> u[k] == if k == i then 1.0 else 0.0
  {
    seq(n, k => if k == i then 1.0 else 0.0)
  }

  /** The inner product reads off an entry at a unit vector; with linearity this determines it. */
  lemma DotUnit(n: nat, i: nat, v: Vec)
    requires |v| == n && i < n
    ensures Dot(UnitVec(n, i), v) == v[i]
  {
    var u := UnitVec(n, i);
    DotSymmetric(u[i := 0.0], v);
    DotWithZero(v, u[i := 0.0]);
    DotUpdate(u[i := 0.0], v, i, 1.0);
    assert u[i := 0.0][i := 1.0] == u;
  }

  predicate IsSigns(s: Vec) { forall k :: 0 <= k < |s| ==> s[k] == 1.0 || s[k] == -1.0 }

  /** No choice of signs gives the entries a sum above the sum of absolute values ... */
  lemma {:induction false} SumAbsBounds(s: Vec, u: Vec)
    requires |s| == |u| && IsSigns(s)
    ensures Dot(s, u) <= SumAbs(u)
  {
    if u != [] {
      SumAbsBounds(s[1..], u[1..]);
      SignedEntry(s[0], u[0]);
    }
  }

  lemma SignedEntry(s: real, x: real)
    requires s == 1.0 || s == -1.0
    ensures s * x <= Abs(x)
  {}

  function SignsOf(u: Vec): (s: Vec)
    ensures |s| == |u| && IsSigns(s)
  {
    seq(|u|, k requires 0 <= k < |u| => if u[k] < 0.0 then -1.0 else 1.0)
  }

  /** ... and one choice attains it: the L1 norm is the largest signed sum. */
  lemma {:induction false} SumAbsAttained(u: Vec)
    ensures Dot(SignsOf(u), u) == SumAbs(u)
  {
    if u != [] {
      assert SignsOf(u)[1..] == SignsOf(u[1..]);
      SumAbsAttained(u[1..]);
    }
  }

  ghost predicate AllZero(u: Vec) { forall k :: 0 <= k < |u| ==> u[k] == 0.0 }

  lemma {:induction false} SumAbsVanishes(u: Vec)
    ensures SumAbs(u) >= 0.0 && (SumAbs(u) == 0.0 <==> AllZero(u))
  {
    if u != [] {
      SumAbsVanishes(u[1..]);
      AllZeroSplits(u);
    }
  }

  lemma {:induction false} SquaresVanish(u: Vec)
    ensures Dot(u, u) >= 0.0 && (Dot(u, u) == 0.0 <==> AllZero(u))
  {
    hide Times;
    if u != [] {
      hide AllZero, Dot;
      SquaresVanish(u[1..]);
      AllZeroSplits(u);
      NonzeroSquare(u[0]);
      DotHead(u, u);
    }
  }

  lemma DotHead(u: Vec, v: Vec)
    requires |u| == |v| && u != []
    ensures Dot(u, v) == Times(u[0], v[0]) + Dot(u[1..], v[1..])
  {}

  lemma AllZeroSplits(u: Vec)
    requires u != []
    ensures AllZero(u) <==> u[0] == 0.0 && AllZero(u[1..])
  {
    if u[0] == 0.0 && AllZero(u[1..]) {
      forall k | 0 <= k < |u|
        ensures u[k] == 0.0
      {
        if k > 0 { assert u[1..][k - 1] == 0.0; }
      }
    }
  }

  lemma NonzeroSquare(x: real)
    ensures if x == 0.0 then Times(x, x) == 0.0 else Times(x, x) > 0.0
  {
    if x > 0.0 {
      TimesPositive(x, x);
    } else if x < 0.0 {
      TimesPositive(-x, -x);
      BothNegated(x);
    }
  }

  lemma BothNegated(x: real)
    ensures Times(-x, -x) == Times(x, x)
  {}

  /** Both norms of the greedy search are nonnegative and vanish at zero only. */
  lemma NormVanishes(absMode: bool, d: Vec)
    ensures Norm(absMode, d) >= 0.0 && (Norm(absMode, d) == 0.0 <==> AllZero(d))
  {
    SumAbsVanishes(d);
    SquaresVanish(d);
  }

  /** The absolute mode takes the largest signed sum, the other mode the squared length. */
  lemma NormByMode(d: Vec, s: Vec)
    requires |s| == |d| && IsSigns(s)
    ensures Dot(s, d) <= Norm(true, d) == Dot(SignsOf(d), d)
    ensures Norm(false, d) == Dot(d, d)
  {
    SumAbsBounds(s, d);
    SumAbsAttained(d);
  }

  // The greedy criterion.

  ghost predicate Balanced(m: Mat, w: seq<int>)
    requires Fits(m, w)
  {
    forall r :: 0 <= r < |m| ==> ArmSum(m[r], w, 1) == ArmSum(m[r], w, 0)
  }

  /** Each row of the criterion is the sum over the treated units less the sum over the control units. */
  lemma CriterionIsDifference(m: Mat, w: seq<int>, r: nat)
    requires Fits(m, w) && IsAllocation(w) && r < |m|
    ensures Criterion(m, w)[r] == ArmSum(m[r], w, 1) - ArmSum(m[r], w, 0)
  {
    ArmSums(m[r], w);
  }

  /** The objective is never negative, and zero exactly for allocations that balance every row. */
  lemma ObjectiveVanishes(absMode: bool, m: Mat, w: seq<int>)
    requires Fits(m, w) && IsAllocation(w)
    ensures Objective(absMode, m, w) >= 0.0 && (Objective(absMode, m, w) == 0.0 <==> Balanced(m, w))
  {
    hide Norm, ArmSum;
    var d := Criterion(m, w);
    NormVanishes(absMode, d);
    forall r | 0 <= r < |m|
      ensures d[r] == ArmSum(m[r], w, 1) - ArmSum(m[r], w, 0)
    {
      CriterionIsDifference(m, w, r);
    }
    if AllZero(d) {
      forall r | 0 <= r < |m|
        ensures ArmSum(m[r], w, 1) == ArmSum(m[r], w, 0)
      {
        assert d[r] == 0.0;
      }
    }
  }

  // The annealing objectives.

  lemma {:induction false} DotIsArmSum(w: seq<int>, v: Vec)
    requires |w| == |v| && IsAllocation(w)
    ensures Dot(ToReal(w), v) == ArmSum(v, w, 1)
  {
    if w != [] {
      assert ToReal(w)[1..] == ToReal(w[1..]);
      DotIsArmSum(w[1..], v[1..]);
    }
  }

  /** The sums of the rows of a matrix over the treated units. */
  function TreatedSums(m: Mat, w: seq<int>): (s: Vec)
    requires Fits(m, w)
    ensures |s| == |m| && forall r :: 0 <= r < |m| ==> s[r] == ArmSum(m[r], w, 1)
  {
    seq(|m|, r requires 0 <= r < |m| => ArmSum(m[r], w, 1))
  }

  lemma TreatedSumsAre(m: Mat, w: seq<int>)
    requires Fits(m, w) && IsAllocation(w)
    ensures MatVec(m, ToReal(w)) == TreatedSums(m, w)
  {
    forall r | 0 <= r < |m|
      ensures Dot(m[r], ToReal(w)) == ArmSum(m[r], w, 1)
    {
      DotSymmetric(m[r], ToReal(w));
      DotIsArmSum(w, m[r]);
    }
  }

  /** The sum of the entries of a matrix over all pairs of treated units. */
  function TreatedBlock(m: Mat, w: seq<int>): real
    requires IsMat(m, |w|, |w|)
  {
    ArmSum(TreatedSums(m, w), w, 1)
  }

  lemma QuadIsBlock(m: Mat, w: seq<int>)
    requires IsMat(m, |w|, |w|) && IsAllocation(w)
    ensures Quad(m, w) == TreatedBlock(m, w)
  {
    hide Dot, ArmSum;
    TreatedSumsAre(m, w);
    DotIsArmSum(w, TreatedSums(m, w));
  }

  /** Kind by kind, the exact objective of an allocation in terms of its treated units. */
  lemma ExactMeans(p: Problem, w: seq<int>)
    requires ValidProblem(p) && |w| == p.n && IsAllocation(w)
    ensures match p.kind
      case Quadratic => Exact(p, w) == TreatedBlock(p.m1, w)
      case L1 => Exact(p, w) == SumAbs(TreatedSums(p.m1, w))
      case Ratio =>
        var den := p.nT as real - TreatedBlock(p.m1, w);
        if den == 0.0 then Exact(p, w) == p.overZero else Exact(p, w) * den == TreatedBlock(p.m2, w) + 1.0
      case Custom => Exact(p, w) == p.custom(ToReal(w))
  {
    hide ArmSum, Dot;
    if p.kind == L1 {
      TreatedSumsAre(p.m1, w);
    } else if p.kind == Quadratic {
      QuadIsBlock(p.m1, w);
    } else if p.kind == Ratio {
      QuadIsBlock(p.m1, w);
      QuadIsBlock(p.m2, w);
      QuotientTimes(TreatedBlock(p.m2, w) + 1.0, p.nT as real - TreatedBlock(p.m1, w));
    }
  }

  /** A ratio allocation is feasible when its denominator is above 1e-12; every other kind always is. */
  lemma FeasibleMeans(p: Problem, w: seq<int>)
    requires ValidProblem(p) && |w| == p.n && IsAllocation(w)
    ensures Annealing.Feasible(p, w) <==>
              (p.kind == Ratio ==> (p.nT as real - TreatedBlock(p.m1, w)) * 1000000000000.0 > 1.0)
  {
    if p.kind == Ratio {
      QuadIsBlock(p.m1, w);
    }
  }

  lemma QuotientTimes(x: real, y: real)
    ensures y != 0.0 ==> (x / y) * y == x
  {}

  /** The L1 objective is never negative, and zero exactly when every row sums to zero over the treated units. */
  lemma L1Vanishes(p: Problem, w: seq<int>)
    requires ValidProblem(p) && p.kind == L1 && |w| == p.n && IsAllocation(w)
    ensures Exact(p, w) >= 0.0
    ensures Exact(p, w) == 0.0 <==> forall r :: 0 <= r < |p.m1| ==> ArmSum(p.m1[r], w, 1) == 0.0
  {
    hide ArmSum, Dot;
    ExactMeans(p, w);
    SumAbsVanishes(TreatedSums(p.m1, w));
    var s := TreatedSums(p.m1, w);
    assert forall r :: 0 <= r < |p.m1| ==> s[r] == ArmSum(p.m1[r], w, 1);
  }
}

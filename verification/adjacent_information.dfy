/** The accumulated Hessian of the adjacent-category likelihood is symmetric and nowhere concave. */
module AdjacentInformation {
  import opened Vectors
  import opened AdjacentScores

  /** One observation as the Hessian sees it: the category probabilities and the covariates. */
  datatype Observation = Observation(prob: Vec, x: Vec)

  /** All observations share the number of categories (m thresholds) and of covariates. */
  ghost predicate Sound(obs: seq<Observation>, m: nat, p: nat) {
    forall i :: 0 <= i < |obs| ==> IsDistribution(obs[i].prob) && |obs[i].prob| == m + 1 && |obs[i].x| == p
  }

  /** The sum of the observations' contributions to entry (a, b). */
  ghost function TotalEntry(obs: seq<Observation>, m: nat, p: nat, a: nat, b: nat): real
    requires Sound(obs, m, p) && a < m + p && b < m + p
  {
    if obs == [] then 0.0
    else TotalEntry(obs[..|obs| - 1], m, p, a, b) + HessianEntry(obs[|obs| - 1].prob, obs[|obs| - 1].x, a, b)
  }

  ghost function Total(obs: seq<Observation>, m: nat, p: nat): (h: Mat)
    requires Sound(obs, m, p)
    ensures IsMat(h, m + p, m + p)
    ensures forall a, b :: 0 <= a < m + p && 0 <= b < m + p ==> h[a][b] == TotalEntry(obs, m, p, a, b)
  {
    seq(m + p, a requires 0 <= a < m + p => seq(m + p, b requires 0 <= b < m + p => TotalEntry(obs, m, p, a, b)))
  }

  lemma {:induction false} TotalSymmetric(obs: seq<Observation>, m: nat, p: nat, a: nat, b: nat)
    requires Sound(obs, m, p) && a < m + p && b < m + p
    ensures TotalEntry(obs, m, p, a, b) == TotalEntry(obs, m, p, b, a)
  {
    if obs != [] {
      var o := obs[|obs| - 1];
      TotalSymmetric(obs[..|obs| - 1], m, p, a, b);
      EntrySymmetric(o.prob, o.x, a, b);
    }
  }

  lemma EntrySymmetric(prob: Vec, x: Vec, a: nat, b: nat)
    requires prob != [] && a < Thresholds(prob) + |x| && b < Thresholds(prob) + |x|
    ensures HessianEntry(prob, x, a, b) == HessianEntry(prob, x, b, a)
  {}

  // Expected outer products.

  function Scores(prob: Vec, x: Vec, y: nat): (s: Vec)
    requires prob != []
    ensures |s| == Thresholds(prob) + |x|
    ensures forall a :: 0 <= a < |s| ==> s[a] == Score(prob, x, y, a)
  {
    seq(Thresholds(prob) + |x|, a requires 0 <= a < Thresholds(prob) + |x| => Score(prob, x, y, a))
  }

  /** m + c s s', row by row. */
  function AddOuter(m: Mat, c: real, s: Vec): (r: Mat)
    requires IsMat(m, |s|, |s|)
    ensures |r| == |s| && forall a :: 0 <= a < |s| ==> |r[a]| == |s| && r[a] == OuterRow(m[a], c, s[a], s)
  {
    seq(|s|, a requires 0 <= a < |s| => OuterRow(m[a], c, s[a], s))
  }

  function OuterRow(row: Vec, c: real, sa: real, s: Vec): (r: Vec)
    requires |row| == |s|
    ensures |r| == |s|
  {
    Add(row, Scale(Times(c, sa), s))
  }

  lemma OuterRowAt(row: Vec, c: real, sa: real, s: Vec, b: nat)
    requires |row| == |s| && b < |s|
    ensures OuterRow(row, c, sa, s)[b] == row[b] + Times(c, Times(sa, s[b]))
  {
    hide Times;
    ScaleTimes(Times(c, sa), s, b);
    TimesRearrange(c, sa, s[b]);
  }

  lemma OuterRowDot(row: Vec, c: real, sa: real, s: Vec, v: Vec)
    requires |row| == |s| == |v|
    ensures Dot(OuterRow(row, c, sa, s), v) == Dot(row, v) + Times(Times(c, Dot(s, v)), sa)
  {
    hide Scale, Times;
    DotSymmetric(OuterRow(row, c, sa, s), v);
    DotAdd(v, row, Scale(Times(c, sa), s));
    DotTimes(v, Times(c, sa), s);
    DotSymmetric(v, s);
    DotSymmetric(v, row);
    TimesRearrange(c, sa, Dot(s, v));
  }

  function Zero(n: nat): (z: Mat)
    ensures IsMat(z, n, n) && forall a, b :: 0 <= a < n && 0 <= b < n ==> z[a][b] == 0.0
  {
    seq(n, a => seq(n, b => 0.0))
  }

  /** The probability-weighted sum of the score outer products of the first k categories. */
  ghost function Outer(prob: Vec, x: Vec, k: nat): (r: Mat)
    requires prob != [] && k <= |prob|
    ensures IsMat(r, Thresholds(prob) + |x|, Thresholds(prob) + |x|)
  {
    if k == 0 then Zero(Thresholds(prob) + |x|)
    else AddOuter(Outer(prob, x, k - 1), prob[k - 1], Scores(prob, x, k))
  }

  lemma {:induction false} OuterAt(prob: Vec, x: Vec, k: nat, a: nat, b: nat)
    requires prob != [] && k <= |prob| && a < Thresholds(prob) + |x| && b < Thresholds(prob) + |x|
    ensures Outer(prob, x, k)[a][b] == Mean(prob, k, ScoreProduct(prob, x, a, b))
  {
    if k > 0 {
      hide Score, ScoreProduct, Times, Outer;
      OuterAt(prob, x, k - 1, a, b);
      OuterStep(prob, x, k, a, b);
      ScoreProductAt(prob, x, k, a, b);
      MeanStep(prob, k, ScoreProduct(prob, x, a, b), Times(Score(prob, x, k, a), Score(prob, x, k, b)));
    }
  }

  lemma OuterStep(prob: Vec, x: Vec, k: nat, a: nat, b: nat)
    requires 0 < k <= |prob| && a < Thresholds(prob) + |x| && b < Thresholds(prob) + |x|
    ensures Outer(prob, x, k)[a][b]
         == Outer(prob, x, k - 1)[a][b] + Times(prob[k - 1], Times(Score(prob, x, k, a), Score(prob, x, k, b)))
  {
    hide Score, OuterRow, Times;
    var s := Scores(prob, x, k);
    OuterRowAt(Outer(prob, x, k - 1)[a], prob[k - 1], s[a], s, b);
  }

  lemma ScoreProductAt(prob: Vec, x: Vec, k: nat, a: nat, b: nat)
    requires prob != [] && a < Thresholds(prob) + |x| && b < Thresholds(prob) + |x|
    ensures ScoreProduct(prob, x, a, b)(k) == Times(Score(prob, x, k, a), Score(prob, x, k, b))
  {
    hide Score;
  }

  /** Adding c s s' adds c (s'v)^2 to the quadratic form. */
  lemma QuadraticAddOuter(m: Mat, c: real, s: Vec, v: Vec)
    requires IsMat(m, |s|, |s|) && |v| == |s|
    ensures Quadratic(AddOuter(m, c, s), v) == Quadratic(m, v) + Times(c, Times(Dot(s, v), Dot(s, v)))
  {
    hide OuterRow, Times, Scale;
    var t := Dot(s, v);
    var r := AddOuter(m, c, s);
    forall a | 0 <= a < |s|
      ensures MatVec(r, v)[a] == Add(MatVec(m, v), Scale(Times(c, t), s))[a]
    {
      OuterRowDot(m[a], c, s[a], s, v);
      ScaleTimes(Times(c, t), s, a);
    }
    assert MatVec(r, v) == Add(MatVec(m, v), Scale(Times(c, t), s));
    DotAdd(v, MatVec(m, v), Scale(Times(c, t), s));
    DotTimes(v, Times(c, t), s);
    DotSymmetric(v, s);
    TimesRearrange(c, t, t);
  }

  lemma TimesNonnegative(x: real, y: real)
    requires x >= 0.0 && y >= 0.0
    ensures Times(x, y) >= 0.0
  {}

  lemma SquareNonnegative(t: real)
    ensures Times(t, t) >= 0.0
  {
    if t < 0.0 { assert Times(-t, -t) == Times(t, t); }
  }

  lemma {:induction false} OuterNonnegative(prob: Vec, x: Vec, k: nat, v: Vec)
    requires prob != [] && k <= |prob| && |v| == Thresholds(prob) + |x|
    requires forall i :: 0 <= i < |prob| ==> prob[i] >= 0.0
    ensures Quadratic(Outer(prob, x, k), v) >= 0.0
  {
    if k == 0 {
      QuadraticZero(v);
    } else {
      hide Times, Score;
      OuterNonnegative(prob, x, k - 1, v);
      var s := Scores(prob, x, k);
      QuadraticAddOuter(Outer(prob, x, k - 1), prob[k - 1], s, v);
      SquareNonnegative(Dot(s, v));
      TimesNonnegative(prob[k - 1], Times(Dot(s, v), Dot(s, v)));
    }
  }

  lemma QuadraticZero(v: Vec)
    ensures Quadratic(Zero(|v|), v) == 0.0
  {
    var z := Zero(|v|);
    forall a | 0 <= a < |v|
      ensures MatVec(z, v)[a] == 0.0
    {
      DotSymmetric(z[a], v);
      DotWithZero(v, z[a]);
    }
    DotWithZero(v, MatVec(z, v));
  }

  /** A sum of matrices has the sum of the quadratic forms. */
  lemma QuadraticSum(m: Mat, n: Mat, r: Mat, v: Vec)
    requires IsMat(m, |v|, |v|) && IsMat(n, |v|, |v|) && IsMat(r, |v|, |v|)
    requires forall a, b :: 0 <= a < |v| && 0 <= b < |v| ==> r[a][b] == m[a][b] + n[a][b]
    ensures Quadratic(r, v) == Quadratic(m, v) + Quadratic(n, v)
  {
    hide Dot;
    forall a | 0 <= a < |v|
      ensures MatVec(r, v)[a] == MatVec(m, v)[a] + MatVec(n, v)[a]
    {
      assert r[a] == Add(m[a], n[a]);
      DotSymmetric(r[a], v);
      DotSymmetric(m[a], v);
      DotSymmetric(n[a], v);
      DotAdd(v, m[a], n[a]);
    }
    assert MatVec(r, v) == Add(MatVec(m, v), MatVec(n, v));
    DotAdd(v, MatVec(m, v), MatVec(n, v));
  }

  /** v'Hv is never negative: the objective is convex along every direction. */
  lemma {:induction false} HessianNonnegative(obs: seq<Observation>, m: nat, p: nat, v: Vec)
    requires Sound(obs, m, p) && |v| == m + p
    ensures Quadratic(Total(obs, m, p), v) >= 0.0
  {
    if obs == [] {
      assert forall a :: 0 <= a < m + p ==> Total(obs, m, p)[a] == Zero(m + p)[a];
      assert Total(obs, m, p) == Zero(m + p);
      QuadraticZero(v);
    } else {
      var o, rest := obs[|obs| - 1], obs[..|obs| - 1];
      HessianNonnegative(rest, m, p, v);
      var own := Outer(o.prob, o.x, |o.prob|);
      forall a, b | 0 <= a < m + p && 0 <= b < m + p
        ensures Total(obs, m, p)[a][b] == Total(rest, m, p)[a][b] + own[a][b]
      {
        OuterAt(o.prob, o.x, |o.prob|, a, b);
        InformationIdentity(o.prob, o.x, a, b);
      }
      QuadraticSum(Total(rest, m, p), own, Total(obs, m, p), v);
      OuterNonnegative(o.prob, o.x, |o.prob|, v);
    }
  }

  lemma {:induction false} MeanNonnegative(prob: Vec, k: nat, f: nat -> real)
    requires k <= |prob| && forall i :: 0 <= i < |prob| ==> prob[i] >= 0.0
    requires forall y: nat :: f(y) >= 0.0
    ensures Mean(prob, k, f) >= 0.0
  {
    if k > 0 {
      MeanNonnegative(prob, k - 1, f);
      TimesNonnegative(prob[k - 1], f(k));
      MeanStep(prob, k, f, f(k));
    }
  }

  lemma CentredSquare(y: nat, e: real)
    ensures CentredProduct(Value, Value, e, e)(y) == Times(y as real - e, y as real - e)
  {
    var t := y as real;
    CentredProductAt(Value, Value, e, e, y);
    SquareExpands(t, e);
  }

  lemma SquareExpands(t: real, e: real)
    ensures 1.0 * (1.0 * (1.0 * (t * t) + (-e) * t) + (-e) * t) + (e * e) * 1.0 == Times(t - e, t - e)
  {}

  /** The clamp max(0, .) on the variance of the category never changes it. */
  lemma VarianceNeverClamped(prob: Vec)
    requires IsDistribution(prob)
    ensures VarianceY(prob) >= 0.0
  {
    hide Mean, IsDistribution;
    var e := ExpectedY(prob);
    var c := CentredProduct(Value, Value, e, e);
    Covariance(prob, Value, Value, e, e);
    MeanSame(prob, |prob|, Multiply(Value, Value), Square);
    forall y: nat
      ensures c(y) >= 0.0
    {
      CentredSquare(y, e);
      SquareNonnegative(y as real - e);
    }
    NonnegativeProbabilities(prob);
    MeanNonnegative(prob, |prob|, c);
  }

  lemma NonnegativeProbabilities(prob: Vec)
    requires IsDistribution(prob)
    ensures prob != [] && forall i :: 0 <= i < |prob| ==> prob[i] >= 0.0
  {}
}

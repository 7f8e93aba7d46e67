/** The annealing objectives from scratch, and the O(1) change of a quadratic form under a swap. */
module AnnealingObjective {
  import opened Vectors
  import opened TreatmentArms

  datatype Kind = Quadratic | L1 | Ratio | Custom

  /**
   * `custom` is the user's objective on the fixed design matrix. `overZero` stands for what a
   * division by zero yields; only a starting allocation of the ratio kind can need it.
   */
  datatype Problem = Problem(kind: Kind, m1: Mat, m2: Mat, n: nat, nT: nat,
                             custom: Vec -> real, overZero: real)

  ghost predicate Symmetric(m: Mat, n: nat) {
    IsMat(m, n, n) && forall a, b :: 0 <= a < n && 0 <= b < n ==> m[a][b] == m[b][a]
  }

  ghost predicate ValidProblem(p: Problem) {
    && 1 <= p.nT < p.n
    && (p.kind == L1 ==> forall r :: 0 <= r < |p.m1| ==> |p.m1[r]| == p.n)
    && (p.kind == Quadratic || p.kind == Ratio ==> Symmetric(p.m1, p.n))
    && (p.kind == Ratio ==> Symmetric(p.m2, p.n))
  }

  /** w'Mw. */
  function Quad(m: Mat, w: seq<int>): real
    requires IsMat(m, |w|, |w|)
  {
    Dot(ToReal(w), MatVec(m, ToReal(w)))
  }

  function Divide(x: real, y: real, overZero: real): real { if y == 0.0 then overZero else x / y }

  /** n_T - w'Pw. */
  function Denominator(p: Problem, w: seq<int>): real
    requires IsMat(p.m1, |w|, |w|)
  {
    p.nT as real - Quad(p.m1, w)
  }

  /** `exact_objective`. */
  function Exact(p: Problem, w: seq<int>): real
    requires ValidProblem(p) && |w| == p.n
  {
    match p.kind
    case Quadratic => Quad(p.m1, w)
    case L1 => SumAbs(MatVec(p.m1, ToReal(w)))
    case Ratio => Divide(Quad(p.m2, w) + 1.0, Denominator(p, w), p.overZero)
    case Custom => p.custom(ToReal(w))
  }

  /** g_b - g_a twice, plus the diagonal terms, minus the cross term twice. */
  function QuadChange(m: Mat, g: Vec, a: nat, b: nat): real
    requires |g| == |m| && IsMat(m, |m|, |m|) && a < |m| && b < |m|
  {
    2.0 * (g[b] - g[a]) + m[b][b] + m[a][a] - 2.0 * m[a][b]
  }

  function ColumnChange(m: Mat, a: nat, b: nat): (e: Vec)
    requires forall r :: 0 <= r < |m| ==> a < |m[r]| && b < |m[r]|
    ensures |e| == |m| && forall r :: 0 <= r < |m| ==> e[r] == m[r][b] - m[r][a]
  {
    Add(Column(m, b), Scale(-1.0, Column(m, a)))
  }

  lemma DotColumn(m: Mat, u: Vec, c: nat)
    requires Symmetric(m, |m|) && |u| == |m| && c < |m|
    ensures Dot(u, Column(m, c)) == MatVec(m, u)[c]
  {
    assert Column(m, c) == m[c];
    DotSymmetric(u, m[c]);
  }

  /** The cached quadratic form moves by exactly the change that the move evaluation computes. */
  lemma QuadExchange(m: Mat, w: seq<int>, a: nat, b: nat)
    requires Symmetric(m, |w|) && CanExchange(w, a, b)
    ensures Quad(m, Exchange(w, a, b)) == Quad(m, w) + QuadChange(m, MatVec(m, ToReal(w)), a, b)
  {
    hide Dot, ToReal;
    var u, e := ToReal(w), ColumnChange(m, a, b);
    var g := MatVec(m, u);
    MatVecExchange(m, w, a, b);
    DotExchange(w, a, b, Add(g, e));
    DotAdd(u, g, e);
    DotAdd(u, Column(m, b), Scale(-1.0, Column(m, a)));
    DotScale(u, -1.0, Column(m, a));
    DotColumn(m, u, a);
    DotColumn(m, u, b);
  }
}

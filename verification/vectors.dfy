/** Exact real vectors and matrices, and how sums react to changing single entries. */
module Vectors {

  type Vec = seq<real>

  /** Matrices are sequences of rows. */
  type Mat = seq<Vec>

  ghost predicate IsMat(m: Mat, rows: nat, cols: nat) {
    |m| == rows && forall r :: 0 <= r < rows ==> |m[r]| == cols
  }

  function Dot(u: Vec, v: Vec): real
    requires |u| == |v|
  {
    if u == [] then 0.0 else u[0] * v[0] + Dot(u[1..], v[1..])
  }

  function Abs(x: real): real { if x < 0.0 then -x else x }

  function SumAbs(u: Vec): real {
    if u == [] then 0.0 else Abs(u[0]) + SumAbs(u[1..])
  }

  function Add(u: Vec, v: Vec): (w: Vec)
    requires |u| == |v|
    ensures |w| == |u| && forall i :: 0 <= i < |u| ==> w[i] == u[i] + v[i]
  {
    seq(|u|, i requires 0 <= i < |u| => u[i] + v[i])
  }

  function Scale(c: real, u: Vec): (w: Vec)
    ensures |w| == |u| && forall i :: 0 <= i < |u| ==> w[i] == c * u[i]
  {
    seq(|u|, i requires 0 <= i < |u| => c * u[i])
  }

  function Column(m: Mat, c: nat): (u: Vec)
    requires forall r :: 0 <= r < |m| ==> c < |m[r]|
    ensures |u| == |m| && forall r :: 0 <= r < |m| ==> u[r] == m[r][c]
  {
    seq(|m|, r requires 0 <= r < |m| => m[r][c])
  }

  function MatVec(m: Mat, u: Vec): (w: Vec)
    requires forall r :: 0 <= r < |m| ==> |m[r]| == |u|
    ensures |w| == |m| && forall r :: 0 <= r < |m| ==> w[r] == Dot(m[r], u)
  {
    seq(|m|, r requires 0 <= r < |m| => Dot(m[r], u))
  }

  function Minus(v: Vec, u: Vec): (d: Vec)
    requires |v| == |u|
    ensures |d| == |u| && forall k :: 0 <= k < |u| ==> d[k] == v[k] - u[k]
  {
    seq(|u|, k requires 0 <= k < |u| => v[k] - u[k])
  }

  function Quadratic(m: Mat, v: Vec): real
    requires IsMat(m, |v|, |v|)
  {
    Dot(v, MatVec(m, v))
  }

  lemma {:induction false} DotSymmetric(u: Vec, v: Vec)
    requires |u| == |v|
    ensures Dot(u, v) == Dot(v, u)
  {
    if u != [] {
      DotSymmetric(u[1..], v[1..]);
    }
  }

  lemma {:induction false} DotAdd(u: Vec, v: Vec, w: Vec)
    requires |u| == |v| == |w|
    ensures Dot(u, Add(v, w)) == Dot(u, v) + Dot(u, w)
  {
    if u != [] {
      assert Add(v, w)[1..] == Add(v[1..], w[1..]);
      DotAdd(u[1..], v[1..], w[1..]);
    }
  }

  lemma {:induction false} DotMinus(x: Vec, u: Vec, v: Vec)
    requires |x| == |u| == |v|
    ensures Dot(x, Minus(u, v)) == Dot(x, u) - Dot(x, v)
  {
    if x != [] {
      assert Minus(u, v)[1..] == Minus(u[1..], v[1..]);
      DotMinus(x[1..], u[1..], v[1..]);
    }
  }

  lemma ScaleTail(c: real, u: Vec)
    requires u != []
    ensures Scale(c, u)[1..] == Scale(c, u[1..])
  {
    forall i | 0 <= i < |u| - 1
      ensures Scale(c, u)[1..][i] == Scale(c, u[1..])[i]
    {
      assert u[1..][i] == u[i + 1];
    }
  }

  lemma AbsScale(c: real, x: real)
    requires c >= 0.0
    ensures Abs(c * x) == c * Abs(x)
  {
    if x < 0.0 {
      assert c * x <= 0.0 && c * (-x) == -(c * x);
    } else {
      assert c * x >= 0.0;
    }
  }

  lemma {:induction false} DotScale(u: Vec, c: real, v: Vec)
    requires |u| == |v|
    ensures Dot(u, Scale(c, v)) == c * Dot(u, v)
  {
    if u != [] {
      ScaleTail(c, v);
      DotScale(u[1..], c, v[1..]);
      assert u[0] * (c * v[0]) == c * (u[0] * v[0]);
    }
  }

  /** Changing one entry of a factor moves the product by that entry's change. */
  lemma {:induction false} DotUpdate(u: Vec, v: Vec, i: nat, x: real)
    requires |u| == |v| && i < |u|
    ensures Dot(u[i := x], v) == Dot(u, v) + (x - u[i]) * v[i]
  {
    if i == 0 {
      assert u[i := x][1..] == u[1..];
    } else {
      assert u[i := x][1..] == u[1..][i - 1 := x];
      DotUpdate(u[1..], v[1..], i - 1, x);
    }
  }

  /** The squared norm of a moved vector: f + 2 d.delta + |delta|^2. */
  lemma SquaredNormOfSum(d: Vec, e: Vec)
    requires |d| == |e|
    ensures Dot(Add(d, e), Add(d, e)) == Dot(d, d) + 2.0 * Dot(d, e) + Dot(e, e)
  {
    var s := Add(d, e);
    DotAdd(s, d, e);
    DotSymmetric(s, d);
    DotSymmetric(s, e);
    DotAdd(d, d, e);
    DotAdd(e, d, e);
    DotSymmetric(d, e);
  }

  lemma Distribute(c: real, x: real, y: real)
    ensures c * (x + y) == c * x + c * y
  {}

  // Products under a name, for proofs that only need to rearrange them.

  function Times(x: real, y: real): real { x * y }

  lemma TimesRearrange(x: real, y: real, z: real)
    ensures Times(Times(x, y), z) == Times(Times(x, z), y) == Times(x, Times(y, z))
  {}

  lemma DotTimes(u: Vec, c: real, v: Vec)
    requires |u| == |v|
    ensures Dot(u, Scale(c, v)) == Times(c, Dot(u, v))
  {
    DotScale(u, c, v);
  }

  lemma ScaleTimes(c: real, u: Vec, i: nat)
    requires i < |u|
    ensures Scale(c, u)[i] == Times(c, u[i])
  {}

  lemma {:induction false} DotWithZero(u: Vec, z: Vec)
    requires |u| == |z| && forall i :: 0 <= i < |z| ==> z[i] == 0.0
    ensures Dot(u, z) == 0.0
  {
    if u != [] {
      DotWithZero(u[1..], z[1..]);
    }
  }

  lemma DotLast(u: Vec, v: Vec)
    requires |u| == |v| && u != []
    ensures Dot(u, v) == Dot(u[..|u| - 1], v[..|u| - 1]) + Times(u[|u| - 1], v[|u| - 1])
  {
    var k := |u| - 1;
    DotSplit(u, v, k);
    assert u[k..] == [u[k]] && v[k..] == [v[k]];
    DotOne(u[k], v[k]);
  }

  lemma DotOne(x: real, y: real)
    ensures Dot([x], [y]) == Times(x, y)
  {
    assert [x][1..] == [] && [y][1..] == [];
    assert Dot([x][1..], [y][1..]) == 0.0;
  }

  lemma {:induction false} DotSplit(u: Vec, v: Vec, k: nat)
    requires |u| == |v| && k <= |u|
    ensures Dot(u, v) == Dot(u[..k], v[..k]) + Dot(u[k..], v[k..])
  {
    if k > 0 {
      DotSplit(u[1..], v[1..], k - 1);
      assert u[..k][1..] == u[1..][..k - 1] && v[..k][1..] == v[1..][..k - 1];
      assert u[k..] == u[1..][k - 1..] && v[k..] == v[1..][k - 1..];
    } else {
      assert u[0..] == u && v[0..] == v;
    }
  }

  lemma {:induction false} SumAbsScale(c: real, u: Vec)
    requires c >= 0.0
    ensures SumAbs(Scale(c, u)) == Times(c, SumAbs(u))
  {
    hide Times;
    if u == [] {
      TimesZero(c);
    } else {
      hide Abs, Scale;
      ScaleTail(c, u);
      ScaleTimes(c, u, 0);
      SumAbsScale(c, u[1..]);
      AbsTimes(c, u[0]);
      TimesSum(c, Abs(u[0]), SumAbs(u[1..]));
    }
  }

  lemma AbsTimes(c: real, x: real)
    requires c >= 0.0
    ensures Abs(Times(c, x)) == Times(c, Abs(x))
  {
    AbsScale(c, x);
  }

  lemma TimesZero(x: real)
    ensures Times(x, 0.0) == Times(0.0, x) == 0.0
  {}

  lemma TimesSum(c: real, x: real, y: real)
    ensures Times(c, x + y) == Times(c, x) + Times(c, y)
    ensures Times(x + y, c) == Times(x, c) + Times(y, c)
  {}

  // Allocations as 0/1 vectors, and the exchange of one member.

  predicate IsAllocation(w: seq<int>) { forall i :: 0 <= i < |w| ==> w[i] == 0 || w[i] == 1 }

  /** `static_cast<double>(w[i])`. */
  function ToReal(w: seq<int>): (u: Vec)
    ensures |u| == |w| && forall i :: 0 <= i < |w| ==> u[i] == w[i] as real
  {
    seq(|w|, i requires 0 <= i < |w| => w[i] as real)
  }

  function Ones(w: seq<int>): nat {
    if w == [] then 0 else (if w[0] == 1 then 1 else 0) + Ones(w[1..])
  }

  lemma {:induction false} OnesUpdate(w: seq<int>, i: nat, x: int)
    requires i < |w|
    ensures Ones(w[i := x]) == Ones(w) - (if w[i] == 1 then 1 else 0) + (if x == 1 then 1 else 0)
  {
    if i == 0 {
      assert w[i := x][1..] == w[1..];
    } else {
      assert w[i := x][1..] == w[1..][i - 1 := x];
      OnesUpdate(w[1..], i - 1, x);
    }
  }

  lemma AllocationUpdate(w: seq<int>, i: nat, x: int)
    requires IsAllocation(w) && i < |w| && 0 <= x <= 1
    ensures IsAllocation(w[i := x])
  {}

  /** Unit `a` leaves treatment and unit `b` enters it. */
  function Exchange(w: seq<int>, a: nat, b: nat): (w': seq<int>)
    requires a < |w| && b < |w|
    ensures |w'| == |w|
  {
    w[a := 0][b := 1]
  }

  lemma ExchangeKeepsOnes(w: seq<int>, a: nat, b: nat)
    requires a < |w| && b < |w| && w[a] == 1 && w[b] == 0
    ensures Ones(Exchange(w, a, b)) == Ones(w)
  {
    OnesUpdate(w, a, 0);
    OnesUpdate(w[a := 0], b, 1);
  }

  lemma DotExchange(w: seq<int>, a: nat, b: nat, v: Vec)
    requires |w| == |v| && a < |w| && b < |w| && w[a] == 1 && w[b] == 0
    ensures Dot(ToReal(Exchange(w, a, b)), v) == Dot(ToReal(w), v) + v[b] - v[a]
  {
    var u := ToReal(w);
    DotUpdate(u, v, a, 0.0);
    DotUpdate(u[a := 0.0], v, b, 1.0);
    assert ToReal(Exchange(w, a, b)) == u[a := 0.0][b := 1.0];
  }

  lemma MatVecExchange(m: Mat, w: seq<int>, a: nat, b: nat)
    requires forall r :: 0 <= r < |m| ==> |m[r]| == |w|
    requires a < |w| && b < |w| && w[a] == 1 && w[b] == 0
    ensures MatVec(m, ToReal(Exchange(w, a, b)))
         == Add(MatVec(m, ToReal(w)), Add(Column(m, b), Scale(-1.0, Column(m, a))))
  {
    forall r | 0 <= r < |m|
      ensures Dot(m[r], ToReal(Exchange(w, a, b))) == Dot(m[r], ToReal(w)) + m[r][b] - m[r][a]
    {
      DotExchange(w, a, b, m[r]);
      DotSymmetric(m[r], ToReal(w));
      DotSymmetric(m[r], ToReal(Exchange(w, a, b)));
    }
  }
}

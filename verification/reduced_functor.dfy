/** A likelihood with some parameters held fixed: value, slope and curvature are those of the full one. */
module ReducedFunctor {
  import opened Vectors
  import opened Sequences
  import opened FixedParams

  /** A likelihood as the optimiser sees it. */
  datatype Functor = Functor(value: Vec -> real, gradient: Vec -> Vec, hessian: Vec -> Mat)

  ghost predicate Shaped(f: Functor, n: nat) {
    forall x: Vec :: |x| == n ==> |f.gradient(x)| == n && IsMat(f.hessian(x), n, n)
  }

  function IndexOf(s: seq<int>, k: int): (i: nat)
    requires k in s
    ensures i < |s| && s[i] == k
  {
    if s[0] == k then 0 else 1 + IndexOf(s[1..], k)
  }

  lemma IndexOfAt(s: seq<int>, i: nat)
    requires Distinct(s) && i < |s|
    ensures s[i] in s && IndexOf(s, s[i]) == i
  {
    assert s[i] in s;
  }

  /** The vector that holds `fixed` at the fixed and `free` at the free indices. */
  function Merged(free: Vec, fixed: Vec, spec: FixedParamSpec, n: nat): (full: Vec)
    requires Partition(spec, n) && |free| == |spec.freeIdx| && |fixed| == |spec.fixedIdx|
    ensures |full| == n
  {
    seq(n, k requires 0 <= k < n =>
      if k in spec.freeIdx then free[IndexOf(spec.freeIdx, k)] else fixed[IndexOf(spec.fixedIdx, k)])
  }

  lemma MergedAt(free: Vec, fixed: Vec, spec: FixedParamSpec, n: nat)
    requires Partition(spec, n) && |free| == |spec.freeIdx| && |fixed| == |spec.fixedIdx|
    ensures forall i :: 0 <= i < |spec.freeIdx| ==> Merged(free, fixed, spec, n)[spec.freeIdx[i]] == free[i]
    ensures forall i :: 0 <= i < |spec.fixedIdx| ==> Merged(free, fixed, spec, n)[spec.fixedIdx[i]] == fixed[i]
  {
    forall i | 0 <= i < |spec.freeIdx|
      ensures Merged(free, fixed, spec, n)[spec.freeIdx[i]] == free[i]
    {
      IndexOfAt(spec.freeIdx, i);
    }
    forall i | 0 <= i < |spec.fixedIdx|
      ensures Merged(free, fixed, spec, n)[spec.fixedIdx[i]] == fixed[i]
    {
      IndexOfAt(spec.fixedIdx, i);
      assert spec.fixedIdx[i] < n;
    }
  }

  function Expanded(free: Vec, spec: FixedParamSpec, n: nat): (full: Vec)
    requires Partition(spec, n) && |free| == |spec.freeIdx|
    ensures |full| == n
  {
    Merged(free, spec.fixedValues, spec, n)
  }

  /** The free part of an expansion is the free vector it was made from. */
  lemma SubsetAfterExpand(free: Vec, spec: FixedParamSpec, n: nat)
    requires Partition(spec, n) && |free| == |spec.freeIdx|
    ensures Subset(Expanded(free, spec, n), spec.freeIdx) == free
  {
    MergedAt(free, spec.fixedValues, spec, n);
  }

  /** A direction in the free parameters moves none of the fixed ones. */
  function Direction(free: Vec, spec: FixedParamSpec, n: nat): (full: Vec)
    requires Partition(spec, n) && |free| == |spec.freeIdx|
    ensures |full| == n
  {
    Merged(free, seq(|spec.fixedIdx|, i => 0.0), spec, n)
  }

  class FixedParameterFunctor {
    const fun: Functor
    const spec: FixedParamSpec
    const template: Vec

    ghost predicate Valid() { Partition(spec, |template|) && Shaped(fun, |template|) }

    constructor (fun: Functor, spec: FixedParamSpec, template: Vec)
      requires Partition(spec, |template|) && Shaped(fun, |template|)
      ensures Valid() && this.fun == fun && this.spec == spec && this.template == template
    {
      this.fun, this.spec, this.template := fun, spec, template;
    }

    method Expand(free: Vec) returns (full: Vec)
      requires Valid() && |free| == |spec.freeIdx|
      ensures full == Expanded(free, spec, |template|)
    {
      full := ExpandFreeParams(free, template, spec);
      MergedAt(free, spec.fixedValues, spec, |template|);
      ExpansionUnique(full, Expanded(free, spec, |template|), free, spec, |template|);
    }

    /** `operator()`: the full value, and the free entries of the full gradient. */
    method Evaluate(free: Vec) returns (value: real, gradFree: Vec)
      requires Valid() && |free| == |spec.freeIdx|
      ensures value == fun.value(Expanded(free, spec, |template|))
      ensures gradFree == Subset(fun.gradient(Expanded(free, spec, |template|)), spec.freeIdx)
    {
      var full := Expand(free);
      value, gradFree := fun.value(full), Subset(fun.gradient(full), spec.freeIdx);
    }

    /** The index checks of `subset_matrix` never fire here. */
    method Hessian(free: Vec) returns (h: Mat)
      requires Valid() && |free| == |spec.freeIdx|
      ensures h == FreeBlock(fun.hessian(Expanded(free, spec, |template|)), spec.freeIdx)
    {
      var full := Expand(free);
      var n := |template|;
      var r := SubsetMatrix(fun.hessian(full), n, spec.freeIdx, spec.freeIdx);
      assert r.Ok?;
      h := r.value;
      ghost var block := FreeBlock(fun.hessian(full), spec.freeIdx);
      assert forall i :: 0 <= i < |h| ==> h[i] == block[i];
    }
  }

  // Slope and curvature.

  /** A product with a vector that vanishes outside `idx` only sees `idx`. */
  lemma {:induction false} DotRestrict(u: Vec, v: Vec, idx: seq<nat>)
    requires |u| == |v| && Increasing(idx) && InRange(idx, |u|)
    requires forall k: nat :: k < |v| && k !in idx ==> v[k] == 0.0
    ensures Dot(u, v) == Dot(Subset(u, idx), Subset(v, idx))
  {
    if u == [] {
      if idx != [] { RangeNotEmpty(idx, 0); }
    } else {
      var n := |u| - 1;
      DotLast(u, v);
      if n in idx {
        hide Subset, Times;
        LastIsTop(idx, n);
        var last := |idx| - 1;
        SubsetSplits(u, idx, n);
        SubsetSplits(v, idx, n);
        DotLast(Subset(u, idx), Subset(v, idx));
        DotRestrict(u[..n], v[..n], idx[..last]);
      } else {
        hide Subset, Times;
        NoneAtTop(idx, n);
        SubsetOfPrefix(u, idx, n);
        SubsetOfPrefix(v, idx, n);
        TimesZero(u[n]);
        DotRestrict(u[..n], v[..n], idx);
      }
    }
  }

  lemma SubsetSplits(x: Vec, idx: seq<nat>, n: nat)
    requires idx != [] && |x| == n + 1 && InRange(idx, n + 1) && InRange(idx[..|idx| - 1], n) && idx[|idx| - 1] == n
    ensures Subset(x, idx)[..|idx| - 1] == Subset(x[..n], idx[..|idx| - 1]) && Subset(x, idx)[|idx| - 1] == x[n]
  {}

  lemma SubsetOfPrefix(x: Vec, idx: seq<nat>, n: nat)
    requires n <= |x| && InRange(idx, n)
    ensures Subset(x, idx) == Subset(x[..n], idx)
  {}

  lemma RangeNotEmpty(idx: seq<nat>, n: nat)
    requires idx != [] && InRange(idx, n)
    ensures n > 0
  {
    assert idx[0] < n;
  }

  lemma LastIsTop(idx: seq<nat>, n: nat)
    requires Increasing(idx) && InRange(idx, n + 1) && n in idx
    ensures idx[|idx| - 1] == n && Increasing(idx[..|idx| - 1]) && InRange(idx[..|idx| - 1], n)
    ensures forall k: nat :: k < n ==> (k in idx <==> k in idx[..|idx| - 1])
  {
    var i: nat :| i < |idx| && idx[i] == n;
    assert idx == idx[..|idx| - 1] + [idx[|idx| - 1]];
  }

  lemma NoneAtTop(idx: seq<nat>, n: nat)
    requires InRange(idx, n + 1) && n !in idx
    ensures InRange(idx, n)
  {
    forall i | 0 <= i < |idx|
      ensures idx[i] < n
    {
      assert idx[i] in idx;
    }
  }

  lemma ZeroOutside(free: Vec, spec: FixedParamSpec, n: nat)
    requires Partition(spec, n) && |free| == |spec.freeIdx|
    ensures forall k: nat :: k < n && k !in spec.freeIdx ==> Direction(free, spec, n)[k] == 0.0
    ensures Subset(Direction(free, spec, n), spec.freeIdx) == free
  {
    MergedAt(free, seq(|spec.fixedIdx|, i => 0.0), spec, n);
  }

  lemma StepIsDirection(free: Vec, next: Vec, spec: FixedParamSpec, n: nat)
    requires Partition(spec, n) && |free| == |next| == |spec.freeIdx|
    ensures Minus(Expanded(next, spec, n), Expanded(free, spec, n)) == Direction(Minus(next, free), spec, n)
  {}

  /** The reduced gradient has the slope of the full one along every step of the free parameters. */
  lemma ReducedSlope(g: Vec, free: Vec, next: Vec, spec: FixedParamSpec)
    requires Partition(spec, |g|) && |free| == |next| == |spec.freeIdx|
    ensures Dot(g, Minus(Expanded(next, spec, |g|), Expanded(free, spec, |g|)))
         == Dot(Subset(g, spec.freeIdx), Minus(next, free))
  {
    hide Dot, Merged;
    var d := Direction(Minus(next, free), spec, |g|);
    StepIsDirection(free, next, spec, |g|);
    ZeroOutside(Minus(next, free), spec, |g|);
    DotRestrict(g, d, spec.freeIdx);
  }

  /** The full functor lies above its tangents. */
  ghost predicate AboveTangents(f: Functor, n: nat)
    requires Shaped(f, n)
  {
    forall x: Vec, y: Vec :: |x| == n && |y| == n ==> f.value(y) >= f.value(x) + Dot(f.gradient(x), Minus(y, x))
  }

  /** Holding parameters fixed keeps an objective above its tangents: convexity is inherited. */
  lemma ReducedAboveTangent(f: Functor, free: Vec, next: Vec, spec: FixedParamSpec, n: nat)
    requires Shaped(f, n) && AboveTangents(f, n) && Partition(spec, n) && |free| == |next| == |spec.freeIdx|
    ensures f.value(Expanded(next, spec, n))
         >= f.value(Expanded(free, spec, n))
            + Dot(Subset(f.gradient(Expanded(free, spec, n)), spec.freeIdx), Minus(next, free))
  {
    hide Dot, Merged;
    ReducedSlope(f.gradient(Expanded(free, spec, n)), free, next, spec);
  }

  /** The reduced Hessian has the curvature of the full one along every free direction. */
  lemma ReducedCurvature(h: Mat, v: Vec, spec: FixedParamSpec)
    requires IsMat(h, |h|, |h|) && Partition(spec, |h|) && |v| == |spec.freeIdx|
    ensures Quadratic(FreeBlock(h, spec.freeIdx), v) == Quadratic(h, Direction(v, spec, |h|))
  {
    var n, idx, d := |h|, spec.freeIdx, Direction(v, spec, |h|);
    ZeroOutside(v, spec, n);
    DotSymmetric(d, MatVec(h, d));
    DotRestrict(MatVec(h, d), d, idx);
    forall i | 0 <= i < |idx|
      ensures Subset(MatVec(h, d), idx)[i] == MatVec(FreeBlock(h, idx), v)[i]
    {
      DotRestrict(h[idx[i]], d, idx);
      assert FreeBlock(h, idx)[i] == Subset(h[idx[i]], idx);
    }
    assert Subset(MatVec(h, d), idx) == MatVec(FreeBlock(h, idx), v);
    DotSymmetric(Subset(MatVec(h, d), idx), v);
  }
}

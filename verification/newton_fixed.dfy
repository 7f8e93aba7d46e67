/** Newton over the free parameters only, the fixed ones held at their values. */
module NewtonFixed {
  import opened Wrappers
  import opened Vectors
  import opened FixedParams
  import opened ReducedFunctor
  import opened NewtonOptimizer

  /** The functor the optimiser is handed. */
  function Reduced(f: Likelihood, spec: FixedParamSpec, n: nat): Likelihood
    requires Partition(spec, n)
  {
    Likelihood((y: Vec) => if |y| == |spec.freeIdx| then f.value(Expanded(y, spec, n)) else None,
               (y: Vec) => if |y| == |spec.freeIdx| then FreePart(f.gradient(Expanded(y, spec, n)), spec, n) else None,
               (y: Vec) =>
                 if |y| == |spec.freeIdx| then FreeCurvature(f.hessian(Expanded(y, spec, n)), spec, n) else None)
  }

  function FreePart(g: Option<Vec>, spec: FixedParamSpec, n: nat): Option<Vec>
    requires Partition(spec, n)
  {
    if g.Some? && |g.value| == n then Some(Subset(g.value, spec.freeIdx)) else None
  }

  function FreeCurvature(h: Option<Mat>, spec: FixedParamSpec, n: nat): Option<Mat>
    requires Partition(spec, n)
  {
    if h.Some? && |h.value| == n && forall r :: 0 <= r < n ==> |h.value[r]| == n then
      Some(FreeBlock(h.value, spec.freeIdx))
    else None
  }

  /** The solver returns vectors as long as its right-hand side. */
  ghost predicate SolvesInSize(a: Algebra) {
    forall m: Mat, g: Vec :: a.solve(m, g).Some? ==> |a.solve(m, g).value| == |g|
  }

  lemma ReducedSized(f: Likelihood, a: Algebra, spec: FixedParamSpec, n: nat)
    requires Partition(spec, n) && SolvesInSize(a)
    ensures Sized(Reduced(f, spec, n), a, |spec.freeIdx|)
  {
    var r := Reduced(f, spec, n);
    forall x: Vec | |x| == |spec.freeIdx| && r.gradient(x).Some?
      ensures |r.gradient(x).value| == |x|
    {
      assert r.gradient(x) == FreePart(f.gradient(Expanded(x, spec, n)), spec, n);
    }
    forall x: Vec | |x| == |spec.freeIdx| && NewtonDirection(r, a, x).Some?
      ensures |NewtonDirection(r, a, x).value| == |x|
    {
      assert |r.gradient(x).value| == |x|;
    }
  }

  /** Expanding the free part of an applied vector gives that vector back. */
  lemma AppliedIsExpanded(applied: Vec, params: Vec, spec: FixedParamSpec)
    requires Partition(spec, |params|) && IsApplied(applied, params, spec)
    ensures Expanded(Subset(applied, spec.freeIdx), spec, |params|) == applied
  {
    var free := Subset(applied, spec.freeIdx);
    MergedAt(free, spec.fixedValues, spec, |params|);
    ExpansionUnique(applied, Expanded(free, spec, |params|), free, spec, |params|);
  }

  /** A fit of the reduced functor, started from the free part of the applied vector, with its answer expanded. */
  ghost predicate IsFixedFit(f: Likelihood, a: Algebra, params: Vec, spec: FixedParamSpec, maxit: int, tol: real,
                             fit: Fit)
    requires Partition(spec, |params|)
  {
    exists free: Fit, start: Vec :: IsFixedFitFrom(f, a, params, spec, maxit, tol, start, free, fit)
  }

  ghost predicate IsFixedFitFrom(f: Likelihood, a: Algebra, params: Vec, spec: FixedParamSpec, maxit: int, tol: real,
                                 start: Vec, free: Fit, fit: Fit)
    requires Partition(spec, |params|)
  {
    && IsFit(Reduced(f, spec, |params|), a, start, maxit, tol, free)
    && |start| == |free.params| == |spec.freeIdx|
    && IsApplied(Expanded(start, spec, |params|), params, spec)
    && fit == free.(params := Expanded(free.params, spec, |params|))
  }

  /** `optimize_fixed_likelihood_newton`. */
  method OptimizeFixedNewton(f: Likelihood, a: Algebra, params: Vec, spec: FixedParamSpec, maxit: int, tol: real)
    returns (fit: Fit)
    requires Partition(spec, |params|) && SolvesInSize(a)
    ensures IsFixedFit(f, a, params, spec, maxit, tol, fit)
  {
    var applied := ApplyFixedValues(params, spec);
    var start := Subset(applied.value, spec.freeIdx);
    AppliedIsExpanded(applied.value, params, spec);
    ReducedSized(f, a, spec, |params|);
    var free := OptimizeNewton(Reduced(f, spec, |params|), a, start, maxit, tol);
    assert |free.params| == |start|;
    var full := ExpandFreeParams(free.params, applied.value, spec);
    MergedAt(free.params, spec.fixedValues, spec, |params|);
    ExpansionUnique(full, Expanded(free.params, spec, |params|), free.params, spec, |params|);
    fit := free.(params := full);
    assert IsFixedFitFrom(f, a, params, spec, maxit, tol, start, free, fit);
  }

  lemma AppliedUnique(params: Vec, spec: FixedParamSpec, one: Vec, two: Vec)
    requires Partition(spec, |params|) && IsApplied(one, params, spec) && IsApplied(two, params, spec)
    ensures one == two
  {
    AppliedIsExpanded(one, params, spec);
    AppliedIsExpanded(two, params, spec);
    forall k: nat | k < |params|
      ensures one[k] == two[k]
    {
      if k in spec.fixedIdx {
        var i: nat :| i < |spec.fixedIdx| && spec.fixedIdx[i] == k;
        assert IsLast(spec.fixedIdx, i);
      }
    }
  }

  /** The answer keeps the fixed values, and its objective is the reported one, never above the start's. */
  lemma FixedNewtonContract(f: Likelihood, a: Algebra, params: Vec, applied: Vec, spec: FixedParamSpec, maxit: int,
                            tol: real, fit: Fit)
    requires Partition(spec, |params|) && IsApplied(applied, params, spec)
    requires IsFixedFit(f, a, params, spec, maxit, tol, fit)
    ensures |fit.params| == |params|
    ensures forall i :: 0 <= i < |spec.fixedIdx| ==> fit.params[spec.fixedIdx[i]] == spec.fixedValues[i]
    ensures fit.value == f.value(fit.params)
    ensures f.value(applied).Some? ==> fit.value.Some? && fit.value.value <= f.value(applied).value
    ensures fit.hitCap ==> !fit.converged
  {
    var n := |params|;
    var free: Fit, start: Vec :| IsFixedFitFrom(f, a, params, spec, maxit, tol, start, free, fit);
    var t, why :| IsRun(Reduced(f, spec, n), a, start, maxit, tol, t, why, free);
    AppliedUnique(params, spec, applied, Expanded(start, spec, n));
    MergedAt(free.params, spec.fixedValues, spec, n);
    NewtonContract(Reduced(f, spec, n), a, start, maxit, tol, t, why, free);
  }

  /** The norm of the free part of the full gradient. */
  function FreeNorm(f: Likelihood, a: Algebra, spec: FixedParamSpec, x: Vec): Option<real>
    requires Partition(spec, |x|)
  {
    if f.gradient(x).Some? && |f.gradient(x).value| == |x| then
      Some(a.norm(Subset(f.gradient(x).value, spec.freeIdx)))
    else None
  }

  /** With the fixed entries filled in, value, slope and curvature are those of `f`. */
  lemma ReducedAt(f: Likelihood, a: Algebra, spec: FixedParamSpec, n: nat, y: Vec)
    requires Partition(spec, n) && |y| == |spec.freeIdx|
    ensures Reduced(f, spec, n).value(y) == f.value(Expanded(y, spec, n))
    ensures GradNorm(Reduced(f, spec, n), a, y) == FreeNorm(f, a, spec, Expanded(y, spec, n))
    ensures var h, x := Reduced(f, spec, n).hessian(y), Expanded(y, spec, n);
            h.Some? ==> f.hessian(x).Some? && IsMat(f.hessian(x).value, n, n)
                        && IsMat(h.value, |y|, |y|)
                        && forall i, j :: 0 <= i < |y| && 0 <= j < |y| ==>
                             h.value[i][j] == f.hessian(x).value[spec.freeIdx[i]][spec.freeIdx[j]]
  {}

  /** Gradients are finite wherever values are. */
  ghost predicate FiniteSlopes(f: Likelihood, n: nat) {
    forall x: Vec :: |x| == n && f.value(x).Some? ==> f.gradient(x).Some? && |f.gradient(x).value| == n
  }

  lemma ReducedFinite(f: Likelihood, spec: FixedParamSpec, n: nat)
    requires Partition(spec, n) && FiniteSlopes(f, n)
    ensures forall y: Vec :: Reduced(f, spec, n).value(y).Some? ==> Reduced(f, spec, n).gradient(y).Some?
  {
    forall y: Vec | Reduced(f, spec, n).value(y).Some?
      ensures Reduced(f, spec, n).gradient(y).Some?
    {
      assert |y| == |spec.freeIdx| && f.gradient(Expanded(y, spec, n)).Some?;
    }
  }

  /** The flag certifies the free part of the full gradient at the returned point; the rest of it may be anything. */
  lemma FixedConverged(f: Likelihood, a: Algebra, params: Vec, spec: FixedParamSpec, maxit: int, tol: real, fit: Fit)
    requires Partition(spec, |params|) && FiniteSlopes(f, |params|)
    requires IsFixedFit(f, a, params, spec, maxit, tol, fit) && fit.converged
    ensures |fit.params| == |params| && FreeNorm(f, a, spec, fit.params).Some?
    ensures fit.gradNorm == FreeNorm(f, a, spec, fit.params)
    ensures fit.gradNorm.value < tol || fit.gradNorm.value < 0.0001
  {
    hide Reduced, FiniteSlopes, Expanded, FreeNorm, GradNorm, IsTrace, Ends, FitOf, IsApplied, Partition;
    var n := |params|;
    var free: Fit, start: Vec :| IsFixedFitFrom(f, a, params, spec, maxit, tol, start, free, fit);
    var t, why :| IsRun(Reduced(f, spec, n), a, start, maxit, tol, t, why, free);
    ReducedFinite(f, spec, n);
    ReducedAt(f, a, spec, n, free.params);
    ConvergedIsStationary(Reduced(f, spec, n), a, start, maxit, tol, t, why, free);
  }

  /** A start at which the free part of the gradient is already small is returned as converged. */
  lemma FixedSmallStart(f: Likelihood, a: Algebra, params: Vec, applied: Vec, spec: FixedParamSpec, maxit: int,
                        tol: real, fit: Fit)
    requires Partition(spec, |params|) && IsApplied(applied, params, spec)
    requires IsFixedFit(f, a, params, spec, maxit, tol, fit) && maxit > 0 && f.value(applied).Some?
    requires FreeNorm(f, a, spec, applied).Some? && FreeNorm(f, a, spec, applied).value < tol
    ensures fit.converged && fit.params == applied && fit.niter == 0
  {
    hide Reduced, Expanded, FreeNorm, GradNorm, IsTrace, Ends, FitOf, IsApplied, Partition;
    var n := |params|;
    var free: Fit, start: Vec :| IsFixedFitFrom(f, a, params, spec, maxit, tol, start, free, fit);
    var t, why :| IsRun(Reduced(f, spec, n), a, start, maxit, tol, t, why, free);
    AppliedUnique(params, spec, applied, Expanded(start, spec, n));
    ReducedAt(f, a, spec, n, start);
    SmallGradientStops(Reduced(f, spec, n), a, start, maxit, tol, t, why, free);
  }
}

/** Damped Newton with step halving, its exits, and what its convergence flag is worth. */
module NewtonOptimizer {
  import opened Wrappers
  import opened Vectors

  /** The functor under optimisation; `None` stands for anything that is not finite. */
  datatype Likelihood = Likelihood(value: Vec -> Option<real>, gradient: Vec -> Option<Vec>,
      hessian: Vec -> Option<Mat>)

  /** Library linear algebra: a solver that may find the matrix singular, and the largest absolute eigenvalue. */
  datatype Algebra = Algebra(norm: Vec -> real, solve: (Mat, Vec) -> Option<Vec>, lamMax: Mat -> Option<real>)

  datatype Fit = Fit(params: Vec, value: Option<real>, niter: nat, converged: bool, hitCap: bool,
      gradNorm: Option<real>)

  ghost predicate Sized(f: Likelihood, a: Algebra, n: nat) {
    && (forall x: Vec :: |x| == n && f.gradient(x).Some? ==> |f.gradient(x).value| == n)
    && (forall x: Vec :: |x| == n && NewtonDirection(f, a, x).Some? ==> |NewtonDirection(f, a, x).value| == n)
  }

  /** The Newton direction, unless the Hessian is not finite or singular or the solution is not finite. */
  function NewtonDirection(f: Likelihood, a: Algebra, x: Vec): Option<Vec> {
    if f.gradient(x).None? || f.hessian(x).None? then None
    else a.solve(f.hessian(x).value, f.gradient(x).value)
  }

  function GradNorm(f: Likelihood, a: Algebra, x: Vec): Option<real> {
    if f.gradient(x).None? then None else Some(a.norm(f.gradient(x).value))
  }

  // Step halving.

  function Half(h: nat): real { if h == 0 then 1.0 else Half(h - 1) * 0.5 }

  const MAX_HALVINGS: nat := 13

  lemma {:induction false} HalfFalls(h: nat)
    ensures Half(h) > 0.0 && (h <= 13 ==> Half(h) >= Half(13)) && (h >= 14 ==> Half(h) <= Half(14))
    decreases if h <= 13 then 13 - h else h
  {
    if h < 13 {
      HalfFalls(h + 1);
      assert Half(h + 1) == Half(h) * 0.5;
    } else if h > 14 {
      HalfFalls(h - 1);
    }
  }

  /** The threshold 1e-4 admits the scales 1, 1/2, ..., 2^-13 and no others. */
  lemma HalvingsAllowed(h: nat)
    ensures Half(h) > 0.0001 <==> h <= MAX_HALVINGS
  {
    HalfFalls(h);
    assert Half(4) == 0.0625;
    assert Half(8) == 0.00390625;
    assert Half(12) == 0.000244140625;
  }

  function Candidate(x: Vec, d: Vec, h: nat): (c: Vec)
    requires |x| == |d|
    ensures |c| == |x|
  {
    Minus(x, Scale(Half(h), d))
  }

  predicate Lower(f: Likelihood, x: Vec, d: Vec, h: nat)
    requires |x| == |d|
  {
    f.value(x).Some? && f.value(Candidate(x, d, h)).Some? && f.value(Candidate(x, d, h)).value < f.value(x).value
  }

  /** The largest allowed scale that lowers the objective. */
  ghost predicate FirstLower(f: Likelihood, x: Vec, d: Vec, h: nat)
    requires |x| == |d|
  {
    h <= MAX_HALVINGS && Lower(f, x, d, h) && forall g: nat :: g < h ==> !Lower(f, x, d, g)
  }

  ghost predicate NoneLower(f: Likelihood, x: Vec, d: Vec)
    requires |x| == |d|
  {
    forall g: nat :: g <= MAX_HALVINGS ==> !Lower(f, x, d, g)
  }

  method HalveStep(f: Likelihood, x: Vec, current: real, d: Vec)
    returns (accepted: bool, next: Vec, value: Option<real>, scale: real, ghost h: nat)
    requires |x| == |d| && f.value(x) == Some(current)
    ensures accepted ==>
              FirstLower(f, x, d, h) && next == Candidate(x, d, h) && value == f.value(next) && scale == Half(h)
    ensures !accepted ==> NoneLower(f, x, d)
  {
    scale, h, accepted, next, value := 1.0, 0, false, x, None;
    HalvingsAllowed(0);
    while scale > 0.0001
      invariant scale == Half(h) && h <= 14
      invariant forall g: nat :: g < h ==> !Lower(f, x, d, g)
      decreases 14 - h
    {
      HalvingsAllowed(h);
      var candidate := Minus(x, Scale(scale, d));
      var v := f.value(candidate);
      if v.Some? && v.value < current {
        accepted, next, value := true, candidate, v;
        return;
      }
      scale, h := scale * 0.5, h + 1;
    }
    HalvingsAllowed(h);
  }

  // Runs.

  /** Why a run ended. */
  datatype Exit = GradientSmall | NotFinite | NoDirection | LineSearchFailed | StepSmall | OutOfIterations

  /** One accepted iteration. */
  ghost predicate Moved(f: Likelihood, a: Algebra, tol: real, x: Vec, next: Vec) {
    && f.value(x).Some? && GradNorm(f, a, x).Some? && GradNorm(f, a, x).value >= tol
    && NewtonDirection(f, a, x).Some? && |NewtonDirection(f, a, x).value| == |x|
    && exists h: nat ::
         && FirstLower(f, x, NewtonDirection(f, a, x).value, h)
         && next == Candidate(x, NewtonDirection(f, a, x).value, h)
  }

  ghost predicate LongStep(a: Algebra, tol: real, x: Vec, next: Vec) { |x| == |next| && a.norm(Minus(x, next)) >= tol }

  /** The accepted points: each one a Newton move, no step short except perhaps the last. */
  ghost predicate IsTrace(f: Likelihood, a: Algebra, tol: real, start: Vec, t: seq<Vec>) {
    && t != [] && t[0] == start
    && (forall k :: 0 <= k < |t| ==> |t[k]| == |start|)
    && (forall k :: 0 <= k < |t| - 1 ==> Moved(f, a, tol, t[k], t[k + 1]))
    && (forall k :: 0 <= k < |t| - 2 ==> LongStep(a, tol, t[k], t[k + 1]))
  }

  function Last(t: seq<Vec>): Vec
    requires t != []
  {
    t[|t| - 1]
  }

  ghost predicate LastStepLong(a: Algebra, tol: real, t: seq<Vec>) {
    |t| >= 2 ==> LongStep(a, tol, t[|t| - 2], t[|t| - 1])
  }

  /** The situation each exit reports. */
  ghost predicate Ends(f: Likelihood, a: Algebra, maxit: int, tol: real, t: seq<Vec>, why: Exit)
    requires t != []
  {
    var x, iters := Last(t), |t| - 1;
    match why
    case StepSmall => 1 <= iters <= maxit && !LastStepLong(a, tol, t)
    case OutOfIterations => iters == (if maxit > 0 then maxit else 0) && LastStepLong(a, tol, t)
    case NotFinite => iters < maxit && LastStepLong(a, tol, t) && (f.value(x).None? || f.gradient(x).None?)
    case GradientSmall => Evaluated(f, a, maxit, tol, t) && GradNorm(f, a, x).value < tol
    case NoDirection =>
      Evaluated(f, a, maxit, tol, t) && GradNorm(f, a, x).value >= tol && NewtonDirection(f, a, x).None?
    case LineSearchFailed =>
      && Evaluated(f, a, maxit, tol, t) && GradNorm(f, a, x).value >= tol
      && NewtonDirection(f, a, x).Some? && |NewtonDirection(f, a, x).value| == |x|
      && NoneLower(f, x, NewtonDirection(f, a, x).value)
  }

  /** The last point started an iteration, and its value and gradient are finite. */
  ghost predicate Evaluated(f: Likelihood, a: Algebra, maxit: int, tol: real, t: seq<Vec>)
    requires t != []
  {
    |t| - 1 < maxit && LastStepLong(a, tol, t) && f.value(Last(t)).Some? && GradNorm(f, a, Last(t)).Some?
  }

  /** The norm reported: of the last point whose gradient was evaluated and finite. */
  function Reported(f: Likelihood, a: Algebra, t: seq<Vec>, why: Exit): Option<real>
    requires t != []
  {
    var before := if |t| == 1 then None else GradNorm(f, a, t[|t| - 2]);
    match why
    case OutOfIterations => before
    case NotFinite => before
    case StepSmall => if f.gradient(Last(t)).Some? then GradNorm(f, a, Last(t)) else before
    case _ => GradNorm(f, a, Last(t))
  }

  /** `newton_stalled_at_optimum`: within 1e-4 and within ten tolerances scaled by the curvature. */
  function WithinScaled(f: Likelihood, a: Algebra, x: Vec, norm: Option<real>, tol: real): bool {
    if norm.None? || f.hessian(x).None? then false
    else
      match a.lamMax(f.hessian(x).value)
      case None => false
      case Some(lam) =>
        var scaled := 10.0 * tol * (if lam > 1.0 then lam else 1.0);
        norm.value < (if scaled < 0.0001 then scaled else 0.0001)
  }

  function FitOf(f: Likelihood, a: Algebra, maxit: int, tol: real, t: seq<Vec>, why: Exit): Fit
    requires t != []
  {
    var x, norm, iters := Last(t), Reported(f, a, t, why), |t| - 1;
    var converged := (norm.Some? && norm.value < tol)
                     || ((why.StepSmall? || why.LineSearchFailed?) && WithinScaled(f, a, x, norm, tol));
    Fit(x, f.value(x), iters, converged, iters >= maxit && !converged, norm)
  }

  ghost predicate IsRun(f: Likelihood, a: Algebra, start: Vec, maxit: int, tol: real, t: seq<Vec>, why: Exit,
                        fit: Fit) {
    && IsTrace(f, a, tol, start, t)
    && Ends(f, a, maxit, tol, t, why)
    && fit == FitOf(f, a, maxit, tol, t, why)
  }

  /** What a call returns: the fit of a run from `start`. */
  ghost predicate IsFit(f: Likelihood, a: Algebra, start: Vec, maxit: int, tol: real, fit: Fit) {
    exists t: seq<Vec>, why: Exit :: IsRun(f, a, start, maxit, tol, t, why, fit)
  }

  lemma CandidateStep(x: Vec, d: Vec, h: nat)
    requires |x| == |d|
    ensures Minus(x, Candidate(x, d, h)) == Scale(Half(h), d)
  {}

  /** Before iteration `iter`: everything so far moved by long steps; `last` is the norm at the point before. */
  ghost predicate Underway(f: Likelihood, a: Algebra, tol: real, start: Vec, t: seq<Vec>, iter: nat, x: Vec,
                           last: Option<real>) {
    && IsTrace(f, a, tol, start, t) && LastStepLong(a, tol, t) && |t| == iter + 1 && x == Last(t)
    && last == (if iter == 0 then None else GradNorm(f, a, t[iter - 1]))
  }

  method OptimizeNewton(f: Likelihood, a: Algebra, start: Vec, maxit: int, tol: real)
    returns (fit: Fit)
    requires Sized(f, a, |start|)
    ensures IsFit(f, a, start, maxit, tol, fit)
  {
    hide IsTrace, FirstLower, NoneLower, Candidate, WithinScaled;
    var x, last, niter := start, None, 0;
    var stalled := false;
    ghost var t, why := [start], OutOfIterations;
    Begins(f, a, tol, start);
    for iter := 0 to if maxit > 0 then maxit else 0
      invariant niter == iter && !stalled && |x| == |start|
      invariant Underway(f, a, tol, start, t, iter, x, last)
    {
      if f.value(x).None? || f.gradient(x).None? {
        why := NotFinite;
        break;
      }
      var current, grad := f.value(x).value, f.gradient(x).value;
      var norm := a.norm(grad);
      ghost var before := last;
      last := Some(norm);
      if norm < tol {
        why := GradientSmall;
        fit := Fit(x, Some(current), iter, true, false, Some(norm));
        assert IsRun(f, a, start, maxit, tol, t, why, fit);
        return;
      }
      var d := NewtonDirection(f, a, x);
      if d.None? {
        why := NoDirection;
        break;
      }
      var accepted, next, value, scale, h := HalveStep(f, x, current, d.value);
      if !accepted {
        stalled, why := true, LineSearchFailed;
        break;
      }
      Extend(f, a, tol, start, t, iter, x, before, next, h);
      CandidateStep(x, d.value, h);
      t, x, niter := t + [next], next, iter + 1;
      if a.norm(Scale(scale, d.value)) < tol {
        why := StepSmall;
        if f.gradient(x).Some? { last := Some(a.norm(f.gradient(x).value)); }
        var converged := (last.Some? && last.value < tol) || WithinScaled(f, a, x, last, tol);
        fit := Fit(x, value, niter, converged, niter >= maxit && !converged, last);
        assert IsRun(f, a, start, maxit, tol, t, why, fit);
        return;
      }
    }
    var converged := (last.Some? && last.value < tol) || (stalled && WithinScaled(f, a, x, last, tol));
    fit := Fit(x, f.value(x), niter, converged, niter >= maxit && !converged, last);
    assert IsRun(f, a, start, maxit, tol, t, why, fit);
  }

  lemma Begins(f: Likelihood, a: Algebra, tol: real, start: Vec)
    ensures Underway(f, a, tol, start, [start], 0, start, None)
  {}

  lemma Extend(f: Likelihood, a: Algebra, tol: real, start: Vec, t: seq<Vec>, iter: nat, x: Vec,
               last: Option<real>, next: Vec, h: nat)
    requires Underway(f, a, tol, start, t, iter, x, last)
    requires f.value(x).Some? && GradNorm(f, a, x).Some? && GradNorm(f, a, x).value >= tol
    requires NewtonDirection(f, a, x).Some? && |NewtonDirection(f, a, x).value| == |x|
    requires FirstLower(f, x, NewtonDirection(f, a, x).value, h)
    requires next == Candidate(x, NewtonDirection(f, a, x).value, h)
    ensures IsTrace(f, a, tol, start, t + [next])
    ensures LongStep(a, tol, x, next) ==> Underway(f, a, tol, start, t + [next], iter + 1, next, GradNorm(f, a, x))
    ensures LongStep(a, tol, x, next) <==> LastStepLong(a, tol, t + [next])
  {
    hide FirstLower, NewtonDirection, GradNorm, Candidate, LongStep;
    var u := t + [next];
    assert forall k :: 0 <= k < |t| ==> u[k] == t[k];
    assert Moved(f, a, tol, x, next);
  }

  // What a run guarantees.

  ghost predicate Descending(f: Likelihood, t: seq<Vec>) {
    forall i, j :: 0 <= i < j < |t| ==>
          f.value(t[i]).Some? && f.value(t[j]).Some? && f.value(t[j]).value < f.value(t[i]).value
  }

  lemma {:induction false} TraceDescends(f: Likelihood, a: Algebra, tol: real, start: Vec, t: seq<Vec>, i: nat, j: nat)
    requires IsTrace(f, a, tol, start, t) && i < j < |t|
    ensures f.value(t[i]).Some? && f.value(t[j]).Some? && f.value(t[j]).value < f.value(t[i]).value
    decreases j
  {
    assert Moved(f, a, tol, t[j - 1], t[j - 1 + 1]);
    if i < j - 1 {
      TraceDescends(f, a, tol, start, t, i, j - 1);
    }
  }

  /** The run as the caller sees it. */
  lemma NewtonContract(f: Likelihood, a: Algebra, start: Vec, maxit: int, tol: real, t: seq<Vec>, why: Exit, fit: Fit)
    requires IsRun(f, a, start, maxit, tol, t, why, fit)
    ensures Descending(f, t) && fit.params in t && fit.value == f.value(fit.params)
    ensures fit.niter == |t| - 1 && fit.niter <= (if maxit > 0 then maxit else 0)
    ensures f.value(start).Some? ==> fit.value.Some? && fit.value.value <= f.value(start).value
    ensures f.value(start).None? ==> fit.params == start
    ensures fit.hitCap <==> fit.niter >= maxit && !fit.converged
    ensures fit.converged ==>
              fit.gradNorm.Some? && (fit.gradNorm.value < tol || WithinScaled(f, a, fit.params, fit.gradNorm, tol))
  {
    forall i, j | 0 <= i < j < |t|
      ensures f.value(t[i]).Some? && f.value(t[j]).Some? && f.value(t[j]).value < f.value(t[i]).value
    {
      TraceDescends(f, a, tol, start, t, i, j);
    }
  }

  /**
   * Exit by exit, what the flag says. A small gradient converges; a short step and a failed line search
   * converge exactly when the norm meets the tolerance or the scaled rule; the other exits never do.
   */
  lemma ConvergedExactly(f: Likelihood, a: Algebra, start: Vec, maxit: int, tol: real, t: seq<Vec>, why: Exit,
                         fit: Fit)
    requires IsRun(f, a, start, maxit, tol, t, why, fit)
    ensures match why
      case GradientSmall => fit.converged && fit.gradNorm == GradNorm(f, a, fit.params) && fit.gradNorm.value < tol
      case StepSmall =>
        fit.gradNorm.Some?
        && (fit.converged <==> fit.gradNorm.value < tol || WithinScaled(f, a, fit.params, fit.gradNorm, tol))
      case LineSearchFailed =>
        GradNorm(f, a, fit.params).Some? && GradNorm(f, a, fit.params).value >= tol
        && (fit.converged <==> WithinScaled(f, a, fit.params, GradNorm(f, a, fit.params), tol))
      case _ => !fit.converged
  {
    if |t| >= 2 {
      assert Moved(f, a, tol, t[|t| - 2], t[|t| - 2 + 1]);
    }
  }

  /** A start at which the gradient is already small is returned as converged, without a step. */
  lemma SmallGradientStops(f: Likelihood, a: Algebra, start: Vec, maxit: int, tol: real, t: seq<Vec>, why: Exit,
                           fit: Fit)
    requires IsRun(f, a, start, maxit, tol, t, why, fit) && maxit > 0 && f.value(start).Some?
    requires GradNorm(f, a, start).Some?
    ensures GradNorm(f, a, start).value < tol <==> why.GradientSmall? && fit.niter == 0
    ensures GradNorm(f, a, start).value < tol ==> fit == Fit(start, f.value(start), 0, true, false, fit.gradNorm)
  {
    if |t| >= 2 {
      assert Moved(f, a, tol, t[0], t[0 + 1]);
    }
  }

  /**
   * The points before the last one had gradients of at least `tol` and were left by steps of at least `tol`,
   * except that the run ends with the first shorter step; without one it ends when the iterations run out.
   */
  lemma ExitsExactly(f: Likelihood, a: Algebra, start: Vec, maxit: int, tol: real, t: seq<Vec>, why: Exit, fit: Fit)
    requires IsRun(f, a, start, maxit, tol, t, why, fit)
    ensures forall k :: 0 <= k < |t| ==> |t[k]| == |start|
    ensures forall k :: 0 <= k < |t| - 1 ==> GradNorm(f, a, t[k]).Some? && GradNorm(f, a, t[k]).value >= tol
    ensures forall k :: 0 <= k < |t| - 2 ==> a.norm(Minus(t[k], t[k + 1])) >= tol
    ensures why.StepSmall? <==> |t| >= 2 && a.norm(Minus(t[|t| - 2], t[|t| - 1])) < tol
    ensures !why.StepSmall? ==> (why.OutOfIterations? <==> fit.niter >= maxit)
    ensures why.NotFinite? ==> f.value(fit.params).None? || f.gradient(fit.params).None?
    ensures why.NoDirection? ==> NewtonDirection(f, a, fit.params).None?
  {
    forall k | 0 <= k < |t| - 1
      ensures GradNorm(f, a, t[k]).Some? && GradNorm(f, a, t[k]).value >= tol
    {
      assert Moved(f, a, tol, t[k], t[k + 1]);
    }
    forall k | 0 <= k < |t| - 2
      ensures a.norm(Minus(t[k], t[k + 1])) >= tol
    {
      assert LongStep(a, tol, t[k], t[k + 1]);
    }
  }

  /** A sound solver makes the direction a solution of the Newton equation. */
  lemma DirectionSolves(f: Likelihood, a: Algebra, x: Vec)
    requires NewtonDirection(f, a, x).Some?
    requires forall m: Mat, g: Vec :: a.solve(m, g).Some? ==> IsMat(m, |g|, |a.solve(m, g).value|)
                                                              && MatVec(m, a.solve(m, g).value) == g
    ensures f.hessian(x).Some? && f.gradient(x).Some?
    ensures var d := NewtonDirection(f, a, x).value;
            && IsMat(f.hessian(x).value, |f.gradient(x).value|, |d|)
            && MatVec(f.hessian(x).value, d) == f.gradient(x).value
  {}

  /** The scaled rule: below 1e-4, and below ten tolerances or ten tolerances times the largest curvature. */
  lemma WithinScaledExactly(f: Likelihood, a: Algebra, x: Vec, norm: Option<real>, tol: real)
    requires tol >= 0.0
    ensures WithinScaled(f, a, x, norm, tol) <==>
              && norm.Some? && f.hessian(x).Some? && a.lamMax(f.hessian(x).value).Some?
              && norm.value < 0.0001
              && (norm.value < tol * 10.0 || norm.value < Times(a.lamMax(f.hessian(x).value).value, tol * 10.0))
  {
    hide Times;
    if norm.Some? && f.hessian(x).Some? && a.lamMax(f.hessian(x).value).Some? {
      var lam := a.lamMax(f.hessian(x).value).value;
      ScaledBound(tol, lam);
      LargerFactor(tol * 10.0, lam);
      SmallerBound(norm.value, tol * 10.0, Times(lam, tol * 10.0), lam > 1.0);
    }
  }

  lemma ScaledBound(tol: real, lam: real)
    ensures 10.0 * tol * (if lam > 1.0 then lam else 1.0) == if lam > 1.0 then Times(lam, tol * 10.0) else tol * 10.0
  {}

  lemma LargerFactor(bound: real, lam: real)
    requires bound >= 0.0
    ensures if lam > 1.0 then Times(lam, bound) >= bound else Times(lam, bound) <= bound
  {
    Excess(lam, bound);
    hide Times;
    if lam > 1.0 {
      ProductNonnegative(lam - 1.0, bound);
    } else {
      ProductNonnegative(1.0 - lam, bound);
    }
  }

  lemma Excess(lam: real, bound: real)
    ensures Times(lam, bound) == bound + Times(lam - 1.0, bound) == bound - Times(1.0 - lam, bound)
  {}

  lemma ProductNonnegative(x: real, y: real)
    requires x >= 0.0 && y >= 0.0
    ensures Times(x, y) >= 0.0
  {}

  lemma SmallerBound(norm: real, bound: real, scaled: real, larger: bool)
    requires if larger then scaled >= bound else scaled <= bound
    ensures var s := if larger then scaled else bound;
      norm < (if s < 0.0001 then s else 0.0001) <==> norm < 0.0001 && (norm < bound || norm < scaled)
  {}

  /** 2^h. */
  function Doublings(h: nat): nat { if h == 0 then 1 else 2 * Doublings(h - 1) }

  /** The h-th scale is 2^-h, and the candidate moves against the direction by that part of it. */
  lemma {:induction false} HalfIsPower(h: nat)
    ensures Half(h) * Doublings(h) as real == 1.0
  {
    if h > 0 {
      HalfIsPower(h - 1);
    }
  }

  lemma CandidateMoves(x: Vec, d: Vec, h: nat, i: nat)
    requires |x| == |d| && i < |x|
    ensures (x[i] - Candidate(x, d, h)[i]) * Doublings(h) as real == d[i]
  {
    HalfIsPower(h);
    CandidateStep(x, d, h);
    assert x[i] - Candidate(x, d, h)[i] == Minus(x, Candidate(x, d, h))[i] == Half(h) * d[i];
    UnitFactor(Half(h), Doublings(h) as real, d[i]);
  }

  lemma UnitFactor(x: real, y: real, z: real)
    requires x * y == 1.0
    ensures (x * z) * y == z
  {
    assert (x * z) * y == (x * y) * z;
  }

  /** A converged run reports the norm of the returned point exactly when the gradient is finite there. */
  lemma ConvergedNormIsCurrent(f: Likelihood, a: Algebra, start: Vec, maxit: int, tol: real, t: seq<Vec>,
                               why: Exit, fit: Fit)
    requires IsRun(f, a, start, maxit, tol, t, why, fit) && fit.converged
    ensures f.gradient(fit.params).Some? <==> fit.gradNorm == GradNorm(f, a, fit.params)
  {
    if |t| >= 2 {
      assert Moved(f, a, tol, t[|t| - 2], t[|t| - 2 + 1]);
    }
  }

  /** Exit by exit, when the reported norm is that of the returned point. */
  lemma NormIsCurrent(f: Likelihood, a: Algebra, start: Vec, maxit: int, tol: real, t: seq<Vec>, why: Exit, fit: Fit)
    requires IsRun(f, a, start, maxit, tol, t, why, fit)
    ensures fit.gradNorm == GradNorm(f, a, fit.params) <==>
              match why
              case GradientSmall => true
              case NoDirection => true
              case LineSearchFailed => true
              case StepSmall => f.gradient(fit.params).Some?
              case NotFinite => fit.niter == 0 && f.gradient(start).None?
              case OutOfIterations =>
                if fit.niter == 0 then f.gradient(start).None?
                else GradNorm(f, a, fit.params) == GradNorm(f, a, t[fit.niter - 1])
  {
    if |t| >= 2 {
      TraceDescends(f, a, tol, start, t, |t| - 2, |t| - 1);
      assert Moved(f, a, tol, t[|t| - 2], t[|t| - 2 + 1]);
    }
  }

  /**
   * When the iterations run out or the next evaluation is not finite, the fit is not flagged as converged,
   * even if the point just reached meets the tolerance: its norm is not looked at.
   */
  lemma LastPointNotAssessed(f: Likelihood, a: Algebra, start: Vec, maxit: int, tol: real, t: seq<Vec>, why: Exit,
                             fit: Fit)
    requires IsRun(f, a, start, maxit, tol, t, why, fit) && (why.OutOfIterations? || why.NotFinite?)
    ensures !fit.converged
    ensures fit.niter > 0 ==>
              fit.gradNorm == GradNorm(f, a, t[fit.niter - 1]) && fit.gradNorm.Some? && fit.gradNorm.value >= tol
  {
    if |t| >= 2 {
      assert Moved(f, a, tol, t[|t| - 2], t[|t| - 2 + 1]);
    }
  }

  /** With gradients finite wherever values are, the flag certifies the returned point. */
  lemma ConvergedIsStationary(f: Likelihood, a: Algebra, start: Vec, maxit: int, tol: real, t: seq<Vec>, why: Exit,
                              fit: Fit)
    requires IsRun(f, a, start, maxit, tol, t, why, fit) && fit.converged
    requires forall x: Vec :: f.value(x).Some? ==> f.gradient(x).Some?
    ensures fit.gradNorm.Some? && fit.gradNorm == GradNorm(f, a, fit.params)
    ensures fit.gradNorm.value < tol || WithinScaled(f, a, fit.params, fit.gradNorm, tol)
  {
    ConvergedNormIsCurrent(f, a, start, maxit, tol, t, why, fit);
    if |t| >= 2 {
      TraceDescends(f, a, tol, start, t, |t| - 2, |t| - 1);
      assert Moved(f, a, tol, t[|t| - 2], t[|t| - 2 + 1]);
    }
  }

  lemma MoveUnique(f: Likelihood, a: Algebra, tol: real, x: Vec, next: Vec, other: Vec)
    requires Moved(f, a, tol, x, next) && Moved(f, a, tol, x, other)
    ensures next == other
  {
    var d := NewtonDirection(f, a, x).value;
    var h: nat :| FirstLower(f, x, d, h) && next == Candidate(x, d, h);
    var g: nat :| FirstLower(f, x, d, g) && other == Candidate(x, d, g);
    assert !(g < h) && !(h < g);
  }

  lemma {:induction false} CommonPrefix(f: Likelihood, a: Algebra, tol: real, start: Vec, t: seq<Vec>, u: seq<Vec>,
                                        k: nat)
    requires IsTrace(f, a, tol, start, t) && IsTrace(f, a, tol, start, u) && k < |t| && k < |u|
    ensures t[..k + 1] == u[..k + 1]
  {
    if k > 0 {
      CommonPrefix(f, a, tol, start, t, u, k - 1);
      assert t[k - 1] == t[..k][k - 1] && u[k - 1] == u[..k][k - 1];
      assert Moved(f, a, tol, t[k - 1], t[k - 1 + 1]) && Moved(f, a, tol, u[k - 1], u[k - 1 + 1]);
      MoveUnique(f, a, tol, t[k - 1], t[k], u[k]);
      assert t[..k + 1] == t[..k] + [t[k]] && u[..k + 1] == u[..k] + [u[k]];
    }
  }

  /** A trace that extends another one moves on from it, by a long step before that. */
  lemma GoesOn(f: Likelihood, a: Algebra, start: Vec, maxit: int, tol: real, t: seq<Vec>, u: seq<Vec>, why: Exit)
    requires IsTrace(f, a, tol, start, t) && IsTrace(f, a, tol, start, u) && |t| < |u| && Ends(f, a, maxit, tol, u, why)
    ensures Moved(f, a, tol, Last(t), u[|t|]) && LastStepLong(a, tol, t) && |t| <= maxit
  {
    var k := |t| - 1;
    CommonPrefix(f, a, tol, start, t, u, k);
    assert t[k] == t[..k + 1][k] && u[k] == u[..k + 1][k];
    assert Moved(f, a, tol, u[k], u[k + 1]);
    if k > 0 {
      assert t[k - 1] == t[..k + 1][k - 1] && u[k - 1] == u[..k + 1][k - 1];
      assert LongStep(a, tol, u[k - 1], u[k - 1 + 1]);
    }
  }

  lemma EndBlocks(f: Likelihood, a: Algebra, maxit: int, tol: real, t: seq<Vec>, why: Exit, next: Vec)
    requires t != [] && Ends(f, a, maxit, tol, t, why) && LastStepLong(a, tol, t) && |t| <= maxit
    ensures !Moved(f, a, tol, Last(t), next)
  {}

  /** A run that has ended does not move on. */
  lemma NoLongerRun(f: Likelihood, a: Algebra, start: Vec, maxit: int, tol: real, t: seq<Vec>, why: Exit,
                    u: seq<Vec>, other: Exit)
    requires IsTrace(f, a, tol, start, t) && Ends(f, a, maxit, tol, t, why)
    requires IsTrace(f, a, tol, start, u) && Ends(f, a, maxit, tol, u, other)
    ensures |u| <= |t|
  {
    if |u| > |t| {
      GoesOn(f, a, start, maxit, tol, t, u, other);
      EndBlocks(f, a, maxit, tol, t, why, u[|t|]);
    }
  }

  /** The description of a run leaves no choice: trace, exit and fit are determined by the inputs. */
  lemma RunUnique(f: Likelihood, a: Algebra, start: Vec, maxit: int, tol: real,
                  t: seq<Vec>, why: Exit, fit: Fit, u: seq<Vec>, other: Exit, fit': Fit)
    requires IsRun(f, a, start, maxit, tol, t, why, fit) && IsRun(f, a, start, maxit, tol, u, other, fit')
    ensures t == u && why == other && fit == fit'
  {
    NoLongerRun(f, a, start, maxit, tol, t, why, u, other);
    NoLongerRun(f, a, start, maxit, tol, u, other, t, why);
    CommonPrefix(f, a, tol, start, t, u, |t| - 1);
    assert t[..|t|] == t && u[..|u|] == u;
    SameExit(f, a, maxit, tol, t, why, other);
  }

  /** So a call has one answer. */
  lemma FitUnique(f: Likelihood, a: Algebra, start: Vec, maxit: int, tol: real, fit: Fit, fit': Fit)
    requires IsFit(f, a, start, maxit, tol, fit) && IsFit(f, a, start, maxit, tol, fit')
    ensures fit == fit'
  {
    var t, why :| IsRun(f, a, start, maxit, tol, t, why, fit);
    var u, other :| IsRun(f, a, start, maxit, tol, u, other, fit');
    RunUnique(f, a, start, maxit, tol, t, why, fit, u, other, fit');
  }

  lemma SameExit(f: Likelihood, a: Algebra, maxit: int, tol: real, t: seq<Vec>, why: Exit, other: Exit)
    requires t != [] && Ends(f, a, maxit, tol, t, why) && Ends(f, a, maxit, tol, t, other)
    ensures why == other
  {}

  // The flag is not always about the returned point.

  /**
   * A parabola in one parameter, 0.00005 (x - 1) + 25 (x - 1)^2, whose gradient cannot be evaluated off the
   * start; at the start value, gradient and Hessian belong together.
   */
  function Cliff(): Likelihood {
    Likelihood((x: Vec) => if |x| == 1 then Some(0.00005 * (x[0] - 1.0) + 25.0 * (x[0] - 1.0) * (x[0] - 1.0)) else None,
               (x: Vec) => if x == [1.0] then Some([0.00005]) else None,
               (x: Vec) => Some([[50.0]]))
  }

  /** One-by-one matrices. */
  function Scalars(): Algebra {
    Algebra((x: Vec) => SumAbs(x),
            (m: Mat, g: Vec) =>
              if |m| == 1 && |m[0]| == 1 && m[0][0] != 0.0 && |g| == 1 then Some([g[0] / m[0][0]]) else None,
            (m: Mat) => if |m| == 1 && |m[0]| == 1 then Some(Abs(m[0][0])) else None)
  }

  lemma CliffFallsOnce()
    ensures FirstLower(Cliff(), [1.0], [0.000001], 0) && Candidate([1.0], [0.000001], 0) == [0.999999]
  {
    assert Half(0) == 1.0;
    assert Candidate([1.0], [0.000001], 0)[0] == 0.999999;
    assert Lower(Cliff(), [1.0], [0.000001], 0);
  }

  lemma SumAbsOfOne(x: real)
    ensures SumAbs([x]) == Abs(x)
  {
    assert [x][1..] == [];
  }

  lemma CliffMoves()
    ensures NewtonDirection(Cliff(), Scalars(), [1.0]) == Some([0.000001])
    ensures GradNorm(Cliff(), Scalars(), [1.0]) == Some(0.00005) && GradNorm(Cliff(), Scalars(), [0.999999]) == None
    ensures Moved(Cliff(), Scalars(), 0.00001, [1.0], [0.999999])
  {
    CliffFallsOnce();
    SumAbsOfOne(0.00005);
    assert NewtonDirection(Cliff(), Scalars(), [1.0]).value[0] == 0.000001;
    assert [1.0] != [0.999999] by { assert [1.0][0] != [0.999999][0]; }
  }

  lemma CliffStepIsShort()
    ensures !LongStep(Scalars(), 0.00001, [1.0], [0.999999])
  {
    assert Minus([1.0], [0.999999]) == [0.000001];
    SumAbsOfOne(0.000001);
  }

  /**
   * Without finite gradients the flag can be wrong: this run is reported as converged on the strength of
   * the norm of the point before the returned one.
   */
  lemma StaleNormConverges()
    ensures var t := [[1.0], [0.999999]];
            var fit := FitOf(Cliff(), Scalars(), 10, 0.00001, t, StepSmall);
            && IsRun(Cliff(), Scalars(), [1.0], 10, 0.00001, t, StepSmall, fit)
            && fit.converged && fit.gradNorm == Some(0.00005)
            && Cliff().gradient(fit.params).None?
  {
    CliffMoves();
    CliffStepIsShort();
    var t := [[1.0], [0.999999]];
    assert t[0] == [1.0] && t[1] == [0.999999];
    assert IsTrace(Cliff(), Scalars(), 0.00001, [1.0], t);
    CliffWithinScaled();
  }

  lemma CliffWithinScaled()
    ensures WithinScaled(Cliff(), Scalars(), [0.999999], Some(0.00005), 0.00001)
  {}

  /** Half the square of one parameter. */
  function Bowl(): Likelihood {
    Likelihood((x: Vec) => if |x| == 1 then Some(x[0] * x[0] / 2.0) else None,
               (x: Vec) => if |x| == 1 then Some(x) else None,
               (x: Vec) => Some([[1.0]]))
  }

  lemma BowlMoves()
    ensures NewtonDirection(Bowl(), Scalars(), [1.0]) == Some([1.0])
    ensures GradNorm(Bowl(), Scalars(), [1.0]) == Some(1.0) && GradNorm(Bowl(), Scalars(), [0.0]) == Some(0.0)
    ensures Moved(Bowl(), Scalars(), 0.00001, [1.0], [0.0])
  {
    SumAbsOfOne(1.0);
    SumAbsOfOne(0.0);
    assert NewtonDirection(Bowl(), Scalars(), [1.0]).value[0] == 1.0;
    assert Half(0) == 1.0;
    assert Candidate([1.0], [1.0], 0)[0] == 0.0;
    assert Candidate([1.0], [1.0], 0) == [0.0];
    assert FirstLower(Bowl(), [1.0], [1.0], 0);
  }

  /** One iteration lands on the optimum; the fit reports norm 1 and is not flagged as converged. */
  lemma OptimumNotAssessed()
    ensures var t := [[1.0], [0.0]];
            var fit := FitOf(Bowl(), Scalars(), 1, 0.00001, t, OutOfIterations);
            && IsRun(Bowl(), Scalars(), [1.0], 1, 0.00001, t, OutOfIterations, fit)
            && fit.params == [0.0] && GradNorm(Bowl(), Scalars(), fit.params) == Some(0.0)
            && fit.gradNorm == Some(1.0) && !fit.converged && fit.hitCap
  {
    BowlMoves();
    var t := [[1.0], [0.0]];
    assert t[0] == [1.0] && t[1] == [0.0];
    assert IsTrace(Bowl(), Scalars(), 0.00001, [1.0], t);
    assert Minus([1.0], [0.0]) == [1.0];
    assert LastStepLong(Scalars(), 0.00001, t);
  }
}

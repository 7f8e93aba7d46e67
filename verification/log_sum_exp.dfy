/**
 * The stabilised soft-max of the adjacent-category likelihood, from the laws of the exponential alone:
 * it is a probability vector, no exponent is positive, and the log-total lies above its tangents.
 */
module LogSumExp {
  import opened Vectors
  import opened AdjacentScores

  /** The two library functions the code calls; `Lawful` is all that is used of them. */
  datatype Elementary = Elementary(exp: real -> real, log: real -> real)

  ghost predicate Lawful(e: Elementary) {
    && (forall x: real :: e.exp(x) > 0.0 && e.exp(x) >= 1.0 + x)
    && (forall x: real, y: real :: e.exp(x + y) == e.exp(x) * e.exp(y))
    && (forall s: real :: s > 0.0 ==> e.exp(e.log(s)) == s)
  }

  lemma ExpOfSum(e: Elementary, x: real, y: real)
    requires Lawful(e)
    ensures e.exp(x + y) == Times(e.exp(x), e.exp(y))
  {}

  lemma ExpBounds(e: Elementary, x: real)
    requires Lawful(e)
    ensures e.exp(x) > 0.0 && e.exp(x) >= 1.0 + x
  {}

  lemma ExpOfLog(e: Elementary, s: real)
    requires Lawful(e) && s > 0.0
    ensures e.exp(e.log(s)) == s
  {}

  lemma UnitFactor(z: real, w: real)
    requires z > 0.0 && Times(z, w) == z
    ensures w == 1.0
  {}

  lemma ExpOfZero(e: Elementary)
    requires Lawful(e)
    ensures e.exp(0.0) == 1.0
  {
    hide Lawful;
    ExpOfSum(e, 0.0, 0.0);
    ExpBounds(e, 0.0);
    UnitFactor(e.exp(0.0), e.exp(0.0));
  }

  lemma SmallFactor(z: real, w: real)
    requires z > 1.0 && w > 0.0 && Times(z, w) == 1.0
    ensures w < 1.0
  {}

  lemma LogOfAtLeastOne(e: Elementary, s: real)
    requires Lawful(e) && s >= 1.0
    ensures e.log(s) >= 0.0
  {
    hide Lawful;
    var a := e.log(s);
    if a < 0.0 {
      ExpOfLog(e, s);
      ExpOfSum(e, -a, a);
      ExpOfZero(e);
      ExpBounds(e, -a);
      ExpBounds(e, a);
      SmallFactor(e.exp(-a), e.exp(a));
    }
  }

  // The computation.

  function Max(u: Vec, n: nat): (r: real)
    requires 0 < n <= |u|
    ensures forall k :: 0 <= k < n ==> u[k] <= r
    ensures exists k :: 0 <= k < n && u[k] == r
  {
    if n == 1 then u[0] else
      var before := Max(u, n - 1);
      if u[n - 1] > before then u[n - 1] else before
  }

  /** The sum of exp(u[k] - shift) over the first n entries. */
  function SumExp(e: Elementary, u: Vec, n: nat, shift: real): real
    requires n <= |u|
  {
    if n == 0 then 0.0 else SumExp(e, u, n - 1, shift) + e.exp(u[n - 1] - shift)
  }

  function Peak(u: Vec): real
    requires u != []
  {
    Max(u, |u|)
  }

  function LogTotal(e: Elementary, u: Vec): real
    requires u != []
  {
    Peak(u) + e.log(SumExp(e, u, |u|, Peak(u)))
  }

  function Softmax(e: Elementary, u: Vec): (prob: Vec)
    requires u != []
    ensures |prob| == |u| && forall k :: 0 <= k < |u| ==> prob[k] == e.exp(u[k] - LogTotal(e, u))
  {
    seq(|u|, k requires 0 <= k < |u| => e.exp(u[k] - LogTotal(e, u)))
  }

  lemma {:induction false} SumExpAboveEntry(e: Elementary, u: Vec, n: nat, shift: real, k: nat)
    requires Lawful(e) && k < n <= |u|
    ensures SumExp(e, u, n, shift) >= e.exp(u[k] - shift)
  {
    hide Lawful;
    ExpBounds(e, u[n - 1] - shift);
    if k < n - 1 {
      SumExpAboveEntry(e, u, n - 1, shift, k);
    } else {
      SumExpNonnegative(e, u, n - 1, shift);
    }
  }

  lemma {:induction false} SumExpNonnegative(e: Elementary, u: Vec, n: nat, shift: real)
    requires Lawful(e) && n <= |u|
    ensures SumExp(e, u, n, shift) >= 0.0
  {
    hide Lawful;
    if n > 0 {
      SumExpNonnegative(e, u, n - 1, shift);
      ExpBounds(e, u[n - 1] - shift);
    }
  }

  /** Whatever the parameters, every exponential is taken of a number that is not positive. */
  lemma ExponentsNotPositive(e: Elementary, u: Vec, k: nat)
    requires Lawful(e) && k < |u|
    ensures u[k] - Peak(u) <= 0.0 && u[k] - LogTotal(e, u) <= 0.0 && SumExp(e, u, |u|, Peak(u)) >= 1.0
  {
    hide Lawful, SumExp;
    var top: nat :| top < |u| && u[top] == Peak(u);
    SumExpAboveEntry(e, u, |u|, Peak(u), top);
    ExpOfZero(e);
    LogOfAtLeastOne(e, SumExp(e, u, |u|, Peak(u)));
  }

  lemma {:induction false} SumExpShifts(e: Elementary, u: Vec, n: nat, s: real, t: real)
    requires Lawful(e) && n <= |u|
    ensures SumExp(e, u, n, s + t) == Times(SumExp(e, u, n, s), e.exp(-t))
  {
    hide Lawful, Times;
    if n > 0 {
      SumExpShifts(e, u, n - 1, s, t);
      ExpOfSum(e, u[n - 1] - s, -t);
      assert (u[n - 1] - s) + (-t) == u[n - 1] - (s + t);
      TimesSum(e.exp(-t), SumExp(e, u, n - 1, s), e.exp(u[n - 1] - s));
    } else {
      TimesZero(e.exp(-t));
    }
  }

  lemma SumExpIsOne(e: Elementary, u: Vec)
    requires Lawful(e) && u != []
    ensures SumExp(e, u, |u|, LogTotal(e, u)) == 1.0
  {
    hide Lawful, SumExp, Times;
    var s := SumExp(e, u, |u|, Peak(u));
    ExponentsNotPositive(e, u, 0);
    SumExpShifts(e, u, |u|, Peak(u), e.log(s));
    ExpOfLog(e, s);
    ExpOfSum(e, e.log(s), -e.log(s));
    ExpOfZero(e);
  }

  lemma {:induction false} SoftmaxSums(e: Elementary, u: Vec, n: nat)
    requires u != [] && n <= |u|
    ensures Mean(Softmax(e, u), n, One) == SumExp(e, u, n, LogTotal(e, u))
  {
    hide LogTotal;
    if n > 0 {
      SoftmaxSums(e, u, n - 1);
    }
  }

  lemma SoftmaxIsDistribution(e: Elementary, u: Vec)
    requires Lawful(e) && u != []
    ensures IsDistribution(Softmax(e, u))
  {
    hide Lawful, LogTotal, SumExp, Mean;
    SoftmaxSums(e, u, |u|);
    SumExpIsOne(e, u);
    forall k | 0 <= k < |u|
      ensures Softmax(e, u)[k] >= 0.0
    {
      ExpBounds(e, u[k] - LogTotal(e, u));
    }
  }

  /** The entry of a category, categories counting from 1. */
  function At(d: Vec): nat -> real { (y: nat) => if 1 <= y <= |d| then d[y - 1] else 0.0 }

  lemma AtIs(d: Vec, y: nat)
    requires 1 <= y <= |d|
    ensures At(d)(y) == d[y - 1]
  {}

  /** One category's part of the tangent inequality. */
  lemma TangentTerm(e: Elementary, u: real, v: real, s: real, t: real)
    requires Lawful(e)
    ensures e.exp(v - t) >= Times(e.exp(u - s), 1.0 + ((v - u) - (t - s)))
  {
    hide Lawful;
    var z := (v - u) - (t - s);
    ExpOfSum(e, u - s, z);
    assert (u - s) + z == v - t;
    ExpBounds(e, u - s);
    ExpBounds(e, z);
    TimesGrows(e.exp(u - s), e.exp(z), 1.0 + z);
  }

  lemma TimesGrows(p: real, x: real, y: real)
    requires p >= 0.0 && x >= y
    ensures Times(p, x) >= Times(p, y)
  {}

  /** The weighted tangents, summed: (1 - c) ones + mean. */
  function Tangent(ones: real, mean: real, c: real): real { (1.0 - c) * ones + mean }

  lemma {:induction false} TangentSum(e: Elementary, u: Vec, v: Vec, s: real, t: real, prob: Vec, n: nat,
                                      d: nat -> real)
    requires Lawful(e) && |u| == |v| == |prob| && n <= |u|
    requires forall k :: 0 <= k < |u| ==> prob[k] == e.exp(u[k] - s)
    requires forall k: nat :: k < |u| ==> d(k + 1) == v[k] - u[k]
    ensures SumExp(e, v, n, t) >= Tangent(Mean(prob, n, One), Mean(prob, n, d), t - s)
  {
    hide Lawful, Tangent, Times;
    if n > 0 {
      TangentSum(e, u, v, s, t, prob, n - 1, d);
      TangentTerm(e, u[n - 1], v[n - 1], s, t);
      MeanStep(prob, n, One, 1.0);
      assert d((n - 1) + 1) == v[n - 1] - u[n - 1];
      MeanStep(prob, n, d, d(n));
      TangentStep(prob[n - 1], d(n), t - s, Mean(prob, n - 1, One), Mean(prob, n - 1, d));
    } else {
      TangentZero(t - s);
    }
  }

  lemma TangentZero(c: real)
    ensures Tangent(0.0, 0.0, c) == 0.0
  {}

  lemma TangentStep(p: real, d: real, c: real, ones: real, mean: real)
    ensures Tangent(ones, mean, c) + Times(p, 1.0 + (d - c)) == Tangent(ones + Times(p, 1.0), mean + Times(p, d), c)
  {}

  lemma TangentAtOne(sum: real, ones: real, mean: real, s: real, t: real)
    requires sum == 1.0 && ones == 1.0 && sum >= Tangent(ones, mean, t - s)
    ensures t >= s + mean
  {}

  lemma TangentOfTotals(e: Elementary, u: Vec, v: Vec, s: real, t: real)
    requires Lawful(e) && |u| == |v| && u != [] && s == LogTotal(e, u)
    ensures SumExp(e, v, |u|, t)
         >= Tangent(Mean(Softmax(e, u), |u|, One), Mean(Softmax(e, u), |u|, At(Minus(v, u))), t - s)
  {
    hide Lawful, LogTotal, Tangent;
    TangentSum(e, u, v, s, t, Softmax(e, u), |u|, At(Minus(v, u)));
  }

  /** The log-total lies above its tangent at u, whose slope is the soft-max of u. */
  lemma LogTotalAboveTangent(e: Elementary, u: Vec, v: Vec)
    requires Lawful(e) && |u| == |v| && u != []
    ensures LogTotal(e, v) >= LogTotal(e, u) + Mean(Softmax(e, u), |u|, At(Minus(v, u)))
  {
    hide Lawful, LogTotal, Tangent, Softmax, At, Peak;
    var s, t, prob := LogTotal(e, u), LogTotal(e, v), Softmax(e, u);
    SumExpIsOne(e, u);
    SumExpIsOne(e, v);
    SoftmaxSums(e, u, |u|);
    TangentOfTotals(e, u, v, s, t);
    TangentAtOne(SumExp(e, v, |u|, t), Mean(prob, |u|, One), Mean(prob, |u|, At(Minus(v, u))), s, t);
  }

  /** The passes over the categories: the peak, the total, and the probabilities in place. */
  method Normalise(e: Elementary, u: array<real>, prob: array<real>) returns (logTotal: real)
    requires u.Length > 0 && prob.Length == u.Length && u != prob
    modifies prob
    ensures logTotal == LogTotal(e, u[..]) && prob[..] == Softmax(e, u[..])
  {
    hide Peak, SumExp;
    var peak := FindPeak(u);
    var sum := TotalExp(e, u, peak);
    logTotal := peak + e.log(sum);
    FillExp(e, u, logTotal, prob);
    FilledIsSoftmax(e, u[..], logTotal, prob[..]);
  }

  lemma FilledIsSoftmax(e: Elementary, u: Vec, logTotal: real, prob: Vec)
    requires u != [] && logTotal == LogTotal(e, u) && |prob| == |u|
    requires forall k :: 0 <= k < |u| ==> prob[k] == e.exp(u[k] - logTotal)
    ensures prob == Softmax(e, u)
  {
    hide LogTotal;
  }

  method FindPeak(u: array<real>) returns (peak: real)
    requires u.Length > 0
    ensures peak == Peak(u[..])
  {
    peak := u[0];
    for k := 1 to u.Length
      invariant peak == Max(u[..], k)
    {
      if u[k] > peak { peak := u[k]; }
    }
  }

  method TotalExp(e: Elementary, u: array<real>, peak: real) returns (sum: real)
    ensures sum == SumExp(e, u[..], u.Length, peak)
  {
    sum := 0.0;
    for k := 0 to u.Length
      invariant sum == SumExp(e, u[..], k, peak)
    {
      sum := sum + e.exp(u[k] - peak);
    }
  }

  method FillExp(e: Elementary, u: array<real>, logTotal: real, prob: array<real>)
    requires prob.Length == u.Length && u != prob
    modifies prob
    ensures forall k :: 0 <= k < u.Length ==> prob[k] == e.exp(u[k] - logTotal)
  {
    for k := 0 to u.Length
      invariant forall i :: 0 <= i < k ==> prob[i] == e.exp(u[i] - logTotal)
    {
      prob[k] := e.exp(u[k] - logTotal);
    }
  }
}

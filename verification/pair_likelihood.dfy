/**
 * What the rows of discordant pairs are for: their outcome names the member with the larger outcome, and a
 * logistic regression on the stacked design has the conditional likelihood of the pairs times the likelihood
 * of the reservoir.
 */
module PairLikelihood {
  import opened Vectors
  import opened LogSumExp
  import opened DiscordantPairs

  // Outcomes.

  /** The outcome of a row is 1 exactly when the first member has the larger outcome. */
  lemma OutcomeNamesLarger(d: Matched, p: nat, q: Pair)
    requires IsMatched(d, p) && q.first < |d.y| && q.second < |d.y| && d.y[q.first] != d.y[q.second]
    ensures RowOf(d, q).y01 == if d.y[q.first] > d.y[q.second] then 1.0 else 0.0
    ensures (2.0 * RowOf(d, q).y01 - 1.0) * (d.y[q.first] - d.y[q.second]) > 0.0
    ensures Binary(d.y[q.first]) && Binary(d.y[q.second]) ==> RowOf(d, q).y01 == d.y[q.first]
  {}

  predicate Binary(y: real) { y == 0.0 || y == 1.0 }

  /** So it is in every row that is written. */
  lemma FilledOutcomes(d: Matched, p: nat, y01: array<real>, t: array<real>, x: array<Vec>, nd: nat, r: nat)
    requires IsMatched(d, p) && nd <= y01.Length && nd <= t.Length && nd <= x.Length
    requires Filled(d, p, |d.y|, y01, t, x, nd) && r < nd
    ensures var q := Pairs(d.strata, d.y, |d.y|)[r];
            && q.first < q.second < |d.y| && d.strata[q.first] == d.strata[q.second]
            && y01[r] == (if d.y[q.first] > d.y[q.second] then 1.0 else 0.0)
            && t[r] == d.w[q.first] - d.w[q.second] && x[r] == Minus(d.x[q.first], d.x[q.second])
  {
    DiscordantAt(d, p, r);
    assert HoldsRow(d, p, Pairs(d.strata, d.y, |d.y|)[r], Row(y01[r], t[r], x[r]));
    OutcomeNamesLarger(d, p, Pairs(d.strata, d.y, |d.y|)[r]);
  }

  lemma DiscordantAt(d: Matched, p: nat, r: nat)
    requires IsMatched(d, p) && r < |Pairs(d.strata, d.y, |d.y|)|
    ensures var q := Pairs(d.strata, d.y, |d.y|)[r];
            && q.first < q.second < |d.y| && d.strata[q.first] == d.strata[q.second]
            && d.y[q.first] != d.y[q.second]
  {
    PairsAre(d.strata, d.y, |d.y|);
    assert Pairs(d.strata, d.y, |d.y|)[r] in Pairs(d.strata, d.y, |d.y|);
  }

  /** And in the outcome column of the stacked design. */
  lemma DesignOutcomes(g: Design, d: Matched, p: nat, yR: Vec, wR: Vec, xR: Mat, r: nat)
    requires IsMatched(d, p) && |yR| == |wR| && IsMat(xR, |yR|, p)
    requires IsDesign(g, d, p, yR, wR, xR) && r < |g.y|
    ensures r < g.nd ==>
              var q := Pairs(d.strata, d.y, |d.y|)[r];
              && q.first < |d.y| && q.second < |d.y|
              && g.y[r] == if d.y[q.first] > d.y[q.second] then 1.0 else 0.0
    ensures r >= g.nd ==> r - g.nd < |yR| && g.y[r] == yR[r - g.nd]
  {
    if r < g.nd {
      DiscordantAt(d, p, r);
      var q := Pairs(d.strata, d.y, |d.y|)[r];
      assert IsPairRow(d, p, q, g.x[r], g.y[r]);
      OutcomeNamesLarger(d, p, q);
    } else {
      assert g.y[|Pairs(d.strata, d.y, |d.y|)| + (r - g.nd)] == yR[r - g.nd];
    }
  }

  // Likelihoods.

  /** The logistic probability of the outcome 1 or 0 under a linear predictor. */
  ghost function Logistic(e: Elementary, y: real, eta: real): real
    requires Lawful(e)
  {
    ExpBounds(e, eta);
    if y == 1.0 then e.exp(eta) / (1.0 + e.exp(eta)) else 1.0 / (1.0 + e.exp(eta))
  }

  /** Given that one of two members has the larger outcome, the probability that it is this one. */
  ghost function Conditional(e: Elementary, eta: real, other: real): real
    requires Lawful(e)
  {
    ExpBounds(e, eta);
    ExpBounds(e, other);
    e.exp(eta) / (e.exp(eta) + e.exp(other))
  }

  lemma SameQuotient(x: real, y: real, u: real, v: real)
    requires y > 0.0 && v > 0.0 && Times(x, v) == Times(u, y)
    ensures x / y == u / v
  {
    assert (x / y) * y == x && (u / v) * v == u;
    assert ((x / y) - (u / v)) * (y * v) == 0.0;
  }

  lemma CrossProducts(a: real, b: real, c: real)
    requires a == Times(c, b)
    ensures Times(c, a + b) == Times(a, 1.0 + c) && Times(1.0, b + a) == Times(b, 1.0 + c)
  {
    assert Times(a, 1.0 + c) == a + Times(a, c) && Times(c, a + b) == Times(c, a) + Times(c, b);
  }

  /** a = c b: the odds c to 1 are the odds a to b. */
  lemma SameOdds(a: real, b: real, c: real)
    requires a > 0.0 && b > 0.0 && c > 0.0 && a == Times(c, b)
    ensures c / (1.0 + c) == a / (a + b) && 1.0 / (1.0 + c) == b / (b + a)
  {
    CrossProducts(a, b, c);
    hide Times;
    SameQuotient(c, 1.0 + c, a, a + b);
    SameQuotient(1.0, 1.0 + c, b, b + a);
  }

  /** A logistic row on the difference of two predictors has the conditional probability of its outcome. */
  lemma DifferenceIsConditional(e: Elementary, eta: real, other: real)
    requires Lawful(e)
    ensures Logistic(e, 1.0, eta - other) == Conditional(e, eta, other)
    ensures Logistic(e, 0.0, eta - other) == Conditional(e, other, eta)
  {
    hide Lawful, Times;
    ExpOfSum(e, eta - other, other);
    assert (eta - other) + other == eta;
    ExpBounds(e, eta);
    ExpBounds(e, other);
    ExpBounds(e, eta - other);
    SameOdds(e.exp(eta), e.exp(other), e.exp(eta - other));
  }

  /** The coefficients: intercept, treatment, covariates. */
  datatype Coefficients = Coefficients(b0: real, bT: real, beta: Vec)

  function Of(b: Coefficients, w: real, x: Vec): real
    requires |x| == |b.beta|
  {
    Predictor(b.b0, b.bT, b.beta, w, x)
  }

  /** The product of the logistic probabilities of the first k rows. */
  ghost function Stacked(e: Elementary, g: Design, b: Coefficients, k: nat): real
    requires Lawful(e) && |g.x| == |g.y| && k <= |g.y| && forall r :: 0 <= r < |g.x| ==> |g.x[r]| == |b.beta| + 2
  {
    if k == 0 then 1.0
    else Times(Stacked(e, g, b, k - 1), Logistic(e, g.y[k - 1], Dot(g.x[k - 1], [b.b0, b.bT] + b.beta)))
  }

  /** One discordant pair: the member with the larger outcome against the other one. */
  ghost function PairProbability(e: Elementary, d: Matched, p: nat, q: Pair, b: Coefficients): real
    requires Lawful(e) && IsMatched(d, p) && |b.beta| == p && q.first < |d.y| && q.second < |d.y|
  {
    var one, two := Of(b, d.w[q.first], d.x[q.first]), Of(b, d.w[q.second], d.x[q.second]);
    if d.y[q.first] > d.y[q.second] then Conditional(e, one, two) else Conditional(e, two, one)
  }

  /** The conditional likelihood of the first k discordant pairs. */
  ghost function PairsLikelihood(e: Elementary, d: Matched, p: nat, b: Coefficients, k: nat): real
    requires Lawful(e) && IsMatched(d, p) && |b.beta| == p && k <= |Pairs(d.strata, d.y, |d.y|)|
  {
    if k == 0 then 1.0
    else
      DiscordantAt(d, p, k - 1);
      Times(PairsLikelihood(e, d, p, b, k - 1),
            PairProbability(e, d, p, Pairs(d.strata, d.y, |d.y|)[k - 1], b))
  }

  /** The likelihood of the first k subjects of the reservoir. */
  ghost function ReservoirLikelihood(e: Elementary, yR: Vec, wR: Vec, xR: Mat, b: Coefficients, k: nat): real
    requires Lawful(e) && |yR| == |wR| && IsMat(xR, |yR|, |b.beta|) && k <= |yR|
  {
    if k == 0 then 1.0
    else
      Times(ReservoirLikelihood(e, yR, wR, xR, b, k - 1), Logistic(e, yR[k - 1], Of(b, wR[k - 1], xR[k - 1])))
  }

  lemma RowsFit(g: Design, d: Matched, p: nat, yR: Vec, wR: Vec, xR: Mat)
    requires IsMatched(d, p) && |yR| == |wR| && IsMat(xR, |yR|, p) && IsDesign(g, d, p, yR, wR, xR)
    ensures |g.x| == |g.y| == g.nd + |yR| && forall r :: 0 <= r < |g.x| ==> |g.x[r]| == p + 2
  {
    forall r | 0 <= r < |g.x|
      ensures |g.x[r]| == p + 2
    {
      if r >= g.nd {
        assert g.x[g.nd + (r - g.nd)] == DesignRow(1.0, wR[r - g.nd], xR[r - g.nd]);
      }
    }
  }

  lemma PairRowIsConditional(e: Elementary, g: Design, d: Matched, p: nat, yR: Vec, wR: Vec, xR: Mat, r: nat,
                             b: Coefficients)
    requires Lawful(e) && IsMatched(d, p) && |yR| == |wR| && IsMat(xR, |yR|, p) && |b.beta| == p
    requires IsDesign(g, d, p, yR, wR, xR) && r < g.nd
    ensures |g.x[r]| == p + 2 && Pairs(d.strata, d.y, |d.y|)[r].first < |d.y|
    ensures Pairs(d.strata, d.y, |d.y|)[r].second < |d.y|
    ensures Logistic(e, g.y[r], Dot(g.x[r], [b.b0, b.bT] + b.beta))
         == PairProbability(e, d, p, Pairs(d.strata, d.y, |d.y|)[r], b)
  {
    hide Lawful, Logistic, Conditional, Dot, Predictor;
    var q := Pairs(d.strata, d.y, |d.y|)[r];
    StackedPair(g, d, p, yR, wR, xR, r, b.b0, b.bT, b.beta);
    DesignOutcomes(g, d, p, yR, wR, xR, r);
    DifferenceIsConditional(e, Of(b, d.w[q.first], d.x[q.first]), Of(b, d.w[q.second], d.x[q.second]));
  }

  lemma {:induction false} StackedPairs(e: Elementary, g: Design, d: Matched, p: nat, yR: Vec, wR: Vec, xR: Mat,
                                        b: Coefficients, k: nat)
    requires Lawful(e) && IsMatched(d, p) && |yR| == |wR| && IsMat(xR, |yR|, p) && |b.beta| == p
    requires IsDesign(g, d, p, yR, wR, xR) && k <= g.nd
    requires forall r :: 0 <= r < |g.x| ==> |g.x[r]| == p + 2
    ensures Stacked(e, g, b, k) == PairsLikelihood(e, d, p, b, k)
  {
    hide Lawful, Logistic, PairProbability, Dot, Times;
    if k > 0 {
      StackedPairs(e, g, d, p, yR, wR, xR, b, k - 1);
      PairRowIsConditional(e, g, d, p, yR, wR, xR, k - 1, b);
    }
  }

  lemma {:induction false} StackedRest(e: Elementary, g: Design, d: Matched, p: nat, yR: Vec, wR: Vec, xR: Mat,
                                       b: Coefficients, k: nat)
    requires Lawful(e) && IsMatched(d, p) && |yR| == |wR| && IsMat(xR, |yR|, p) && |b.beta| == p
    requires IsDesign(g, d, p, yR, wR, xR) && k <= |yR|
    requires forall r :: 0 <= r < |g.x| ==> |g.x[r]| == p + 2
    ensures Stacked(e, g, b, g.nd + k)
         == Times(PairsLikelihood(e, d, p, b, g.nd), ReservoirLikelihood(e, yR, wR, xR, b, k))
  {
    hide Lawful, Logistic, Dot, Times, PairsLikelihood, Predictor;
    if k == 0 {
      StackedPairs(e, g, d, p, yR, wR, xR, b, g.nd);
      TimesUnit(PairsLikelihood(e, d, p, b, g.nd));
    } else {
      StackedRest(e, g, d, p, yR, wR, xR, b, k - 1);
      StackedReservoir(g, d, p, yR, wR, xR, k - 1, b.b0, b.bT, b.beta);
      assert g.y[g.nd + (k - 1)] == yR[k - 1];
      TimesRearrange(PairsLikelihood(e, d, p, b, g.nd), ReservoirLikelihood(e, yR, wR, xR, b, k - 1),
                     Logistic(e, yR[k - 1], Of(b, wR[k - 1], xR[k - 1])));
    }
  }

  lemma TimesUnit(x: real)
    ensures Times(x, 1.0) == x
  {}

  /**
   * The logistic likelihood of the stacked data is the conditional likelihood of the discordant pairs times
   * the likelihood of the reservoir, so one logistic fit maximises both together.
   */
  lemma StackedLikelihood(e: Elementary, g: Design, d: Matched, p: nat, yR: Vec, wR: Vec, xR: Mat, b: Coefficients)
    requires Lawful(e) && IsMatched(d, p) && |yR| == |wR| && IsMat(xR, |yR|, p) && |b.beta| == p
    requires IsDesign(g, d, p, yR, wR, xR)
    ensures forall r :: 0 <= r < |g.x| ==> |g.x[r]| == p + 2
    ensures Stacked(e, g, b, |g.y|)
         == Times(PairsLikelihood(e, d, p, b, g.nd), ReservoirLikelihood(e, yR, wR, xR, b, |yR|))
  {
    hide Lawful, IsDesign, Stacked, PairsLikelihood, ReservoirLikelihood;
    RowsFit(g, d, p, yR, wR, xR);
    StackedRest(e, g, d, p, yR, wR, xR, b, |yR|);
  }
}

/** A chain iteration by iteration: what is drawn, when it is taken, and that nothing better was ever refused. */
module AnnealingWalk {
  import opened Vectors
  import opened TreatmentArms
  import opened AnnealingObjective
  import opened Annealing
  import opened BlockRecurrence
  import opened BoundedRand
  import MersenneTwister

  /** The arms that an iteration proposes: one treated and one control unit drawn, and exchanged. */
  ghost function Proposed(p: Problem, ws: Stream, s: ChainState): (next: Arms)
    requires ValidProblem(p) && ArmsOk(p.n, p.nT, s.a) && Lively(ws) && p.n < W
    ensures ArmsOk(p.n, p.nT, next)
  {
    var pos1 := DrawNext(ws, s.pos, p.nT);
    DrawBelow(ws, s.pos, p.nT);
    DrawBelow(ws, pos1, p.n - p.nT);
    ExchangedOk(p.n, p.nT, s.a, DrawValue(ws, s.pos, p.nT), DrawValue(ws, pos1, p.n - p.nT));
    Exchanged(s.a, DrawValue(ws, s.pos, p.nT), DrawValue(ws, pos1, p.n - p.nT))
  }

  ghost function Drawn(p: Problem, ws: Stream, pos: nat): nat
    requires ValidProblem(p) && Lively(ws) && p.n < W
  {
    DrawNext(ws, DrawNext(ws, pos, p.nT), p.n - p.nT)
  }

  /**
   * One iteration: an infeasible proposal is refused, a better one taken without a further word, and any
   * other one taken exactly when the Metropolis test accepts it on the next word. The temperature falls.
   */
  ghost predicate Iterated(p: Problem, metropolis: Metropolis, rate: real, ws: Stream, s: ChainState, t: ChainState)
    requires ValidProblem(p) && ArmsOk(p.n, p.nT, s.a) && Lively(ws) && p.n < W
  {
    var next, pos := Proposed(p, ws, s), Drawn(p, ws, s.pos);
    var change := Exact(p, next.w) - Exact(p, s.a.w);
    && t.temp == s.temp * rate
    && (t.pos == pos <==> !Feasible(p, next.w) || change < 0.0) && pos <= t.pos <= pos + 1
    && (t.a == s.a || t.a == next)
    && (!Feasible(p, next.w) ==> t.a == s.a)
    && (Feasible(p, next.w) && change < 0.0 ==> t.a == next)
    && (Feasible(p, next.w) && change >= 0.0 && metropolis(ws(pos), change, s.temp) ==> t.a == next)
    && (Feasible(p, next.w) && change >= 0.0 && !metropolis(ws(pos), change, s.temp) ==> t.a == s.a)
  }

  lemma StepIterates(p: Problem, metropolis: Metropolis, rate: real, ws: Stream, s: ChainState)
    requires ValidProblem(p) && ArmsOk(p.n, p.nT, s.a) && Lively(ws) && p.n < W
    ensures Iterated(p, metropolis, rate, ws, s, RefStep(p, metropolis, rate, ws, s))
  {
    hide Exact, Lists, Decide, Feasible, DrawValue, DrawNext;
    var pos1 := DrawNext(ws, s.pos, p.nT);
    DrawBelow(ws, s.pos, p.nT);
    DrawBelow(ws, pos1, p.n - p.nT);
    DecideOutcome(p, metropolis, rate, ws(Drawn(p, ws, s.pos)), Drawn(p, ws, s.pos), s.temp, s.a,
                  Proposed(p, ws, s));
  }

  ghost predicate IsChain(p: Problem, metropolis: Metropolis, rate: real, ws: Stream, v: seq<ChainState>)
    requires ValidProblem(p) && Lively(ws) && p.n < W
  {
    && (forall i :: 0 <= i < |v| ==> ArmsOk(p.n, p.nT, v[i].a))
    && forall i :: 0 <= i < |v| - 1 ==> Iterated(p, metropolis, rate, ws, v[i], v[i + 1])
  }

  /** The allocations of a chain are those of states that follow one another by such iterations. */
  lemma {:induction false} ChainIterates(p: Problem, metropolis: Metropolis, rate: real, ws: Stream, s: ChainState,
                                         k: nat)
    returns (v: seq<ChainState>)
    requires ValidProblem(p) && ArmsOk(p.n, p.nT, s.a) && Lively(ws) && p.n < W
    ensures |v| == k + 1 && v[0] == s && IsChain(p, metropolis, rate, ws, v)
    ensures forall i :: 0 <= i <= k ==> Visited(p, metropolis, rate, ws, s, k)[i] == v[i].a.w
    decreases k
  {
    hide RefStep, ArmsOk, Lively, Iterated, ValidProblem;
    v := [s];
    if k > 0 {
      var next := RefStep(p, metropolis, rate, ws, s);
      StepIterates(p, metropolis, rate, ws, s);
      var u := ChainIterates(p, metropolis, rate, ws, next, k - 1);
      VisitedStep(p, metropolis, rate, ws, s, k - 1);
      v := [s] + u;
    }
  }

  function Power(x: real, k: nat): real { if k == 0 then 1.0 else Times(x, Power(x, k - 1)) }

  /** The temperature after k iterations is the initial one times rate^k. */
  lemma {:induction false} TemperatureFalls(p: Problem, metropolis: Metropolis, rate: real, ws: Stream,
                                            v: seq<ChainState>, k: nat)
    requires ValidProblem(p) && Lively(ws) && p.n < W && IsChain(p, metropolis, rate, ws, v) && k < |v|
    ensures v[k].temp == Times(v[0].temp, Power(rate, k))
  {
    hide ArmsOk, Lively, ValidProblem, Proposed, Drawn, Exact, Feasible;
    if k > 0 {
      TemperatureFalls(p, metropolis, rate, ws, v, k - 1);
      assert Iterated(p, metropolis, rate, ws, v[k - 1], v[k - 1 + 1]);
      OneMoreFactor(v[0].temp, Power(rate, k - 1), rate);
    }
  }

  lemma OneMoreFactor(t: real, power: real, rate: real)
    ensures Times(t, power) * rate == Times(t, Times(rate, power))
  {}

  /** A proposal that is feasible is matched: if it is better than the current allocation, it is visited next. */
  lemma ProposalMatched(p: Problem, metropolis: Metropolis, rate: real, ws: Stream, v: seq<ChainState>, i: nat)
    requires ValidProblem(p) && Lively(ws) && p.n < W && IsChain(p, metropolis, rate, ws, v) && i + 1 < |v|
    requires Feasible(p, Proposed(p, ws, v[i]).w)
    ensures Exact(p, v[i].a.w) <= Exact(p, Proposed(p, ws, v[i]).w)
         || Exact(p, v[i + 1].a.w) == Exact(p, Proposed(p, ws, v[i]).w)
  {
    hide Lively, Exact, Feasible, Proposed, Drawn, Lists;
    assert Iterated(p, metropolis, rate, ws, v[i], v[i + 1]);
  }

  /** The states of one chain of a search. */
  ghost predicate IsSeedChain(p: Problem, metropolis: Metropolis, cooling: Cooling, seed: bv32, maxIter: nat,
                              v: seq<ChainState>)
    requires ValidProblem(p) && p.n < W && Plentiful(MersenneTwister.SeedStream(seed))
  {
    SeedStreamLively(seed);
    var ws := MersenneTwister.SeedStream(seed);
    && |v| == maxIter + 1 && v[0] == ChainStart(p, ws, N, cooling.initial)
    && IsChain(p, metropolis, cooling.rate, ws, v)
  }

  lemma {:induction false} ChainUnique(p: Problem, metropolis: Metropolis, rate: real, ws: Stream,
                                       u: seq<ChainState>, v: seq<ChainState>, i: nat)
    requires ValidProblem(p) && Lively(ws) && p.n < W && i < |u| == |v| && u[0] == v[0]
    requires IsChain(p, metropolis, rate, ws, u) && IsChain(p, metropolis, rate, ws, v)
    ensures u[i] == v[i]
  {
    hide ArmsOk, Lively, ValidProblem, Exact, Feasible, Proposed, Drawn;
    if i > 0 {
      ChainUnique(p, metropolis, rate, ws, u, v, i - 1);
      assert Iterated(p, metropolis, rate, ws, u[i - 1], u[i - 1 + 1]);
      assert Iterated(p, metropolis, rate, ws, v[i - 1], v[i - 1 + 1]);
    }
  }

  lemma SeedChainVisits(p: Problem, metropolis: Metropolis, cooling: Cooling, seed: bv32, maxIter: nat,
                        v: seq<ChainState>, i: nat)
    requires ValidProblem(p) && p.n < W && Plentiful(MersenneTwister.SeedStream(seed)) && i <= maxIter
    requires IsSeedChain(p, metropolis, cooling, seed, maxIter, v)
    ensures SeedVisits(p, metropolis, cooling, seed, maxIter)[i] == v[i].a.w
  {
    hide ArmsOk, Lively, ValidProblem, IsChain, ChainStart;
    SeedStreamLively(seed);
    var ws := MersenneTwister.SeedStream(seed);
    var u := ChainIterates(p, metropolis, cooling.rate, ws, ChainStart(p, ws, N, cooling.initial), maxIter);
    ChainUnique(p, metropolis, cooling.rate, ws, u, v, i);
  }

  /**
   * Nothing better is ever refused: no feasible allocation that any chain proposed, at any iteration and
   * whatever the Metropolis test did, beats the answer of the search.
   */
  lemma NoProposalBeatsAnswer(p: Problem, metropolis: Metropolis, cooling: Cooling, maxIter: nat, seeds: seq<bv32>,
                              w: seq<int>, value: real, c: nat, v: seq<ChainState>, i: nat)
    requires ValidProblem(p) && p.n < W && c < |seeds| && i < maxIter
    requires forall c :: 0 <= c < |seeds| ==> Plentiful(MersenneTwister.SeedStream(seeds[c]))
    requires IsAnswer(p, metropolis, cooling, maxIter, seeds, w, value)
    requires IsSeedChain(p, metropolis, cooling, seeds[c], maxIter, v)
    ensures Lively(MersenneTwister.SeedStream(seeds[c])) && ArmsOk(p.n, p.nT, v[i].a)
    ensures var next := Proposed(p, MersenneTwister.SeedStream(seeds[c]), v[i]).w;
            Feasible(p, next) ==> value <= Exact(p, next)
  {
    hide Exact, Feasible, Iterated, Proposed, SeedVisits, ChainStart, Plentiful, Lists;
    SeedStreamLively(seeds[c]);
    var ws := MersenneTwister.SeedStream(seeds[c]);
    SeedChainVisits(p, metropolis, cooling, seeds[c], maxIter, v, i);
    SeedChainVisits(p, metropolis, cooling, seeds[c], maxIter, v, i + 1);
    assert NotBeaten(p, value, SeedVisits(p, metropolis, cooling, seeds[c], maxIter));
    if Feasible(p, Proposed(p, ws, v[i]).w) {
      ProposalMatched(p, metropolis, cooling.rate, ws, v, i);
    }
  }
}

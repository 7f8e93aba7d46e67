/**
 * Which ratio allocations can be answered. Moves to a denominator of at most 1e-12 are refused, but the
 * start is not checked, so whether the answer can be infeasible is decided by the starts.
 */
module AnnealingAnswer {
  import opened Vectors
  import opened TreatmentArms
  import opened AnnealingObjective
  import opened Annealing
  import opened BlockRecurrence
  import opened BoundedRand
  import opened Shuffle
  import MersenneTwister
  import Words
  import opened FirstWords

  /** The allocation of a chain before its first iteration. */
  ghost function Start(p: Problem, ws: Stream, pos: nat): (w: seq<int>)
    requires ValidProblem(p) && Lively(ws)
    ensures |w| == p.n && IsAllocation(w) && Ones(w) == p.nT
  {
    ChainStart(p, ws, pos, 0.0).a.w
  }

  /** What a chain answers after `maxIter` iterations. */
  ghost function Answer(p: Problem, metropolis: Metropolis, cooling: Cooling, ws: Stream, pos: nat,
                        maxIter: nat): (w: seq<int>)
    requires ValidProblem(p) && Lively(ws) && p.n < W
    ensures |w| == p.n
    ensures w == Start(p, ws, pos) || Feasible(p, w)
    ensures Exact(p, w) <= Exact(p, Start(p, ws, pos))
  {
    hide Exact;
    var v := ChainVisits(p, metropolis, cooling, ws, pos, maxIter);
    assert v[0] == Start(p, ws, pos);
    var i :| 0 <= i < |v| && v[i] == FirstBest(p, v);
    FirstBest(p, v)
  }

  /** The answer is feasible for every number of iterations exactly when the start is feasible. */
  lemma AnswerFeasible(p: Problem, metropolis: Metropolis, cooling: Cooling, ws: Stream, pos: nat)
    requires ValidProblem(p) && Lively(ws) && p.n < W
    ensures (forall maxIter: nat :: Feasible(p, Answer(p, metropolis, cooling, ws, pos, maxIter)))
       <==> Feasible(p, Start(p, ws, pos))
  {
    hide Exact;
    var v := ChainVisits(p, metropolis, cooling, ws, pos, 0);
    assert Answer(p, metropolis, cooling, ws, pos, 0) == FirstBest(p, v) == v[0];
  }

  /** w'Hw + 1 is positive on every allocation, as it is for a positive semidefinite H. */
  ghost predicate PositiveNumerators(p: Problem)
    requires ValidProblem(p) && p.kind == Ratio
  {
    forall w: seq<int> :: |w| == p.n && IsAllocation(w) && Ones(w) == p.nT ==> Quad(p.m2, w) + 1.0 > 0.0
  }

  lemma SemidefiniteIsPositive(p: Problem)
    requires ValidProblem(p) && p.kind == Ratio
    requires forall v: Vec :: |v| == p.n ==> Vectors.Quadratic(p.m2, v) >= 0.0
    ensures PositiveNumerators(p)
  {
    forall w: seq<int> | |w| == p.n && IsAllocation(w) && Ones(w) == p.nT
      ensures Quad(p.m2, w) + 1.0 > 0.0
    {
      assert Quad(p.m2, w) == Vectors.Quadratic(p.m2, ToReal(w));
    }
  }

  /** With positive numerators the sign of the objective is that of the denominator. */
  lemma RatioSign(p: Problem, w: seq<int>)
    requires ValidProblem(p) && p.kind == Ratio && PositiveNumerators(p)
    requires |w| == p.n && IsAllocation(w) && Ones(w) == p.nT
    ensures Denominator(p, w) < 0.0 ==> Exact(p, w) < 0.0
    ensures Denominator(p, w) > 0.0 ==> Exact(p, w) > 0.0
    ensures Denominator(p, w) == 0.0 ==> Exact(p, w) == p.overZero
  {
    hide Quad, PositiveNumerators;
    PositiveAt(p, w);
    QuotientSign(Quad(p.m2, w) + 1.0, Denominator(p, w));
  }

  lemma PositiveAt(p: Problem, w: seq<int>)
    requires ValidProblem(p) && p.kind == Ratio && PositiveNumerators(p)
    requires |w| == p.n && IsAllocation(w) && Ones(w) == p.nT
    ensures Quad(p.m2, w) + 1.0 > 0.0
  {}

  lemma QuotientSign(x: real, y: real)
    requires x > 0.0
    ensures y < 0.0 ==> x / y < 0.0
    ensures y > 0.0 ==> x / y > 0.0
  {
    if y != 0.0 {
      assert (x / y) * y == x;
    }
  }

  /** A chain answers with a negative denominator exactly when it starts with one. */
  lemma ChainAnswerSide(p: Problem, metropolis: Metropolis, cooling: Cooling, ws: Stream, pos: nat, maxIter: nat)
    requires ValidProblem(p) && Lively(ws) && p.n < W && p.kind == Ratio && PositiveNumerators(p)
    ensures var w := Answer(p, metropolis, cooling, ws, pos, maxIter);
      && (Denominator(p, w) < 0.0 <==> Denominator(p, Start(p, ws, pos)) < 0.0)
      && (Denominator(p, w) < 0.0 ==> w == Start(p, ws, pos))
  {
    hide Exact, PositiveNumerators, Denominator, Start;
    var v := ChainVisits(p, metropolis, cooling, ws, pos, maxIter);
    var i :| 0 <= i < |v| && v[i] == Answer(p, metropolis, cooling, ws, pos, maxIter);
    RatioSign(p, v[i]);
    RatioSign(p, Start(p, ws, pos));
  }

  /** The allocation from which a seeded chain starts; it is fixed before the first iteration. */
  ghost function SeedStart(p: Problem, seed: bv32): (w: seq<int>)
    requires ValidProblem(p) && Plentiful(MersenneTwister.SeedStream(seed))
    ensures |w| == p.n && IsAllocation(w) && Ones(w) == p.nT
  {
    SeedStreamLively(seed);
    Start(p, MersenneTwister.SeedStream(seed), N)
  }

  lemma SeedStartIsFirst(p: Problem, metropolis: Metropolis, cooling: Cooling, seed: bv32, maxIter: nat)
    requires ValidProblem(p) && p.n < W && Plentiful(MersenneTwister.SeedStream(seed))
    ensures SeedVisits(p, metropolis, cooling, seed, maxIter)[0] == SeedStart(p, seed)
  {
    SeedStreamLively(seed);
  }

  /**
   * The search answers with a negative denominator exactly when one of its chains starts with one. A
   * division of a positive number by zero is not negative.
   */
  lemma SearchAnswerSide(p: Problem, metropolis: Metropolis, cooling: Cooling, maxIter: nat, seeds: seq<bv32>,
                         w: seq<int>, value: real)
    requires ValidProblem(p) && p.n < W && p.kind == Ratio && PositiveNumerators(p) && p.overZero >= 0.0
    requires forall c :: 0 <= c < |seeds| ==> Plentiful(MersenneTwister.SeedStream(seeds[c]))
    requires IsAnswer(p, metropolis, cooling, maxIter, seeds, w, value)
    ensures Denominator(p, w) < 0.0
       <==> exists c :: 0 <= c < |seeds| && Denominator(p, SeedStart(p, seeds[c])) < 0.0
  {
    hide Exact, PositiveNumerators, Denominator, SeedVisits, SeedStart, Plentiful;
    RatioSign(p, w);
    if Denominator(p, w) < 0.0 {
      var c :| 0 <= c < |seeds| && w in SeedVisits(p, metropolis, cooling, seeds[c], maxIter);
      var v := SeedVisits(p, metropolis, cooling, seeds[c], maxIter);
      var i :| 0 <= i < |v| && v[i] == w;
      NegativeIsInfeasible(p, w);
      assert v[i] == v[0];
      SeedStartIsFirst(p, metropolis, cooling, seeds[c], maxIter);
    }
    if c :| 0 <= c < |seeds| && Denominator(p, SeedStart(p, seeds[c])) < 0.0 {
      var v := SeedVisits(p, metropolis, cooling, seeds[c], maxIter);
      SeedStartIsFirst(p, metropolis, cooling, seeds[c], maxIter);
      RatioSign(p, v[0]);
      assert NotBeaten(p, value, v);
    }
  }

  lemma NegativeIsInfeasible(p: Problem, w: seq<int>)
    requires ValidProblem(p) && p.kind == Ratio && |w| == p.n && Denominator(p, w) < 0.0
    ensures !Feasible(p, w)
  {}

  // An input.

  /** Two units, one treated; treating the first makes the denominator 1 - 3. */
  function Lopsided(): Problem {
    Problem(Ratio, [[3.0, 0.0], [0.0, 0.0]], [[0.0, 0.0], [0.0, 0.0]], 2, 1, _ => 0.0, 0.0)
  }

  lemma LopsidedFacts()
    ensures ValidProblem(Lopsided()) && PositiveNumerators(Lopsided())
    ensures Denominator(Lopsided(), [1, 0]) == -2.0
    ensures !Feasible(Lopsided(), [1, 0]) && Feasible(Lopsided(), [0, 1])
  {
    hide Quad;
    var p := Lopsided();
    TwoByTwo(p.m1, 1, 0);
    TwoByTwo(p.m1, 0, 1);
    forall w: seq<int> | |w| == p.n && IsAllocation(w) && Ones(w) == p.nT
      ensures Quad(p.m2, w) + 1.0 > 0.0
    {
      ZeroForm(w);
    }
  }

  lemma ZeroForm(w: seq<int>)
    requires |w| == 2
    ensures Quad(Lopsided().m2, w) == 0.0
  {
    assert w == [w[0], w[1]];
    TwoByTwo(Lopsided().m2, w[0], w[1]);
  }

  lemma TwoByTwo(m: Mat, x: int, y: int)
    requires IsMat(m, 2, 2)
    ensures Quad(m, [x, y]) == x as real * (m[0][0] * x as real + m[0][1] * y as real)
                             + y as real * (m[1][0] * x as real + m[1][1] * y as real)
  {
    var u := ToReal([x, y]);
    DotTwo(m[0], u);
    DotTwo(m[1], u);
    DotTwo(u, MatVec(m, u));
  }

  lemma DotTwo(u: Vec, v: Vec)
    requires |u| == |v| == 2
    ensures Dot(u, v) == u[0] * v[0] + u[1] * v[1]
  {
    assert u[1..][1..] == [] && v[1..][1..] == [];
    assert Dot(u[1..], v[1..]) == u[1] * v[1] + Dot(u[1..][1..], v[1..][1..]);
  }

  /** On every lively stream that starts at [1, 0] the chain answers [1, 0], however long it runs. */
  lemma InfeasibleStartWins(metropolis: Metropolis, cooling: Cooling, ws: Stream, pos: nat, maxIter: nat)
    requires Lively(ws)
    requires ValidProblem(Lopsided()) && Start(Lopsided(), ws, pos) == [1, 0]
    ensures Answer(Lopsided(), metropolis, cooling, ws, pos, maxIter) == [1, 0]
    ensures !Feasible(Lopsided(), [1, 0]) && Feasible(Lopsided(), [0, 1])
  {
    LopsidedFacts();
    ChainAnswerSide(Lopsided(), metropolis, cooling, ws, pos, maxIter);
  }

  /** And whatever the other chains do, the search answers it as soon as one chain starts there. */
  lemma InfeasibleStartWinsSearch(metropolis: Metropolis, cooling: Cooling, maxIter: nat, seeds: seq<bv32>,
                                  w: seq<int>, value: real, c: nat)
    requires ValidProblem(Lopsided()) && c < |seeds|
    requires forall i :: 0 <= i < |seeds| ==> Plentiful(MersenneTwister.SeedStream(seeds[i]))
    requires IsAnswer(Lopsided(), metropolis, cooling, maxIter, seeds, w, value)
    requires SeedStart(Lopsided(), seeds[c]) == [1, 0]
    ensures w == [1, 0]
  {
    hide SeedStart, Exact, Denominator, Plentiful;
    LopsidedFacts();
    SearchAnswerSide(Lopsided(), metropolis, cooling, maxIter, seeds, w, value);
    assert Denominator(Lopsided(), SeedStart(Lopsided(), seeds[c])) < 0.0;
    OneOfTwo(w);
    NegativeIsInfeasible(Lopsided(), w);
  }

  lemma OneOfTwo(w: seq<int>)
    requires |w| == 2 && IsAllocation(w) && Ones(w) == 1
    ensures w == [1, 0] || w == [0, 1]
  {
    assert w[1..][1..] == [];
    assert Ones(w[1..]) == if w[1] == 1 then 1 else 0;
  }

  // A seed.

  /** The chain of seed 0 starts from the infeasible allocation, so the search answers it with this seed. */
  lemma SeedZeroStartsInfeasible()
    requires Plentiful(MersenneTwister.SeedStream(0))
    ensures ValidProblem(Lopsided()) && SeedStart(Lopsided(), 0) == [1, 0]
  {
    SeedStreamLively(0);
    LopsidedFacts();
    SeedZeroFirstWord();
    BigFirstWord(MersenneTwister.SeedStream(0), N);
  }

  lemma BigFirstWord(ws: Stream, pos: nat)
    requires Lively(ws) && ValidProblem(Lopsided()) && ws(pos) >= 0x8000_0000
    ensures Start(Lopsided(), ws, pos) == [1, 0]
  {
    hide Lively;
    SecondOfTwo(ws, pos);
    var cs := DrawnChoices(ws, pos, 2);
    assert cs == [1];
    var perm := Shuffled<nat>(Iota(2), 2, cs);
    assert perm == [0, 1];
    assert perm == StartPermutation(ws, pos, 2);
    assert MarkFirst(perm, 2, 1) == [1, 0];
  }

  /** Drawing below 2 accepts every word and returns its top bit. */
  lemma SecondOfTwo(ws: Stream, pos: nat)
    requires Lively(ws) && ws(pos) >= 0x8000_0000
    ensures DrawValue(ws, pos, 2) == 1
  {
    var x := ws(pos);
    assert x < W;
    QuotientIs(Product(x, 2), W, 1, 2 * x - W);
    assert Accepted(x, 2);
    FirstAcceptedIs(ws, pos, 2, pos);
  }

  /** So the search that includes this seed answers the infeasible allocation, whatever the other seeds. */
  lemma SeedZeroWinsSearch(metropolis: Metropolis, cooling: Cooling, maxIter: nat, seeds: seq<bv32>,
                           w: seq<int>, value: real, c: nat)
    requires ValidProblem(Lopsided()) && c < |seeds| && seeds[c] == 0
    requires forall i :: 0 <= i < |seeds| ==> Plentiful(MersenneTwister.SeedStream(seeds[i]))
    requires IsAnswer(Lopsided(), metropolis, cooling, maxIter, seeds, w, value)
    ensures w == [1, 0] && !Feasible(Lopsided(), w) && Feasible(Lopsided(), [0, 1])
  {
    hide Plentiful, IsAnswer, SeedStart;
    LopsidedFacts();
    assert Plentiful(MersenneTwister.SeedStream(seeds[c]));
    SeedZeroStartsInfeasible();
    InfeasibleStartWinsSearch(metropolis, cooling, maxIter, seeds, w, value, c);
  }

  // What is assumed of streams can be met.

  function Largest(): Stream { (i: nat) => 0xffff_ffff }

  lemma LargestAccepted(s: nat)
    requires s < W
    ensures Accepted(0xffff_ffff, s)
  {
    if s > 0 {
      var m := Product(0xffff_ffff, s);
      assert m == (s - 1) * W + (W - s);
      QuotientIs(m, W, s - 1, W - s);
      ThresholdIsRemainder(s);
      QuotientAtLeastOne(s);
    }
  }

  lemma QuotientAtLeastOne(s: nat)
    requires 0 < s < W
    ensures W % s <= W - s
  {
    QuotientIs(W - s, s, (W - s) / s, (W - s) % s);
    var q, r := (W - s) / s, (W - s) % s;
    assert W == (q + 1) * s + r;
    QuotientIs(W, s, q + 1, r);
  }

  /** The stream of the largest word is lively, and the chain on it starts from the infeasible allocation. */
  lemma LargestStartsInfeasible(pos: nat)
    ensures Lively(Largest()) && ValidProblem(Lopsided())
    ensures Start(Lopsided(), Largest(), pos) == [1, 0]
  {
    forall pos: nat, s: nat | s < W
      ensures Supplies(Largest(), pos, s)
    {
      LargestAccepted(s);
      assert Accepted(Largest()(pos), s);
    }
    LopsidedFacts();
    BigFirstWord(Largest(), pos);
  }
}

/** The simulated-annealing chains: a from-scratch reference, and the incremental state machine. */
module Annealing {
  import opened Vectors
  import opened TreatmentArms
  import opened AnnealingObjective
  import opened BlockRecurrence
  import opened BoundedRand
  import opened Shuffle
  import MersenneTwister

  const FEASIBLE: real := 0.000000000001

  /** The Metropolis test on a random word, the change of the objective and the temperature. */
  type Metropolis = (nat, real, real) -> bool

  datatype Cooling = Cooling(initial: real, rate: real)

  /** A chain between two iterations, without any cache. */
  datatype ChainState = ChainState(a: Arms, pos: nat, temp: real)

  ghost predicate Feasible(p: Problem, w: seq<int>)
    requires ValidProblem(p) && |w| == p.n
  {
    p.kind == Ratio ==> Denominator(p, w) > FEASIBLE
  }

  /** One iteration: draw a treated and a control unit, compare from scratch, perhaps exchange. */
  ghost function RefStep(p: Problem, metropolis: Metropolis, rate: real, ws: Stream, s: ChainState): (t: ChainState)
    requires ValidProblem(p) && ArmsOk(p.n, p.nT, s.a) && Lively(ws) && p.n < W
    ensures ArmsOk(p.n, p.nT, t.a)
    ensures t.a == s.a || Feasible(p, t.a.w)
  {
    var pos1 := DrawNext(ws, s.pos, p.nT);
    var pos2 := DrawNext(ws, pos1, p.n - p.nT);
    DrawBelow(ws, s.pos, p.nT);
    DrawBelow(ws, pos1, p.n - p.nT);
    var ti, ci := DrawValue(ws, s.pos, p.nT), DrawValue(ws, pos1, p.n - p.nT);
    ExchangedOk(p.n, p.nT, s.a, ti, ci);
    Decide(p, metropolis, rate, ws(pos2), pos2, s.temp, s.a, Exchanged(s.a, ti, ci))
  }

  lemma RefStepDecides(p: Problem, metropolis: Metropolis, rate: real, ws: Stream, s: ChainState, ti: nat, ci: nat,
                       pos2: nat)
    requires ValidProblem(p) && ArmsOk(p.n, p.nT, s.a) && Lively(ws) && p.n < W
    requires ti == DrawValue(ws, s.pos, p.nT) && ti < p.nT
    requires var pos1 := DrawNext(ws, s.pos, p.nT);
      && ci == DrawValue(ws, pos1, p.n - p.nT) && ci < p.n - p.nT
      && pos2 == DrawNext(ws, pos1, p.n - p.nT)
    ensures s.a.treated[ti] < p.n && s.a.control[ci] < p.n
    ensures RefStep(p, metropolis, rate, ws, s)
         == Decide(p, metropolis, rate, ws(pos2), pos2, s.temp, s.a, Exchanged(s.a, ti, ci))
  {
    hide Decide, Exact, Exchanged, Lists;
    ExchangedOk(p.n, p.nT, s.a, ti, ci);
  }

  /** A worsening or equal move consumes one more word for the Metropolis test. */
  ghost function Decide(p: Problem, metropolis: Metropolis, rate: real, word: nat, pos2: nat, temp: real, a: Arms,
                        next: Arms): (t: ChainState)
    requires ValidProblem(p) && |a.w| == |next.w| == p.n
    ensures t.a == a || (t.a == next && Feasible(p, next.w))
  {
    var delta := Exact(p, next.w) - Exact(p, a.w);
    if !Feasible(p, next.w) then ChainState(a, pos2, temp * rate)
    else if delta < 0.0 then ChainState(next, pos2, temp * rate)
    else ChainState(if metropolis(word, delta, temp) then next else a, pos2 + 1, temp * rate)
  }

  /** Allocations with nT ones, feasible unless they are the first one. */
  ghost predicate VisitsOk(p: Problem, first: seq<int>, v: seq<seq<int>>)
    requires ValidProblem(p)
  {
    && v != [] && v[0] == first
    && (forall i :: 0 <= i < |v| ==> |v[i]| == p.n && IsAllocation(v[i]) && Ones(v[i]) == p.nT)
    && (forall i :: 0 <= i < |v| ==> v[i] == first || Feasible(p, v[i]))
  }

  lemma VisitsGrow(p: Problem, w: seq<int>, next: seq<int>, rest: seq<seq<int>>)
    requires ValidProblem(p) && VisitsOk(p, next, rest)
    requires |w| == p.n && IsAllocation(w) && Ones(w) == p.nT && (next == w || Feasible(p, next))
    ensures VisitsOk(p, w, [w] + rest)
  {
    hide Feasible, IsAllocation, Ones;
  }

  lemma StartOk(p: Problem, a: Arms)
    requires ValidProblem(p) && ArmsOk(p.n, p.nT, a)
    ensures |a.w| == p.n && IsAllocation(a.w) && Ones(a.w) == p.nT && VisitsOk(p, a.w, [a.w])
  {}

  lemma DecideOutcome(p: Problem, metropolis: Metropolis, rate: real, word: nat, pos2: nat, temp: real, a: Arms,
                      next: Arms)
    requires ValidProblem(p) && |a.w| == |next.w| == p.n
    ensures var t := Decide(p, metropolis, rate, word, pos2, temp, a, next);
      var delta := Exact(p, next.w) - Exact(p, a.w);
      if Feasible(p, next.w) then
        t == ChainState(if delta < 0.0 || metropolis(word, delta, temp) then next else a,
                        pos2 + if delta < 0.0 then 0 else 1, temp * rate)
      else t == ChainState(a, pos2, temp * rate)
  {}

  /** The allocations of a chain: at its start and after each of `k` iterations. */
  ghost function Visited(p: Problem, metropolis: Metropolis, rate: real, ws: Stream, s: ChainState,
                         k: nat): (v: seq<seq<int>>)
    requires ValidProblem(p) && ArmsOk(p.n, p.nT, s.a) && Lively(ws) && p.n < W
    ensures |v| == k + 1 && VisitsOk(p, s.a.w, v)
    decreases k
  {
    hide Feasible, ArmsOk, Lively, RefStep, VisitsOk;
    StartOk(p, s.a);
    if k == 0 then [s.a.w]
    else
      var next := RefStep(p, metropolis, rate, ws, s);
      var rest := Visited(p, metropolis, rate, ws, next, k - 1);
      VisitsGrow(p, s.a.w, next.a.w, rest);
      [s.a.w] + rest
  }

  ghost predicate AllSized(p: Problem, v: seq<seq<int>>) { forall i :: 0 <= i < |v| ==> |v[i]| == p.n }

  /** The first allocation with the smallest objective. */
  ghost function FirstBest(p: Problem, v: seq<seq<int>>): (b: seq<int>)
    requires ValidProblem(p) && v != [] && AllSized(p, v)
    ensures b in v
    ensures forall i :: 0 <= i < |v| ==> Exact(p, b) <= Exact(p, v[i])
  {
    var last := |v| - 1;
    if last == 0 then v[0]
    else
      var b := FirstBest(p, v[..last]);
      assert forall i :: 0 <= i < last ==> v[..last][i] == v[i];
      if Exact(p, v[last]) < Exact(p, b) then v[last] else b
  }

  /** No earlier allocation is as good. */
  lemma {:induction false} FirstBestAt(p: Problem, v: seq<seq<int>>) returns (i: nat)
    requires ValidProblem(p) && v != [] && AllSized(p, v)
    ensures i < |v| && v[i] == FirstBest(p, v) && forall j :: 0 <= j < i ==> Exact(p, v[i]) < Exact(p, v[j])
  {
    hide Exact;
    var last := |v| - 1;
    if last == 0 || Exact(p, v[last]) < Exact(p, FirstBest(p, v[..last])) {
      i := last;
      assert forall j :: 0 <= j < last ==> v[..last][j] == v[j];
    } else {
      i := FirstBestAt(p, v[..last]);
    }
  }

  lemma {:induction false} FirstBestIsFirst(p: Problem, v: seq<seq<int>>)
    requires ValidProblem(p) && v != [] && AllSized(p, v)
    requires forall i :: 0 <= i < |v| ==> Exact(p, v[0]) <= Exact(p, v[i])
    ensures FirstBest(p, v) == v[0]
  {
    if |v| > 1 {
      FirstBestIsFirst(p, v[..|v| - 1]);
    }
  }

  ghost function ChainStart(p: Problem, ws: Stream, pos: nat, temp: real): (s: ChainState)
    requires ValidProblem(p) && Lively(ws)
    ensures ArmsOk(p.n, p.nT, s.a)
  {
    var perm := StartPermutation(ws, pos, p.n);
    SplitArmsOk(perm, p.n, p.nT);
    ChainState(SplitArms(perm, p.n, p.nT), DrawnEnd(ws, pos, p.n), temp)
  }

  /** Everything that a whole chain visits, as a function of its stream. */
  ghost function ChainVisits(p: Problem, metropolis: Metropolis, cooling: Cooling, ws: Stream, pos: nat,
                             maxIter: nat): (v: seq<seq<int>>)
    requires ValidProblem(p) && Lively(ws) && p.n < W
    ensures |v| == maxIter + 1
    ensures forall i :: 0 <= i < |v| ==> |v[i]| == p.n && IsAllocation(v[i]) && Ones(v[i]) == p.nT
    ensures forall i :: 0 <= i < |v| ==> v[i] == v[0] || Feasible(p, v[i])
  {
    Visited(p, metropolis, cooling.rate, ws, ChainStart(p, ws, pos, cooling.initial), maxIter)
  }

  ghost function SeedVisits(p: Problem, metropolis: Metropolis, cooling: Cooling, seed: bv32,
                            maxIter: nat): (v: seq<seq<int>>)
    requires ValidProblem(p) && p.n < W && Plentiful(MersenneTwister.SeedStream(seed))
    ensures |v| == maxIter + 1
    ensures forall i :: 0 <= i < |v| ==> |v[i]| == p.n && IsAllocation(v[i]) && Ones(v[i]) == p.nT
    ensures forall i :: 0 <= i < |v| ==> v[i] == v[0] || Feasible(p, v[i])
  {
    SeedStreamLively(seed);
    ChainVisits(p, metropolis, cooling, MersenneTwister.SeedStream(seed), N, maxIter)
  }

  /** `AnnealState`: the allocation with every cache that its objective kind maintains. */
  class AnnealState {
    const p: Problem
    var w: seq<int>
    var treated: seq<nat>
    var control: seq<nat>
    var gQ: Vec
    var gH: Vec
    var quadP: real
    var quadH: real
    var v: Vec
    var wd: Vec

    ghost function Arms(): Arms
      reads this
    {
      TreatmentArms.Arms(w, treated, control)
    }

    /** Lists and caches agree with `w`; there is no drift in exact arithmetic. */
    ghost predicate Valid()
      reads this
    {
      ValidProblem(p) && p.n < W && ArmsOk(p.n, p.nT, Arms()) && CachesExact()
    }

    ghost predicate CachesExact()
      requires ValidProblem(p) && |w| == p.n
      reads this
    {
      NumericCachesExact() && (p.kind == Custom ==> wd == ToReal(w))
    }

    ghost predicate NumericCachesExact()
      requires ValidProblem(p) && |w| == p.n
      reads this
    {
      && (p.kind == Quadratic || p.kind == Ratio ==>
            gQ == MatVec(p.m1, ToReal(w)) && quadP == Quad(p.m1, w))
      && (p.kind == Ratio ==> gH == MatVec(p.m2, ToReal(w)) && quadH == Quad(p.m2, w))
      && (p.kind == L1 ==> v == MatVec(p.m1, ToReal(w)))
    }

    /** While a move from `a` to `b` is decided: the custom copy already holds the candidate. */
    ghost predicate Deciding(a: nat, b: nat, dP: real, dH: real, vNew: Vec)
      reads this
    {
      && ValidProblem(p) && p.n < W && ArmsOk(p.n, p.nT, Arms()) && NumericCachesExact()
      && CanExchange(w, a, b)
      && (p.kind == Quadratic || p.kind == Ratio ==> Quad(p.m1, Exchange(w, a, b)) == quadP + dP)
      && (p.kind == Ratio && Feasible(p, Exchange(w, a, b)) ==> Quad(p.m2, Exchange(w, a, b)) == quadH + dH)
      && (p.kind == L1 ==> vNew == MatVec(p.m1, ToReal(Exchange(w, a, b))))
      && (p.kind == Custom ==> wd == ToReal(Exchange(w, a, b)))
    }

    /** `init_state`: the first nT units of a shuffled order are treated. */
    constructor (p: Problem, rng: MersenneTwister.RRng)
      requires ValidProblem(p) && p.n < W && rng.Valid() && Lively(rng.ws)
      modifies rng.mt, rng`mti, rng`block, rng`pos
      ensures this.p == p && Valid() && rng.Valid()
      ensures Arms() == SplitArms(StartPermutation(rng.ws, old(rng.pos), p.n), p.n, p.nT)
      ensures rng.pos == DrawnEnd(rng.ws, old(rng.pos), p.n)
    {
      this.p := p;
      new;
      Assign(rng);
      FillCaches();
    }

    method Assign(rng: MersenneTwister.RRng)
      requires ValidProblem(p) && p.n < W && rng.Valid() && Lively(rng.ws)
      modifies this`w, this`treated, this`control, rng.mt, rng`mti, rng`block, rng`pos
      ensures rng.Valid() && ArmsOk(p.n, p.nT, Arms())
      ensures Arms() == SplitArms(StartPermutation(rng.ws, old(rng.pos), p.n), p.n, p.nT)
      ensures rng.pos == DrawnEnd(rng.ws, old(rng.pos), p.n)
    {
      hide ArmsOk, Lively, Generator.Valid;
      ghost var perm := StartPermutation(rng.ws, rng.pos, p.n);
      var idx := ShuffledOrder(p.n, rng);
      w := MarkUnits(idx[..p.nT], p.n);
      treated, control := idx[..p.nT], idx[p.nT..];
      MarkFirstPrefix(perm, p.n, p.nT);
      SplitArmsOk(perm, p.n, p.nT);
    }

    method FillCaches()
      requires ValidProblem(p) && p.n < W && ArmsOk(p.n, p.nT, Arms())
      modifies this`gQ, this`gH, this`quadP, this`quadH, this`v, this`wd
      ensures Valid()
    {
      var u := ToReal(w);
      if p.kind == Custom {
        wd := u;
      } else if p.kind == L1 {
        v := MatVec(p.m1, u);
      } else {
        gQ := MatVec(p.m1, u);
        quadP := Dot(u, gQ);
        if p.kind == Ratio {
          gH := MatVec(p.m2, u);
          quadH := Dot(u, gH);
        }
      }
    }

    /** `state_objective`: read off the caches, it is the exact objective. */
    method Objective() returns (f: real)
      requires Valid()
      ensures f == Exact(p, w)
    {
      match p.kind
      case Quadratic => f := quadP;
      case L1 => f := SumAbs(v);
      case Ratio => f := Divide(quadH + 1.0, p.nT as real - quadP, p.overZero);
      case Custom => f := p.custom(wd);
    }

    /** The incremental evaluation of a move. The custom kind flips its copy of the allocation. */
    method Evaluate(a: nat, b: nat, fCur: real)
      returns (feasible: bool, fNew: real, dP: real, dH: real, vNew: Vec)
      requires Valid() && CanExchange(w, a, b)
      modifies this`wd
      ensures feasible == Feasible(p, Exchange(w, a, b))
      ensures feasible ==> fNew == Exact(p, Exchange(w, a, b))
      ensures p.kind == Custom ==> feasible
      ensures !feasible ==> Valid()
      ensures Deciding(a, b, dP, dH, vNew)
    {
      feasible, fNew, dP, dH, vNew := true, fCur, 0.0, 0.0, [];
      if p.kind == Custom {
        wd := wd[a := 0.0][b := 1.0];
        assert wd == ToReal(Exchange(w, a, b));
        fNew := p.custom(wd);
      } else if p.kind == L1 {
        MatVecExchange(p.m1, w, a, b);
        vNew := Add(v, ColumnChange(p.m1, a, b));
        fNew := SumAbs(vNew);
      } else {
        QuadExchange(p.m1, w, a, b);
        dP := QuadChange(p.m1, gQ, a, b);
        if p.kind == Quadratic {
          fNew := quadP + dP;
        } else {
          QuadExchange(p.m2, w, a, b);
          dH := QuadChange(p.m2, gH, a, b);
          var den := p.nT as real - (quadP + dP);
          if den <= FEASIBLE {
            feasible := false;
          } else {
            fNew := (quadH + dH + 1.0) / den;
          }
        }
      }
    }

    /** Accepting a move: lists, allocation and caches change together. */
    method Accept(ti: nat, ci: nat, dP: real, dH: real, vNew: Vec)
      requires ti < |treated| && ci < |control| && Deciding(treated[ti], control[ci], dP, dH, vNew)
      requires Feasible(p, Exchange(w, treated[ti], control[ci]))
      modifies this
      ensures Valid() && Arms() == Exchanged(old(Arms()), ti, ci)
    {
      hide Lists, Exact, Denominator;
      ExchangedOk(p.n, p.nT, Arms(), ti, ci);
      var a, b := treated[ti], control[ci];
      MoveCaches(a, b, dP, dH, vNew);
      treated := treated[ti := b];
      control := control[ci := a];
      w := w[a := 0][b := 1];
    }

    /** The numeric caches become those of the exchanged allocation. */
    method MoveCaches(a: nat, b: nat, dP: real, dH: real, vNew: Vec)
      requires Deciding(a, b, dP, dH, vNew) && Feasible(p, Exchange(w, a, b))
      modifies this`gQ, this`quadP, this`gH, this`quadH, this`v
      ensures p.kind == Quadratic || p.kind == Ratio ==>
                gQ == MatVec(p.m1, ToReal(Exchange(w, a, b))) && quadP == Quad(p.m1, Exchange(w, a, b))
      ensures p.kind == Ratio ==>
                gH == MatVec(p.m2, ToReal(Exchange(w, a, b))) && quadH == Quad(p.m2, Exchange(w, a, b))
      ensures p.kind == L1 ==> v == MatVec(p.m1, ToReal(Exchange(w, a, b)))
    {
      hide Lists, MatVec, Quad, Denominator, Exchange;
      if p.kind == L1 {
        v := vNew;
      } else if p.kind != Custom {
        MatVecExchange(p.m1, w, a, b);
        gQ := Add(gQ, ColumnChange(p.m1, a, b));
        quadP := quadP + dP;
        if p.kind == Ratio {
          MatVecExchange(p.m2, w, a, b);
          gH := Add(gH, ColumnChange(p.m2, a, b));
          quadH := quadH + dH;
        }
      }
    }

    /** Rejecting a move: only the custom copy has to be restored. */
    method Reject(a: nat, b: nat, ghost dP: real, ghost dH: real, ghost vNew: Vec)
      requires Deciding(a, b, dP, dH, vNew)
      modifies this`wd
      ensures Valid()
    {
      if p.kind == Custom {
        wd := wd[a := 1.0][b := 0.0];
        assert wd == ToReal(w);
      }
    }

    /** One iteration of the chain loop. `fCur` stays the exact objective of the current state. */
    method Step(metropolis: Metropolis, rate: real, temp: real, fCur: real, rng: MersenneTwister.RRng)
      returns (fNext: real)
      requires Valid() && fCur == Exact(p, w) && rng.Valid() && Lively(rng.ws)
      modifies this, rng.mt, rng`mti, rng`block, rng`pos
      ensures Valid() && fNext == Exact(p, w) && rng.Valid()
      ensures ChainState(Arms(), rng.pos, temp * rate)
           == RefStep(p, metropolis, rate, rng.ws, ChainState(old(Arms()), old(rng.pos), temp))
    {
      hide Exact, Decide, RefStep, Lively, CachesExact, Generator.Valid, Lists, Exchanged;
      ghost var s := ChainState(Arms(), rng.pos, temp);
      var ti := BoundedLive(rng, p.nT);
      var ci := BoundedLive(rng, p.n - p.nT);
      RefStepDecides(p, metropolis, rate, rng.ws, s, ti, ci, rng.pos);
      fNext := TryMove(metropolis, rate, temp, fCur, ti, ci, rng);
    }

    method TryMove(metropolis: Metropolis, ghost rate: real, temp: real, fCur: real, ti: nat, ci: nat,
                   rng: MersenneTwister.RRng)
      returns (fNext: real)
      requires Valid() && fCur == Exact(p, w) && rng.Valid() && Lively(rng.ws)
      requires ti < p.nT && ci < p.n - p.nT
      modifies this, rng.mt, rng`mti, rng`block, rng`pos
      ensures Valid() && fNext == Exact(p, w) && rng.Valid()
      ensures old(treated[ti] < p.n && control[ci] < p.n)
      ensures ChainState(Arms(), rng.pos, temp * rate)
           == Decide(p, metropolis, rate, rng.ws(old(rng.pos)), old(rng.pos),
                     temp, old(Arms()), Exchanged(old(Arms()), ti, ci))
    {
      hide Exact, Feasible, Lively, Deciding, CachesExact, Generator.Valid, Lists, Decide;
      ExchangedOk(p.n, p.nT, Arms(), ti, ci);
      DecideOutcome(p, metropolis, rate, rng.ws(rng.pos), rng.pos, temp, Arms(), Exchanged(Arms(), ti, ci));
      var a, b := treated[ti], control[ci];
      var feasible, fNew, dP, dH, vNew := Evaluate(a, b, fCur);
      fNext := fCur;
      if feasible {
        var accept := MetropolisTest(metropolis, fNew - fCur, temp, rng);
        fNext := Settle(ti, ci, dP, dH, vNew, accept, fCur, fNew);
      }
    }

    /** The verdict on a move: either the caches follow, or the custom copy goes back. */
    method Settle(ti: nat, ci: nat, dP: real, dH: real, vNew: Vec, accept: bool, fCur: real, fNew: real)
        returns (fNext: real)
      requires ti < |treated| && ci < |control| && Deciding(treated[ti], control[ci], dP, dH, vNew)
      requires Feasible(p, Exchange(w, treated[ti], control[ci]))
      requires fCur == Exact(p, w) && fNew == Exact(p, Exchange(w, treated[ti], control[ci]))
      modifies this
      ensures Valid() && fNext == Exact(p, w)
      ensures Arms() == if accept then Exchanged(old(Arms()), ti, ci) else old(Arms())
    {
      hide Exact, Feasible, Deciding, CachesExact, Lists;
      if accept {
        Accept(ti, ci, dP, dH, vNew);
        fNext := fNew;
      } else {
        Reject(treated[ti], control[ci], dP, dH, vNew);
        fNext := fCur;
      }
    }
  }

  /** `delta < 0 || unif_rand() < exp(-delta / T)`: a word is drawn only when it decides. */
  method MetropolisTest(metropolis: Metropolis, delta: real, temp: real, rng: MersenneTwister.RRng)
    returns (accept: bool)
    requires rng.Valid()
    modifies rng.mt, rng`mti, rng`block, rng`pos
    ensures rng.Valid()
    ensures accept <==> delta < 0.0 || metropolis(rng.ws(old(rng.pos)), delta, temp)
    ensures rng.pos == old(rng.pos) + if delta < 0.0 then 0 else 1
  {
    accept := delta < 0.0;
    if !accept {
      var word := rng.NextWord();
      accept := metropolis(word, delta, temp);
    }
  }

  /** `std::iota` and the shuffle. */
  method ShuffledOrder(n: nat, rng: MersenneTwister.RRng) returns (order: seq<nat>)
    requires rng.Valid() && Lively(rng.ws)
    modifies rng.mt, rng`mti, rng`block, rng`pos
    ensures rng.Valid() && order == StartPermutation(rng.ws, old(rng.pos), n)
    ensures rng.pos == DrawnEnd(rng.ws, old(rng.pos), n)
  {
    var idx := new nat[n](i => i);
    assert idx[..] == Iota(n);
    FisherYates(idx, rng);
    order := idx[..];
  }

  /** `w.assign(n, 0)` and a one for every listed unit. */
  method MarkUnits(units: seq<nat>, n: nat) returns (w: seq<int>)
    requires forall i :: 0 <= i < |units| ==> units[i] < n
    ensures w == MarkFirst(units, n, |units|)
  {
    w := seq(n, _ => 0);
    for i := 0 to |units|
      invariant w == MarkFirst(units, n, i)
    {
      w := w[units[i] := 1];
    }
  }

  lemma {:induction false} MarkFirstPrefix(perm: seq<nat>, n: nat, k: nat)
    requires k <= |perm| && forall i :: 0 <= i < |perm| ==> perm[i] < n
    ensures MarkFirst(perm[..k], n, k) == MarkFirst(perm, n, k)
  {
    MarkPrefixAgrees(perm[..k], perm, n, k);
  }

  lemma {:induction false} MarkPrefixAgrees(s: seq<nat>, t: seq<nat>, n: nat, k: nat)
    requires k <= |s| && k <= |t| && s[..k] == t[..k]
    requires forall i :: 0 <= i < |s| ==> s[i] < n
    requires forall i :: 0 <= i < |t| ==> t[i] < n
    ensures MarkFirst(s, n, k) == MarkFirst(t, n, k)
  {
    if k > 0 {
      assert s[..k - 1] == s[..k][..k - 1] == t[..k - 1];
      assert s[k - 1] == s[..k][k - 1] == t[k - 1];
      MarkPrefixAgrees(s, t, n, k - 1);
    }
  }

  lemma VisitedStep(p: Problem, metropolis: Metropolis, rate: real, ws: Stream, s: ChainState, k: nat)
    requires ValidProblem(p) && ArmsOk(p.n, p.nT, s.a) && Lively(ws) && p.n < W
    ensures Visited(p, metropolis, rate, ws, s, k + 1)
         == [s.a.w] + Visited(p, metropolis, rate, ws, RefStep(p, metropolis, rate, ws, s), k)
  {}

  /** A chain: it returns the first best of the allocations it visits, and that one's objective. */
  method RunChain(p: Problem, metropolis: Metropolis, cooling: Cooling, maxIter: nat, seed: bv32)
    returns (bestW: seq<int>, bestF: real)
    requires ValidProblem(p) && p.n < W && Plentiful(MersenneTwister.SeedStream(seed))
    ensures bestW == FirstBest(p, SeedVisits(p, metropolis, cooling, seed, maxIter))
    ensures bestF == Exact(p, bestW)
  {
    SeedStreamLively(seed);
    var rng := MersenneTwister.NewRRng(seed);
    var st := new AnnealState(p, rng);
    var fCur := st.Objective();
    bestW, bestF := Anneal(st, metropolis, cooling, maxIter, fCur, rng);
    bestF := ExactValue(p, bestW);
  }

  /** The chain loop with its running best. */
  method Anneal(st: AnnealState, metropolis: Metropolis, cooling: Cooling, maxIter: nat, f0: real,
                rng: MersenneTwister.RRng)
    returns (bestW: seq<int>, bestF: real)
    requires st.Valid() && f0 == Exact(st.p, st.w) && rng.Valid() && Lively(rng.ws)
    modifies st, rng.mt, rng`mti, rng`block, rng`pos
    ensures bestW == FirstBest(st.p, Visited(st.p, metropolis, cooling.rate, rng.ws,
                        ChainState(old(st.Arms()), old(rng.pos), cooling.initial), maxIter))
    ensures bestF == Exact(st.p, bestW)
  {
    hide Exact, RefStep, Lively, Generator.Valid, AnnealState.CachesExact, Lists, SeenSoFar;
    var p := st.p;
    bestW, bestF := st.w, f0;
    var fCur, temp := f0, cooling.initial;
    ghost var all := Visited(p, metropolis, cooling.rate, rng.ws, ChainState(st.Arms(), rng.pos, temp), maxIter);
    ghost var seen := [st.w];
    SeenAtStart(p, metropolis, cooling.rate, rng.ws, ChainState(st.Arms(), rng.pos, temp), maxIter);
    for k := 0 to maxIter
      invariant st.Valid() && rng.Valid() && fCur == Exact(p, st.w)
      invariant SeenSoFar(p, metropolis, cooling.rate, rng.ws, ChainState(st.Arms(), rng.pos, temp), maxIter - k,
                          seen, all)
      invariant seen != [] && AllSized(p, seen)
      invariant bestW == FirstBest(p, seen) && bestF == Exact(p, bestW)
    {
      SeenStep(p, metropolis, cooling.rate, rng.ws, ChainState(st.Arms(), rng.pos, temp), maxIter - k - 1, seen, all);
      ghost var t := RefStep(p, metropolis, cooling.rate, rng.ws, ChainState(st.Arms(), rng.pos, temp));
      fCur := st.Step(metropolis, cooling.rate, temp, fCur, rng);
      if fCur < bestF {
        bestW, bestF := st.w, fCur;
      }
      FirstBestSnoc(p, seen, st.w);
      seen := seen + [st.w];
      temp := temp * cooling.rate;
      assert t == ChainState(st.Arms(), rng.pos, temp) && t.a.w == st.w;
      assert SeenSoFar(p, metropolis, cooling.rate, rng.ws, t, maxIter - k - 1, seen, all);
    }
    SeenAtEnd(p, metropolis, cooling.rate, rng.ws, ChainState(st.Arms(), rng.pos, temp), seen, all);
  }

  /** `seen` is what was visited so far, the current allocation last; `all` is the whole chain. */
  ghost predicate SeenSoFar(p: Problem, metropolis: Metropolis, rate: real, ws: Stream, s: ChainState,
                            left: nat, seen: seq<seq<int>>, all: seq<seq<int>>)
    requires ValidProblem(p) && ArmsOk(p.n, p.nT, s.a) && Lively(ws) && p.n < W
  {
    && seen != [] && seen[|seen| - 1] == s.a.w && AllSized(p, seen)
    && all == seen + Visited(p, metropolis, rate, ws, s, left)[1..]
  }

  lemma SeenAtStart(p: Problem, metropolis: Metropolis, rate: real, ws: Stream, s: ChainState, k: nat)
    requires ValidProblem(p) && ArmsOk(p.n, p.nT, s.a) && Lively(ws) && p.n < W
    ensures SeenSoFar(p, metropolis, rate, ws, s, k, [s.a.w], Visited(p, metropolis, rate, ws, s, k))
    ensures FirstBest(p, [s.a.w]) == s.a.w
  {
    var v := Visited(p, metropolis, rate, ws, s, k);
    assert v == [v[0]] + v[1..];
  }

  lemma SeenAtEnd(p: Problem, metropolis: Metropolis, rate: real, ws: Stream, s: ChainState,
                  seen: seq<seq<int>>, all: seq<seq<int>>)
    requires ValidProblem(p) && ArmsOk(p.n, p.nT, s.a) && Lively(ws) && p.n < W
    requires SeenSoFar(p, metropolis, rate, ws, s, 0, seen, all)
    ensures seen == all
  {}

  lemma SeenStep(p: Problem, metropolis: Metropolis, rate: real, ws: Stream, s: ChainState,
                 left: nat, seen: seq<seq<int>>, all: seq<seq<int>>)
    requires ValidProblem(p) && ArmsOk(p.n, p.nT, s.a) && Lively(ws) && p.n < W
    requires SeenSoFar(p, metropolis, rate, ws, s, left + 1, seen, all)
    ensures var t := RefStep(p, metropolis, rate, ws, s);
      SeenSoFar(p, metropolis, rate, ws, t, left, seen + [t.a.w], all)
  {
    hide Exact, Decide, Lively, Lists, ValidProblem;
    var t := RefStep(p, metropolis, rate, ws, s);
    var rest := Visited(p, metropolis, rate, ws, t, left);
    VisitedStep(p, metropolis, rate, ws, s, left);
    assert Visited(p, metropolis, rate, ws, s, left + 1)[1..] == rest;
    assert rest == [t.a.w] + rest[1..];
    assert seen + rest == seen + [t.a.w] + rest[1..];
  }

  lemma FirstBestSnoc(p: Problem, seen: seq<seq<int>>, w: seq<int>)
    requires ValidProblem(p) && seen != [] && AllSized(p, seen) && |w| == p.n
    ensures AllSized(p, seen + [w])
    ensures FirstBest(p, seen + [w]) ==
              if Exact(p, w) < Exact(p, FirstBest(p, seen)) then w else FirstBest(p, seen)
  {
    assert (seen + [w])[..|seen|] == seen;
  }

  /** The drift-proof recomputation before chains are compared. */
  method ExactValue(p: Problem, w: seq<int>) returns (f: real)
    requires ValidProblem(p) && |w| == p.n
    ensures f == Exact(p, w)
  {
    var u := ToReal(w);
    match p.kind
    case Quadratic => f := Dot(u, MatVec(p.m1, u));
    case L1 => f := SumAbs(MatVec(p.m1, u));
    case Ratio => f := Divide(Dot(u, MatVec(p.m2, u)) + 1.0, p.nT as real - Dot(u, MatVec(p.m1, u)), p.overZero);
    case Custom => f := p.custom(u);
  }

  ghost predicate AllWorse(p: Problem, value: real, visits: seq<seq<int>>)
    requires ValidProblem(p) && AllSized(p, visits)
  {
    forall i :: 0 <= i < |visits| ==> value < Exact(p, visits[i])
  }

  /** Chain c visited the allocation, before anything as good, and no chain before it visited anything as good. */
  ghost predicate WonBy(p: Problem, metropolis: Metropolis, cooling: Cooling, maxIter: nat, seeds: seq<bv32>,
                        w: seq<int>, value: real, c: nat)
    requires ValidProblem(p) && p.n < W
    requires forall c :: 0 <= c < |seeds| ==> Plentiful(MersenneTwister.SeedStream(seeds[c]))
  {
    && c < |seeds| && w == FirstBest(p, SeedVisits(p, metropolis, cooling, seeds[c], maxIter))
    && forall b :: 0 <= b < c ==> AllWorse(p, value, SeedVisits(p, metropolis, cooling, seeds[b], maxIter))
  }

  /** It has nT ones and its exact value, the first chain to find it wins, and no visited allocation beats it. */
  ghost predicate IsAnswer(p: Problem, metropolis: Metropolis, cooling: Cooling, maxIter: nat, seeds: seq<bv32>,
                           w: seq<int>, value: real)
    requires ValidProblem(p) && p.n < W
    requires forall c :: 0 <= c < |seeds| ==> Plentiful(MersenneTwister.SeedStream(seeds[c]))
  {
    && |w| == p.n && IsAllocation(w) && Ones(w) == p.nT && value == Exact(p, w)
    && (exists c: nat :: WonBy(p, metropolis, cooling, maxIter, seeds, w, value, c))
    && (forall c :: 0 <= c < |seeds| ==>
          NotBeaten(p, value, SeedVisits(p, metropolis, cooling, seeds[c], maxIter)))
  }

  /**
   * All chains, then the cross-chain argmin: the answer has exactly nT ones, was visited, and no
   * allocation visited by any chain is better.
   */
  method Search(p: Problem, metropolis: Metropolis, cooling: Cooling, maxIter: nat, seeds: seq<bv32>)
    returns (w: seq<int>, value: real)
    requires ValidProblem(p) && p.n < W && seeds != []
    requires forall c :: 0 <= c < |seeds| ==> Plentiful(MersenneTwister.SeedStream(seeds[c]))
    ensures IsAnswer(p, metropolis, cooling, maxIter, seeds, w, value)
  {
    hide SeedVisits, Exact, Plentiful, ChainAnswer, IsAnswer;
    var bestW, bestF := RunChains(p, metropolis, cooling, maxIter, seeds);
    var argmin := ArgMin(bestF);
    w, value := bestW[argmin], bestF[argmin];
    BestOfChains(p, metropolis, cooling, maxIter, seeds, bestW, bestF, argmin);
  }

  lemma BestOfChains(p: Problem, metropolis: Metropolis, cooling: Cooling, maxIter: nat, seeds: seq<bv32>,
                     bestW: seq<seq<int>>, bestF: seq<real>, argmin: nat)
    requires ValidProblem(p) && p.n < W && argmin < |seeds| == |bestW| == |bestF|
    requires forall c :: 0 <= c < |seeds| ==> Plentiful(MersenneTwister.SeedStream(seeds[c]))
    requires forall c :: 0 <= c < |seeds| ==>
               ChainAnswer(p, SeedVisits(p, metropolis, cooling, seeds[c], maxIter), bestW[c], bestF[c])
    requires forall c :: 0 <= c < |seeds| ==> bestF[argmin] <= bestF[c]
    requires forall c :: 0 <= c < argmin ==> bestF[argmin] < bestF[c]
    ensures IsAnswer(p, metropolis, cooling, maxIter, seeds, bestW[argmin], bestF[argmin])
  {
    hide SeedVisits, Exact, Plentiful, ChainAnswer, NotBeaten, AllWorse;
    forall c | 0 <= c < argmin
      ensures AllWorse(p, bestF[argmin], SeedVisits(p, metropolis, cooling, seeds[c], maxIter))
    {
      WorseChain(p, SeedVisits(p, metropolis, cooling, seeds[c], maxIter), bestW[c], bestF[c], bestF[argmin]);
    }
    forall c | 0 <= c < |seeds|
      ensures NotBeaten(p, bestF[argmin], SeedVisits(p, metropolis, cooling, seeds[c], maxIter))
    {
      AnswerBounds(p, SeedVisits(p, metropolis, cooling, seeds[c], maxIter), bestW[c], bestF[c], bestF[argmin]);
    }
    var visits := SeedVisits(p, metropolis, cooling, seeds[argmin], maxIter);
    AnswerBounds(p, visits, bestW[argmin], bestF[argmin], bestF[argmin]);
    var i :| 0 <= i < |visits| && visits[i] == bestW[argmin];
    assert WonBy(p, metropolis, cooling, maxIter, seeds, bestW[argmin], bestF[argmin], argmin);
  }

  lemma WorseChain(p: Problem, visits: seq<seq<int>>, w: seq<int>, f: real, value: real)
    requires ValidProblem(p) && visits != [] && AllSized(p, visits)
    requires ChainAnswer(p, visits, w, f) && value < f
    ensures AllWorse(p, value, visits)
  {}

  /** So a search has one answer. */
  lemma AnswerUnique(p: Problem, metropolis: Metropolis, cooling: Cooling, maxIter: nat, seeds: seq<bv32>,
                     w: seq<int>, value: real, w': seq<int>, value': real)
    requires ValidProblem(p) && p.n < W
    requires forall c :: 0 <= c < |seeds| ==> Plentiful(MersenneTwister.SeedStream(seeds[c]))
    requires IsAnswer(p, metropolis, cooling, maxIter, seeds, w, value)
    requires IsAnswer(p, metropolis, cooling, maxIter, seeds, w', value')
    ensures w == w' && value == value'
  {
    hide SeedVisits, Exact, Plentiful;
    var c: nat :| WonBy(p, metropolis, cooling, maxIter, seeds, w, value, c);
    var c': nat :| WonBy(p, metropolis, cooling, maxIter, seeds, w', value', c');
    WinnerValue(p, metropolis, cooling, maxIter, seeds, w, value, w', value', c);
    WinnerValue(p, metropolis, cooling, maxIter, seeds, w', value', w, value, c');
    assert !(c < c') && !(c' < c);
  }

  lemma WinnerValue(p: Problem, metropolis: Metropolis, cooling: Cooling, maxIter: nat, seeds: seq<bv32>,
                    w: seq<int>, value: real, other: seq<int>, bound: real, c: nat)
    requires ValidProblem(p) && p.n < W
    requires forall c :: 0 <= c < |seeds| ==> Plentiful(MersenneTwister.SeedStream(seeds[c]))
    requires IsAnswer(p, metropolis, cooling, maxIter, seeds, w, value)
    requires IsAnswer(p, metropolis, cooling, maxIter, seeds, other, bound)
    requires WonBy(p, metropolis, cooling, maxIter, seeds, w, value, c)
    ensures bound <= value && !AllWorse(p, value, SeedVisits(p, metropolis, cooling, seeds[c], maxIter))
  {
    hide SeedVisits, Exact, Plentiful;
    var visits := SeedVisits(p, metropolis, cooling, seeds[c], maxIter);
    assert NotBeaten(p, bound, visits);
    var i :| 0 <= i < |visits| && visits[i] == w;
  }

  method RunChains(p: Problem, metropolis: Metropolis, cooling: Cooling, maxIter: nat, seeds: seq<bv32>)
    returns (bestW: seq<seq<int>>, bestF: seq<real>)
    requires ValidProblem(p) && p.n < W
    requires forall c :: 0 <= c < |seeds| ==> Plentiful(MersenneTwister.SeedStream(seeds[c]))
    ensures |bestW| == |bestF| == |seeds|
    ensures forall c :: 0 <= c < |seeds| ==>
              ChainAnswer(p, SeedVisits(p, metropolis, cooling, seeds[c], maxIter), bestW[c], bestF[c])
  {
    hide SeedVisits, Exact, Plentiful;
    bestW, bestF := [], [];
    for c := 0 to |seeds|
      invariant |bestW| == |bestF| == c
      invariant forall i :: 0 <= i < c ==>
                  ChainAnswer(p, SeedVisits(p, metropolis, cooling, seeds[i], maxIter), bestW[i], bestF[i])
    {
      var cw, cf := RunChain(p, metropolis, cooling, maxIter, seeds[c]);
      bestW, bestF := bestW + [cw], bestF + [cf];
    }
  }

  method ArgMin(f: seq<real>) returns (argmin: nat)
    requires f != []
    ensures argmin < |f| && forall c :: 0 <= c < |f| ==> f[argmin] <= f[c]
    ensures forall c :: 0 <= c < argmin ==> f[argmin] < f[c]
  {
    argmin := 0;
    for c := 1 to |f|
      invariant argmin < c
      invariant forall i :: 0 <= i < c ==> f[argmin] <= f[i]
      invariant forall i :: 0 <= i < argmin ==> f[argmin] < f[i]
    {
      if f[c] < f[argmin] {
        argmin := c;
      }
    }
  }

  ghost predicate NotBeaten(p: Problem, value: real, visits: seq<seq<int>>)
    requires ValidProblem(p) && AllSized(p, visits)
  {
    forall i :: 0 <= i < |visits| ==> value <= Exact(p, visits[i])
  }

  ghost predicate ChainAnswer(p: Problem, visits: seq<seq<int>>, w: seq<int>, f: real)
    requires ValidProblem(p) && visits != [] && AllSized(p, visits)
  {
    w == FirstBest(p, visits) && f == Exact(p, w)
  }

  lemma AnswerBounds(p: Problem, visits: seq<seq<int>>, w: seq<int>, f: real, value: real)
    requires ValidProblem(p) && visits != [] && AllSized(p, visits)
    requires ChainAnswer(p, visits, w, f) && value <= f
    ensures NotBeaten(p, value, visits) && w == FirstBest(p, visits) && w in visits && f == Exact(p, w)
  {}
}

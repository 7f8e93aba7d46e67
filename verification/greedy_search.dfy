/** The greedy search as the code runs it: thread-local buffers, cached criterion and objective. */
module GreedySearch {
  import opened Vectors
  import opened GreedyObjective
  import opened BlockRecurrence
  import opened BoundedRand
  import opened Shuffle
  import opened TreatmentArms
  import opened GreedyReference
  import opened GreedyBuffers
  import MersenneTwister
  import Words

  /** The working buffers of one thread. They are reused from draw to draw. */
  class Worker {
    const c: Config
    const order: array<nat>
    var w: seq<int>
    var treated: seq<nat>
    var control: seq<nat>
    var side: seq<nat>
    var d: Vec
    var f: real

    /** The buffers have the sizes they were allocated with; their contents may be anything. */
    ghost predicate Allocated()
      reads this
    {
      && Valid(c)
      && order.Length == |w| == c.n
      && |treated| == c.nT && |control| == c.n - c.nT
      && |side| == |c.pairs|
    }

    ghost predicate CachesExact()
      reads this
    {
      && |w| == c.n && Valid(c)
      && d == Criterion(c.m, w)
      && f == Objective(c.absMode, c.m, w)
    }

    ghost predicate PairInvariant()
      reads this
    {
      && Allocated() && CachesExact()
      && c.m != [] && c.pairMode
      && SidesOk(c.pairs, side)
      && w == Oriented(c, side)
    }

    ghost function Arms(): Arms
      reads this
    {
      TreatmentArms.Arms(w, treated, control)
    }

    /** The buffers as data, for the functional steps; how far the draw has come is kept outside. */
    ghost function Snapshot(): Buffers
      reads this
    {
      Buffers(side, w, treated, control, d, f, 0, 0, false)
    }

    ghost predicate SwapInvariant()
      reads this
    {
      Allocated() && CachesExact() && ArmsOk(c.n, c.nT, Arms())
    }

    constructor (c: Config)
      requires Valid(c)
      ensures this.c == c && Allocated() && fresh(order)
    {
      this.c := c;
      order := new nat[c.n];
      w := seq(c.n, _ => 0);
      treated, control := seq(c.nT, _ => 0), seq(c.n - c.nT, _ => 0);
      side := seq(|c.pairs|, _ => 0);
      d, f := [], 0.0;
    }

    method OrientPair(k: nat, s: nat)
      requires Allocated() && c.m != [] && c.pairMode && k < |c.pairs| && s <= 1
      modifies this`w, this`side
      ensures Allocated() && side == old(side)[k := s]
      ensures Pick(c.pairs[k], 0) < c.n && Pick(c.pairs[k], 1) < c.n
      ensures w == old(w)[Pick(c.pairs[k], s) := 1][Pick(c.pairs[k], 1 - s) := 0]
    {
      side := side[k := s];
      w := w[Pick(c.pairs[k], s) := 1];
      w := w[Pick(c.pairs[k], 1 - s) := 0];
    }

    /** One coin flip per pair. */
    method InitPairs(rng: MersenneTwister.RRng)
      requires Allocated() && c.m != [] && c.pairMode
      requires rng.Valid() && Lively(rng.ws)
      modifies this`w, this`side, rng.mt, rng`mti, rng`block, rng`pos
      ensures Allocated() && rng.Valid()
      ensures side == CoinSides(rng.ws, old(rng.pos), |c.pairs|) && w == Oriented(c, side)
      ensures rng.pos == CoinEnd(rng.ws, old(rng.pos), |c.pairs|)
    {
      assert PairsOk(c.pairs, c.n);
      ghost var pos, np := rng.pos, |c.pairs|;
      ghost var full := CoinSides(rng.ws, pos, np);
      w := seq(c.n, _ => 0);
      for k := 0 to |c.pairs|
        invariant Allocated() && rng.Valid()
        invariant CoinsDone(rng.ws, pos, rng.pos, full, k)
      {
        FlipCoin(rng, k, pos, full);
      }
      assert side == full;
    }

    /** The first `k` pairs are oriented by the coins that the stream gives from `pos` on. */
    ghost predicate CoinsDone(ws: Stream, pos: nat, now: nat, full: seq<nat>, k: nat)
      requires Allocated() && c.m != [] && c.pairMode && Lively(ws) && k <= |c.pairs|
      reads this
    {
      && full == CoinSides(ws, pos, |c.pairs|)
      && now == CoinEnd(ws, pos, k)
      && (forall i :: 0 <= i < k ==> side[i] == full[i])
      && w == PairFill(c.pairs, full, c.n, k)
    }

    method FlipCoin(rng: MersenneTwister.RRng, k: nat, ghost pos: nat, ghost full: seq<nat>)
      requires Allocated() && c.m != [] && c.pairMode && k < |c.pairs|
      requires rng.Valid() && Lively(rng.ws)
      requires CoinsDone(rng.ws, pos, rng.pos, full, k)
      modifies this`w, this`side, rng.mt, rng`mti, rng`block, rng`pos
      ensures Allocated() && rng.Valid()
      ensures CoinsDone(rng.ws, pos, rng.pos, full, k + 1)
    {
      CoinStep(rng.ws, pos, k, |c.pairs|);
      PairFillStep(c.pairs, full, c.n, k);
      hide PairFill, CoinSides, CoinEnd, Lively;
      var s := BoundedLive(rng, 2);
      OrientPair(k, s);
    }

    /** Fisher-Yates: the first nT units of a shuffled order are treated. */
    method InitBalanced(rng: MersenneTwister.RRng)
      requires Allocated()
      requires rng.Valid() && Lively(rng.ws) && rng.mt as object != order
      modifies this`w, this`treated, this`control, order, rng.mt, rng`mti, rng`block, rng`pos
      ensures Allocated() && rng.Valid()
      ensures Arms() == BalancedStart(c, rng.ws, old(rng.pos))
      ensures rng.pos == DrawnEnd(rng.ws, old(rng.pos), c.n)
    {
      ghost var start := BalancedStart(c, rng.ws, rng.pos);
      MarkShuffled(rng);
      FillLists();
    }

    /** `std::iota`. */
    method FillIota()
      modifies order
      ensures order[..] == Iota(order.Length)
    {
      for i := 0 to order.Length
        invariant forall k :: 0 <= k < i ==> order[k] == k
      {
        order[i] := i;
      }
    }

    /** `std::iota`, the shuffle, and ones for its first nT entries. */
    method MarkShuffled(rng: MersenneTwister.RRng)
      requires Allocated()
      requires rng.Valid() && Lively(rng.ws) && rng.mt as object != order
      modifies this`w, order, rng.mt, rng`mti, rng`block, rng`pos
      ensures Allocated() && rng.Valid()
      ensures w == MarkFirst(StartPermutation(rng.ws, old(rng.pos), c.n), c.n, c.nT)
      ensures rng.pos == DrawnEnd(rng.ws, old(rng.pos), c.n)
    {
      ghost var perm := StartPermutation(rng.ws, rng.pos, c.n);
      FillIota();
      FisherYates(order, rng);
      MarkOrder(perm);
    }

    method MarkOrder(ghost perm: seq<nat>)
      requires Allocated() && order[..] == perm && forall i :: 0 <= i < |perm| ==> perm[i] < c.n
      modifies this`w
      ensures Allocated() && w == MarkFirst(perm, c.n, c.nT)
    {
      w := seq(c.n, _ => 0);
      for i := 0 to c.nT
        invariant w == MarkFirst(perm, c.n, i)
      {
        assert order[i] == order[..][i];
        w := w[order[i] := 1];
      }
    }

    method FillLists()
      requires Allocated() && IsAllocation(w) && Ones(w) == c.nT
      modifies this`treated, this`control
      ensures Allocated()
      ensures treated == Where(w, 1, c.n) && control == Where(w, 0, c.n)
    {
      WhereCounts(w, c.n);
      assert w[..c.n] == w;
      var ti, ci := 0, 0;
      for i := 0 to c.n
        invariant Allocated()
        invariant ti == |Where(w, 1, i)| <= c.nT && ci == |Where(w, 0, i)| <= c.n - c.nT
        invariant treated[..ti] == Where(w, 1, i) && control[..ci] == Where(w, 0, i)
      {
        WhereMonotone(w, 1, i + 1, c.n);
        WhereMonotone(w, 0, i + 1, c.n);
        if w[i] != 0 {
          treated := treated[ti := i];
          ti := ti + 1;
        } else {
          control := control[ci := i];
          ci := ci + 1;
        }
      }
    }

    /** d = M (2w - 1) and its norm, from scratch. */
    method Refresh()
      requires Allocated()
      modifies this`d, this`f
      ensures Allocated() && CachesExact()
    {
      d := Criterion(c.m, w);
      f := Norm(c.absMode, d);
    }

    /** Whatever the buffers held, a draw in pair mode begins as the functional restart does. */
    method BeginPairs(rng: MersenneTwister.RRng)
      requires Allocated() && c.m != [] && c.pairMode
      requires rng.Valid() && Lively(rng.ws) && rng.pos == N
      modifies this`w, this`side, this`d, this`f, rng.mt, rng`mti, rng`block, rng`pos
      ensures PairInvariant() && rng.Valid()
      ensures side == CoinSides(rng.ws, N, |c.pairs|) && rng.pos == CoinEnd(rng.ws, N, |c.pairs|)
      ensures Snapshot().(pos := rng.pos) == Restart(c, rng.ws, old(Snapshot()))
    {
      hide Generator.Valid, Lively, Oriented, Criterion, Norm, PairsOk;
      InitPairs(rng);
      Refresh();
    }

    /** And so does a draw without pairs. */
    method BeginBalanced(rng: MersenneTwister.RRng)
      requires Allocated() && c.m != [] && !c.pairMode
      requires rng.Valid() && Lively(rng.ws) && rng.mt as object != order && rng.pos == N
      modifies this`w, this`treated, this`control, this`d, this`f, order, rng.mt, rng`mti, rng`block, rng`pos
      ensures SwapInvariant() && rng.Valid()
      ensures Arms() == BalancedStart(c, rng.ws, N) && rng.pos == DrawnEnd(rng.ws, N, c.n)
      ensures Snapshot().(pos := rng.pos) == Restart(c, rng.ws, old(Snapshot()))
    {
      hide Generator.Valid, Lively, Criterion, Norm, BalancedStart;
      InitBalanced(rng);
      Refresh();
    }

    /** `f_cand` for the exchange of `i` and `j`. */
    method Evaluate(i: nat, j: nat) returns (delta: Vec, cand: real)
      requires CachesExact() && CanExchange(w, i, j)
      ensures delta == Delta(c.m, i, j)
      ensures cand == CachedCandidate(c, d, f, i, j) == Objective(c.absMode, c.m, Exchange(w, i, j))
    {
      CandidateIsExact(c.absMode, c.m, w, i, j);
      delta := Delta(c.m, i, j);
      cand := if c.absMode then SumAbs(Add(d, delta)) else f + 2.0 * Dot(d, delta) + Dot(delta, delta);
    }

    /** Accepting: `w`, `d` and `f` move together and stay exact. */
    method Accept(i: nat, j: nat, delta: Vec, cand: real)
      requires CachesExact() && CanExchange(w, i, j)
      requires delta == Delta(c.m, i, j) && cand == Objective(c.absMode, c.m, Exchange(w, i, j))
      modifies this`w, this`d, this`f
      ensures CachesExact() && w == Exchange(old(w), i, j)
      ensures Snapshot() == Swapped(c, old(Snapshot()), i, j, cand)
    {
      CriterionExchange(c.m, w, i, j);
      w := w[i := 0][j := 1];
      d := Add(d, delta);
      f := cand;
    }

    /** One scan of all pairs for the largest gain. */
    method Scan() returns (bestK: int, bestGain: real)
      requires PairInvariant()
      ensures (bestK, bestGain) == BestFlip(c, side, |c.pairs|) == CachedScan(c, side, d, f, |c.pairs|)
    {
      hide Objective, Criterion, PairsOk, Oriented, CachedCandidate;
      CriterionSize(c.m, w);
      bestK, bestGain := -1, 0.0;
      for k := 0 to |c.pairs|
        invariant (bestK, bestGain) == BestFlip(c, side, k) == CachedScan(c, side, d, f, k)
      {
        FlipIsExchange(c, side, k);
        var i, j := Pick(c.pairs[k], side[k]), Pick(c.pairs[k], 1 - side[k]);
        var delta, cand := Evaluate(i, j);
        var gain := f - cand;
        if gain > bestGain {
          bestK, bestGain := k, gain;
        }
      }
    }

    method FlipPair(k: nat, delta: Vec, cand: real)
      requires PairInvariant() && k < |c.pairs|
      requires delta == Delta(c.m, Pick(c.pairs[k], side[k]), Pick(c.pairs[k], 1 - side[k]))
      requires cand == SideObjective(c, Flip(side, k))
      modifies this`w, this`side, this`d, this`f
      ensures PairInvariant() && side == Flip(old(side), k)
      ensures Snapshot() == CachedFlip(c, old(Snapshot()), k, cand)
    {
      hide Objective, PairsOk, Criterion, Oriented;
      FlipIsExchange(c, side, k);
      Accept(Pick(c.pairs[k], side[k]), Pick(c.pairs[k], 1 - side[k]), delta, cand);
      side := side[k := 1 - side[k]];
    }

    /** `f -= best_gain`: in exact arithmetic that is the objective of the flipped orientation. */
    method FlipBest(k: nat, gain: real)
      requires PairInvariant() && k < |c.pairs| && gain == Gain(c, side, k)
      modifies this`w, this`side, this`d, this`f
      ensures PairInvariant() && side == Flip(old(side), k)
      ensures Snapshot() == CachedFlip(c, old(Snapshot()), k, old(f) - gain)
    {
      var i, j := Pick(c.pairs[k], side[k]), Pick(c.pairs[k], 1 - side[k]);
      FlipPair(k, Delta(c.m, i, j), f - gain);
    }

    /** Exhaustive pair mode: best improvement until no flip improves. */
    method SearchPairsExhaustively()
      requires PairInvariant()
      modifies this`w, this`side, this`d, this`f
      ensures PairInvariant() && side == Descent(c, old(side))
    {
      hide Objective, SideObjective, Oriented, Criterion, BestFlip, Below, IsLocalOptimum, PairsOk;
      var anyImproved := true;
      while anyImproved
        invariant PairInvariant()
        invariant Descent(c, side) == Descent(c, old(side))
        invariant !anyImproved ==> Descent(c, side) == side
        decreases |Below(c, side)|, anyImproved
      {
        anyImproved := false;
        var bestK, bestGain := Scan();
        BestFlipIsBest(c, side, |c.pairs|);
        ScanDecides(c, side, bestK);
        if bestK >= 0 {
          FlipBest(bestK, bestGain);
          anyImproved := true;
        }
      }
    }

    /** Stochastic pair mode: nIter random pairs, each flipped when that strictly improves. */
    method SearchPairs(rng: MersenneTwister.RRng)
      requires PairInvariant() && c.nIter >= 0
      requires rng.Valid() && Lively(rng.ws)
      modifies this`w, this`side, this`d, this`f, rng.mt, rng`mti, rng`block, rng`pos
      ensures PairInvariant() && rng.Valid()
      ensures side == PairWalk(c, rng.ws, old(rng.pos), old(side), c.nIter)
    {
      hide Generator.Valid, TryFlip, Lively, Oriented, Objective, Criterion, CachedTryFlip, Shaped;
      for it := 0 to c.nIter
        invariant PairInvariant() && rng.Valid()
        invariant PairWalk(c, rng.ws, rng.pos, side, c.nIter - it)
               == PairWalk(c, rng.ws, old(rng.pos), old(side), c.nIter)
      {
        PairWalkStep(c, rng.ws, rng.pos, side, c.nIter - it - 1);
        var k := BoundedLive(rng, |c.pairs|);
        TryPair(k);
      }
    }

    method TryPair(k: nat)
      requires PairInvariant() && k < |c.pairs|
      modifies this`w, this`side, this`d, this`f
      ensures PairInvariant() && side == TryFlip(c, old(side), k)
      ensures Snapshot() == CachedTryFlip(c, old(Snapshot()), k)
    {
      FlipIsExchange(c, side, k);
      var i, j := Pick(c.pairs[k], side[k]), Pick(c.pairs[k], 1 - side[k]);
      var delta, cand := Evaluate(i, j);
      if cand < f {
        FlipPair(k, delta, cand);
      }
    }

    /** Stochastic mode without pairs: nIter random treated-control exchanges. */
    method SearchSwaps(rng: MersenneTwister.RRng)
      requires SwapInvariant() && c.m != [] && !c.pairMode && c.nIter >= 0
      requires rng.Valid() && Lively(rng.ws)
      modifies this`w, this`treated, this`control, this`d, this`f, rng.mt, rng`mti, rng`block, rng`pos
      ensures SwapInvariant() && rng.Valid()
      ensures Arms() == SwapWalk(c, rng.ws, old(rng.pos), old(Arms()), c.nIter)
    {
      hide Generator.Valid, Objective, Criterion, TryExchange, Lively, ArmsOk, SwapWalk, CachedTrySwap, Shaped;
      for it := 0 to c.nIter
        invariant SwapInvariant() && rng.Valid()
        invariant SwapWalk(c, rng.ws, rng.pos, Arms(), c.nIter - it)
               == SwapWalk(c, rng.ws, old(rng.pos), old(Arms()), c.nIter)
      {
        SwapOnce(rng, c.nIter - it - 1);
      }
      SwapWalkDone(c, rng.ws, rng.pos, Arms());
    }

    method SwapOnce(rng: MersenneTwister.RRng, ghost left: nat)
      requires SwapInvariant() && c.m != [] && !c.pairMode
      requires rng.Valid() && Lively(rng.ws)
      modifies this`w, this`treated, this`control, this`d, this`f, rng.mt, rng`mti, rng`block, rng`pos
      ensures SwapInvariant() && rng.Valid()
      ensures SwapWalk(c, rng.ws, rng.pos, Arms(), left) == SwapWalk(c, rng.ws, old(rng.pos), old(Arms()), left + 1)
    {
      hide Generator.Valid, Objective, Criterion, TryExchange, Lively, ArmsOk, SwapWalk, CachedTrySwap, Shaped;
      SwapWalkStep(c, rng.ws, rng.pos, Arms(), left);
      var ti := BoundedLive(rng, c.nT);
      var ci := BoundedLive(rng, c.n - c.nT);
      TrySwap(ti, ci);
    }

    method TrySwap(ti: nat, ci: nat)
      requires SwapInvariant() && c.m != [] && !c.pairMode && ti < c.nT && ci < c.n - c.nT
      modifies this`w, this`treated, this`control, this`d, this`f
      ensures SwapInvariant() && Arms() == TryExchange(c, old(Arms()), ti, ci)
      ensures Snapshot() == CachedTrySwap(c, old(Snapshot()), ti, ci)
    {
      ExchangedOk(c.n, c.nT, Arms(), ti, ci);
      var i, j := treated[ti], control[ci];
      var delta, cand := Evaluate(i, j);
      if cand < f {
        Accept(i, j, delta, cand);
        treated := treated[ti := j];
        control := control[ci := i];
      }
    }

    /**
     * One draw. The column is a function of the configuration and the seed alone: nothing that
     * the buffers held before can reach it.
     */
    method Draw(seed: bv32) returns (column: seq<int>)
      requires Allocated() && Plentiful(MersenneTwister.SeedStream(seed))
      modifies this, order
      ensures Allocated()
      ensures column == SeedDesign(c, seed)
    {
      SeedStreamLively(seed);
      var rng := MersenneTwister.NewRRng(seed);
      if c.m == [] {
        MarkShuffled(rng);
      } else if c.pairMode {
        BeginPairs(rng);
        if c.nIter < 0 {
          SearchPairsExhaustively();
        } else {
          SearchPairs(rng);
        }
      } else {
        BeginBalanced(rng);
        SearchSwaps(rng);
      }
      column := w;
    }
  }

  /**
   * The parallel region: `schedule` lists which thread computes which draw, in any order and with
   * any assignment. Whatever it is, each scheduled column is the one that its index determines.
   */
  method RunSchedule(c: Config, r: nat, master: bv64, workers: seq<Worker>, schedule: seq<(nat, nat)>)
    returns (result: seq<seq<int>>)
    requires Valid(c)
    requires forall t :: 0 <= t < |workers| ==> workers[t].Allocated() && workers[t].c == c
    requires forall e :: 0 <= e < |schedule| ==> schedule[e].0 < |workers| && schedule[e].1 < r
    requires forall j: nat :: j < r ==>
               Plentiful(MersenneTwister.SeedStream(Words.IndexSeed(master, j)))
    modifies workers, set t | 0 <= t < |workers| :: workers[t].order
    ensures |result| == r
    ensures forall e :: 0 <= e < |schedule| ==>
              result[schedule[e].1] == ColumnOf(c, master, schedule[e].1)
  {
    hide Words.IndexSeed, SeedDesign, Valid, Plentiful;
    result := seq(r, _ => []);
    for e := 0 to |schedule|
      invariant |result| == r
      invariant forall t :: 0 <= t < |workers| ==> workers[t].Allocated()
      invariant forall a :: 0 <= a < e ==>
                  result[schedule[a].1] == ColumnOf(c, master, schedule[a].1)
    {
      var (t, j) := schedule[e];
      var column := workers[t].Draw(Words.IndexSeed(master, j));
      result := result[j := column];
    }
  }
}

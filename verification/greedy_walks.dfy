/** The searches step by step: what is drawn at every iteration, and that the better allocation is kept. */
module GreedyWalks {
  import opened Sequences
  import opened Vectors
  import opened GreedyObjective
  import opened BlockRecurrence
  import opened BoundedRand
  import opened Shuffle
  import opened TreatmentArms
  import opened GreedyReference

  // Random exchanges.

  ghost function AfterExchange(c: Config, ws: Stream, pos: nat): nat
    requires Valid(c) && Lively(ws)
  {
    DrawNext(ws, DrawNext(ws, pos, c.nT), c.n - c.nT)
  }

  /** The position of the stream before iteration `it`; it does not depend on the allocations. */
  ghost function SwapPos(c: Config, ws: Stream, pos: nat, it: nat): nat
    requires Valid(c) && Lively(ws)
    decreases it
  {
    if it == 0 then pos else SwapPos(c, ws, AfterExchange(c, ws, pos), it - 1)
  }

  /** One iteration: a treated and a control index are drawn, and the better arms are kept. */
  ghost predicate SwapAt(c: Config, ws: Stream, pos: nat, a: Arms, next: Arms)
    requires Valid(c) && Lively(ws) && ArmsOk(c.n, c.nT, a)
  {
    var pos1 := DrawNext(ws, pos, c.nT);
    DrawBelow(ws, pos, c.nT);
    DrawBelow(ws, pos1, c.n - c.nT);
    BetterArms(c, a, DrawValue(ws, pos, c.nT), DrawValue(ws, pos1, c.n - c.nT), next)
  }

  ghost predicate IsSwapTrace(c: Config, ws: Stream, pos: nat, v: seq<Arms>)
    requires Valid(c) && Lively(ws)
  {
    && v != [] && (forall it :: 0 <= it < |v| ==> ArmsOk(c.n, c.nT, v[it]))
    && forall it :: 0 <= it < |v| - 1 ==> SwapAt(c, ws, SwapPos(c, ws, pos, it), v[it], v[it + 1])
  }

  lemma SwapStepTaken(c: Config, ws: Stream, pos: nat, a: Arms, steps: nat) returns (next: Arms)
    requires Valid(c) && ArmsOk(c.n, c.nT, a) && Lively(ws)
    ensures ArmsOk(c.n, c.nT, next) && SwapAt(c, ws, pos, a, next)
    ensures SwapWalk(c, ws, pos, a, steps + 1) == SwapWalk(c, ws, AfterExchange(c, ws, pos), next, steps)
  {
    hide ArmsOk, TryExchange, SwapWalk, DrawValue, DrawNext, ArmsObjective;
    SwapWalkStep(c, ws, pos, a, steps);
    next := TryExchange(c, a, DrawValue(ws, pos, c.nT), DrawValue(ws, DrawNext(ws, pos, c.nT), c.n - c.nT));
  }

  /** The walk takes one such step per iteration. */
  lemma {:induction false} SwapWalkSteps(c: Config, ws: Stream, pos: nat, a: Arms, steps: nat)
    returns (v: seq<Arms>)
    requires Valid(c) && ArmsOk(c.n, c.nT, a) && Lively(ws)
    ensures |v| == steps + 1 && v[0] == a && v[steps] == SwapWalk(c, ws, pos, a, steps)
    ensures IsSwapTrace(c, ws, pos, v)
    decreases steps
  {
    hide ArmsOk, SwapAt, SwapWalk, AfterExchange, Lively;
    if steps == 0 {
      SwapWalkDone(c, ws, pos, a);
      v := [a];
    } else {
      var next := SwapStepTaken(c, ws, pos, a, steps - 1);
      var u := SwapWalkSteps(c, ws, AfterExchange(c, ws, pos), next, steps - 1);
      v := [a] + u;
      SwapTracePrepend(c, ws, pos, a, u);
    }
  }

  lemma SwapTracePrepend(c: Config, ws: Stream, pos: nat, a: Arms, u: seq<Arms>)
    requires Valid(c) && ArmsOk(c.n, c.nT, a) && Lively(ws)
    requires IsSwapTrace(c, ws, AfterExchange(c, ws, pos), u) && SwapAt(c, ws, pos, a, u[0])
    ensures IsSwapTrace(c, ws, pos, [a] + u)
  {
    hide ArmsOk, SwapAt, AfterExchange, Lively;
    var v := [a] + u;
    forall it | 0 <= it < |v| - 1
      ensures SwapAt(c, ws, SwapPos(c, ws, pos, it), v[it], v[it + 1])
    {
      if it > 0 {
        assert SwapAt(c, ws, SwapPos(c, ws, AfterExchange(c, ws, pos), it - 1), u[it - 1], u[it]);
      }
    }
  }

  /** The steps leave no choice. */
  lemma BetterArmsUnique(c: Config, a: Arms, ti: nat, ci: nat, next: Arms, other: Arms)
    requires Valid(c) && ArmsOk(c.n, c.nT, a) && ti < c.nT && ci < c.n - c.nT
    requires BetterArms(c, a, ti, ci, next) && BetterArms(c, a, ti, ci, other)
    ensures next == other
  {
    hide ArmsOk, ArmsObjective;
  }

  lemma {:induction false} SwapTraceUnique(c: Config, ws: Stream, pos: nat, u: seq<Arms>, v: seq<Arms>, it: nat)
    requires Valid(c) && Lively(ws) && IsSwapTrace(c, ws, pos, u) && IsSwapTrace(c, ws, pos, v)
    requires |u| == |v| && u[0] == v[0] && it < |u|
    ensures u[it] == v[it]
  {
    hide ArmsOk, BetterArms, AfterExchange, SwapPos, Lively;
    if it > 0 {
      SwapTraceUnique(c, ws, pos, u, v, it - 1);
      var p := SwapPos(c, ws, pos, it - 1);
      assert SwapAt(c, ws, p, u[it - 1], u[it]) && SwapAt(c, ws, p, v[it - 1], v[it]);
      DrawBelow(ws, p, c.nT);
      DrawBelow(ws, DrawNext(ws, p, c.nT), c.n - c.nT);
      BetterArmsUnique(c, u[it - 1], DrawValue(ws, p, c.nT),
                       DrawValue(ws, DrawNext(ws, p, c.nT), c.n - c.nT), u[it], v[it]);
    }
  }

  /** So a sequence of allocations is the run of the walk exactly when every step keeps the better one. */
  lemma SwapTraceEndsWalk(c: Config, ws: Stream, pos: nat, v: seq<Arms>)
    requires Valid(c) && Lively(ws) && IsSwapTrace(c, ws, pos, v)
    ensures v[|v| - 1] == SwapWalk(c, ws, pos, v[0], |v| - 1)
  {
    hide ArmsOk, SwapAt, SwapWalk, Lively;
    var u := SwapWalkSteps(c, ws, pos, v[0], |v| - 1);
    SwapTraceUnique(c, ws, pos, u, v, |v| - 1);
  }

  lemma {:induction false} SwapTraceDescends(c: Config, ws: Stream, pos: nat, v: seq<Arms>, i: nat, j: nat)
    requires Valid(c) && Lively(ws) && IsSwapTrace(c, ws, pos, v) && i <= j < |v|
    ensures ArmsObjective(c, v[j]) <= ArmsObjective(c, v[i])
    decreases j
  {
    hide ArmsOk, ArmsObjective, SwapPos, Lively, DrawValue, DrawNext;
    if i < j {
      SwapTraceDescends(c, ws, pos, v, i, j - 1);
      assert SwapAt(c, ws, SwapPos(c, ws, pos, j - 1), v[j - 1], v[j - 1 + 1]);
    }
  }

  /** The arms that the iteration at this position of the stream would exchange to. */
  ghost function Drawn(c: Config, ws: Stream, pos: nat, a: Arms): (next: Arms)
    requires Valid(c) && Lively(ws) && ArmsOk(c.n, c.nT, a)
    ensures ArmsOk(c.n, c.nT, next)
  {
    var pos1 := DrawNext(ws, pos, c.nT);
    DrawBelow(ws, pos, c.nT);
    DrawBelow(ws, pos1, c.n - c.nT);
    ExchangedOk(c.n, c.nT, a, DrawValue(ws, pos, c.nT), DrawValue(ws, pos1, c.n - c.nT));
    Exchanged(a, DrawValue(ws, pos, c.nT), DrawValue(ws, pos1, c.n - c.nT))
  }

  lemma SwapAtBeats(c: Config, ws: Stream, pos: nat, a: Arms, next: Arms)
    requires Valid(c) && Lively(ws) && ArmsOk(c.n, c.nT, a) && SwapAt(c, ws, pos, a, next)
    ensures ArmsOk(c.n, c.nT, next) && ArmsObjective(c, next) <= ArmsObjective(c, Drawn(c, ws, pos, a))
  {
    hide ArmsObjective, Lively, DrawValue, DrawNext, Lists;
  }

  /** No exchange that was drawn at any iteration beats the allocation that the walk ends with. */
  lemma NoDrawnExchangeBeats(c: Config, ws: Stream, pos: nat, v: seq<Arms>, it: nat)
    requires Valid(c) && Lively(ws) && IsSwapTrace(c, ws, pos, v) && it + 1 < |v|
    ensures ArmsObjective(c, v[|v| - 1]) <= ArmsObjective(c, Drawn(c, ws, SwapPos(c, ws, pos, it), v[it]))
  {
    hide ArmsOk, ArmsObjective, SwapPos, Lively, SwapAt, Drawn;
    assert SwapAt(c, ws, SwapPos(c, ws, pos, it), v[it], v[it + 1]);
    SwapAtBeats(c, ws, SwapPos(c, ws, pos, it), v[it], v[it + 1]);
    SwapTraceDescends(c, ws, pos, v, it + 1, |v| - 1);
  }

  // Random flips.

  ghost function FlipPos(c: Config, ws: Stream, pos: nat, it: nat): nat
    requires Valid(c) && c.m != [] && c.pairMode && Lively(ws)
    decreases it
  {
    if it == 0 then pos else FlipPos(c, ws, DrawNext(ws, pos, |c.pairs|), it - 1)
  }

  /** One iteration: a pair is drawn, and the better orientation is kept. */
  ghost predicate FlipAt(c: Config, ws: Stream, pos: nat, side: seq<nat>, next: seq<nat>)
    requires Valid(c) && c.m != [] && c.pairMode && Lively(ws) && c.pairs != [] && SidesOk(c.pairs, side)
  {
    DrawBelow(ws, pos, |c.pairs|);
    BetterSides(c, side, DrawValue(ws, pos, |c.pairs|), next)
  }

  ghost predicate IsFlipTrace(c: Config, ws: Stream, pos: nat, v: seq<seq<nat>>)
    requires Valid(c) && c.m != [] && c.pairMode && Lively(ws) && c.pairs != []
  {
    && v != [] && (forall it :: 0 <= it < |v| ==> SidesOk(c.pairs, v[it]))
    && forall it :: 0 <= it < |v| - 1 ==> FlipAt(c, ws, FlipPos(c, ws, pos, it), v[it], v[it + 1])
  }

  lemma FlipStepTaken(c: Config, ws: Stream, pos: nat, side: seq<nat>, steps: nat) returns (next: seq<nat>)
    requires Valid(c) && c.m != [] && c.pairMode && Lively(ws) && c.pairs != [] && SidesOk(c.pairs, side)
    ensures SidesOk(c.pairs, next) && FlipAt(c, ws, pos, side, next)
    ensures PairWalk(c, ws, pos, side, steps + 1) == PairWalk(c, ws, DrawNext(ws, pos, |c.pairs|), next, steps)
  {
    hide TryFlip, PairWalk, DrawValue, DrawNext, SideObjective, PairsOk;
    PairWalkStep(c, ws, pos, side, steps);
    next := TryFlip(c, side, DrawValue(ws, pos, |c.pairs|));
  }

  lemma {:induction false} PairWalkSteps(c: Config, ws: Stream, pos: nat, side: seq<nat>, steps: nat)
    returns (v: seq<seq<nat>>)
    requires Valid(c) && c.m != [] && c.pairMode && Lively(ws) && c.pairs != [] && SidesOk(c.pairs, side)
    ensures |v| == steps + 1 && v[0] == side && v[steps] == PairWalk(c, ws, pos, side, steps)
    ensures IsFlipTrace(c, ws, pos, v)
    decreases steps
  {
    hide FlipAt, DrawNext, Lively, PairsOk, SidesOk;
    if steps == 0 {
      v := [side];
    } else {
      var next := FlipStepTaken(c, ws, pos, side, steps - 1);
      var u := PairWalkSteps(c, ws, DrawNext(ws, pos, |c.pairs|), next, steps - 1);
      v := [side] + u;
      FlipTracePrepend(c, ws, pos, side, u);
    }
  }

  lemma FlipTracePrepend(c: Config, ws: Stream, pos: nat, side: seq<nat>, u: seq<seq<nat>>)
    requires Valid(c) && c.m != [] && c.pairMode && Lively(ws) && c.pairs != [] && SidesOk(c.pairs, side)
    requires IsFlipTrace(c, ws, DrawNext(ws, pos, |c.pairs|), u) && FlipAt(c, ws, pos, side, u[0])
    ensures IsFlipTrace(c, ws, pos, [side] + u)
  {
    hide SidesOk, FlipAt, PairsOk, DrawNext;
    var v := [side] + u;
    forall it | 0 <= it < |v| - 1
      ensures FlipAt(c, ws, FlipPos(c, ws, pos, it), v[it], v[it + 1])
    {
      if it > 0 {
        assert FlipAt(c, ws, FlipPos(c, ws, DrawNext(ws, pos, |c.pairs|), it - 1), u[it - 1], u[it]);
      }
    }
  }

  lemma {:induction false} FlipTraceUnique(c: Config, ws: Stream, pos: nat, u: seq<seq<nat>>, v: seq<seq<nat>>,
                                           it: nat)
    requires Valid(c) && c.m != [] && c.pairMode && Lively(ws) && c.pairs != []
    requires IsFlipTrace(c, ws, pos, u) && IsFlipTrace(c, ws, pos, v)
    requires |u| == |v| && u[0] == v[0] && it < |u|
    ensures u[it] == v[it]
  {
    hide SideObjective, FlipPos, Lively, PairsOk;
    if it > 0 {
      FlipTraceUnique(c, ws, pos, u, v, it - 1);
      var p := FlipPos(c, ws, pos, it - 1);
      assert FlipAt(c, ws, p, u[it - 1], u[it]) && FlipAt(c, ws, p, v[it - 1], v[it]);
    }
  }

  lemma FlipTraceEndsWalk(c: Config, ws: Stream, pos: nat, v: seq<seq<nat>>)
    requires Valid(c) && c.m != [] && c.pairMode && Lively(ws) && c.pairs != [] && IsFlipTrace(c, ws, pos, v)
    ensures v[|v| - 1] == PairWalk(c, ws, pos, v[0], |v| - 1)
  {
    hide FlipAt, PairWalk, Lively, SidesOk, PairsOk;
    var u := PairWalkSteps(c, ws, pos, v[0], |v| - 1);
    FlipTraceUnique(c, ws, pos, u, v, |v| - 1);
  }

  // Best improvement.

  /** The flip of the first pair among those whose gain is largest, and that gain is positive. */
  ghost predicate SteepestFlip(c: Config, side: seq<nat>, k: nat)
    requires Valid(c) && c.m != [] && c.pairMode && SidesOk(c.pairs, side)
  {
    && k < |c.pairs| && SideObjective(c, Flip(side, k)) < SideObjective(c, side)
    && (forall l :: 0 <= l < |c.pairs| ==> SideObjective(c, Flip(side, k)) <= SideObjective(c, Flip(side, l)))
    && forall l :: 0 <= l < k ==> SideObjective(c, Flip(side, k)) < SideObjective(c, Flip(side, l))
  }

  /** `v` descends from its first to its last orientation, flipping the pairs `ks`. */
  ghost predicate IsDescent(c: Config, v: seq<seq<nat>>, ks: seq<nat>)
    requires Valid(c) && c.m != [] && c.pairMode
  {
    && |v| == |ks| + 1 && (forall i :: 0 <= i < |v| ==> SidesOk(c.pairs, v[i]))
    && (forall i :: 0 <= i < |ks| ==> SteepestFlip(c, v[i], ks[i]) && v[i + 1] == Flip(v[i], ks[i]))
    && IsLocalOptimum(c, v[|ks|])
  }

  lemma ScanFindsSteepest(c: Config, side: seq<nat>, b: int)
    requires Valid(c) && c.m != [] && c.pairMode && SidesOk(c.pairs, side)
    requires b == BestFlip(c, side, |c.pairs|).0 && b >= 0
    ensures SteepestFlip(c, side, b)
  {
    hide SideObjective, BestFlip, PairsOk;
    BestFlipIsBest(c, side, |c.pairs|);
    forall l | 0 <= l < |c.pairs|
      ensures SideObjective(c, Flip(side, b)) <= SideObjective(c, Flip(side, l))
      ensures l < b ==> SideObjective(c, Flip(side, b)) < SideObjective(c, Flip(side, l))
    {
      assert Gain(c, side, l) <= Gain(c, side, b);
    }
  }

  /** The exhaustive search flips the steepest pair in every round and stops at a local optimum. */
  lemma {:induction false} DescentSteps(c: Config, side: seq<nat>) returns (v: seq<seq<nat>>, ks: seq<nat>)
    requires Valid(c) && c.m != [] && c.pairMode && SidesOk(c.pairs, side)
    ensures IsDescent(c, v, ks) && v[0] == side && v[|ks|] == Descent(c, side)
    decreases |Below(c, side)|
  {
    hide SideObjective, BestFlip, PairsOk, Below, SteepestFlip, IsLocalOptimum;
    var b := BestFlip(c, side, |c.pairs|).0;
    ScanDecides(c, side, b);
    if b < 0 {
      v, ks := [side], [];
    } else {
      ScanFindsSteepest(c, side, b);
      var u, ls := DescentSteps(c, Flip(side, b));
      v, ks := [side] + u, [b as nat] + ls;
    }
  }

  // What a draw of the search ends with.

  /** In the exhaustive mode no exchange within a pair improves the final allocation. */
  lemma DesignIsLocalOptimum(c: Config, ws: Stream, pos: nat, k: nat)
    requires Valid(c) && Lively(ws) && c.m != [] && c.pairMode && c.nIter < 0 && k < |c.pairs|
    ensures var w, q := Design(c, ws, pos), c.pairs[k];
      && |w| == c.n
      && (w[q.0] == 1 ==> CanExchange(w, q.0, q.1)
                          && Objective(c.absMode, c.m, w) <= Objective(c.absMode, c.m, Exchange(w, q.0, q.1)))
      && (w[q.0] != 1 ==> CanExchange(w, q.1, q.0)
                          && Objective(c.absMode, c.m, w) <= Objective(c.absMode, c.m, Exchange(w, q.1, q.0)))
  {
    hide Objective;
    var r := Descent(c, CoinSides(ws, pos, |c.pairs|));
    FlipIsExchange(c, r, k);
    assert SideObjective(c, r) <= SideObjective(c, Flip(r, k));
  }

  /** With covariates and without pairs, the better allocation is kept nIter times, from a random start. */
  lemma DesignSteps(c: Config, ws: Stream, pos: nat) returns (v: seq<Arms>)
    requires Valid(c) && Lively(ws) && c.m != [] && !c.pairMode
    ensures |v| == c.nIter + 1 && IsSwapTrace(c, ws, DrawnEnd(ws, pos, c.n), v)
    ensures v[0] == BalancedStart(c, ws, pos) && v[c.nIter].w == Design(c, ws, pos)
    ensures Objective(c.absMode, c.m, v[c.nIter].w) <= Objective(c.absMode, c.m, v[0].w)
  {
    hide ArmsOk, Objective, BalancedStart, IsSwapTrace, Lively;
    v := SwapWalkSteps(c, ws, DrawnEnd(ws, pos, c.n), BalancedStart(c, ws, pos), c.nIter);
  }

  /** The random start lists the treated and the control units in ascending order. */
  lemma StartListsAscend(c: Config, ws: Stream, pos: nat)
    requires Valid(c) && Lively(ws)
    ensures Increasing(BalancedStart(c, ws, pos).treated) && Increasing(BalancedStart(c, ws, pos).control)
  {
    hide Lively, Lists;
    var w := BalancedStart(c, ws, pos).w;
    WhereAscends(w, 1, c.n);
    WhereAscends(w, 0, c.n);
  }

  lemma {:induction false} WhereAscends(w: seq<int>, v: int, k: nat)
    requires k <= |w|
    ensures Increasing(Where(w, v, k)) && forall i :: 0 <= i < |Where(w, v, k)| ==> Where(w, v, k)[i] < k
  {
    if k > 0 {
      WhereAscends(w, v, k - 1);
    }
  }

  // Coins.

  /** Of a bound of 2 no word is rejected, and the coin is the top bit of the word. */
  lemma CoinIsTopBit(ws: Stream, pos: nat)
    requires Lively(ws)
    ensures DrawValue(ws, pos, 2) == (if ws(pos) < 0x8000_0000 then 0 else 1) && DrawNext(ws, pos, 2) == pos + 1
  {
    var x := ws(pos);
    assert x < W;
    QuotientIs(Product(x, 2), W, if x < 0x8000_0000 then 0 else 1, if x < 0x8000_0000 then 2 * x else 2 * x - W);
    assert Accepted(x, 2);
    FirstAcceptedIs(ws, pos, 2, pos);
  }

  lemma {:induction false} CoinsTakeOneWord(ws: Stream, pos: nat, k: nat)
    requires Lively(ws)
    ensures CoinEnd(ws, pos, k) == pos + k
  {
    hide DrawNext, Lively;
    if k > 0 {
      CoinsTakeOneWord(ws, pos, k - 1);
      CoinIsTopBit(ws, pos + k - 1);
    }
  }

  /** The k-th coin is the top bit of the k-th word. */
  lemma CoinsAre(ws: Stream, pos: nat, k: nat, m: nat)
    requires Lively(ws) && k < m
    ensures CoinEnd(ws, pos, m) == pos + m
    ensures CoinSides(ws, pos, m)[k] == if ws(pos + k) < 0x8000_0000 then 0 else 1
  {
    hide DrawNext, DrawValue, Lively, CoinSides, CoinEnd;
    CoinsTakeOneWord(ws, pos, m);
    CoinsTakeOneWord(ws, pos, k);
    CoinStep(ws, pos, k, m);
    CoinIsTopBit(ws, pos + k);
  }
}

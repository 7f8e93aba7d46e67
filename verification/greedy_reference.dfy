/**
 * The greedy search as it reads without caches: every decision recomputes the objective of both
 * allocations from scratch. The imperative search is proved to compute exactly this.
 */
module GreedyReference {
  import opened Vectors
  import opened GreedyObjective
  import opened BlockRecurrence
  import opened BoundedRand
  import opened Shuffle
  import opened TreatmentArms
  import MersenneTwister
  import Words

  type Pair = (nat, nat)

  /** No covariates means `m == []`; then pairs are ignored. `nIter < 0` is the exhaustive mode. */
  datatype Config = Config(m: Mat, n: nat, nT: nat, absMode: bool,
                           pairMode: bool, pairs: seq<Pair>, nIter: int)

  /**
   * What the search relies on. The exhaustive mode without pairs runs an engine of its own that is
   * not part of this model, and a random pair can only be drawn when there is one.
   */
  ghost predicate Valid(c: Config) {
    && 1 <= c.nT < c.n < W
    && (forall r :: 0 <= r < |c.m| ==> |c.m[r]| == c.n)
    && (c.m != [] ==>
        if c.pairMode then
          PairsOk(c.pairs, c.n) && |c.pairs| < W && (c.nIter > 0 ==> c.pairs != [])
        else c.nIter >= 0)
  }

  // Pairs and their orientations.

  function Pick(q: Pair, side: nat): nat { if side == 0 then q.0 else q.1 }

  /** All members are units of the design, and no unit occurs twice. */
  ghost predicate PairsOk(pairs: seq<Pair>, n: nat) {
    && (forall k :: 0 <= k < |pairs| ==> pairs[k].0 < n && pairs[k].1 < n && pairs[k].0 != pairs[k].1)
    && forall k, l, s, t :: 0 <= k < l < |pairs| ==> Pick(pairs[k], s) != Pick(pairs[l], t)
  }

  ghost predicate SidesOk(pairs: seq<Pair>, side: seq<nat>) {
    |side| == |pairs| && forall k :: 0 <= k < |side| ==> side[k] <= 1
  }

  /** The allocation after the first `k` pairs have been written over zeros. */
  function PairFill(pairs: seq<Pair>, side: seq<nat>, n: nat, k: nat): (w: seq<int>)
    requires PairsOk(pairs, n) && SidesOk(pairs, side) && k <= |pairs|
    ensures |w| == n
  {
    if k == 0 then seq(n, _ => 0)
    else PairFill(pairs, side, n, k - 1)[Pick(pairs[k - 1], side[k - 1]) := 1]
                                        [Pick(pairs[k - 1], 1 - side[k - 1]) := 0]
  }

  function Oriented(c: Config, side: seq<nat>): seq<int>
    requires PairsOk(c.pairs, c.n) && SidesOk(c.pairs, side)
  {
    PairFill(c.pairs, side, c.n, |c.pairs|)
  }

  function Flip(side: seq<nat>, k: nat): seq<nat>
    requires k < |side| && side[k] <= 1
  {
    side[k := 1 - side[k]]
  }

  /** A unit is treated exactly when it is the chosen member of one of the first `k` pairs. */
  lemma {:induction false} PairFillAt(pairs: seq<Pair>, side: seq<nat>, n: nat, k: nat, x: nat)
    requires PairsOk(pairs, n) && SidesOk(pairs, side) && k <= |pairs| && x < n
    ensures PairFill(pairs, side, n, k)[x]
         == if exists l :: 0 <= l < k && Pick(pairs[l], side[l]) == x then 1 else 0
  {
    if k > 0 {
      PairFillAt(pairs, side, n, k - 1, x);
    }
  }

  /** Side 0 treats the first member of its pair, side 1 the second one. */
  lemma PairFillTreats(pairs: seq<Pair>, side: seq<nat>, n: nat, k: nat)
    requires PairsOk(pairs, n) && SidesOk(pairs, side) && k < |pairs|
    ensures pairs[k].0 < n && pairs[k].1 < n
    ensures PairFill(pairs, side, n, |pairs|)[pairs[k].0] == if side[k] == 0 then 1 else 0
    ensures PairFill(pairs, side, n, |pairs|)[pairs[k].1] == if side[k] == 1 then 1 else 0
  {
    PairFillAt(pairs, side, n, |pairs|, pairs[k].0);
    PairFillAt(pairs, side, n, |pairs|, pairs[k].1);
    assert Pick(pairs[k], 0) == pairs[k].0 && Pick(pairs[k], 1) == pairs[k].1;
  }

  /** Exactly one member of every pair is treated, so `k` pairs make `k` treated units. */
  lemma {:induction false} PairFillCounts(pairs: seq<Pair>, side: seq<nat>, n: nat, k: nat)
    requires PairsOk(pairs, n) && SidesOk(pairs, side) && k <= |pairs|
    ensures Ones(PairFill(pairs, side, n, k)) == k && IsAllocation(PairFill(pairs, side, n, k))
  {
    hide PairFill, PairsOk, IsAllocation, SidesOk, Pick;
    if k == 0 {
      NothingFilled(pairs, side, n);
    } else {
      PairFillCounts(pairs, side, n, k - 1);
      PairFillTreatsOne(pairs, side, n, k - 1);
    }
  }

  lemma NothingFilled(pairs: seq<Pair>, side: seq<nat>, n: nat)
    requires PairsOk(pairs, n) && SidesOk(pairs, side)
    ensures Ones(PairFill(pairs, side, n, 0)) == 0 && IsAllocation(PairFill(pairs, side, n, 0))
  {
    OnesOfZeros(n);
  }

  lemma PairFillTreatsOne(pairs: seq<Pair>, side: seq<nat>, n: nat, k: nat)
    requires PairsOk(pairs, n) && SidesOk(pairs, side) && k < |pairs| && IsAllocation(PairFill(pairs, side, n, k))
    ensures Ones(PairFill(pairs, side, n, k + 1)) == Ones(PairFill(pairs, side, n, k)) + 1
    ensures IsAllocation(PairFill(pairs, side, n, k + 1))
  {
    hide PairFill, PairsOk, IsAllocation, Pick;
    PairFillStep(pairs, side, n, k);
    PairFillFresh(pairs, side, n, k);
    OneMoreTreated(PairFill(pairs, side, n, k), Pick(pairs[k], side[k]), Pick(pairs[k], 1 - side[k]));
  }

  lemma OneMoreTreated(w: seq<int>, i: nat, j: nat)
    requires IsAllocation(w) && i < |w| && j < |w| && i != j && w[i] == 0 && w[j] == 0
    ensures Ones(w[i := 1][j := 0]) == Ones(w) + 1 && IsAllocation(w[i := 1][j := 0])
  {
    OnesUpdate(w, i, 1);
    OnesUpdate(w[i := 1], j, 0);
    AllocationUpdate(w, i, 1);
    AllocationUpdate(w[i := 1], j, 0);
  }

  lemma PairFillStep(pairs: seq<Pair>, side: seq<nat>, n: nat, k: nat)
    requires PairsOk(pairs, n) && SidesOk(pairs, side) && k < |pairs|
    ensures PairFill(pairs, side, n, k + 1)
         == PairFill(pairs, side, n, k)[Pick(pairs[k], side[k]) := 1][Pick(pairs[k], 1 - side[k]) := 0]
  {}

  lemma PairFillFresh(pairs: seq<Pair>, side: seq<nat>, n: nat, k: nat)
    requires PairsOk(pairs, n) && SidesOk(pairs, side) && k < |pairs|
    ensures forall s :: Pick(pairs[k], s) < n && PairFill(pairs, side, n, k)[Pick(pairs[k], s)] == 0
    ensures Pick(pairs[k], side[k]) != Pick(pairs[k], 1 - side[k])
  {
    forall s: nat
      ensures PairFill(pairs, side, n, k)[Pick(pairs[k], s)] == 0
    {
      PairFillAt(pairs, side, n, k, Pick(pairs[k], s));
    }
  }

  /** Flipping one pair is the exchange of its two members. */
  lemma FlipIsExchange(c: Config, side: seq<nat>, k: nat)
    requires PairsOk(c.pairs, c.n) && SidesOk(c.pairs, side) && k < |c.pairs|
    ensures var i, j := Pick(c.pairs[k], side[k]), Pick(c.pairs[k], 1 - side[k]);
      && CanExchange(Oriented(c, side), i, j)
      && Oriented(c, Flip(side, k)) == Exchange(Oriented(c, side), i, j)
  {
    var i, j := Pick(c.pairs[k], side[k]), Pick(c.pairs[k], 1 - side[k]);
    var side' := Flip(side, k);
    forall x | 0 <= x < c.n
      ensures Oriented(c, side')[x] == if x == i then 0 else if x == j then 1 else Oriented(c, side)[x]
      ensures x == i ==> Oriented(c, side)[x] == 1
      ensures x == j ==> Oriented(c, side)[x] == 0
    {
      PairFillAt(c.pairs, side, c.n, |c.pairs|, x);
      PairFillAt(c.pairs, side', c.n, |c.pairs|, x);
      FlipPointwise(c, side, k, x);
    }
  }

  lemma FlipPointwise(c: Config, side: seq<nat>, k: nat, x: nat)
    requires PairsOk(c.pairs, c.n) && SidesOk(c.pairs, side) && k < |c.pairs|
    ensures (exists l :: 0 <= l < |c.pairs| && Pick(c.pairs[l], Flip(side, k)[l]) == x)
       <==> x == Pick(c.pairs[k], 1 - side[k])
            || (x != Pick(c.pairs[k], side[k])
                && exists l :: 0 <= l < |c.pairs| && Pick(c.pairs[l], side[l]) == x)
    ensures x == Pick(c.pairs[k], side[k]) ==> exists l :: 0 <= l < |c.pairs| && Pick(c.pairs[l], side[l]) == x
    ensures x == Pick(c.pairs[k], 1 - side[k]) ==> !exists l :: 0 <= l < |c.pairs| && Pick(c.pairs[l], side[l]) == x
  {
    var side' := Flip(side, k);
    assert Pick(c.pairs[k], side'[k]) == Pick(c.pairs[k], 1 - side[k]);
    if l :| 0 <= l < |c.pairs| && Pick(c.pairs[l], side[l]) == x && l != k {
      assert Pick(c.pairs[l], side'[l]) == x;
    }
  }

  ghost function SideObjective(c: Config, side: seq<nat>): real
    requires Valid(c) && c.m != [] && c.pairMode && SidesOk(c.pairs, side)
  {
    Objective(c.absMode, c.m, Oriented(c, side))
  }

  // Exhaustive best-improvement over pairs.

  ghost function Gain(c: Config, side: seq<nat>, k: nat): real
    requires Valid(c) && c.m != [] && c.pairMode && SidesOk(c.pairs, side) && k < |c.pairs|
  {
    SideObjective(c, side) - SideObjective(c, Flip(side, k))
  }

  /** The scan over the first `k` pairs: the index that is best so far (or -1) and its gain. */
  ghost function BestFlip(c: Config, side: seq<nat>, k: nat): (int, real)
    requires Valid(c) && c.m != [] && c.pairMode && SidesOk(c.pairs, side) && k <= |c.pairs|
  {
    if k == 0 then (-1, 0.0)
    else
      var best := BestFlip(c, side, k - 1);
      if Gain(c, side, k - 1) > best.1 then (k - 1, Gain(c, side, k - 1)) else best
  }

  /** The scan finds the first of the largest positive gains, or reports that there is none. */
  lemma {:induction false} BestFlipIsBest(c: Config, side: seq<nat>, k: nat)
    requires Valid(c) && c.m != [] && c.pairMode && SidesOk(c.pairs, side) && k <= |c.pairs|
    ensures var (b, g) := BestFlip(c, side, k);
      && -1 <= b < k
      && (forall l :: 0 <= l < k ==> Gain(c, side, l) <= g)
      && (if b == -1 then g == 0.0 else
            g > 0.0 && Gain(c, side, b) == g && forall l :: 0 <= l < b ==> Gain(c, side, l) < g)
  {
    if k > 0 {
      BestFlipIsBest(c, side, k - 1);
    }
  }

  ghost function Orientations(k: nat): set<seq<nat>> {
    if k == 0 then {[]} else Prepend({0, 1}, Orientations(k - 1))
  }

  lemma {:induction false} OrientationsAre(side: seq<nat>)
    requires forall k :: 0 <= k < |side| ==> side[k] <= 1
    ensures side in Orientations(|side|)
  {
    if side != [] {
      OrientationsAre(side[1..]);
    }
  }

  /** The orientations with strictly smaller objective; their number bounds the rounds to come. */
  ghost function Below(c: Config, side: seq<nat>): set<seq<nat>>
    requires Valid(c) && c.m != [] && c.pairMode && SidesOk(c.pairs, side)
  {
    set o | o in Orientations(|c.pairs|) && SidesOk(c.pairs, o) && SideObjective(c, o) < SideObjective(c, side)
  }

  lemma SubsetSize<T>(a: set<T>, b: set<T>)
    requires a < b
    ensures |a| < |b|
  {
    var x :| x in b && x !in a;
    SubsetSizeWeak(a, b - {x});
  }

  lemma {:induction false} SubsetSizeWeak<T>(a: set<T>, b: set<T>)
    requires a <= b
    ensures |a| <= |b|
    decreases a
  {
    if a != {} {
      var x :| x in a;
      SubsetSizeWeak(a - {x}, b - {x});
    }
  }

  lemma ImprovementShrinks(c: Config, side: seq<nat>, next: seq<nat>)
    requires Valid(c) && c.m != [] && c.pairMode && SidesOk(c.pairs, side) && SidesOk(c.pairs, next)
    requires SideObjective(c, next) < SideObjective(c, side)
    ensures |Below(c, next)| < |Below(c, side)|
  {
    OrientationsAre(next);
    assert next in Below(c, side) && next !in Below(c, next);
    SubsetSize(Below(c, next), Below(c, side));
  }

  ghost predicate IsLocalOptimum(c: Config, side: seq<nat>)
    requires Valid(c) && c.m != [] && c.pairMode && SidesOk(c.pairs, side)
  {
    forall k :: 0 <= k < |c.pairs| ==> SideObjective(c, side) <= SideObjective(c, Flip(side, k))
  }

  lemma NoGainIsLocalOptimum(c: Config, side: seq<nat>)
    requires Valid(c) && c.m != [] && c.pairMode && SidesOk(c.pairs, side)
    requires forall k :: 0 <= k < |c.pairs| ==> Gain(c, side, k) <= 0.0
    ensures IsLocalOptimum(c, side)
  {
    forall k | 0 <= k < |c.pairs|
      ensures SideObjective(c, side) <= SideObjective(c, Flip(side, k))
    {
      assert Gain(c, side, k) <= 0.0;
    }
  }

  /** What one scan of all pairs establishes: a local optimum, or a strict improvement. */
  lemma ScanDecides(c: Config, side: seq<nat>, b: int)
    requires Valid(c) && c.m != [] && c.pairMode && SidesOk(c.pairs, side)
    requires b == BestFlip(c, side, |c.pairs|).0
    ensures b < |c.pairs|
    ensures b < 0 ==> IsLocalOptimum(c, side)
    ensures b >= 0 ==>
              |Below(c, Flip(side, b))| < |Below(c, side)|
              && SideObjective(c, Flip(side, b)) < SideObjective(c, side)
  {
    hide SideObjective, Below, BestFlip;
    BestFlipIsBest(c, side, |c.pairs|);
    if b < 0 {
      NoGainIsLocalOptimum(c, side);
    } else {
      assert Gain(c, side, b) > 0.0;
      ImprovementShrinks(c, side, Flip(side, b));
    }
  }

  /** Repeated best improvement. It ends, in an orientation that no single flip improves. */
  ghost function Descent(c: Config, side: seq<nat>): (r: seq<nat>)
    requires Valid(c) && c.m != [] && c.pairMode && SidesOk(c.pairs, side)
    ensures SidesOk(c.pairs, r)
    ensures SideObjective(c, r) <= SideObjective(c, side) && IsLocalOptimum(c, r)
    decreases |Below(c, side)|
  {
    var b := BestFlip(c, side, |c.pairs|).0;
    ScanDecides(c, side, b);
    if b < 0 then side else Descent(c, Flip(side, b))
  }

  // Random pair flips.

  /** The better of two orientations that differ at one pair, and the current one when they tie. */
  ghost predicate BetterSides(c: Config, side: seq<nat>, k: nat, next: seq<nat>)
    requires Valid(c) && c.m != [] && c.pairMode && SidesOk(c.pairs, side) && k < |c.pairs|
  {
    && SidesOk(c.pairs, next) && (next == side || next == Flip(side, k))
    && SideObjective(c, next) <= SideObjective(c, side)
    && SideObjective(c, next) <= SideObjective(c, Flip(side, k))
    && (next != side ==> SideObjective(c, next) < SideObjective(c, side))
  }

  ghost function TryFlip(c: Config, side: seq<nat>, k: nat): (next: seq<nat>)
    requires Valid(c) && c.m != [] && c.pairMode && SidesOk(c.pairs, side) && k < |c.pairs|
    ensures BetterSides(c, side, k, next)
  {
    if SideObjective(c, Flip(side, k)) < SideObjective(c, side) then Flip(side, k) else side
  }

  ghost function PairWalk(c: Config, ws: Stream, pos: nat, side: seq<nat>, steps: nat): (r: seq<nat>)
    requires Valid(c) && c.m != [] && c.pairMode && SidesOk(c.pairs, side)
    requires Lively(ws) && (steps > 0 ==> c.pairs != [])
    ensures SidesOk(c.pairs, r)
    ensures SideObjective(c, r) <= SideObjective(c, side)
    decreases steps
  {
    if steps == 0 then side
    else
      var s := |c.pairs|;
      DrawBelow(ws, pos, s);
      PairWalk(c, ws, DrawNext(ws, pos, s), TryFlip(c, side, DrawValue(ws, pos, s)), steps - 1)
  }

  lemma PairWalkStep(c: Config, ws: Stream, pos: nat, side: seq<nat>, steps: nat)
    requires Valid(c) && c.m != [] && c.pairMode && SidesOk(c.pairs, side) && Lively(ws) && c.pairs != []
    ensures DrawValue(ws, pos, |c.pairs|) < |c.pairs|
    ensures PairWalk(c, ws, pos, side, steps + 1)
         == PairWalk(c, ws, DrawNext(ws, pos, |c.pairs|), TryFlip(c, side, DrawValue(ws, pos, |c.pairs|)), steps)
  {
    DrawBelow(ws, pos, |c.pairs|);
  }

  // Random exchanges between the arms.

  ghost function ArmsObjective(c: Config, a: Arms): real
    requires Valid(c) && ArmsOk(c.n, c.nT, a)
  {
    Objective(c.absMode, c.m, a.w)
  }

  /** The better of the current arms and those after one exchange, and the current ones when they tie. */
  ghost predicate BetterArms(c: Config, a: Arms, ti: nat, ci: nat, next: Arms)
    requires Valid(c) && ArmsOk(c.n, c.nT, a) && ti < c.nT && ci < c.n - c.nT
  {
    ExchangedOk(c.n, c.nT, a, ti, ci);
    && ArmsOk(c.n, c.nT, next) && (next == a || next == Exchanged(a, ti, ci))
    && ArmsObjective(c, next) <= ArmsObjective(c, a)
    && ArmsObjective(c, next) <= ArmsObjective(c, Exchanged(a, ti, ci))
    && (next != a ==> ArmsObjective(c, next) < ArmsObjective(c, a))
  }

  ghost function TryExchange(c: Config, a: Arms, ti: nat, ci: nat): (next: Arms)
    requires Valid(c) && ArmsOk(c.n, c.nT, a) && ti < c.nT && ci < c.n - c.nT
    ensures BetterArms(c, a, ti, ci, next)
  {
    ExchangedOk(c.n, c.nT, a, ti, ci);
    var next := Exchanged(a, ti, ci);
    if Objective(c.absMode, c.m, next.w) < Objective(c.absMode, c.m, a.w) then next else a
  }

  ghost function SwapWalk(c: Config, ws: Stream, pos: nat, a: Arms, steps: nat): (r: Arms)
    requires Valid(c) && ArmsOk(c.n, c.nT, a) && Lively(ws)
    ensures ArmsOk(c.n, c.nT, r)
    ensures Objective(c.absMode, c.m, r.w) <= Objective(c.absMode, c.m, a.w)
    decreases steps
  {
    if steps == 0 then a
    else
      var s, pos1 := c.n - c.nT, DrawNext(ws, pos, c.nT);
      DrawBelow(ws, pos, c.nT);
      DrawBelow(ws, pos1, s);
      SwapWalk(c, ws, DrawNext(ws, pos1, s),
               TryExchange(c, a, DrawValue(ws, pos, c.nT), DrawValue(ws, pos1, s)), steps - 1)
  }

  lemma SwapWalkDone(c: Config, ws: Stream, pos: nat, a: Arms)
    requires Valid(c) && ArmsOk(c.n, c.nT, a) && Lively(ws)
    ensures SwapWalk(c, ws, pos, a, 0) == a
  {}

  lemma SwapWalkStep(c: Config, ws: Stream, pos: nat, a: Arms, steps: nat)
    requires Valid(c) && ArmsOk(c.n, c.nT, a) && Lively(ws)
    ensures var s, pos1 := c.n - c.nT, DrawNext(ws, pos, c.nT);
      DrawValue(ws, pos, c.nT) < c.nT && DrawValue(ws, pos1, s) < s
      && SwapWalk(c, ws, pos, a, steps + 1)
         == SwapWalk(c, ws, DrawNext(ws, pos1, s),
                     TryExchange(c, a, DrawValue(ws, pos, c.nT), DrawValue(ws, pos1, s)), steps)
  {
    hide ArmsOk, TryExchange, Objective, DrawValue, DrawNext;
    DrawBelow(ws, pos, c.nT);
    DrawBelow(ws, DrawNext(ws, pos, c.nT), c.n - c.nT);
  }

  // The random starts.

  ghost function CoinSides(ws: Stream, pos: nat, k: nat): (side: seq<nat>)
    requires Lively(ws)
    ensures |side| == k && forall i :: 0 <= i < k ==> side[i] <= 1
  {
    if k == 0 then []
    else
      DrawBelow(ws, CoinEnd(ws, pos, k - 1), 2);
      CoinSides(ws, pos, k - 1) + [DrawValue(ws, CoinEnd(ws, pos, k - 1), 2)]
  }

  ghost function CoinEnd(ws: Stream, pos: nat, k: nat): nat
    requires Lively(ws)
  {
    if k == 0 then pos else DrawNext(ws, CoinEnd(ws, pos, k - 1), 2)
  }

  lemma CoinStep(ws: Stream, pos: nat, k: nat, m: nat)
    requires Lively(ws) && k < m
    ensures CoinEnd(ws, pos, k + 1) == DrawNext(ws, CoinEnd(ws, pos, k), 2)
    ensures CoinSides(ws, pos, m)[k] == DrawValue(ws, CoinEnd(ws, pos, k), 2)
  {
    CoinPrefix(ws, pos, k + 1, m);
    assert CoinSides(ws, pos, m)[k] == CoinSides(ws, pos, m)[..k + 1][k];
  }

  lemma {:induction false} CoinPrefix(ws: Stream, pos: nat, k: nat, m: nat)
    requires Lively(ws) && k <= m
    ensures CoinSides(ws, pos, m)[..k] == CoinSides(ws, pos, k)
  {
    if k < m {
      CoinPrefix(ws, pos, k, m - 1);
      assert CoinSides(ws, pos, m)[..k] == CoinSides(ws, pos, m - 1)[..k];
    } else {
      assert CoinSides(ws, pos, m)[..m] == CoinSides(ws, pos, m);
    }
  }

  /** A uniformly shuffled order whose first nT units are treated, and the lists read off it. */
  ghost function BalancedStart(c: Config, ws: Stream, pos: nat): (a: Arms)
    requires Valid(c) && Lively(ws)
    ensures ArmsOk(c.n, c.nT, a)
  {
    var perm := StartPermutation(ws, pos, c.n);
    var w := MarkFirst(perm, c.n, c.nT);
    MarkFirstCounts(perm, c.n, c.nT);
    WhereCounts(w, c.n);
    WhereLists(w, 1, c.n);
    WhereLists(w, 0, c.n);
    assert w[..c.n] == w;
    Arms(w, Where(w, 1, c.n), Where(w, 0, c.n))
  }

  /** The allocation that one draw of the search returns, as a function of its word stream. */
  ghost function Design(c: Config, ws: Stream, pos: nat): seq<int>
    requires Valid(c) && Lively(ws)
  {
    if c.m == [] then MarkFirst(StartPermutation(ws, pos, c.n), c.n, c.nT)
    else if c.pairMode then
      var side, next := CoinSides(ws, pos, |c.pairs|), CoinEnd(ws, pos, |c.pairs|);
      Oriented(c, if c.nIter < 0 then Descent(c, side) else PairWalk(c, ws, next, side, c.nIter))
    else
      SwapWalk(c, ws, DrawnEnd(ws, pos, c.n), BalancedStart(c, ws, pos), c.nIter).w
  }

  /** Every draw is an allocation with the prescribed number of treated units. */
  lemma DesignIsBalanced(c: Config, ws: Stream, pos: nat)
    requires Valid(c) && Lively(ws)
    ensures var w := Design(c, ws, pos);
      |w| == c.n && IsAllocation(w) && Ones(w) == if c.m != [] && c.pairMode then |c.pairs| else c.nT
  {
    if c.m == [] {
      MarkFirstCounts(StartPermutation(ws, pos, c.n), c.n, c.nT);
    } else if c.pairMode {
      var side, next := CoinSides(ws, pos, |c.pairs|), CoinEnd(ws, pos, |c.pairs|);
      var r := if c.nIter < 0 then Descent(c, side) else PairWalk(c, ws, next, side, c.nIter);
      PairFillCounts(c.pairs, r, c.n, |c.pairs|);
    }
  }

  /** In pair mode exactly one member of every pair is treated in the final allocation. */
  lemma DesignSplitsPairs(c: Config, ws: Stream, pos: nat, k: nat)
    requires Valid(c) && Lively(ws) && c.m != [] && c.pairMode && k < |c.pairs|
    ensures var w := Design(c, ws, pos);
      |w| == c.n && w[c.pairs[k].0] + w[c.pairs[k].1] == 1
  {
    var side, next := CoinSides(ws, pos, |c.pairs|), CoinEnd(ws, pos, |c.pairs|);
    var r := if c.nIter < 0 then Descent(c, side) else PairWalk(c, ws, next, side, c.nIter);
    FlipIsExchange(c, r, k);
  }

  /** The column that a seed determines. */
  ghost function SeedDesign(c: Config, seed: bv32): seq<int>
    requires Valid(c) && Plentiful(MersenneTwister.SeedStream(seed))
  {
    SeedStreamLively(seed);
    Design(c, MersenneTwister.SeedStream(seed), N)
  }

  /** The column of draw `j` under a master seed. */
  ghost function ColumnOf(c: Config, master: bv64, j: nat): seq<int>
    requires Valid(c) && Plentiful(MersenneTwister.SeedStream(Words.IndexSeed(master, j)))
  {
    SeedDesign(c, Words.IndexSeed(master, j))
  }
}

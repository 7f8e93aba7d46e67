/**
 * The parallel greedy region on the buffers that its threads reuse: every step works on the cached
 * criterion and objective, and refines a step of the cache-free search.
 */
module GreedyBuffers {
  import opened Wrappers
  import opened Vectors
  import opened GreedyObjective
  import opened BlockRecurrence
  import opened BoundedRand
  import opened Shuffle
  import opened TreatmentArms
  import opened GreedyReference
  import opened GreedySchedule
  import opened ParallelFor
  import MersenneTwister
  import Words

  /** The thread's buffers, and how far its current draw has come. */
  datatype Buffers = Buffers(side: seq<nat>, w: seq<int>, treated: seq<nat>, control: seq<nat>, d: Vec, f: real,
                             pos: nat, it: nat, written: bool)

  /** The sizes of the buffers and the ranges of the indices in them; no cache has to be right. */
  ghost predicate Shaped(c: Config, b: Buffers) {
    && Valid(c)
    && (c.m != [] ==> |b.w| == c.n && |b.d| == |c.m|)
    && (c.m != [] && c.pairMode ==> SidesOk(c.pairs, b.side))
    && (c.m != [] && !c.pairMode ==>
          && |b.treated| == c.nT && (forall i :: 0 <= i < c.nT ==> b.treated[i] < c.n)
          && |b.control| == c.n - c.nT && (forall i :: 0 <= i < c.n - c.nT ==> b.control[i] < c.n))
    && (c.nIter >= 0 ==> b.it <= c.nIter)
  }

  /** What the cache-free search knows of the buffers; the rest of them is stale. */
  function Seen(c: Config, b: Buffers): Task {
    if c.m != [] && c.pairMode then Task(b.side, Arms([], [], []), b.pos, b.it, b.written)
    else if c.m != [] then Task([], Arms(b.w, b.treated, b.control), b.pos, b.it, b.written)
    else Task([], Arms([], [], []), b.pos, b.it, b.written)
  }

  ghost predicate Cached(c: Config, w: seq<int>, d: Vec, f: real) {
    Fits(c.m, w) && d == Criterion(c.m, w) && f == Objective(c.absMode, c.m, w)
  }

  /** Allocation, orientation, lists, d and f all agree. */
  ghost predicate Consistent(c: Config, b: Buffers) {
    && Shaped(c, b) && TaskOk(c, Seen(c, b))
    && (c.m != [] ==> Cached(c, b.w, b.d, b.f))
    && (c.m != [] && c.pairMode ==> b.w == Oriented(c, b.side))
  }

  ghost function Restart(c: Config, ws: Stream, stale: Buffers): (b: Buffers)
    requires Valid(c) && Lively(ws)
  {
    if c.m == [] then stale.(pos := N, it := 0, written := false)
    else if c.pairMode then
      var side := CoinSides(ws, N, |c.pairs|);
      var w := Oriented(c, side);
      var d := Criterion(c.m, w);
      stale.(side := side, w := w, d := d, f := Norm(c.absMode, d),
             pos := CoinEnd(ws, N, |c.pairs|), it := 0, written := false)
    else
      var a := BalancedStart(c, ws, N);
      var d := Criterion(c.m, a.w);
      stale.(w := a.w, treated := a.treated, control := a.control, d := d, f := Norm(c.absMode, d),
             pos := DrawnEnd(ws, N, c.n), it := 0, written := false)
  }

  lemma RestartRefines(c: Config, ws: Stream, stale: Buffers)
    requires Valid(c) && Lively(ws)
    ensures Consistent(c, Restart(c, ws, stale))
    ensures Seen(c, Restart(c, ws, stale)) == Begin(c, ws, Seen(c, stale))
  {
    hide Criterion, Norm, PairsOk;
    if c.m != [] && c.pairMode {
      CriterionSize(c.m, Oriented(c, CoinSides(ws, N, |c.pairs|)));
    } else if c.m != [] {
      ArmsInRange(c, BalancedStart(c, ws, N));
      CriterionSize(c.m, BalancedStart(c, ws, N).w);
    }
  }

  lemma CriterionSize(m: Mat, w: seq<int>)
    requires Fits(m, w)
    ensures |Criterion(m, w)| == |m|
  {}

  lemma ArmsInRange(c: Config, a: Arms)
    requires ArmsOk(c.n, c.nT, a)
    ensures |a.treated| == c.nT && (forall i :: 0 <= i < c.nT ==> a.treated[i] < c.n)
    ensures |a.control| == c.n - c.nT && (forall i :: 0 <= i < c.n - c.nT ==> a.control[i] < c.n)
  {}

  // One step on the caches.

  /** The units that flipping pair k exchanges: the treated member and the other one. */
  function Leaving(c: Config, side: seq<nat>, k: nat): (i: nat)
    requires PairsOk(c.pairs, c.n) && SidesOk(c.pairs, side) && k < |c.pairs|
    ensures i < c.n
  {
    Pick(c.pairs[k], side[k])
  }

  function Entering(c: Config, side: seq<nat>, k: nat): (j: nat)
    requires PairsOk(c.pairs, c.n) && SidesOk(c.pairs, side) && k < |c.pairs|
    ensures j < c.n
  {
    Pick(c.pairs[k], 1 - side[k])
  }

  function CachedCandidate(c: Config, d: Vec, f: real, i: nat, j: nat): real
    requires (forall r :: 0 <= r < |c.m| ==> |c.m[r]| == c.n) && |d| == |c.m| && i < c.n && j < c.n
  {
    Candidate(c.absMode, d, f, Delta(c.m, i, j))
  }

  /** The scan for the largest gain over the first k pairs. */
  ghost function CachedScan(c: Config, side: seq<nat>, d: Vec, f: real, k: nat): (int, real)
    requires Valid(c) && c.m != [] && c.pairMode && SidesOk(c.pairs, side) && |d| == |c.m| && k <= |c.pairs|
  {
    if k == 0 then (-1, 0.0)
    else
      var best := CachedScan(c, side, d, f, k - 1);
      var gain := f - CachedCandidate(c, d, f, Leaving(c, side, k - 1), Entering(c, side, k - 1));
      if gain > best.1 then (k - 1, gain) else best
  }

  /** w, d and f move together. */
  function Swapped(c: Config, b: Buffers, i: nat, j: nat, f: real): Buffers
    requires (forall r :: 0 <= r < |c.m| ==> |c.m[r]| == c.n) && |b.w| == c.n && |b.d| == |c.m| && i < c.n && j < c.n
  {
    b.(w := b.w[i := 0][j := 1], d := Add(b.d, Delta(c.m, i, j)), f := f)
  }

  ghost function CachedFlip(c: Config, b: Buffers, k: nat, f: real): Buffers
    requires Shaped(c, b) && c.m != [] && c.pairMode && k < |c.pairs|
  {
    Swapped(c, b, Leaving(c, b.side, k), Entering(c, b.side, k), f).(side := Flip(b.side, k))
  }

  ghost function CachedTryFlip(c: Config, b: Buffers, k: nat): Buffers
    requires Shaped(c, b) && c.m != [] && c.pairMode && k < |c.pairs|
  {
    var cand := CachedCandidate(c, b.d, b.f, Leaving(c, b.side, k), Entering(c, b.side, k));
    if cand < b.f then CachedFlip(c, b, k, cand) else b
  }

  ghost function CachedTrySwap(c: Config, b: Buffers, ti: nat, ci: nat): Buffers
    requires Shaped(c, b) && c.m != [] && !c.pairMode && ti < c.nT && ci < c.n - c.nT
  {
    var i, j := b.treated[ti], b.control[ci];
    var cand := CachedCandidate(c, b.d, b.f, i, j);
    if cand < b.f then
      Swapped(c, b, i, j, cand).(treated := b.treated[ti := j], control := b.control[ci := i])
    else b
  }

  ghost function Done(b: Buffers, column: seq<int>): Option<(Buffers, seq<int>)> { Some((b.(written := true), column)) }

  ghost function FlipStep(c: Config, b: Buffers, column: seq<int>): Option<(Buffers, seq<int>)>
    requires Shaped(c, b) && c.m != [] && c.pairMode
  {
    var (k, gain) := CachedScan(c, b.side, b.d, b.f, |c.pairs|);
    if 0 <= k < |c.pairs| then Some((CachedFlip(c, b, k, b.f - gain), column)) else Done(b, b.w)
  }

  ghost function PairStep(c: Config, ws: Stream, b: Buffers, column: seq<int>): Option<(Buffers, seq<int>)>
    requires Shaped(c, b) && c.m != [] && c.pairMode && c.nIter >= 0 && Lively(ws)
  {
    if b.it == c.nIter then Done(b, b.w)
    else
      DrawBelow(ws, b.pos, |c.pairs|);
      var next := CachedTryFlip(c, b, DrawValue(ws, b.pos, |c.pairs|));
      Some((next.(pos := DrawNext(ws, b.pos, |c.pairs|), it := b.it + 1), column))
  }

  ghost function SwapStep(c: Config, ws: Stream, b: Buffers, column: seq<int>): Option<(Buffers, seq<int>)>
    requires Shaped(c, b) && c.m != [] && !c.pairMode && Lively(ws)
  {
    if b.it == c.nIter then Done(b, b.w)
    else
      var s, pos1 := c.n - c.nT, DrawNext(ws, b.pos, c.nT);
      DrawBelow(ws, b.pos, c.nT);
      DrawBelow(ws, pos1, s);
      var next := CachedTrySwap(c, b, DrawValue(ws, b.pos, c.nT), DrawValue(ws, pos1, s));
      Some((next.(pos := DrawNext(ws, pos1, s), it := b.it + 1), column))
  }

  /** One iteration of the search loop of the draw's mode, on the caches. */
  ghost function BufferStep(c: Config, ws: Stream, b: Buffers, column: seq<int>): Option<(Buffers, seq<int>)>
    requires Shaped(c, b) && Lively(ws)
  {
    if b.written then None
    else if c.m == [] then Done(b, MarkFirst(StartPermutation(ws, N, c.n), c.n, c.nT))
    else if c.pairMode && c.nIter < 0 then FlipStep(c, b, column)
    else if c.pairMode then PairStep(c, ws, b, column)
    else SwapStep(c, ws, b, column)
  }

  // Each step refines one of the cache-free search.

  lemma CandidateAgrees(c: Config, w: seq<int>, d: Vec, f: real, i: nat, j: nat)
    requires Valid(c) && |w| == c.n && Cached(c, w, d, f) && CanExchange(w, i, j)
    ensures CachedCandidate(c, d, f, i, j) == Objective(c.absMode, c.m, Exchange(w, i, j))
  {
    hide Objective, Criterion, Candidate, Delta;
    CandidateIsExact(c.absMode, c.m, w, i, j);
  }

  lemma SwapKeepsCaches(c: Config, b: Buffers, i: nat, j: nat, f: real)
    requires Valid(c) && |b.w| == c.n && Cached(c, b.w, b.d, b.f) && CanExchange(b.w, i, j)
    requires f == Objective(c.absMode, c.m, Exchange(b.w, i, j))
    ensures Swapped(c, b, i, j, f).w == Exchange(b.w, i, j) && |Swapped(c, b, i, j, f).d| == |c.m|
    ensures Cached(c, Swapped(c, b, i, j, f).w, Swapped(c, b, i, j, f).d, f)
  {
    hide Objective, Criterion, Delta;
    CriterionExchange(c.m, b.w, i, j);
    CriterionSize(c.m, b.w);
  }

  lemma {:induction false} ScanAgrees(c: Config, side: seq<nat>, d: Vec, f: real, k: nat)
    requires Valid(c) && c.m != [] && c.pairMode && SidesOk(c.pairs, side) && k <= |c.pairs|
    requires |Oriented(c, side)| == c.n && Cached(c, Oriented(c, side), d, f)
    ensures |d| == |c.m| && CachedScan(c, side, d, f, k) == BestFlip(c, side, k)
  {
    hide Objective, CachedCandidate, Oriented, PairsOk;
    if k > 0 {
      ScanAgrees(c, side, d, f, k - 1);
      FlipIsExchange(c, side, k - 1);
      CandidateAgrees(c, Oriented(c, side), d, f, Leaving(c, side, k - 1), Entering(c, side, k - 1));
    }
  }

  lemma FlipKeeps(c: Config, b: Buffers, k: nat, f: real)
    requires Consistent(c, b) && c.m != [] && c.pairMode && k < |c.pairs| && f == SideObjective(c, Flip(b.side, k))
    ensures Consistent(c, CachedFlip(c, b, k, f))
  {
    hide Objective, Oriented, PairsOk, Cached;
    FlipIsExchange(c, b.side, k);
    SwapKeepsCaches(c, b, Leaving(c, b.side, k), Entering(c, b.side, k), f);
  }

  /** What refining means for one step. */
  ghost predicate Refines(c: Config, ws: Stream, b: Buffers, column: seq<int>, next: Option<(Buffers, seq<int>)>)
    requires Consistent(c, b) && Lively(ws)
  {
    match next
    case None => Step(c, ws, Seen(c, b), column).None?
    case Some((b', column')) => Consistent(c, b') && Step(c, ws, Seen(c, b), column) == Some((Seen(c, b'), column'))
  }

  lemma FlipStepRefines(c: Config, ws: Stream, b: Buffers, column: seq<int>)
    requires Consistent(c, b) && Lively(ws) && !b.written && c.m != [] && c.pairMode && c.nIter < 0
    ensures Refines(c, ws, b, column, FlipStep(c, b, column))
  {
    hide Objective, Oriented, PairsOk, Cached, BestFlip, CachedScan, SideObjective, CachedFlip;
    var (k, gain) := CachedScan(c, b.side, b.d, b.f, |c.pairs|);
    ScanAgrees(c, b.side, b.d, b.f, |c.pairs|);
    BestFlipIsBest(c, b.side, |c.pairs|);
    if k >= 0 {
      GainLeaves(c, b, k, gain);
      FlipKeeps(c, b, k, b.f - gain);
      FlipSeen(c, b, k, b.f - gain);
    }
  }

  lemma GainLeaves(c: Config, b: Buffers, k: nat, gain: real)
    requires Consistent(c, b) && c.m != [] && c.pairMode && k < |c.pairs| && gain == Gain(c, b.side, k)
    ensures b.f - gain == SideObjective(c, Flip(b.side, k))
  {
    hide Objective;
  }

  lemma FlipSeen(c: Config, b: Buffers, k: nat, f: real)
    requires Shaped(c, b) && c.m != [] && c.pairMode && k < |c.pairs|
    ensures CachedFlip(c, b, k, f).side == Flip(b.side, k)
    ensures Seen(c, CachedFlip(c, b, k, f)) == Seen(c, b).(side := Flip(b.side, k))
  {}

  lemma TryFlipRefines(c: Config, b: Buffers, k: nat)
    requires Consistent(c, b) && c.m != [] && c.pairMode && k < |c.pairs|
    ensures Consistent(c, CachedTryFlip(c, b, k))
    ensures Seen(c, CachedTryFlip(c, b, k)) == Seen(c, b).(side := TryFlip(c, b.side, k))
  {
    hide Objective, Oriented, PairsOk, CachedCandidate;
    var i, j := Leaving(c, b.side, k), Entering(c, b.side, k);
    FlipIsExchange(c, b.side, k);
    CandidateAgrees(c, b.w, b.d, b.f, i, j);
    var cand := CachedCandidate(c, b.d, b.f, i, j);
    if cand < b.f {
      FlipKeeps(c, b, k, cand);
    }
  }

  lemma PairStepRefines(c: Config, ws: Stream, b: Buffers, column: seq<int>)
    requires Consistent(c, b) && Lively(ws) && !b.written && c.m != [] && c.pairMode && c.nIter >= 0
    ensures Refines(c, ws, b, column, PairStep(c, ws, b, column))
  {
    hide Objective, Oriented, PairsOk, Cached, CachedTryFlip, TryFlip, SideObjective, DrawValue, DrawNext;
    if b.it < c.nIter {
      DrawBelow(ws, b.pos, |c.pairs|);
      TryFlipRefines(c, b, DrawValue(ws, b.pos, |c.pairs|));
    }
  }

  lemma TrySwapRefines(c: Config, b: Buffers, ti: nat, ci: nat)
    requires Consistent(c, b) && c.m != [] && !c.pairMode && ti < c.nT && ci < c.n - c.nT
    ensures Consistent(c, CachedTrySwap(c, b, ti, ci))
    ensures Seen(c, CachedTrySwap(c, b, ti, ci)) == Seen(c, b).(arms := TryExchange(c, Seen(c, b).arms, ti, ci))
  {
    hide Objective, CachedCandidate, Lists, Cached;
    var a := Seen(c, b).arms;
    var i, j := b.treated[ti], b.control[ci];
    ExchangedOk(c.n, c.nT, a, ti, ci);
    CandidateAgrees(c, b.w, b.d, b.f, i, j);
    var cand := CachedCandidate(c, b.d, b.f, i, j);
    CachedIs(c, b);
    if cand < b.f {
      SwapKeepsCaches(c, b, i, j, cand);
      ArmsInRange(c, Exchanged(a, ti, ci));
    }
  }

  lemma CachedIs(c: Config, b: Buffers)
    requires Cached(c, b.w, b.d, b.f)
    ensures Fits(c.m, b.w) && b.f == Objective(c.absMode, c.m, b.w)
  {}

  lemma SwapStepRefines(c: Config, ws: Stream, b: Buffers, column: seq<int>)
    requires Consistent(c, b) && Lively(ws) && !b.written && c.m != [] && !c.pairMode
    ensures Refines(c, ws, b, column, SwapStep(c, ws, b, column))
  {
    hide Objective, Cached, CachedTrySwap, TryExchange, ArmsOk, DrawValue, DrawNext;
    if b.it < c.nIter {
      var s, pos1 := c.n - c.nT, DrawNext(ws, b.pos, c.nT);
      DrawBelow(ws, b.pos, c.nT);
      DrawBelow(ws, pos1, s);
      TrySwapRefines(c, b, DrawValue(ws, b.pos, c.nT), DrawValue(ws, pos1, s));
    }
  }

  lemma StepRefines(c: Config, ws: Stream, b: Buffers, column: seq<int>)
    requires Consistent(c, b) && Lively(ws)
    ensures Refines(c, ws, b, column, BufferStep(c, ws, b, column))
  {
    if !b.written && c.m != [] {
      hide Refines, FlipStep, PairStep, SwapStep, Consistent;
      if c.pairMode && c.nIter < 0 {
        FlipStepRefines(c, ws, b, column);
      } else if c.pairMode {
        PairStepRefines(c, ws, b, column);
      } else {
        SwapStepRefines(c, ws, b, column);
      }
    }
  }

  // The parallel region.

  /** The streams of the draws under a master seed. */
  ghost function DrawStreams(master: bv64, r: nat): nat -> Stream {
    (j: nat) => MersenneTwister.SeedStream(Words.IndexSeed(master, if j < r then j else 0))
  }

  ghost predicate AllPlentiful(master: bv64, r: nat) {
    forall j: nat :: j < r ==> Plentiful(MersenneTwister.SeedStream(Words.IndexSeed(master, j)))
  }

  lemma StreamsLively(master: bv64, r: nat)
    requires r > 0 && AllPlentiful(master, r)
    ensures forall j: nat :: Lively(DrawStreams(master, r)(j))
  {
    hide Words.IndexSeed, Lively, Plentiful;
    forall j: nat
      ensures Lively(DrawStreams(master, r)(j))
    {
      SeedStreamLively(Words.IndexSeed(master, if j < r then j else 0));
    }
  }

  ghost function BufferLoop(c: Config, streams: nat -> Stream): Loop<Buffers, seq<int>>
    requires Valid(c) && forall j: nat :: Lively(streams(j))
  {
    Loop((j: nat, stale: Buffers) => Restart(c, streams(j), stale),
         (j: nat, b: Buffers, column: seq<int>) =>
           if Shaped(c, b) then BufferStep(c, streams(j), b, column) else None)
  }

  /** On its own, a draw on the buffers goes step by step with the cache-free one. */
  lemma {:induction false} AloneRefines(c: Config, streams: nat -> Stream, j: nat, stale: Buffers,
                                        column: seq<int>, k: nat)
    requires Valid(c) && forall i: nat :: Lively(streams(i))
    ensures var loop, plain := BufferLoop(c, streams), GreedyLoop(c, streams);
      var reference := Alone(plain, j, plain.start(j, Seen(c, stale)), column, k);
      match Alone(loop, j, loop.start(j, stale), column, k)
      case None => reference.None?
      case Some((b, now)) => Consistent(c, b) && reference == Some((Seen(c, b), now))
  {
    hide Restart, BufferStep, Begin, Step, Lively, Valid, TaskOk, Seen;
    var loop, plain := BufferLoop(c, streams), GreedyLoop(c, streams);
    if k == 0 {
      RestartRefines(c, streams(j), stale);
    } else {
      AloneRefines(c, streams, j, stale, column, k - 1);
      match Alone(loop, j, loop.start(j, stale), column, k - 1)
      case None =>
      case Some((b, now)) => StepRefines(c, streams(j), b, now);
    }
  }

  /** Begun on buffers with any contents, a draw comes to its end. */
  lemma DrawFinishes(c: Config, streams: nat -> Stream, j: nat, stale: Buffers, column: seq<int>) returns (k: nat)
    requires Valid(c) && forall i: nat :: Lively(streams(i))
    ensures var loop := BufferLoop(c, streams);
      Alone(loop, j, loop.start(j, stale), column, k).None?
  {
    hide Restart, BufferStep, Begin, Step, Lively, Valid, Seen;
    k := GreedyFinishes(c, streams, j, Seen(c, stale), column);
    AloneRefines(c, streams, j, stale, column, k);
  }

  lemma DrawEnd(c: Config, streams: nat -> Stream, j: nat, stale: Buffers, column: seq<int>, k: nat, b: Buffers,
                now: seq<int>)
    requires Valid(c) && forall i: nat :: Lively(streams(i))
    requires var loop := BufferLoop(c, streams);
      Alone(loop, j, loop.start(j, stale), column, k) == Some((b, now)) && loop.step(j, b, now).None?
    ensures now == Design(c, streams(j), N)
  {
    hide Restart, BufferStep, Begin, Step, Lively, Valid, Design;
    AloneRefines(c, streams, j, stale, column, k);
    StepRefines(c, streams(j), b, now);
    GreedyEnd(c, streams, j, Seen(c, stale), column, k, Seen(c, b), now);
  }

  /**
   * Under any interleaving of the search steps of any number of threads, whatever their buffers held
   * before, a finished column is the one that the master seed and its index determine.
   */
  lemma DesignsUnderAnySchedule(
    c: Config, r: nat, master: bv64, threads: seq<Thread<Buffers>>, events: seq<Event>, j: nat)
    requires Valid(c) && j < r && AllPlentiful(master, r)
    requires forall t :: 0 <= t < |threads| ==> threads[t].Idle?
    ensures forall i: nat :: Lively(DrawStreams(master, r)(i))
    ensures var initial := seq(r, _ => seq(c.n, _ => 0));
      var m := Run(BufferLoop(c, DrawStreams(master, r)), Machine(threads, initial, {}, {}), events);
      |m.columns| == r && (j in m.finished ==> m.columns[j] == ColumnOf(c, master, j))
  {
    hide Design, Restart, BufferStep, Lively, Valid, Words.IndexSeed, Plentiful;
    StreamsLively(master, r);
    var streams := DrawStreams(master, r);
    var loop, initial := BufferLoop(c, streams), seq(r, _ => seq(c.n, _ => 0));
    var target := seq(r, i requires 0 <= i < r => Design(c, streams(i), N));
    forall i: nat, b, k: nat, s | i < r && Alone(loop, i, loop.start(i, b), initial[i], k) == Some(s)
                                  && loop.step(i, s.0, s.1).None?
      ensures s.1 == target[i]
    {
      DrawEnd(c, streams, i, b, initial[i], k, s.0, s.1);
    }
    AnySchedule(loop, initial, target, threads, events);
  }
}

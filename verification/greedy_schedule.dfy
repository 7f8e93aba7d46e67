/** The parallel greedy region, interleaved search step by search step. */
module GreedySchedule {
  import opened Wrappers
  import opened BlockRecurrence
  import opened BoundedRand
  import opened TreatmentArms
  import opened GreedyReference
  import opened Shuffle
  import opened ParallelFor

  /** What a thread holds for the draw it works on; of a stale task nothing may be used. */
  datatype Task = Task(side: seq<nat>, arms: Arms, pos: nat, it: nat, written: bool)

  ghost predicate TaskOk(c: Config, b: Task) {
    && Valid(c)
    && (c.m != [] && c.pairMode ==> SidesOk(c.pairs, b.side))
    && (c.m != [] && !c.pairMode ==> ArmsOk(c.n, c.nT, b.arms))
    && (c.nIter >= 0 ==> b.it <= c.nIter)
  }

  /** The random start; the fields that a mode does not initialise keep their stale contents. */
  ghost function Begin(c: Config, ws: Stream, stale: Task): (b: Task)
    requires Valid(c) && Lively(ws)
    ensures TaskOk(c, b)
  {
    if c.m == [] then stale.(pos := N, it := 0, written := false)
    else if c.pairMode then
      var np := |c.pairs|;
      Task(CoinSides(ws, N, np), stale.arms, CoinEnd(ws, N, np), 0, false)
    else Task(stale.side, BalancedStart(c, ws, N), DrawnEnd(ws, N, c.n), 0, false)
  }

  /** What the draw still has to reach from here. */
  ghost function Outcome(c: Config, ws: Stream, b: Task, column: seq<int>): seq<int>
    requires TaskOk(c, b) && Lively(ws)
  {
    if b.written then column
    else if c.m == [] then MarkFirst(StartPermutation(ws, N, c.n), c.n, c.nT)
    else if c.pairMode then
      Oriented(c, if c.nIter < 0 then Descent(c, b.side) else PairWalk(c, ws, b.pos, b.side, c.nIter - b.it))
    else SwapWalk(c, ws, b.pos, b.arms, c.nIter - b.it).w
  }

  ghost function Written(b: Task, column: seq<int>): Option<(Task, seq<int>)> {
    Some((b.(written := true), column))
  }

  /** One iteration of the search loop of the draw's mode; at its end the column is written. */
  ghost function Step(c: Config, ws: Stream, b: Task, column: seq<int>): Option<(Task, seq<int>)>
    requires TaskOk(c, b) && Lively(ws)
  {
    if b.written then None
    else if c.m == [] then Written(b, MarkFirst(StartPermutation(ws, N, c.n), c.n, c.nT))
    else if c.pairMode && c.nIter < 0 then
      var k := BestFlip(c, b.side, |c.pairs|).0;
      ScanDecides(c, b.side, k);
      if k < 0 then Written(b, Oriented(c, b.side)) else Some((b.(side := Flip(b.side, k)), column))
    else if c.pairMode then
      if b.it == c.nIter then Written(b, Oriented(c, b.side))
      else
        DrawBelow(ws, b.pos, |c.pairs|);
        var side := TryFlip(c, b.side, DrawValue(ws, b.pos, |c.pairs|));
        Some((b.(side := side, pos := DrawNext(ws, b.pos, |c.pairs|), it := b.it + 1), column))
    else if b.it == c.nIter then Written(b, b.arms.w)
    else
      var s, pos1 := c.n - c.nT, DrawNext(ws, b.pos, c.nT);
      DrawBelow(ws, b.pos, c.nT);
      DrawBelow(ws, pos1, s);
      var arms := TryExchange(c, b.arms, DrawValue(ws, b.pos, c.nT), DrawValue(ws, pos1, s));
      Some((b.(arms := arms, pos := DrawNext(ws, pos1, s), it := b.it + 1), column))
  }

  lemma BeginOutcome(c: Config, ws: Stream, stale: Task, column: seq<int>)
    requires Valid(c) && Lively(ws)
    ensures Outcome(c, ws, Begin(c, ws, stale), column) == Design(c, ws, N)
  {}

  ghost predicate Kept(c: Config, ws: Stream, b: Task, column: seq<int>, next: Option<(Task, seq<int>)>)
    requires TaskOk(c, b) && Lively(ws)
  {
    match next
    case None => b.written
    case Some((b', column')) => TaskOk(c, b') && Outcome(c, ws, b', column') == Outcome(c, ws, b, column)
  }

  lemma DescentStep(c: Config, side: seq<nat>, k: int)
    requires Valid(c) && c.m != [] && c.pairMode && SidesOk(c.pairs, side)
    requires k == BestFlip(c, side, |c.pairs|).0
    ensures k < |c.pairs|
    ensures k < 0 ==> Descent(c, side) == side
    ensures k >= 0 ==> SidesOk(c.pairs, Flip(side, k)) && Descent(c, side) == Descent(c, Flip(side, k))
  {
    ScanDecides(c, side, k);
  }

  lemma FlipStepKeeps(c: Config, ws: Stream, b: Task, column: seq<int>)
    requires TaskOk(c, b) && Lively(ws) && c.m != [] && c.pairMode && c.nIter < 0
    ensures Kept(c, ws, b, column, Step(c, ws, b, column))
  {
    hide Descent, BestFlip, Oriented, IsLocalOptimum, SideObjective, Lively, PairsOk;
    DescentStep(c, b.side, BestFlip(c, b.side, |c.pairs|).0);
  }

  lemma PairStepKeeps(c: Config, ws: Stream, b: Task, column: seq<int>)
    requires TaskOk(c, b) && Lively(ws) && c.m != [] && c.pairMode && c.nIter >= 0
    ensures Kept(c, ws, b, column, Step(c, ws, b, column))
  {
    hide Oriented, TryFlip, SideObjective, PairsOk;
    if b.it < c.nIter {
      PairWalkStep(c, ws, b.pos, b.side, c.nIter - b.it - 1);
    }
  }

  lemma SwapStepKeeps(c: Config, ws: Stream, b: Task, column: seq<int>)
    requires TaskOk(c, b) && Lively(ws) && c.m != [] && !c.pairMode
    ensures Kept(c, ws, b, column, Step(c, ws, b, column))
  {
    hide ArmsOk, TryExchange, SwapWalk;
    if b.it < c.nIter {
      SwapWalkStep(c, ws, b.pos, b.arms, c.nIter - b.it - 1);
    } else {
      SwapWalkDone(c, ws, b.pos, b.arms);
    }
  }

  lemma StepKeepsOutcome(c: Config, ws: Stream, b: Task, column: seq<int>)
    requires TaskOk(c, b) && Lively(ws)
    ensures Kept(c, ws, b, column, Step(c, ws, b, column))
  {
    if c.m != [] {
      hide Outcome, Step, TaskOk;
      if c.pairMode && c.nIter < 0 {
        FlipStepKeeps(c, ws, b, column);
      } else if c.pairMode {
        PairStepKeeps(c, ws, b, column);
      } else {
        SwapStepKeeps(c, ws, b, column);
      }
    }
  }

  ghost function GreedyLoop(c: Config, streams: nat -> Stream): Loop<Task, seq<int>>
    requires Valid(c) && forall j: nat :: Lively(streams(j))
  {
    Loop((j: nat, stale: Task) => Begin(c, streams(j), stale),
         (j: nat, b: Task, column: seq<int>) =>
           if TaskOk(c, b) then Step(c, streams(j), b, column) else None)
  }

  lemma {:induction false} GreedyAlone(c: Config, streams: nat -> Stream, j: nat, stale: Task, column: seq<int>, k: nat)
    requires Valid(c) && forall i: nat :: Lively(streams(i))
    ensures var loop := GreedyLoop(c, streams);
      match Alone(loop, j, loop.start(j, stale), column, k)
      case None => true
      case Some((b, now)) => TaskOk(c, b) && Outcome(c, streams(j), b, now) == Design(c, streams(j), N)
  {
    hide Outcome, Design, Begin, Step, TaskOk, Lively, Valid;
    var loop := GreedyLoop(c, streams);
    if k == 0 {
      BeginOutcome(c, streams(j), stale, column);
    } else {
      GreedyAlone(c, streams, j, stale, column, k - 1);
      match Alone(loop, j, loop.start(j, stale), column, k - 1)
      case None =>
      case Some((b, now)) => StepKeepsOutcome(c, streams(j), b, now);
    }
  }

  // Every draw finishes.

  /** A bound on the steps that a draw still takes. */
  ghost function Remaining(c: Config, b: Task): nat
    requires TaskOk(c, b)
  {
    if b.written then 0
    else if c.m == [] then 1
    else if c.nIter < 0 then |Below(c, b.side)| + 1
    else c.nIter - b.it + 1
  }

  lemma StepShrinks(c: Config, ws: Stream, b: Task, column: seq<int>)
    requires TaskOk(c, b) && Lively(ws)
    ensures match Step(c, ws, b, column)
            case None => true
            case Some((b', column')) => TaskOk(c, b') && Remaining(c, b') < Remaining(c, b)
  {
    hide BestFlip, Below, Oriented, SideObjective, TryFlip, TryExchange, ArmsOk, PairsOk, DrawValue, DrawNext;
    StepKeepsOutcome(c, ws, b, column);
    if !b.written && c.m != [] && c.pairMode && c.nIter < 0 {
      ScanDecides(c, b.side, BestFlip(c, b.side, |c.pairs|).0);
    }
  }

  lemma {:induction false} AloneShrinks(c: Config, streams: nat -> Stream, j: nat, stale: Task, column: seq<int>,
                                        k: nat)
    requires Valid(c) && forall i: nat :: Lively(streams(i))
    ensures var loop := GreedyLoop(c, streams);
      match Alone(loop, j, loop.start(j, stale), column, k)
      case None => true
      case Some((b, now)) => TaskOk(c, b) && Remaining(c, b) + k <= Remaining(c, Begin(c, streams(j), stale))
  {
    hide Begin, Step, TaskOk, Lively, Valid, Remaining;
    var loop := GreedyLoop(c, streams);
    if k > 0 {
      AloneShrinks(c, streams, j, stale, column, k - 1);
      match Alone(loop, j, loop.start(j, stale), column, k - 1)
      case None =>
      case Some((b, now)) => StepShrinks(c, streams(j), b, now);
    }
  }

  /** Begun on any stale buffer, a draw comes to its end. */
  lemma GreedyFinishes(c: Config, streams: nat -> Stream, j: nat, stale: Task, column: seq<int>) returns (k: nat)
    requires Valid(c) && forall i: nat :: Lively(streams(i))
    ensures var loop := GreedyLoop(c, streams);
      Alone(loop, j, loop.start(j, stale), column, k).None?
  {
    k := Remaining(c, Begin(c, streams(j), stale)) + 1;
    AloneShrinks(c, streams, j, stale, column, k);
  }

  /** What an iteration that has come to its end leaves behind. */
  lemma GreedyEnd(c: Config, streams: nat -> Stream, j: nat, stale: Task, column: seq<int>, k: nat, b: Task,
                  now: seq<int>)
    requires Valid(c) && forall i: nat :: Lively(streams(i))
    requires var loop := GreedyLoop(c, streams);
      Alone(loop, j, loop.start(j, stale), column, k) == Some((b, now)) && loop.step(j, b, now).None?
    ensures now == Design(c, streams(j), N)
  {
    hide Design, Begin, Lively, Valid;
    GreedyAlone(c, streams, j, stale, column, k);
    StepKeepsOutcome(c, streams(j), b, now);
  }
}

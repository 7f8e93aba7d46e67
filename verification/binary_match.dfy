/** Pair coin flips: every column of the assignment matrix orients each pair by one word. */
module BinaryMatch {
  import opened Wrappers
  import opened BlockRecurrence
  import opened BoundedRand
  import opened Shuffle
  import opened GreedyReference
  import opened ParallelFor
  import MersenneTwister
  import Words

  const HALF: nat := 0x8000_0000

  /** `rng() >> 31`: with the top bit set the first member of the pair is treated. */
  function Side(word: nat): (side: nat)
    ensures side <= 1
  {
    if word / 0x8000_0000 != 0 then 0 else 1
  }

  ghost predicate PairsInRange(pairs: seq<Pair>, n: nat) {
    forall k :: 0 <= k < |pairs| ==> pairs[k].0 < n && pairs[k].1 < n
  }

  /** The two writes of one pair. */
  function Write(column: seq<int>, q: Pair, side: nat): (column': seq<int>)
    requires q.0 < |column| && q.1 < |column|
    ensures |column'| == |column|
  {
    if side == 0 then column[q.0 := 1][q.1 := 0] else column[q.0 := 0][q.1 := 1]
  }

  /** The zero column after the first `k` pairs, with the words from position `pos` on. */
  ghost function MatchColumn(pairs: seq<Pair>, n: nat, ws: Stream, pos: nat, k: nat): (column: seq<int>)
    requires PairsInRange(pairs, n) && k <= |pairs|
    ensures |column| == n
  {
    if k == 0 then seq(n, _ => 0)
    else Write(MatchColumn(pairs, n, ws, pos, k - 1), pairs[k - 1], Side(ws(pos + k - 1)))
  }

  ghost function WordSides(ws: Stream, pos: nat, k: nat): (side: seq<nat>)
    ensures |side| == k && forall i :: 0 <= i < k ==> side[i] == Side(ws(pos + i))
  {
    seq<nat>(k, i requires 0 <= i < k => Side(ws(pos + i)))
  }

  /** On disjoint pairs the writes do not interfere: the column is the allocation of its coins. */
  lemma {:induction false} ColumnIsOrientation(pairs: seq<Pair>, n: nat, ws: Stream, pos: nat, k: nat)
    requires PairsOk(pairs, n) && k <= |pairs|
    ensures MatchColumn(pairs, n, ws, pos, k) == PairFill(pairs, WordSides(ws, pos, |pairs|), n, k)
  {
    hide PairsOk, Write, Pick, Side;
    if k > 0 {
      var side := WordSides(ws, pos, |pairs|);
      ColumnIsOrientation(pairs, n, ws, pos, k - 1);
      PairFillStep(pairs, side, n, k - 1);
      PairMembersDiffer(pairs, n, k - 1);
      WriteOrients(PairFill(pairs, side, n, k - 1), pairs[k - 1], side[k - 1]);
    }
  }

  /** A word with its top bit set treats the first member of its pair, any other word the second one. */
  lemma TopBitTreatsFirst(pairs: seq<Pair>, n: nat, ws: Stream, pos: nat, k: nat)
    requires PairsOk(pairs, n) && k < |pairs|
    ensures var column := MatchColumn(pairs, n, ws, pos, |pairs|);
      && pairs[k].0 < n && pairs[k].1 < n
      && column[pairs[k].0] == (if ws(pos + k) >= 0x8000_0000 then 1 else 0)
      && column[pairs[k].1] == (if ws(pos + k) >= 0x8000_0000 then 0 else 1)
  {
    hide PairFill, MatchColumn;
    ColumnIsOrientation(pairs, n, ws, pos, |pairs|);
    PairFillTreats(pairs, WordSides(ws, pos, |pairs|), n, k);
  }

  lemma WriteOrients(w: seq<int>, q: Pair, side: nat)
    requires q.0 < |w| && q.1 < |w| && q.0 != q.1 && side <= 1
    ensures Write(w, q, side) == w[Pick(q, side) := 1][Pick(q, 1 - side) := 0]
  {
    assert w[q.1 := 1][q.0 := 0] == w[q.0 := 0][q.1 := 1];
  }

  lemma PairMembersDiffer(pairs: seq<Pair>, n: nat, k: nat)
    requires PairsOk(pairs, n) && k < |pairs|
    ensures pairs[k].0 != pairs[k].1 && pairs[k].0 < n && pairs[k].1 < n
  {}

  /** One column as the loop writes it, in place. */
  method FillColumn(column: array<int>, pairs: seq<Pair>, rng: MersenneTwister.RRng)
    requires PairsInRange(pairs, column.Length)
    requires forall i :: 0 <= i < column.Length ==> column[i] == 0
    requires rng.Valid() && rng.mt as object != column
    modifies column, rng.mt, rng`mti, rng`block, rng`pos
    ensures rng.Valid()
    ensures column[..] == MatchColumn(pairs, column.Length, rng.ws, old(rng.pos), |pairs|)
    ensures rng.pos == old(rng.pos) + |pairs|
  {
    hide Generator.Valid, Write, Side, PairsInRange;
    assert column[..] == seq(column.Length, _ => 0);
    for i := 0 to |pairs|
      invariant rng.Valid() && rng.pos == old(rng.pos) + i
      invariant column[..] == MatchColumn(pairs, column.Length, rng.ws, old(rng.pos), i)
    {
      var word := rng.NextWord();
      PairInRange(pairs, column.Length, i);
      WritePair(column, pairs[i], word);
    }
  }

  lemma PairInRange(pairs: seq<Pair>, n: nat, k: nat)
    requires PairsInRange(pairs, n) && k < |pairs|
    ensures pairs[k].0 < n && pairs[k].1 < n
  {}

  method WritePair(column: array<int>, q: Pair, word: nat)
    requires q.0 < column.Length && q.1 < column.Length
    modifies column
    ensures column[..] == Write(old(column[..]), q, Side(word))
  {
    if word / 0x8000_0000 != 0 {
      column[q.0] := 1;
      column[q.1] := 0;
    } else {
      column[q.0] := 0;
      column[q.1] := 1;
    }
  }

  /** The sequential loop over the columns: column j depends on the master seed and j alone. */
  method DrawAssignments(pairs: seq<Pair>, n: nat, r: nat, master: bv64) returns (columns: seq<seq<int>>)
    requires PairsInRange(pairs, n)
    ensures |columns| == r
    ensures forall j :: 0 <= j < r ==> columns[j] == TargetColumn(pairs, n, master, j)
  {
    hide Words.IndexSeed, MatchColumn;
    columns := [];
    for j := 0 to r
      invariant |columns| == j
      invariant forall i :: 0 <= i < j ==> columns[i] == TargetColumn(pairs, n, master, i)
    {
      var rng := MersenneTwister.NewRRng(Words.IndexSeed(master, j));
      var column := new int[n](_ => 0);
      FillColumn(column, pairs, rng);
      columns := columns + [column[..]];
    }
  }

  ghost function TargetColumn(pairs: seq<Pair>, n: nat, master: bv64, j: nat): (column: seq<int>)
    requires PairsInRange(pairs, n)
    ensures |column| == n
  {
    MatchColumn(pairs, n, MersenneTwister.SeedStream(Words.IndexSeed(master, j)), N, |pairs|)
  }

  // The parallel loop over the columns, one pair at a time.

  /** Private to an iteration: the position of its generator and the index of its next pair. */
  datatype Cursor = Cursor(pos: nat, i: nat)

  ghost function PairLoop(pairs: seq<Pair>, n: nat, streams: nat -> Stream): Loop<Cursor, seq<int>>
    requires PairsInRange(pairs, n)
  {
    Loop((j: nat, stale: Cursor) => Cursor(N, 0),
         (j: nat, b: Cursor, column: seq<int>) =>
           if b.i < |pairs| && |column| == n then
             Some((Cursor(b.pos + 1, b.i + 1), Write(column, pairs[b.i], Side(streams(j)(b.pos)))))
           else None)
  }

  lemma {:induction false} PairLoopAlone(pairs: seq<Pair>, n: nat, streams: nat -> Stream, j: nat, stale: Cursor,
                                         k: nat)
    requires PairsInRange(pairs, n)
    ensures var loop := PairLoop(pairs, n, streams);
      Alone(loop, j, loop.start(j, stale), seq(n, _ => 0), k)
      == if k <= |pairs| then Some((Cursor(N + k, k), MatchColumn(pairs, n, streams(j), N, k))) else None
  {
    if k > 0 {
      PairLoopAlone(pairs, n, streams, j, stale, k - 1);
    }
  }

  /**
   * Whatever the interleaving, the number of threads and what their cursors held before: every
   * finished column is the sequential one.
   */
  lemma AssignmentsUnderAnySchedule(
    pairs: seq<Pair>, n: nat, r: nat, streams: nat -> Stream,
    threads: seq<Thread<Cursor>>, events: seq<Event>, j: nat)
    requires PairsInRange(pairs, n) && j < r
    requires forall t :: 0 <= t < |threads| ==> threads[t].Idle?
    ensures var initial := seq(r, _ => seq(n, _ => 0));
      var m := Run(PairLoop(pairs, n, streams), Machine(threads, initial, {}, {}), events);
      |m.columns| == r
      && (j in m.finished ==> m.columns[j] == MatchColumn(pairs, n, streams(j), N, |pairs|))
  {
    var loop, initial := PairLoop(pairs, n, streams), seq(r, _ => seq(n, _ => 0));
    var target := seq(r, i requires 0 <= i < r => MatchColumn(pairs, n, streams(i), N, |pairs|));
    hide PairLoop, MatchColumn, Run, Alone;
    forall i: nat, b, k: nat, s | i < r && Alone(loop, i, loop.start(i, b), initial[i], k) == Some(s)
                                  && loop.step(i, s.0, s.1).None?
      ensures s.1 == target[i]
    {
      ColumnAtEnd(pairs, n, streams, i, b, k, s.0, s.1);
    }
    AnySchedule(loop, initial, target, threads, events);
  }

  lemma ColumnAtEnd(pairs: seq<Pair>, n: nat, streams: nat -> Stream, j: nat, stale: Cursor, k: nat, b: Cursor,
                    column: seq<int>)
    requires PairsInRange(pairs, n)
    requires var loop := PairLoop(pairs, n, streams);
      Alone(loop, j, loop.start(j, stale), seq(n, _ => 0), k) == Some((b, column)) && loop.step(j, b, column).None?
    ensures column == MatchColumn(pairs, n, streams(j), N, |pairs|)
  {
    hide MatchColumn;
    PairLoopAlone(pairs, n, streams, j, stale, k);
  }

  // Fairness, by counting words.

  /** The 32-bit words that give a pair this side. */
  ghost function WordsOfSide(side: nat): set<nat>
    requires side <= 1
  {
    if side == 0 then Interval(HALF, HALF) else Interval(0, HALF)
  }

  lemma WordsOfSideAre(side: nat, word: nat)
    requires side <= 1
    ensures word in WordsOfSide(side) <==> word < W && Side(word) == side
    ensures |WordsOfSide(side)| == HALF
  {
    hide Interval;
    IntervalSize(HALF, HALF);
    IntervalSize(0, HALF);
  }

  ghost function WordTuples(side: seq<nat>): set<seq<nat>>
    requires forall i :: 0 <= i < |side| ==> side[i] <= 1
  {
    if side == [] then {[]} else Prepend(WordsOfSide(side[0]), WordTuples(side[1..]))
  }

  ghost function HalfPower(k: nat): nat { if k == 0 then 1 else Product(HALF, HalfPower(k - 1)) }

  /** Each of the 2^k orientations of k pairs comes from exactly (2^31)^k of the word tuples. */
  lemma {:induction false} OrientationsAreFair(side: seq<nat>)
    requires forall i :: 0 <= i < |side| ==> side[i] <= 1
    ensures |WordTuples(side)| == HalfPower(|side|)
  {
    hide WordTuples, Product;
    if side == [] {
      NoPairs();
    } else {
      OrientationsAreFair(side[1..]);
      OneMorePair(side);
    }
  }

  lemma NoPairs()
    ensures |WordTuples([])| == 1
  {}

  lemma OneMorePair(side: seq<nat>)
    requires side != [] && forall i :: 0 <= i < |side| ==> side[i] <= 1
    ensures |WordTuples(side)| == Product(HALF, |WordTuples(side[1..])|)
  {
    hide Product, Prepend, WordsOfSide;
    WordsOfSideAre(side[0], 0);
    PrependSize(WordsOfSide(side[0]), WordTuples(side[1..]));
  }

  lemma {:induction false} WordTuplesAre(side: seq<nat>, words: seq<nat>)
    requires forall i :: 0 <= i < |side| ==> side[i] <= 1
    ensures words in WordTuples(side) <==>
              |words| == |side| && forall i :: 0 <= i < |side| ==> words[i] < W && Side(words[i]) == side[i]
  {
    if side != [] && words != [] {
      WordTuplesAre(side[1..], words[1..]);
      WordsOfSideAre(side[0], words[0]);
      assert forall i :: 0 <= i < |side| - 1 ==> side[i + 1] == side[1..][i];
      assert |words| == |side| ==> forall i :: 0 <= i < |words| - 1 ==> words[i + 1] == words[1..][i];
    }
  }
}

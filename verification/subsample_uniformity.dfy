/**
 * Without replacement a group is sampled by rejecting repeats. Whatever the number of words taken, every
 * sequence of different units comes from the same number of word tuples.
 */
module SubsampleUniformity {
  import opened Sequences
  import opened StableSort
  import opened BlockRecurrence
  import opened BoundedRand
  import opened Shuffle
  import opened Resampling
  import opened SampleUniformity

  /** What has been drawn so far, after one more position. */
  function Note(seen: seq<nat>, x: nat): seq<nat> { if x in seen then seen else seen + [x] }

  /** From the positions in `seen`, the words are accepted, and the last one completes exactly `t`. */
  predicate Stops(n: nat, seen: seq<nat>, t: seq<nat>, words: seq<nat>)
    requires 0 < n < W
    decreases words
  {
    if |seen| >= |t| then words == [] && seen == t
    else
      words != [] && words[0] < W && Accepted(words[0], n)
      && Stops(n, Note(seen, Scaled(words[0], n)), t, words[1..])
  }

  /** Different positions below n. */
  ghost predicate Positionable(n: nat, t: seq<nat>) { Distinct(t) && forall i :: 0 <= i < |t| ==> t[i] < n }

  lemma {:induction false} StopsExtends(n: nat, seen: seq<nat>, t: seq<nat>, words: seq<nat>)
    requires 0 < n < W && Stops(n, seen, t, words)
    ensures |seen| <= |t| && t[..|seen|] == seen
    decreases words
  {
    hide Accepted, Scaled;
    if |seen| < |t| {
      var next := Note(seen, Scaled(words[0], n));
      StopsExtends(n, next, t, words[1..]);
      assert t[..|next|][..|seen|] == t[..|seen|];
    }
  }

  // The sample of a group is what its deciding words stop with.

  ghost function DecidingWords(ws: Stream, pos: nat, n: nat, i: nat, m: nat): (words: seq<nat>)
    requires Lively(ws) && 0 < n < W && i <= m
    ensures |words| == m - i && forall j :: 0 <= j < m - i ==> words[j] == DecidingWord(ws, pos, n, i + j)
  {
    seq<nat>(m - i, j requires 0 <= j < m - i => DecidingWord(ws, pos, n, i + j))
  }

  lemma OneMoreNoted(ws: Stream, pos: nat, n: nat, i: nat)
    requires Lively(ws) && 0 < n < W
    ensures DistinctPositions(ws, pos, n, i + 1)
         == Note(DistinctPositions(ws, pos, n, i), Scaled(DecidingWord(ws, pos, n, i), n))
    ensures DecidingWord(ws, pos, n, i) < W && Accepted(DecidingWord(ws, pos, n, i), n)
  {
    hide Accepted, Scaled, DistinctPositions, Positions;
    OneMore(ws, pos, n, i);
    PositionAt(ws, pos, n, i + 1, i);
  }

  lemma {:induction false} RunStops(ws: Stream, pos: nat, n: nat, k: nat, m: nat, i: nat)
    requires Lively(ws) && 0 < n < W && IsFirstShown(ws, pos, n, k, m) && i <= m
    ensures Stops(n, DistinctPositions(ws, pos, n, i), DistinctPositions(ws, pos, n, m),
                  DecidingWords(ws, pos, n, i, m))
    decreases m - i
  {
    hide Accepted, Scaled, DistinctPositions, Lively, DecidingWord;
    if i < m {
      RunStops(ws, pos, n, k, m, i + 1);
      OneMoreNoted(ws, pos, n, i);
      assert DecidingWords(ws, pos, n, i, m)[1..] == DecidingWords(ws, pos, n, i + 1, m);
    }
  }

  lemma NothingShown(ws: Stream, pos: nat, n: nat)
    requires Lively(ws) && 0 < n < W
    ensures DistinctPositions(ws, pos, n, 0) == []
  {}

  /** What a group contributes without replacement: its units at the positions its words stop with. */
  lemma SubsampleStops(ids: seq<nat>, k: nat, ws: Stream, pos: nat) returns (t: seq<nat>, words: seq<nat>)
    requires Lively(ws) && 0 < |ids| < W && k <= |ids| && Varied(ws)
    ensures Positionable(|ids|, t) && |t| == k
    ensures GroupSample(ids, k, false, ws, pos) == Gather(ids, t)
    ensures forall j :: 0 <= j < |words| ==> words[j] == DecidingWord(ws, pos, |ids|, j)
    ensures Stops(|ids|, [], t, words)
  {
    hide Lively, DistinctPositions, DecidingWord, Stops;
    assert ShowsDistinct(ws, pos, |ids|, k);
    var bound: nat :| |DistinctPositions(ws, pos, |ids|, bound)| >= k;
    var m := FirstShownExists(ws, pos, |ids|, k, 0, bound);
    DrawsTakenAre(ws, pos, |ids|, k, m);
    RunStops(ws, pos, |ids|, k, m, 0);
    NothingShown(ws, pos, |ids|);
    t, words := DistinctPositions(ws, pos, |ids|, m), DecidingWords(ws, pos, |ids|, 0, m);
  }

  // Counting.

  /** The accepted words that draw one of these positions. */
  ghost function WordsInto(n: nat, seen: seq<nat>): set<nat>
    requires 0 < n < W
  {
    if seen == [] then {} else WordsInto(n, seen[..|seen| - 1]) + WordsFor(n, seen[|seen| - 1])
  }

  lemma {:induction false} WordsIntoAre(n: nat, seen: seq<nat>, x: nat)
    requires 0 < n < W
    ensures x in WordsInto(n, seen) <==> x < W && Accepted(x, n) && Scaled(x, n) in seen
  {
    hide Accepted, Scaled;
    if seen != [] {
      assert seen == seen[..|seen| - 1] + [seen[|seen| - 1]];
      WordsIntoAre(n, seen[..|seen| - 1], x);
    }
  }

  lemma {:induction false} WordsIntoCount(n: nat, seen: seq<nat>)
    requires 0 < n < W && Positionable(n, seen)
    ensures |WordsInto(n, seen)| == Product(|seen|, W / n)
  {
    hide Product, WordsFor;
    if seen == [] {
      NoProduct(W / n);
    } else {
      var before, last := seen[..|seen| - 1], seen[|seen| - 1];
      WordsIntoCount(n, before);
      Unbiased(n, last);
      ProductStep(|before|, W / n);
      LastIsNew(n, before, last);
    }
  }

  lemma NoProduct(b: nat)
    ensures Product(0, b) == 0
  {}

  lemma LastIsNew(n: nat, before: seq<nat>, last: nat)
    requires 0 < n < W && last !in before
    ensures WordsInto(n, before) !! WordsFor(n, last)
  {
    hide Accepted, Scaled;
    forall x | x in WordsInto(n, before)
      ensures x !in WordsFor(n, last)
    {
      WordsIntoAre(n, before, x);
    }
  }

  /** The tuples of m words that go from the first j positions of `t` to all of it. */
  ghost function StopTuples(n: nat, t: seq<nat>, j: nat, m: nat): set<seq<nat>>
    requires 0 < n < W && j <= |t|
    decreases m
  {
    if j == |t| then (if m == 0 then {[]} else {})
    else if m == 0 then {}
    else
      Prepend(WordsInto(n, t[..j]), StopTuples(n, t, j, m - 1))
      + Prepend(WordsFor(n, t[j]), StopTuples(n, t, j + 1, m - 1))
  }

  lemma {:induction false} StopTuplesAre(n: nat, t: seq<nat>, j: nat, m: nat, words: seq<nat>)
    requires 0 < n < W && j <= |t| && Positionable(n, t)
    ensures words in StopTuples(n, t, j, m) <==> |words| == m && Stops(n, t[..j], t, words)
    decreases m
  {
    hide Accepted, Scaled, StopTuples, Stops, WordsInto, WordsFor, Positionable;
    if j == |t| || m == 0 || words == [] {
      NoWordsLeft(n, t, j, m, words);
    } else {
      StopTuplesAre(n, t, j, m - 1, words[1..]);
      StopTuplesAre(n, t, j + 1, m - 1, words[1..]);
      StopTuplesStep(n, t, j, m, words);
      WordsIntoAre(n, t[..j], words[0]);
      WordsForAre(n, t[j], words[0]);
      FirstWordStops(n, t, j, words);
    }
  }

  lemma NoWordsLeft(n: nat, t: seq<nat>, j: nat, m: nat, words: seq<nat>)
    requires 0 < n < W && j <= |t| && (j == |t| || m == 0 || words == [])
    ensures words in StopTuples(n, t, j, m) <==> |words| == m && Stops(n, t[..j], t, words)
  {
    assert t[..|t|] == t;
  }

  lemma WordsForAre(n: nat, v: nat, x: nat)
    requires 0 < n < W
    ensures x in WordsFor(n, v) <==> x < W && Accepted(x, n) && Scaled(x, n) == v
  {}

  lemma StopTuplesStep(n: nat, t: seq<nat>, j: nat, m: nat, words: seq<nat>)
    requires 0 < n < W && j < |t| && m > 0 && words != []
    ensures words in StopTuples(n, t, j, m) <==>
              || (words[0] in WordsInto(n, t[..j]) && words[1..] in StopTuples(n, t, j, m - 1))
              || (words[0] in WordsFor(n, t[j]) && words[1..] in StopTuples(n, t, j + 1, m - 1))
  {
    hide WordsInto, WordsFor;
  }

  lemma FirstWordStops(n: nat, t: seq<nat>, j: nat, words: seq<nat>)
    requires 0 < n < W && j < |t| && Positionable(n, t) && words != []
    ensures var x := Scaled(words[0], n);
      Stops(n, t[..j], t, words) <==>
        words[0] < W && Accepted(words[0], n)
        && if x in t[..j] then Stops(n, t[..j], t, words[1..])
           else x == t[j] && Stops(n, t[..j + 1], t, words[1..])
    ensures t[j] !in t[..j]
  {
    hide Accepted, Scaled;
    var x := Scaled(words[0], n);
    var next := Note(t[..j], x);
    assert t[..j + 1] == t[..j] + [t[j]];
    if x !in t[..j] && Stops(n, next, t, words[1..]) {
      StopsExtends(n, next, t, words[1..]);
      assert t[..j + 1][j] == next[j];
    }
  }

  /** How many such tuples there are; this depends on the lengths only. */
  ghost function Tickets(q: nat, k: nat, j: nat, m: nat): nat
    requires j <= k
    decreases m
  {
    if j == k then (if m == 0 then 1 else 0)
    else if m == 0 then 0
    else Product(Product(j, q), Tickets(q, k, j, m - 1)) + Product(q, Tickets(q, k, j + 1, m - 1))
  }

  lemma {:induction false} StopTuplesCount(n: nat, t: seq<nat>, j: nat, m: nat)
    requires 0 < n < W && j <= |t| && Positionable(n, t)
    ensures |StopTuples(n, t, j, m)| == Tickets(W / n, |t|, j, m)
    decreases m
  {
    hide Product, StopTuples, Positionable, Tickets;
    if j == |t| || m == 0 {
      NoTicketsLeft(n, t, j, m);
    } else {
      StopTuplesCount(n, t, j, m - 1);
      StopTuplesCount(n, t, j + 1, m - 1);
      StopTuplesSplit(n, t, j, m);
      TicketsStep(W / n, |t|, j, m);
    }
  }

  lemma NoTicketsLeft(n: nat, t: seq<nat>, j: nat, m: nat)
    requires 0 < n < W && j <= |t| && (j == |t| || m == 0)
    ensures |StopTuples(n, t, j, m)| == Tickets(W / n, |t|, j, m)
  {}

  lemma TicketsStep(q: nat, k: nat, j: nat, m: nat)
    requires j < k && m > 0
    ensures Tickets(q, k, j, m)
         == Product(Product(j, q), Tickets(q, k, j, m - 1)) + Product(q, Tickets(q, k, j + 1, m - 1))
  {}

  lemma StopTuplesSplit(n: nat, t: seq<nat>, j: nat, m: nat)
    requires 0 < n < W && j < |t| && Positionable(n, t) && m > 0
    ensures |StopTuples(n, t, j, m)|
         == Product(Product(j, W / n), |StopTuples(n, t, j, m - 1)|) + Product(W / n, |StopTuples(n, t, j + 1, m - 1)|)
  {
    var repeat, other := StopTuples(n, t, j, m - 1), StopTuples(n, t, j + 1, m - 1);
    var a, b := WordsInto(n, t[..j]), WordsFor(n, t[j]);
    assert StopTuples(n, t, j, m) == Prepend(a, repeat) + Prepend(b, other);
    hide Product, Prepend, WordsFor, WordsInto, StopTuples;
    WordsIntoCount(n, t[..j]);
    Unbiased(n, t[j]);
    LastIsNew(n, t[..j], t[j]);
    PrependSize(a, repeat);
    PrependSize(b, other);
    PrependApart(a, repeat, b, other);
  }

  lemma PrependApart(a: set<nat>, v: set<seq<nat>>, b: set<nat>, w: set<seq<nat>>)
    requires a !! b
    ensures Prepend(a, v) !! Prepend(b, w)
  {}

  /**
   * Any two sequences of k different positions are completed by equally many tuples of m words, for every m.
   */
  lemma SubsampleIsUniform(n: nat, t: seq<nat>, m: nat) returns (tuples: set<seq<nat>>)
    requires 0 < n < W && Positionable(n, t)
    ensures forall words :: words in tuples <==> |words| == m && Stops(n, [], t, words)
    ensures |tuples| == Tickets(W / n, |t|, 0, m)
  {
    tuples := StopTuples(n, t, 0, m);
    StopTuplesCount(n, t, 0, m);
    forall words: seq<nat>
      ensures words in tuples <==> |words| == m && Stops(n, [], t, words)
    {
      StopTuplesAre(n, t, 0, m, words);
      assert t[..0] == [];
    }
  }
}

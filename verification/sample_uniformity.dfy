/** With replacement every sequence of units of a group is drawn by the same number of word tuples. */
module SampleUniformity {
  import opened Sequences
  import opened StableSort
  import opened BlockRecurrence
  import opened BoundedRand
  import opened Shuffle
  import opened Resampling

  /** The word that decides the i-th draw below n. */
  ghost function DecidingWord(ws: Stream, pos: nat, n: nat, i: nat): nat
    requires Lively(ws) && 0 < n < W
  {
    ws(FirstAccepted(ws, PositionsEnd(ws, pos, n, i), n))
  }

  /** Each word is accepted for a group of these units and stands for the unit that it selects. */
  ghost predicate Selects(ids: seq<nat>, words: seq<nat>, target: seq<nat>)
    requires 0 < |ids| < W
  {
    |words| == |target| && forall i :: 0 <= i < |words| ==> SelectsOne(ids, words[i], target[i])
  }

  ghost predicate SelectsOne(ids: seq<nat>, word: nat, unit: nat)
    requires 0 < |ids| < W
  {
    word < W && Accepted(word, |ids|) && Scaled(word, |ids|) < |ids| && ids[Scaled(word, |ids|)] == unit
  }

  lemma {:induction false} PositionAt(ws: Stream, pos: nat, n: nat, m: nat, i: nat)
    requires Lively(ws) && 0 < n < W && i < m
    ensures Positions(ws, pos, n, m)[i] == Scaled(DecidingWord(ws, pos, n, i), n)
    ensures DecidingWord(ws, pos, n, i) < W && Accepted(DecidingWord(ws, pos, n, i), n)
  {
    hide Accepted, Scaled;
    if i < m - 1 {
      PositionAt(ws, pos, n, m - 1, i);
    }
  }

  /** What a group contributes with replacement is what the deciding words of its draws select. */
  lemma SampleIsSelected(ids: seq<nat>, k: nat, ws: Stream, pos: nat) returns (words: seq<nat>)
    requires Lively(ws) && 0 < |ids| < W
    ensures |words| == k && forall i :: 0 <= i < k ==> words[i] == DecidingWord(ws, pos, |ids|, i)
    ensures Selects(ids, words, GroupSample(ids, k, true, ws, pos))
  {
    hide Accepted, Scaled, Lively, DecidingWord;
    words := seq(k, i requires 0 <= i < k => DecidingWord(ws, pos, |ids|, i));
    forall i | 0 <= i < k
      ensures SelectsOne(ids, words[i], GroupSample(ids, k, true, ws, pos)[i])
    {
      PositionAt(ws, pos, |ids|, k, i);
      assert GroupSample(ids, k, true, ws, pos)[i] == ids[Positions(ws, pos, |ids|, k)[i]];
    }
  }

  ghost function TuplesSelecting(ids: seq<nat>, target: seq<nat>): set<seq<nat>>
    requires 0 < |ids| < W && forall i :: 0 <= i < |target| ==> target[i] in ids
  {
    if target == [] then {[]}
    else
      assert target[0] in ids;
      Prepend(WordsFor(|ids|, IndexOf(ids, target[0])), TuplesSelecting(ids, target[1..]))
  }

  /** floor(2^32 / n) to the k-th power. */
  ghost function Ways(n: nat, k: nat): nat
    requires 0 < n
  {
    if k == 0 then 1 else Product(W / n, Ways(n, k - 1))
  }

  lemma {:induction false} TuplesSelectingAre(ids: seq<nat>, target: seq<nat>, words: seq<nat>)
    requires 0 < |ids| < W && Distinct(ids) && forall i :: 0 <= i < |target| ==> target[i] in ids
    ensures words in TuplesSelecting(ids, target) <==> Selects(ids, words, target)
  {
    if target != [] && words != [] {
      assert target[0] in ids;
      TuplesSelectingAre(ids, target[1..], words[1..]);
      FirstSelects(ids, words[0], target[0]);
      SelectsSplits(ids, words, target);
    }
  }

  lemma SelectsSplits(ids: seq<nat>, words: seq<nat>, target: seq<nat>)
    requires 0 < |ids| < W && words != [] && target != []
    ensures Selects(ids, words, target)
       <==> SelectsOne(ids, words[0], target[0]) && Selects(ids, words[1..], target[1..])
  {
    hide SelectsOne;
    if SelectsOne(ids, words[0], target[0]) && Selects(ids, words[1..], target[1..]) {
      forall i | 0 <= i < |words|
        ensures SelectsOne(ids, words[i], target[i])
      {
        if i > 0 { assert SelectsOne(ids, words[1..][i - 1], target[1..][i - 1]); }
      }
    }
  }

  lemma FirstSelects(ids: seq<nat>, word: nat, unit: nat)
    requires 0 < |ids| < W && Distinct(ids) && unit in ids
    ensures word in WordsFor(|ids|, IndexOf(ids, unit)) <==> SelectsOne(ids, word, unit)
  {
    hide Accepted, Scaled;
  }

  /** Any two target sequences of one length have the same number of tuples: floor(2^32 / n)^k. */
  lemma {:induction false} SampleIsUniform(ids: seq<nat>, target: seq<nat>)
    requires 0 < |ids| < W && Distinct(ids) && forall i :: 0 <= i < |target| ==> target[i] in ids
    ensures |TuplesSelecting(ids, target)| == Ways(|ids|, |target|)
  {
    hide Product, Prepend, WordsFor;
    if target != [] {
      assert target[0] in ids;
      SampleIsUniform(ids, target[1..]);
      Unbiased(|ids|, IndexOf(ids, target[0]));
      PrependSize(WordsFor(|ids|, IndexOf(ids, target[0])), TuplesSelecting(ids, target[1..]));
    }
  }

  // Without replacement.

  /** Position a is the first in `s` to hold its value x, and y comes later or not at all. */
  ghost predicate ShownBefore(s: seq<nat>, x: nat, y: nat, a: nat) { a < |s| && s[a] == x && y !in s[..a + 1] }

  lemma ShownStays(s: seq<nat>, more: seq<nat>, x: nat, y: nat, a: nat)
    requires ShownBefore(s, x, y, a)
    ensures ShownBefore(s + more, x, y, a)
  {
    assert (s + more)[..a + 1] == s[..a + 1];
  }

  /** Repeats are left out and the rest keeps the order in which it was first drawn. */
  lemma {:induction false} FirstOccurrencesOrder(s: seq<nat>, i: nat, j: nat) returns (a: nat)
    requires i < j < |FirstOccurrences(s)|
    ensures ShownBefore(s, FirstOccurrences(s)[i], FirstOccurrences(s)[j], a)
  {
    var last := |s| - 1;
    var d := FirstOccurrences(s[..last]);
    assert s == s[..last] + [s[last]];
    if j < |d| {
      a := FirstOccurrencesOrder(s[..last], i, j);
      ShownStays(s[..last], [s[last]], d[i], d[j], a);
    } else {
      assert d[i] in s[..last];
      a :| 0 <= a < last && s[..last][a] == d[i];
      assert forall y :: y in s[..a + 1] ==> y in s[..last];
    }
  }
}

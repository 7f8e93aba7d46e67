/** Discordant matched pairs, found in one pass, and the design matrix stacked from them and the reservoir. */
module DiscordantPairs {
  import opened Vectors

  /** Matched subjects: outcome, treatment, covariates, and the stratum each belongs to. */
  datatype Matched = Matched(y: Vec, w: Vec, x: Mat, strata: seq<int>)

  ghost predicate IsMatched(d: Matched, p: nat) {
    |d.y| == |d.w| == |d.x| == |d.strata| && forall i :: 0 <= i < |d.x| ==> |d.x[i]| == p
  }

  datatype Pair = Pair(first: nat, second: nat)

  /** Subjects i and j are the first and the second member of their stratum. */
  ghost predicate FirstTwo(strata: seq<int>, i: nat, j: nat) {
    i < j < |strata| && strata[i] == strata[j] && forall l :: 0 <= l < j && l != i ==> strata[l] != strata[j]
  }

  /** How often an id occurs among the first k subjects, and where first. */
  function Count(strata: seq<int>, k: nat, id: int): nat
    requires k <= |strata|
  {
    if k == 0 then 0 else Count(strata, k - 1, id) + if strata[k - 1] == id then 1 else 0
  }

  function FirstOf(strata: seq<int>, k: nat, id: int): (i: nat)
    requires k <= |strata| && Count(strata, k, id) > 0
    ensures i < k && strata[i] == id
  {
    if Count(strata, k - 1, id) > 0 then FirstOf(strata, k - 1, id) else k - 1
  }

  lemma {:induction false} CountZero(strata: seq<int>, k: nat, id: int)
    requires k <= |strata|
    ensures Count(strata, k, id) == 0 <==> forall l :: 0 <= l < k ==> strata[l] != id
  {
    if k > 0 {
      CountZero(strata, k - 1, id);
    }
  }

  lemma {:induction false} CountOne(strata: seq<int>, k: nat, i: nat, id: int)
    requires i < k <= |strata| && strata[i] == id
    ensures Count(strata, k, id) == 1 <==> forall l :: 0 <= l < k && l != i ==> strata[l] != id
    ensures Count(strata, k, id) == 1 ==> FirstOf(strata, k, id) == i
  {
    CountZero(strata, k - 1, id);
    if i < k - 1 {
      CountOne(strata, k - 1, i, id);
      CountZero(strata, k - 1, id);
    }
  }

  /** The pairs completed within the first k subjects whose outcomes differ, in order of completion. */
  function Pairs(strata: seq<int>, y: Vec, k: nat): seq<Pair>
    requires k <= |strata| == |y|
  {
    if k == 0 then []
    else
      var before := Pairs(strata, y, k - 1);
      if Count(strata, k - 1, strata[k - 1]) == 1 && y[FirstOf(strata, k - 1, strata[k - 1])] != y[k - 1]
      then before + [Pair(FirstOf(strata, k - 1, strata[k - 1]), k - 1)]
      else before
  }

  /** Exactly the discordant pairs, each once and in order of the second member. */
  lemma {:induction false} PairsAre(strata: seq<int>, y: Vec, k: nat)
    requires k <= |strata| == |y|
    ensures forall q :: q in Pairs(strata, y, k)
                    <==> FirstTwo(strata, q.first, q.second) && q.second < k && y[q.first] != y[q.second]
    ensures forall a, b :: 0 <= a < b < |Pairs(strata, y, k)| ==>
              Pairs(strata, y, k)[a].second < Pairs(strata, y, k)[b].second
  {
    if k > 0 {
      PairsAre(strata, y, k - 1);
      var before, j := Pairs(strata, y, k - 1), k - 1;
      forall i: nat
        ensures FirstTwo(strata, i, j) <==> Count(strata, j, strata[j]) == 1 && i == FirstOf(strata, j, strata[j])
      {
        SecondMember(strata, j, i);
      }
      forall a | 0 <= a < |before|
        ensures before[a].second < k - 1
      {
        assert before[a] in before;
      }
    }
  }

  lemma SecondMember(strata: seq<int>, j: nat, i: nat)
    requires j < |strata|
    ensures FirstTwo(strata, i, j) <==> Count(strata, j, strata[j]) == 1 && i == FirstOf(strata, j, strata[j])
  {
    if i < j && strata[i] == strata[j] {
      CountOne(strata, j, i, strata[j]);
    }
  }

  /** When no stratum has a third member, the first two are all. */
  lemma SmallStrataArePairs(strata: seq<int>, y: Vec, i: nat, j: nat)
    requires |strata| == |y| && i < j < |strata| && strata[i] == strata[j]
    requires forall a, b, c :: 0 <= a < b < c < |strata| ==> !(strata[a] == strata[b] == strata[c])
    ensures Pair(i, j) in Pairs(strata, y, |strata|) <==> y[i] != y[j]
  {
    PairsAre(strata, y, |strata|);
    forall l | 0 <= l < j && l != i
      ensures strata[l] != strata[j]
    {}
    assert Pair(i, j).first == i && Pair(i, j).second == j;
  }

  // The buffers never overflow.

  /** The ids seen exactly once among the first k subjects. */
  ghost function Open(strata: seq<int>, k: nat): set<int>
    requires k <= |strata|
  {
    set i | 0 <= i < k && Count(strata, k, strata[i]) == 1 :: strata[i]
  }

  lemma OpenMember(strata: seq<int>, k: nat, id: int)
    requires k <= |strata|
    ensures id in Open(strata, k) <==> Count(strata, k, id) == 1
  {
    CountZero(strata, k, id);
  }

  lemma OpenStep(strata: seq<int>, k: nat)
    requires k < |strata|
    ensures var seen := Count(strata, k, strata[k]);
            |Open(strata, k + 1)| == |Open(strata, k)| + (if seen == 0 then 1 else if seen == 1 then -1 else 0)
  {
    var id, before, after := strata[k], Open(strata, k), Open(strata, k + 1);
    forall x
      ensures x != id ==> (x in after <==> x in before)
      ensures id in before <==> Count(strata, k, id) == 1
      ensures id in after <==> Count(strata, k, id) == 0
    {
      OpenMember(strata, k, x);
      OpenMember(strata, k + 1, x);
      OpenMember(strata, k, id);
      OpenMember(strata, k + 1, id);
    }
    if Count(strata, k, id) == 0 {
      assert after == before + {id};
    } else if Count(strata, k, id) == 1 {
      assert before == after + {id};
    } else {
      assert after == before;
    }
  }

  /** Every pair takes two subjects, and every stratum still open takes one more. */
  lemma {:induction false} PairsFit(strata: seq<int>, y: Vec, k: nat)
    requires k <= |strata| == |y|
    ensures 2 * |Pairs(strata, y, k)| + |Open(strata, k)| <= k
  {
    if k == 0 {
      assert Open(strata, 0) == {};
    } else {
      hide Open;
      PairsFit(strata, y, k - 1);
      OpenStep(strata, k - 1);
      PairsStep(strata, y, k - 1);
    }
  }

  lemma PairsStep(strata: seq<int>, y: Vec, k: nat)
    requires k < |strata| == |y|
    ensures |Pairs(strata, y, k + 1)| <= |Pairs(strata, y, k)| + if Count(strata, k, strata[k]) == 1 then 1 else 0
  {}

  lemma {:induction false} PairsGrow(strata: seq<int>, y: Vec, k: nat, m: nat)
    requires k <= m <= |strata| == |y|
    ensures |Pairs(strata, y, k)| <= |Pairs(strata, y, m)|
  {
    if k < m {
      PairsGrow(strata, y, k, m - 1);
    }
  }

  // The rows.

  datatype Row = Row(y01: real, t: real, x: Vec)

  /** The within-pair difference, first member less second. */
  function RowOf(d: Matched, q: Pair): Row
    requires |d.y| == |d.w| == |d.x| && q.first < |d.y| && q.second < |d.y| && |d.x[q.first]| == |d.x[q.second]|
  {
    Row(if d.y[q.first] - d.y[q.second] < 0.0 then 0.0 else 1.0,
        d.w[q.first] - d.w[q.second],
        Minus(d.x[q.first], d.x[q.second]))
  }

  lemma ReversedRow(d: Matched, p: nat, i: nat, j: nat)
    requires IsMatched(d, p) && i < |d.y| && j < |d.y| && d.y[i] != d.y[j]
    ensures var r, s := RowOf(d, Pair(i, j)), RowOf(d, Pair(j, i));
            s.y01 == 1.0 - r.y01 && s.t == -r.t && s.x == Scale(-1.0, r.x)
  {}

  /** Which member comes first does not matter to the conditional likelihood: the signed predictor is the same. */
  lemma ReversalKeepsMargin(d: Matched, p: nat, i: nat, j: nat, bT: real, beta: Vec)
    requires IsMatched(d, p) && i < |d.y| && j < |d.y| && d.y[i] != d.y[j] && |beta| == p
    ensures var r, s := RowOf(d, Pair(i, j)), RowOf(d, Pair(j, i));
            (2.0 * r.y01 - 1.0) * (r.t * bT + Dot(beta, r.x)) == (2.0 * s.y01 - 1.0) * (s.t * bT + Dot(beta, s.x))
  {
    var r, s := RowOf(d, Pair(i, j)), RowOf(d, Pair(j, i));
    ReversedRow(d, p, i, j);
    DotScale(beta, -1.0, r.x);
    assert s.t * bT == -(r.t * bT);
  }

  /** What the map holds for an id among the first k subjects: nothing, its one member, or -1 for complete. */
  ghost predicate Tracks(first: map<int, int>, strata: seq<int>, k: nat)
    requires k <= |strata|
  {
    forall id: int ::
      && (id in first <==> Count(strata, k, id) > 0)
      && (id in first ==> first[id] == if Count(strata, k, id) == 1 then FirstOf(strata, k, id) else -1)
  }

  lemma TracksStep(first: map<int, int>, strata: seq<int>, k: nat)
    requires k < |strata| && Tracks(first, strata, k)
    ensures var id := strata[k];
            && (id !in first ==> Tracks(first[id := k], strata, k + 1))
            && (id in first ==> Tracks(first[id := -1], strata, k + 1))
            && (id in first && first[id] < 0 ==> Tracks(first, strata, k + 1))
  {
    var id := strata[k];
    if id in first && first[id] < 0 {
      assert first[id := -1] == first;
    }
  }

  /** Filled rows 0, ..., nd - 1 of the output buffers. */
  ghost predicate Filled(d: Matched, p: nat, k: nat, y01: array<real>, t: array<real>, x: array<Vec>, nd: nat)
    requires IsMatched(d, p) && k <= |d.y| && nd <= y01.Length && nd <= t.Length && nd <= x.Length
    reads y01, t, x
  {
    && nd == |Pairs(d.strata, d.y, k)|
    && forall r :: 0 <= r < nd ==> HoldsRow(d, p, Pairs(d.strata, d.y, k)[r], Row(y01[r], t[r], x[r]))
  }

  ghost predicate HoldsRow(d: Matched, p: nat, q: Pair, row: Row)
    requires IsMatched(d, p)
  {
    q.first < q.second < |d.y| && row == RowOf(d, q)
  }

  /** `find_discordant_pairs`, into buffers of at least floor(n/2) rows. */
  method FindDiscordantPairs(d: Matched, p: nat, y01: array<real>, t: array<real>, x: array<Vec>) returns (nd: nat)
    requires IsMatched(d, p) && y01 != t
    requires y01.Length == t.Length == x.Length && y01.Length >= |d.y| / 2
    requires forall r :: 0 <= r < x.Length ==> |x[r]| == p
    modifies y01, t, x
    ensures nd <= |d.y| / 2 && Filled(d, p, |d.y|, y01, t, x, nd)
  {
    var n := |d.y|;
    var first: map<int, int> := map[];
    nd := 0;
    for i := 0 to n
      invariant Tracks(first, d.strata, i)
      invariant nd <= y01.Length && Filled(d, p, i, y01, t, x, nd)
      invariant forall r :: 0 <= r < x.Length ==> |x[r]| == p
    {
      hide Tracks;
      Room(d.strata, d.y, i);
      LookUp(first, d.strata, i);
      TracksStep(first, d.strata, i);
      var id := d.strata[i];
      if id !in first {
        first := first[id := i];
      } else if first[id] >= 0 {
        var i1 := first[id];
        first := first[id := -1];
        if d.y[i1] == d.y[i] { continue; }
        WriteRow(d, p, Pair(i1, i), y01, t, x, nd);
        nd := nd + 1;
      }
    }
    PairsFit(d.strata, d.y, n);
  }

  method WriteRow(d: Matched, p: nat, q: Pair, y01: array<real>, t: array<real>, x: array<Vec>, nd: nat)
    requires IsMatched(d, p) && q.first < q.second < |d.y| && y01 != t
    requires nd < y01.Length == t.Length == x.Length && |x[nd]| == p
    modifies y01, t, x
    ensures HoldsRow(d, p, q, Row(y01[nd], t[nd], x[nd])) && |x[nd]| == p
    ensures forall r :: 0 <= r < y01.Length && r != nd ==>
              y01[r] == old(y01[r]) && t[r] == old(t[r]) && x[r] == old(x[r])
  {
    var yd := d.y[q.first] - d.y[q.second];
    y01[nd] := if yd < 0.0 then 0.0 else 1.0;
    t[nd] := d.w[q.first] - d.w[q.second];
    if p > 0 { x[nd] := Minus(d.x[q.first], d.x[q.second]); }
    assert x[nd] == Minus(d.x[q.first], d.x[q.second]);
  }

  lemma LookUp(first: map<int, int>, strata: seq<int>, k: nat)
    requires k < |strata| && Tracks(first, strata, k)
    ensures var id := strata[k];
            && (id in first && first[id] >= 0 <==> Count(strata, k, id) == 1)
            && (id in first && first[id] >= 0 ==> first[id] == FirstOf(strata, k, id) < k)
  {}

  /** A row still to be written has a place. */
  lemma Room(strata: seq<int>, y: Vec, k: nat)
    requires k < |strata| == |y|
    ensures |Pairs(strata, y, k)| <= |Pairs(strata, y, k + 1)| <= |y| / 2
  {
    PairsFit(strata, y, |y|);
    PairsGrow(strata, y, k + 1, |y|);
  }

  // The stacked design.

  /** One row [intercept | treatment | covariates]. */
  function DesignRow(intercept: real, t: real, x: Vec): Vec { [intercept, t] + x }

  datatype Design = Design(x: Mat, y: Vec, nd: nat)

  /** `build_matching_combined_clogit_design_cpp`: pair rows without intercept, then the reservoir. */
  method BuildDesign(d: Matched, p: nat, yR: Vec, wR: Vec, xR: Mat) returns (design: Design)
    requires IsMatched(d, p) && |yR| == |wR| && IsMat(xR, |yR|, p)
    ensures IsDesign(design, d, p, yR, wR, xR)
  {
    var n := |d.y| / 2 + 1;
    var blank := seq(p, i => 0.0);
    var y01, t, x := new real[n], new real[n], new Vec[n](_ => blank);
    var nd := FindDiscordantPairs(d, p, y01, t, x);
    var rows := seq(nd, r requires 0 <= r < nd reads t, x => DesignRow(0.0, t[r], x[r]));
    var reservoir := seq(|yR|, i requires 0 <= i < |yR| => DesignRow(1.0, wR[i], xR[i]));
    design := Design(rows + reservoir, y01[..nd] + yR, nd);
  }

  ghost predicate IsDesign(g: Design, d: Matched, p: nat, yR: Vec, wR: Vec, xR: Mat)
    requires IsMatched(d, p) && |yR| == |wR| && IsMat(xR, |yR|, p)
  {
    var pairs := Pairs(d.strata, d.y, |d.y|);
    && g.nd == |pairs| && |g.x| == |g.y| == |pairs| + |yR|
    && (forall r :: 0 <= r < |pairs| ==> IsPairRow(d, p, pairs[r], g.x[r], g.y[r]))
    && (forall i :: 0 <= i < |yR| ==> g.x[|pairs| + i] == DesignRow(1.0, wR[i], xR[i]) && g.y[|pairs| + i] == yR[i])
  }

  ghost predicate IsPairRow(d: Matched, p: nat, q: Pair, row: Vec, y: real)
    requires IsMatched(d, p)
  {
    q.first < q.second < |d.y| && y == RowOf(d, q).y01 && row == DesignRow(0.0, RowOf(d, q).t, RowOf(d, q).x)
  }

  /** The linear predictor of one subject. */
  function Predictor(b0: real, bT: real, beta: Vec, w: real, x: Vec): real
    requires |x| == |beta|
  {
    b0 + w * bT + Dot(beta, x)
  }

  lemma RowPredictor(c: real, t: real, x: Vec, b0: real, bT: real, beta: Vec)
    requires |x| == |beta|
    ensures Dot(DesignRow(c, t, x), [b0, bT] + beta) == c * b0 + t * bT + Dot(beta, x)
  {
    var r, b := DesignRow(c, t, x), [b0, bT] + beta;
    assert r[1..][1..] == x && b[1..][1..] == beta;
    DotSymmetric(x, beta);
  }

  /** A pair row yields the difference of its members' predictors, whatever the intercept. */
  lemma StackedPair(g: Design, d: Matched, p: nat, yR: Vec, wR: Vec, xR: Mat, r: nat, b0: real, bT: real, beta: Vec)
    requires IsMatched(d, p) && |yR| == |wR| && IsMat(xR, |yR|, p) && |beta| == p
    requires IsDesign(g, d, p, yR, wR, xR) && r < g.nd
    ensures var q := Pairs(d.strata, d.y, |d.y|)[r];
            && |g.x[r]| == p + 2 && q.first < q.second < |d.y|
            && Dot(g.x[r], [b0, bT] + beta) == Predictor(b0, bT, beta, d.w[q.first], d.x[q.first])
                                               - Predictor(b0, bT, beta, d.w[q.second], d.x[q.second])
  {
    PairPredictor(d, p, Pairs(d.strata, d.y, |d.y|)[r], g.x[r], g.y[r], b0, bT, beta);
  }

  /** The same coefficients give a reservoir row its subject's own predictor. */
  lemma StackedReservoir(g: Design, d: Matched, p: nat, yR: Vec, wR: Vec, xR: Mat, i: nat, b0: real, bT: real,
                         beta: Vec)
    requires IsMatched(d, p) && |yR| == |wR| && IsMat(xR, |yR|, p) && |beta| == p
    requires IsDesign(g, d, p, yR, wR, xR) && i < |yR|
    ensures |g.x[g.nd + i]| == p + 2
    ensures Dot(g.x[g.nd + i], [b0, bT] + beta) == Predictor(b0, bT, beta, wR[i], xR[i])
  {
    RowPredictor(1.0, wR[i], xR[i], b0, bT, beta);
  }

  lemma PairPredictor(d: Matched, p: nat, q: Pair, row: Vec, y: real, b0: real, bT: real, beta: Vec)
    requires IsMatched(d, p) && |beta| == p && IsPairRow(d, p, q, row, y)
    ensures |row| == p + 2 && Dot(row, [b0, bT] + beta) == Predictor(b0, bT, beta, d.w[q.first], d.x[q.first])
                                                         - Predictor(b0, bT, beta, d.w[q.second], d.x[q.second])
  {
    hide Dot;
    var r := RowOf(d, q);
    RowPredictor(0.0, r.t, r.x, b0, bT, beta);
    DotMinus(beta, d.x[q.first], d.x[q.second]);
    assert r.t * bT == d.w[q.first] * bT - d.w[q.second] * bT;
  }
}

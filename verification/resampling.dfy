/** Exchangeable resampling: strata, sampling of units, and the rows and match ids of one draw. */
module Resampling {
  import opened Sequences
  import opened Wrappers
  import opened StableSort
  import opened Apportionment
  import opened BlockRecurrence
  import opened BoundedRand
  import MersenneTwister

  // Strata.

  /** The stratum keys of the first n units in the order of first appearance. */
  function KeysOf(key: nat -> string, n: nat): seq<string> {
    if n == 0 then []
    else if key(n - 1) in KeysOf(key, n - 1) then KeysOf(key, n - 1)
    else KeysOf(key, n - 1) + [key(n - 1)]
  }

  /** The units below n of one stratum, ascending. */
  function Members(key: nat -> string, n: nat, k: string): (u: seq<nat>)
    ensures forall i :: 0 <= i < |u| ==> u[i] < n
  {
    if n == 0 then [] else Members(key, n - 1, k) + if key(n - 1) == k then [n - 1] else []
  }

  function Grouped(key: nat -> string, n: nat): (groups: seq<seq<nat>>)
    ensures |groups| == |KeysOf(key, n)|
    ensures forall g :: 0 <= g < |groups| ==> groups[g] == Members(key, n, KeysOf(key, n)[g])
  {
    seq(|KeysOf(key, n)|, g requires 0 <= g < |KeysOf(key, n)| => Members(key, n, KeysOf(key, n)[g]))
  }

  /** A unit is in the group of its own stratum and in no other; groups keep the unit order. */
  lemma {:induction false} MembersAre(key: nat -> string, n: nat, k: string, u: nat)
    ensures u in Members(key, n, k) <==> u < n && key(u) == k
    ensures Increasing(Members(key, n, k))
  {
    if n > 0 {
      MembersAre(key, n - 1, k, u);
    }
  }

  lemma {:induction false} KeysAre(key: nat -> string, n: nat, k: string)
    ensures Distinct(KeysOf(key, n))
    ensures k in KeysOf(key, n) <==> exists u :: 0 <= u < n && key(u) == k
  {
    if n > 0 {
      KeysAre(key, n - 1, k);
    }
  }

  lemma {:induction false} AbsentKey(key: nat -> string, n: nat, k: string)
    requires k !in KeysOf(key, n)
    ensures Members(key, n, k) == []
  {
    if n > 0 {
      AbsentKey(key, n - 1, k);
    }
  }

  function Sizes(groups: seq<seq<nat>>): (s: seq<nat>)
    ensures |s| == |groups| && forall g :: 0 <= g < |s| ==> s[g] == |groups[g]|
  {
    seq<nat>(|groups|, g requires 0 <= g < |groups| => |groups[g]|)
  }

  /** The next unit joins the group of its key ... */
  lemma GroupedJoin(key: nat -> string, n: nat, g: nat)
    requires g < |KeysOf(key, n)| && KeysOf(key, n)[g] == key(n)
    ensures Grouped(key, n + 1) == Grouped(key, n)[g := Grouped(key, n)[g] + [n]]
  {
    var keys := KeysOf(key, n);
    KeysAre(key, n, key(n));
    assert KeysOf(key, n + 1) == keys;
    var joined := Grouped(key, n)[g := Grouped(key, n)[g] + [n]];
    forall h | 0 <= h < |keys|
      ensures Grouped(key, n + 1)[h] == joined[h]
    {
      MembersStep(key, n, keys[h]);
      assert keys[h] == key(n) <==> h == g;
    }
  }

  /** ... or opens a new one. */
  lemma GroupedOpen(key: nat -> string, n: nat)
    requires key(n) !in KeysOf(key, n)
    ensures Grouped(key, n + 1) == Grouped(key, n) + [[n]]
  {
    var keys := KeysOf(key, n);
    AbsentKey(key, n, key(n));
    MembersStep(key, n, key(n));
    assert KeysOf(key, n + 1) == keys + [key(n)];
    var more := Grouped(key, n) + [[n]];
    forall h | 0 <= h < |keys|
      ensures Grouped(key, n + 1)[h] == more[h]
    {
      hide KeysOf, Members;
      assert keys[h] in keys;
      MembersStep(key, n, keys[h]);
    }
    assert Grouped(key, n + 1)[|keys|] == more[|keys|];
  }

  lemma MembersStep(key: nat -> string, n: nat, k: string)
    ensures Members(key, n + 1, k) == Members(key, n, k) + if key(n) == k then [n] else []
  {}

  lemma SizesJoin(groups: seq<seq<nat>>, g: nat, u: nat)
    requires g < |groups|
    ensures Sum(Sizes(groups[g := groups[g] + [u]])) == Sum(Sizes(groups)) + 1
  {
    assert Sizes(groups[g := groups[g] + [u]]) == Sizes(groups)[g := |groups[g]| + 1];
    SumUpdate(Sizes(groups), g, |groups[g]| + 1);
  }

  lemma SizesOpen(groups: seq<seq<nat>>, u: nat)
    ensures Sum(Sizes(groups + [[u]])) == Sum(Sizes(groups)) + 1
  {
    assert Sizes(groups + [[u]])[..|groups|] == Sizes(groups);
  }

  /** The groups cover every unit once, so their sizes add up to the number of units. */
  lemma {:induction false} GroupedCovers(key: nat -> string, n: nat)
    ensures Sum(Sizes(Grouped(key, n))) == n
  {
    hide Grouped, Sizes, Sum;
    if n == 0 {
      CoverNone(key);
    } else {
      GroupedCovers(key, n - 1);
      CoverStep(key, n - 1);
    }
  }

  lemma CoverNone(key: nat -> string)
    ensures Sum(Sizes(Grouped(key, 0))) == 0
  {
    assert Sizes(Grouped(key, 0)) == [];
  }

  lemma CoverStep(key: nat -> string, n: nat)
    ensures Sum(Sizes(Grouped(key, n + 1))) == Sum(Sizes(Grouped(key, n))) + 1
  {
    hide Grouped, KeysOf;
    if key(n) in KeysOf(key, n) {
      var g :| 0 <= g < |KeysOf(key, n)| && KeysOf(key, n)[g] == key(n);
      GroupedJoin(key, n, g);
      SizesJoin(Grouped(key, n), g, n);
    } else {
      GroupedOpen(key, n);
      SizesOpen(Grouped(key, n), n);
    }
  }

  /** Grouping by stratum in one pass with an index from keys to groups. */
  method GroupStrata(n: nat, key: nat -> string) returns (groups: seq<seq<nat>>)
    ensures groups == Grouped(key, n) && Sum(Sizes(groups)) == n
  {
    groups := [];
    var index: map<string, nat> := map[];
    for i := 0 to n
      invariant groups == Grouped(key, i)
      invariant forall k :: k in index <==> k in KeysOf(key, i)
      invariant forall k :: k in index ==> index[k] < |groups| && KeysOf(key, i)[index[k]] == k
    {
      var k := key(i);
      if k !in index {
        GroupedOpen(key, i);
        index := index[k := |groups|];
        groups := groups + [[i]];
      } else {
        var g := index[k];
        GroupedJoin(key, i, g);
        groups := groups[g := groups[g] + [i]];
      }
    }
    GroupedCovers(key, n);
  }

  // Sampling the units of one group.

  /** The first `m` positions drawn below `n` from the stream, and where drawing them ends. */
  ghost function Positions(ws: Stream, pos: nat, n: nat, m: nat): (s: seq<nat>)
    requires Lively(ws) && 0 < n < W
    ensures |s| == m && forall i :: 0 <= i < m ==> s[i] < n
  {
    if m == 0 then []
    else
      DrawBelow(ws, PositionsEnd(ws, pos, n, m - 1), n);
      Positions(ws, pos, n, m - 1) + [DrawValue(ws, PositionsEnd(ws, pos, n, m - 1), n)]
  }

  ghost function PositionsEnd(ws: Stream, pos: nat, n: nat, m: nat): nat
    requires Lively(ws) && 0 < n < W
  {
    if m == 0 then pos else DrawNext(ws, PositionsEnd(ws, pos, n, m - 1), n)
  }

  /** The distinct entries in the order of their first occurrence. */
  function FirstOccurrences(s: seq<nat>): (d: seq<nat>)
    ensures |d| <= |s| && forall x :: x in d <==> x in s
  {
    if s == [] then []
    else
      var d := FirstOccurrences(s[..|s| - 1]);
      assert s == s[..|s| - 1] + [s[|s| - 1]];
      if s[|s| - 1] in d then d else d + [s[|s| - 1]]
  }

  lemma {:induction false} FirstOccurrencesDistinct(s: seq<nat>)
    ensures Distinct(FirstOccurrences(s))
  {
    if s != [] {
      FirstOccurrencesDistinct(s[..|s| - 1]);
    }
  }

  /** The different positions among the first `m` draws, in the order in which they appear. */
  ghost function DistinctPositions(ws: Stream, pos: nat, n: nat, m: nat): (d: seq<nat>)
    requires Lively(ws) && 0 < n < W
    ensures Distinct(d) && forall i :: 0 <= i < |d| ==> d[i] < n
  {
    var s := Positions(ws, pos, n, m);
    FirstOccurrencesDistinct(s);
    assert forall i :: 0 <= i < |FirstOccurrences(s)| ==> FirstOccurrences(s)[i] in s;
    FirstOccurrences(s)
  }

  lemma OneMore(ws: Stream, pos: nat, n: nat, m: nat)
    requires Lively(ws) && 0 < n < W
    ensures var p, d := DrawValue(ws, PositionsEnd(ws, pos, n, m), n), DistinctPositions(ws, pos, n, m);
      DistinctPositions(ws, pos, n, m + 1) == if p in d then d else d + [p]
  {
    assert Positions(ws, pos, n, m + 1)[..m] == Positions(ws, pos, n, m);
  }

  /** Rejecting repeats ends: wherever it starts, the stream still holds k different positions. */
  ghost predicate Varied(ws: Stream)
    requires Lively(ws)
  {
    forall pos: nat, n: nat, k: nat | 0 < n < W && k <= n :: ShowsDistinct(ws, pos, n, k)
  }

  ghost predicate ShowsDistinct(ws: Stream, pos: nat, n: nat, k: nat)
    requires Lively(ws) && 0 < n < W
  {
    exists m: nat :: |DistinctPositions(ws, pos, n, m)| >= k
  }

  /** After exactly `m` draws the k-th different position has appeared. */
  ghost predicate IsFirstShown(ws: Stream, pos: nat, n: nat, k: nat, m: nat)
    requires Lively(ws) && 0 < n < W
  {
    |DistinctPositions(ws, pos, n, m)| == k && NotShownBefore(ws, pos, n, k, m)
  }

  ghost predicate NotShownBefore(ws: Stream, pos: nat, n: nat, k: nat, m: nat)
    requires Lively(ws) && 0 < n < W
  {
    forall i: nat :: i < m ==> |DistinctPositions(ws, pos, n, i)| < k
  }

  lemma NotShownStep(ws: Stream, pos: nat, n: nat, k: nat, m: nat)
    requires Lively(ws) && 0 < n < W
    requires NotShownBefore(ws, pos, n, k, m) && |DistinctPositions(ws, pos, n, m)| < k
    ensures NotShownBefore(ws, pos, n, k, m + 1)
  {}

  /** The run of draws that ends with the k-th different position is one run only. */
  lemma FirstShownUnique(ws: Stream, pos: nat, n: nat, k: nat, m: nat, m': nat)
    requires Lively(ws) && 0 < n < W && IsFirstShown(ws, pos, n, k, m) && IsFirstShown(ws, pos, n, k, m')
    ensures m == m'
  {
    assert !(m < m') && !(m' < m);
  }

  lemma {:induction false} FirstShownExists(ws: Stream, pos: nat, n: nat, k: nat, i: nat, bound: nat) returns (m: nat)
    requires Lively(ws) && 0 < n < W && i <= bound && NotShownBefore(ws, pos, n, k, i)
    requires |DistinctPositions(ws, pos, n, bound)| >= k
    ensures IsFirstShown(ws, pos, n, k, m)
    decreases bound - i
  {
    if |DistinctPositions(ws, pos, n, i)| < k {
      NotShownStep(ws, pos, n, k, i);
      m := FirstShownExists(ws, pos, n, k, i + 1, bound);
    } else {
      m := i;
      if i > 0 {
        OneMore(ws, pos, n, i - 1);
      }
    }
  }

  /** How many draws the units of one group take from the stream. */
  ghost function DrawsTaken(ws: Stream, pos: nat, n: nat, k: nat, replace: bool): (m: nat)
    requires Lively(ws) && 0 < n < W
  {
    if replace then k
    else if m: nat :| IsFirstShown(ws, pos, n, k, m) then m
    else 0
  }

  /** What one group contributes: its units at the positions drawn, repeats left out unless replacement is allowed. */
  ghost function GroupSample(ids: seq<nat>, k: nat, replace: bool, ws: Stream, pos: nat): seq<nat>
    requires Lively(ws) && 0 < |ids| < W
  {
    var m := DrawsTaken(ws, pos, |ids|, k, replace);
    Gather(ids, if replace then Positions(ws, pos, |ids|, m) else DistinctPositions(ws, pos, |ids|, m))
  }

  lemma DrawsTakenAre(ws: Stream, pos: nat, n: nat, k: nat, m: nat)
    requires Lively(ws) && 0 < n < W && IsFirstShown(ws, pos, n, k, m)
    ensures DrawsTaken(ws, pos, n, k, false) == m
  {
    FirstShownUnique(ws, pos, n, k, DrawsTaken(ws, pos, n, k, false), m);
  }

  /** Exactly k units of the group are selected, without repetition when sampling without replacement. */
  lemma SampleFacts(ids: seq<nat>, k: nat, replace: bool, ws: Stream, pos: nat)
    requires Lively(ws) && 0 < |ids| < W && (!replace ==> k <= |ids| && Varied(ws))
    ensures var selected := GroupSample(ids, k, replace, ws, pos);
      && |selected| == k
      && (forall i :: 0 <= i < k ==> selected[i] in ids)
      && (!replace && Distinct(ids) ==> Distinct(selected))
  {
    if !replace {
      assert ShowsDistinct(ws, pos, |ids|, k);
      var bound: nat :| |DistinctPositions(ws, pos, |ids|, bound)| >= k;
      var m := FirstShownExists(ws, pos, |ids|, k, 0, bound);
      DrawsTakenAre(ws, pos, |ids|, k, m);
      GatherDistinct(ids, DistinctPositions(ws, pos, |ids|, m));
    }
  }

  /** `sample_group_units`: nothing for k = 0, else a stop or k units, repeats rejected without replacement. */
  method SampleGroup(ids: seq<nat>, k: nat, replace: bool, rng: MersenneTwister.RRng)
    returns (r: Result<seq<nat>, string>)
    requires |ids| < W && rng.Valid() && Lively(rng.ws) && (!replace ==> Varied(rng.ws))
    modifies rng.mt, rng`mti, rng`block, rng`pos
    ensures rng.Valid()
    ensures r.Ok? <==> k == 0 || (ids != [] && (replace || k <= |ids|))
    ensures r.Err? || ids == [] ==> rng.pos == old(rng.pos)
    ensures r.Ok? && ids == [] ==> r.value == []
    ensures r.Ok? && ids != [] ==>
              && r.value == GroupSample(ids, k, replace, rng.ws, old(rng.pos))
              && rng.pos == PositionsEnd(rng.ws, old(rng.pos), |ids|,
                                         DrawsTaken(rng.ws, old(rng.pos), |ids|, k, replace))
  {
    hide Generator.Valid, Lively, Varied, DrawsTaken, GroupSample, PositionsEnd;
    if k == 0 {
      if ids != [] { NothingDrawn(ids, replace, rng.ws, rng.pos); }
      return Ok([]);
    }
    if ids == [] {
      return Err("No exchangeable units are available.");
    }
    if !replace && k > |ids| {
      return Err("Subsampling group is too small for the requested subsample size.");
    }
    var selected := SamplePositive(ids, k, replace, rng);
    r := Ok(selected);
  }

  lemma NothingDrawn(ids: seq<nat>, replace: bool, ws: Stream, pos: nat)
    requires Lively(ws) && 0 < |ids| < W
    ensures GroupSample(ids, 0, replace, ws, pos) == []
    ensures PositionsEnd(ws, pos, |ids|, DrawsTaken(ws, pos, |ids|, 0, replace)) == pos
  {
    hide Lively;
    assert DistinctPositions(ws, pos, |ids|, 0) == [];
    DrawsTakenAre(ws, pos, |ids|, 0, 0);
  }

  method SamplePositive(ids: seq<nat>, k: nat, replace: bool, rng: MersenneTwister.RRng) returns (selected: seq<nat>)
    requires 0 < |ids| < W && (!replace ==> k <= |ids|)
    requires rng.Valid() && Lively(rng.ws) && (!replace ==> Varied(rng.ws))
    modifies rng.mt, rng`mti, rng`block, rng`pos
    ensures rng.Valid() && selected == GroupSample(ids, k, replace, rng.ws, old(rng.pos))
    ensures rng.pos == PositionsEnd(rng.ws, old(rng.pos), |ids|, DrawsTaken(rng.ws, old(rng.pos), |ids|, k, replace))
  {
    hide Generator.Valid, Positions, DistinctPositions;
    if replace {
      selected := SampleWithReplacement(ids, k, rng);
    } else {
      ghost var m;
      ghost var pos := rng.pos;
      selected, m := SampleDistinct(ids, k, rng);
      DrawsTakenAre(rng.ws, pos, |ids|, k, m);
    }
  }

  method SampleWithReplacement(ids: seq<nat>, k: nat, rng: MersenneTwister.RRng) returns (selected: seq<nat>)
    requires 0 < |ids| < W && rng.Valid() && Lively(rng.ws)
    modifies rng.mt, rng`mti, rng`block, rng`pos
    ensures rng.Valid() && rng.pos == PositionsEnd(rng.ws, old(rng.pos), |ids|, k)
    ensures selected == Gather(ids, Positions(rng.ws, old(rng.pos), |ids|, k))
  {
    ghost var ws, pos, n := rng.ws, rng.pos, |ids|;
    hide Lively, Generator.Valid;
    selected := [];
    for i := 0 to k
      invariant rng.Valid() && rng.pos == PositionsEnd(ws, pos, n, i)
      invariant selected == Gather(ids, Positions(ws, pos, n, i))
    {
      var p := BoundedLive(rng, |ids|);
      selected := selected + [ids[p]];
    }
  }

  method SampleDistinct(ids: seq<nat>, k: nat, rng: MersenneTwister.RRng) returns (selected: seq<nat>, ghost m: nat)
    requires 0 < |ids| < W && k <= |ids| && rng.Valid() && Lively(rng.ws) && Varied(rng.ws)
    modifies rng.mt, rng`mti, rng`block, rng`pos
    ensures rng.Valid() && rng.pos == PositionsEnd(rng.ws, old(rng.pos), |ids|, m)
    ensures IsFirstShown(rng.ws, old(rng.pos), |ids|, k, m)
    ensures selected == Gather(ids, DistinctPositions(rng.ws, old(rng.pos), |ids|, m))
  {
    assert ShowsDistinct(rng.ws, rng.pos, |ids|, k);
    ghost var bound: nat :| |DistinctPositions(rng.ws, rng.pos, |ids|, bound)| >= k;
    selected, m := CollectDistinct(ids, k, rng, bound);
  }

  method CollectDistinct(ids: seq<nat>, k: nat, rng: MersenneTwister.RRng, ghost bound: nat)
    returns (selected: seq<nat>, ghost m: nat)
    requires 0 < |ids| < W && rng.Valid() && Lively(rng.ws)
    requires |DistinctPositions(rng.ws, rng.pos, |ids|, bound)| >= k
    modifies rng.mt, rng`mti, rng`block, rng`pos
    ensures rng.Valid() && rng.pos == PositionsEnd(rng.ws, old(rng.pos), |ids|, m)
    ensures IsFirstShown(rng.ws, old(rng.pos), |ids|, k, m)
    ensures selected == Gather(ids, DistinctPositions(rng.ws, old(rng.pos), |ids|, m))
  {
    hide Lively, Generator.Valid, Collected, DistinctPositions, IsFirstShown, PositionsEnd;
    ghost var pos := rng.pos;
    var seen: seq<nat> := [];
    m, selected := 0, [];
    NoneCollected(ids, k, rng.ws, pos);
    while |seen| < k
      invariant rng.Valid() && m <= bound
      invariant Collected(ids, k, rng.ws, pos, rng.pos, m, seen, selected)
      decreases bound - m
    {
      NotAllCollected(ids, k, rng.ws, pos, rng.pos, m, seen, selected, bound);
      seen, selected := TryPosition(ids, k, seen, selected, rng, pos, m);
      m := m + 1;
    }
    AllCollected(ids, k, rng.ws, pos, rng.pos, m, seen, selected);
  }

  lemma NoneCollected(ids: seq<nat>, k: nat, ws: Stream, pos: nat)
    requires Lively(ws) && 0 < |ids| < W
    ensures Collected(ids, k, ws, pos, pos, 0, [], [])
  {
    hide Lively;
    assert DistinctPositions(ws, pos, |ids|, 0) == [];
  }

  lemma NotAllCollected(ids: seq<nat>, k: nat, ws: Stream, pos: nat, now: nat, m: nat, seen: seq<nat>,
                        selected: seq<nat>, bound: nat)
    requires Lively(ws) && 0 < |ids| < W && Collected(ids, k, ws, pos, now, m, seen, selected)
    requires |seen| < k <= |DistinctPositions(ws, pos, |ids|, bound)|
    ensures m != bound
  {}

  lemma AllCollected(ids: seq<nat>, k: nat, ws: Stream, pos: nat, now: nat, m: nat, seen: seq<nat>, selected: seq<nat>)
    requires Lively(ws) && 0 < |ids| < W && Collected(ids, k, ws, pos, now, m, seen, selected) && |seen| >= k
    ensures now == PositionsEnd(ws, pos, |ids|, m) && IsFirstShown(ws, pos, |ids|, k, m)
    ensures selected == Gather(ids, DistinctPositions(ws, pos, |ids|, m))
  {}

  /** The state of the rejection loop after `m` draws. */
  ghost predicate Collected(ids: seq<nat>, k: nat, ws: Stream, pos: nat, now: nat, m: nat, seen: seq<nat>,
                            selected: seq<nat>)
    requires Lively(ws) && 0 < |ids| < W
  {
    && now == PositionsEnd(ws, pos, |ids|, m)
    && seen == DistinctPositions(ws, pos, |ids|, m) && |seen| <= k
    && selected == Gather(ids, seen)
    && NotShownBefore(ws, pos, |ids|, k, m)
  }

  method TryPosition(ids: seq<nat>, ghost k: nat, seen: seq<nat>, selected: seq<nat>, rng: MersenneTwister.RRng,
                     ghost pos: nat, ghost m: nat)
    returns (seen': seq<nat>, selected': seq<nat>)
    requires 0 < |ids| < W && rng.Valid() && Lively(rng.ws)
    requires Collected(ids, k, rng.ws, pos, rng.pos, m, seen, selected) && |seen| < k
    modifies rng.mt, rng`mti, rng`block, rng`pos
    ensures rng.Valid() && Collected(ids, k, rng.ws, pos, rng.pos, m + 1, seen', selected')
  {
    OneMore(rng.ws, pos, |ids|, m);
    NotShownStep(rng.ws, pos, |ids|, k, m);
    hide Lively, Generator.Valid, DistinctPositions, NotShownBefore, DrawValue, DrawNext;
    var p := BoundedLive(rng, |ids|);
    seen', selected' := seen, selected;
    if p !in seen {
      seen' := seen + [p];
      selected' := selected + [ids[p]];
    }
  }

  lemma GatherDistinct(ids: seq<nat>, o: seq<nat>)
    requires (forall i :: 0 <= i < |o| ==> o[i] < |ids|) && Distinct(o)
    ensures Distinct(ids) ==> Distinct(Gather(ids, o))
  {
    if Distinct(ids) {
      forall i, j | 0 <= i < j < |o|
        ensures Gather(ids, o)[i] != Gather(ids, o)[j]
      {
        assert o[i] != o[j];
        assert if o[i] < o[j] then ids[o[i]] != ids[o[j]] else ids[o[j]] != ids[o[i]];
      }
    }
  }

  // Match ids.

  function Positives(raw: seq<int>): seq<int> {
    if raw == [] then []
    else Positives(raw[..|raw| - 1]) + if raw[|raw| - 1] > 0 then [raw[|raw| - 1]] else []
  }

  lemma {:induction false} PositivesAre(raw: seq<int>, v: int)
    ensures v in Positives(raw) <==> v > 0 && v in raw
  {
    if raw != [] {
      PositivesAre(raw[..|raw| - 1], v);
      assert raw == raw[..|raw| - 1] + [raw[|raw| - 1]];
    }
  }

  /** Renumbering: a positive id becomes its rank among the distinct positive ids, others become 0. */
  function Renumbered(raw: seq<int>): (out: seq<int>)
    ensures |out| == |raw|
    ensures forall i :: 0 <= i < |raw| ==>
              out[i] == if raw[i] > 0 then LowerBound(DistinctSorted(Positives(raw)), raw[i]) + 1 else 0
  {
    seq(|raw|, i requires 0 <= i < |raw| =>
      if raw[i] > 0 then LowerBound(DistinctSorted(Positives(raw)), raw[i]) + 1 else 0)
  }

  lemma RankOf(raw: seq<int>, i: nat) returns (k: nat)
    requires i < |raw| && raw[i] > 0
    ensures var d := DistinctSorted(Positives(raw));
      k < |d| && d[k] == raw[i] && Renumbered(raw)[i] == k + 1
  {
    var d := DistinctSorted(Positives(raw));
    DistinctSortedIs(Positives(raw));
    PositivesAre(raw, raw[i]);
    assert raw[i] in d;
    k :| k < |d| && d[k] == raw[i];
    LowerBoundFinds(d, raw[i], k);
  }

  /** Renumbering keeps which rows are linked and the order of the ids. */
  lemma RenumberKeepsLinks(raw: seq<int>, i: nat, j: nat)
    requires i < |raw| && j < |raw|
    ensures Renumbered(raw)[i] > 0 <==> raw[i] > 0
    ensures raw[i] > 0 && raw[j] > 0 ==> (Renumbered(raw)[i] < Renumbered(raw)[j] <==> raw[i] < raw[j])
    ensures raw[i] > 0 && raw[j] > 0 ==> (Renumbered(raw)[i] == Renumbered(raw)[j] <==> raw[i] == raw[j])
  {
    DistinctSortedIs(Positives(raw));
    if raw[i] > 0 {
      var a := RankOf(raw, i);
      if raw[j] > 0 {
        var b := RankOf(raw, j);
      }
    }
  }

  /** The new ids are exactly 1, ..., D, where D is the number of different positive ids. */
  lemma RenumberIsDense(raw: seq<int>, id: int)
    ensures (exists i :: 0 <= i < |raw| && Renumbered(raw)[i] == id && id > 0)
       <==> 1 <= id <= |DistinctSorted(Positives(raw))|
  {
    var d := DistinctSorted(Positives(raw));
    DistinctSortedIs(Positives(raw));
    if 1 <= id <= |d| {
      PositivesAre(raw, d[id - 1]);
      assert d[id - 1] in d;
      var i :| 0 <= i < |raw| && raw[i] == d[id - 1];
      LowerBoundFinds(d, raw[i], id - 1);
      assert Renumbered(raw)[i] == id;
    }
    if i :| 0 <= i < |raw| && Renumbered(raw)[i] == id && id > 0 {
      var k := RankOf(raw, i);
    }
  }

  /** `renumber_positive_match_ids`: collect, sort, make unique, map. */
  method Renumber(raw: seq<int>) returns (out: seq<int>)
    ensures out == Renumbered(raw)
  {
    var positives: seq<int> := [];
    for i := 0 to |raw|
      invariant positives == Positives(raw[..i])
    {
      assert raw[..i + 1][..i] == raw[..i];
      if raw[i] > 0 {
        positives := positives + [raw[i]];
      }
    }
    assert raw[..|raw|] == raw;
    positives := DistinctSorted(positives);
    DistinctSortedIs(Positives(raw));
    var rank := RankMap(positives);
    out := [];
    for i := 0 to |raw|
      invariant |out| == i
      invariant forall j :: 0 <= j < i ==> out[j] == Renumbered(raw)[j]
    {
      if raw[i] > 0 {
        var k := RankOf(raw, i);
        out := out + [rank[raw[i]]];
      } else {
        out := out + [0];
      }
    }
  }

  method RankMap(values: seq<int>) returns (rank: map<int, int>)
    requires Increasing(values)
    ensures forall k :: 0 <= k < |values| ==> values[k] in rank && rank[values[k]] == k + 1
  {
    rank := map[];
    for i := 0 to |values|
      invariant forall k :: 0 <= k < i ==> values[k] in rank && rank[values[k]] == k + 1
    {
      rank := rank[values[i] := i + 1];
    }
  }
}

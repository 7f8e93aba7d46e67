/** The whole resampling call: groups, apportionment, and B draws from one stream. */
module ResampleDriver {
  import opened Wrappers
  import opened Sequences
  import opened Apportionment
  import opened Resampling
  import opened ResampleDraw
  import opened BlockRecurrence
  import opened BoundedRand
  import MersenneTwister

  /** Disjoint groups of distinct units that together hold all n units. */
  ghost predicate GroupsOk(n: nat, groups: seq<seq<nat>>) {
    && Sum(Sizes(groups)) == n
    && (forall g :: 0 <= g < |groups| ==> 0 < |groups[g]| && Distinct(groups[g]) && InRange(groups[g], n))
    && forall g, h :: 0 <= g < h < |groups| ==> Apart(groups[g], groups[h])
  }

  ghost predicate Apart(s: seq<nat>, t: seq<nat>) { forall x :: x in s ==> x !in t }

  lemma StrataAreGroups(key: nat -> string, n: nat)
    ensures GroupsOk(n, Grouped(key, n))
  {
    var keys, groups := KeysOf(key, n), Grouped(key, n);
    GroupedCovers(key, n);
    KeysAre(key, n, "");
    forall g | 0 <= g < |groups|
      ensures 0 < |groups[g]| && Distinct(groups[g])
    {
      KeysAre(key, n, keys[g]);
      var u :| 0 <= u < n && key(u) == keys[g];
      MembersAre(key, n, keys[g], u);
    }
    forall g, h | 0 <= g < h < |groups|
      ensures Apart(groups[g], groups[h])
    {
      forall x | x in groups[g]
        ensures x !in groups[h]
      {
        MembersAre(key, n, keys[g], x);
        MembersAre(key, n, keys[h], x);
      }
    }
  }

  lemma OneGroup(n: nat, group: seq<nat>)
    requires n > 0 && |group| == n && forall i :: 0 <= i < n ==> group[i] == i
    ensures GroupsOk(n, [group])
  {
    assert Sizes([group]) == [n];
    assert [n][..0] == [];
    assert Sum([n]) == Sum([n][..0]) + n;
  }

  /** The groups of a call: the strata in order of appearance, or all units together. */
  function GroupsOf(n: nat, strata: Option<seq<string>>): (groups: seq<seq<nat>>)
  {
    match strata
    case Some(keys) => Grouped(KeyOf(keys), n)
    case None => [seq<nat>(n, i => i)]
  }

  function KeyOf(keys: seq<string>): nat -> string { (i: nat) => if i < |keys| then keys[i] else "" }

  method MakeGroups(n: nat, strata: Option<seq<string>>) returns (groups: seq<seq<nat>>)
    requires n > 0 && (strata.Some? ==> |strata.value| == n)
    ensures groups == GroupsOf(n, strata) && GroupsOk(n, groups)
  {
    match strata
    case Some(keys) =>
      groups := GroupStrata(n, KeyOf(keys));
      StrataAreGroups(KeyOf(keys), n);
    case None =>
      var all := seq<nat>(n, i => i);
      OneGroup(n, all);
      groups := [all];
  }

  // The units of one draw as a function of the stream.

  ghost predicate Samplable(groups: seq<seq<nat>>) { forall g :: 0 <= g < |groups| ==> 0 < |groups[g]| < W }

  /** The units taken from the first g groups, and where in the stream taking them ends. */
  ghost function Selection(groups: seq<seq<nat>>, alloc: seq<nat>, replace: bool, ws: Stream, pos: nat,
                           g: nat): seq<nat>
    requires Lively(ws) && Samplable(groups) && g <= |groups| == |alloc|
  {
    if g == 0 then []
    else
      Selection(groups, alloc, replace, ws, pos, g - 1)
      + GroupSample(groups[g - 1], alloc[g - 1], replace, ws, SelectionEnd(groups, alloc, replace, ws, pos, g - 1))
  }

  ghost function SelectionEnd(groups: seq<seq<nat>>, alloc: seq<nat>, replace: bool, ws: Stream, pos: nat, g: nat): nat
    requires Lively(ws) && Samplable(groups) && g <= |groups| == |alloc|
  {
    if g == 0 then pos
    else
      var start := SelectionEnd(groups, alloc, replace, ws, pos, g - 1);
      PositionsEnd(ws, start, |groups[g - 1]|, DrawsTaken(ws, start, |groups[g - 1]|, alloc[g - 1], replace))
  }

  /** Where in the stream the b-th draw begins. */
  ghost function DrawStart(groups: seq<seq<nat>>, alloc: seq<nat>, replace: bool, ws: Stream, pos: nat, b: nat): nat
    requires Lively(ws) && Samplable(groups) && |groups| == |alloc|
  {
    if b == 0 then pos
    else SelectionEnd(groups, alloc, replace, ws, DrawStart(groups, alloc, replace, ws, pos, b - 1), |groups|)
  }

  /** Position i of a selection belongs to the quota of group h, and holds one of its units. */
  ghost predicate Served(groups: seq<seq<nat>>, alloc: seq<nat>, h: nat, sel: seq<nat>)
    requires h < |groups| == |alloc|
  {
    Sum(alloc[..h]) + alloc[h] <= |sel| && forall i :: Sum(alloc[..h]) <= i < Sum(alloc[..h]) + alloc[h] ==>
          sel[i] in groups[h]
  }

  /** The first g groups have each supplied exactly their quota, without repetition unless allowed. */
  ghost predicate Selected(groups: seq<seq<nat>>, alloc: seq<nat>, replace: bool, g: nat, sel: seq<nat>)
    requires g <= |groups| == |alloc|
  {
    && |sel| == Sum(alloc[..g])
    && (!replace ==> Distinct(sel))
    && (forall x :: x in sel ==> exists h :: 0 <= h < g && x in groups[h])
    && (forall h :: 0 <= h < g ==> Served(groups, alloc, h, sel))
  }

  lemma SelectMore(n: nat, groups: seq<seq<nat>>, alloc: seq<nat>, replace: bool, g: nat, sel: seq<nat>, more: seq<nat>)
    requires GroupsOk(n, groups) && g < |groups| == |alloc| && Selected(groups, alloc, replace, g, sel)
    requires |more| == alloc[g] && (forall i :: 0 <= i < |more| ==> more[i] in groups[g])
    requires !replace ==> Distinct(more)
    ensures Selected(groups, alloc, replace, g + 1, sel + more)
  {
    assert alloc[..g + 1][..g] == alloc[..g];
    if !replace {
      SelectApart(n, groups, alloc, replace, g, sel, more);
    }
    forall x | x in sel + more
      ensures exists h :: 0 <= h < g + 1 && x in groups[h]
    {
      if x in sel {
        var h :| 0 <= h < g && x in groups[h];
      } else {
        var i :| 0 <= i < |more| && more[i] == x;
        assert x in groups[g];
      }
    }
    forall h | 0 <= h < g + 1
      ensures Served(groups, alloc, h, sel + more)
    {
      if h < g {
        assert Served(groups, alloc, h, sel);
      }
    }
  }

  lemma SelectApart(n: nat, groups: seq<seq<nat>>, alloc: seq<nat>, replace: bool, g: nat, sel: seq<nat>,
                    more: seq<nat>)
    requires GroupsOk(n, groups) && g < |groups| == |alloc| && Selected(groups, alloc, replace, g, sel) && Distinct(sel)
    requires (forall i :: 0 <= i < |more| ==> more[i] in groups[g]) && Distinct(more)
    ensures Distinct(sel + more)
  {
    forall i, j | 0 <= i < |sel| && 0 <= j < |more|
      ensures sel[i] != more[j]
    {
      assert sel[i] in sel;
      var h :| 0 <= h < g && sel[i] in groups[h];
      assert Apart(groups[h], groups[g]);
      assert more[j] in groups[g];
    }
  }

  ghost predicate QuotasFit(groups: seq<seq<nat>>, alloc: seq<nat>)
    requires |groups| == |alloc|
  {
    forall g :: 0 <= g < |groups| ==> alloc[g] <= |groups[g]|
  }

  lemma GroupsSamplable(n: nat, groups: seq<seq<nat>>)
    requires GroupsOk(n, groups) && n < W
    ensures Samplable(groups)
  {
    forall g | 0 <= g < |groups|
      ensures 0 < |groups[g]| < W
    {
      GroupSizeBounded(n, groups, g);
    }
  }

  /** Every stratum supplies its quota, in order; without replacement no unit is selected twice. */
  lemma {:induction false} SelectionIsStratified(
    n: nat, groups: seq<seq<nat>>, alloc: seq<nat>, replace: bool, ws: Stream, pos: nat, g: nat)
    requires GroupsOk(n, groups) && Samplable(groups) && g <= |groups| == |alloc| && Lively(ws)
    requires !replace ==> QuotasFit(groups, alloc) && Varied(ws)
    ensures Selected(groups, alloc, replace, g, Selection(groups, alloc, replace, ws, pos, g))
    ensures InRange(Selection(groups, alloc, replace, ws, pos, g), n)
  {
    hide Lively, Varied, GroupsOk, GroupSample, Selected;
    if g == 0 {
      NothingSelected(groups, alloc, replace);
    } else {
      SelectionIsStratified(n, groups, alloc, replace, ws, pos, g - 1);
      var start := SelectionEnd(groups, alloc, replace, ws, pos, g - 1);
      GroupDistinct(n, groups, g - 1);
      SampleFacts(groups[g - 1], alloc[g - 1], replace, ws, start);
      var sel := Selection(groups, alloc, replace, ws, pos, g - 1);
      var more := GroupSample(groups[g - 1], alloc[g - 1], replace, ws, start);
      SelectMore(n, groups, alloc, replace, g - 1, sel, more);
    }
    SelectedWithin(n, groups, alloc, replace, g, Selection(groups, alloc, replace, ws, pos, g));
  }

  lemma NothingSelected(groups: seq<seq<nat>>, alloc: seq<nat>, replace: bool)
    requires |groups| == |alloc|
    ensures Selected(groups, alloc, replace, 0, [])
  {}

  lemma GroupDistinct(n: nat, groups: seq<seq<nat>>, g: nat)
    requires GroupsOk(n, groups) && g < |groups|
    ensures Distinct(groups[g])
  {}

  /** The selection of one draw, group by group. */
  method SelectUnits(groups: seq<seq<nat>>, alloc: seq<nat>, replace: bool, rng: MersenneTwister.RRng)
    returns (sel: seq<nat>)
    requires Samplable(groups) && |alloc| == |groups|
    requires rng.Valid() && Lively(rng.ws) && (!replace ==> QuotasFit(groups, alloc) && Varied(rng.ws))
    modifies rng.mt, rng`mti, rng`block, rng`pos
    ensures rng.Valid()
    ensures sel == Selection(groups, alloc, replace, rng.ws, old(rng.pos), |groups|)
    ensures rng.pos == SelectionEnd(groups, alloc, replace, rng.ws, old(rng.pos), |groups|)
  {
    hide Generator.Valid, Lively, Varied, GroupSample, DrawsTaken;
    sel := [];
    for g := 0 to |groups|
      invariant rng.Valid()
      invariant sel == Selection(groups, alloc, replace, rng.ws, old(rng.pos), g)
      invariant rng.pos == SelectionEnd(groups, alloc, replace, rng.ws, old(rng.pos), g)
    {
      var more := SampleGroup(groups[g], alloc[g], replace, rng);
      sel := sel + more.value;
    }
  }

  lemma SelectedWithin(n: nat, groups: seq<seq<nat>>, alloc: seq<nat>, replace: bool, g: nat, sel: seq<nat>)
    requires GroupsOk(n, groups) && g <= |groups| == |alloc| && Selected(groups, alloc, replace, g, sel)
    ensures InRange(sel, n)
  {
    forall i | 0 <= i < |sel|
      ensures sel[i] < n
    {
      assert sel[i] in sel;
      var h :| 0 <= h < g && sel[i] in groups[h];
      assert InRange(groups[h], n);
    }
  }

  lemma GroupSizeBounded(n: nat, groups: seq<seq<nat>>, g: nat)
    requires GroupsOk(n, groups) && g < |groups|
    ensures |groups[g]| <= n
  {
    EntryBelowSum(Sizes(groups), g);
  }

  lemma {:induction false} EntryBelowSum(s: seq<nat>, i: nat)
    requires i < |s|
    ensures s[i] <= Sum(s)
  {
    if i < |s| - 1 {
      EntryBelowSum(s[..|s| - 1], i);
    }
  }

  method AllSingletons(units: seq<seq<int>>) returns (b: bool)
    ensures b <==> IdentitySingletons(units)
  {
    b := true;
    for i := 0 to |units|
      invariant b <==> forall j :: 0 <= j < i ==> units[j] == [j + 1]
    {
      if |units[i]| != 1 || units[i][0] != i + 1 {
        b := false;
      }
    }
  }

  /** A draw built from the selected units. */
  ghost predicate BuiltFrom(units: seq<seq<int>>, links: Links, sel: seq<nat>, preserve: bool, d: Draw) {
    SelectionOk(units, links, sel) && d == GeneralDraw(units, links, sel, preserve)
  }

  /** What the call demands of its arguments. */
  predicate Sound(units: seq<seq<int>>, strata: Option<seq<string>>, links: Links, B: int, size: int, replace: bool) {
    && B >= 0 && size >= 0 && units != []
    && (links.ByKind? ==> |links.kind| == |units|)
    && (strata.Some? ==> |strata.value| == |units|)
    && (replace || size <= |units|)
  }

  /** The checks on the arguments, in order. */
  method Refusal(units: seq<seq<int>>, strata: Option<seq<string>>, links: Links, B: int, size: int)
    returns (e: Option<string>)
    ensures e.None? <==> Sound(units, strata, links, B, size, true)
  {
    e := None;
    if B < 0 {
      e := Some("B must be non-negative.");
    } else if size < 0 {
      e := Some("Resampling size must be non-negative.");
    } else if units == [] {
      e := Some("No exchangeable units are available.");
    } else if links.ByKind? && |links.kind| != |units| {
      e := Some("unit_kind must have one entry per exchangeable unit.");
    } else if strata.Some? && |strata.value| != |units| {
      e := Some("strata_ids must have one entry per exchangeable unit.");
    }
  }

  /** The b-th draw of a call, determined by the arguments and the stream. */
  ghost predicate IsDraw(units: seq<seq<int>>, groups: seq<seq<nat>>, alloc: seq<nat>, links: Links, replace: bool,
                         preserve: bool, ws: Stream, pos: nat, b: nat, d: Draw)
    requires Lively(ws) && Samplable(groups) && |groups| == |alloc|
  {
    var start := DrawStart(groups, alloc, replace, ws, pos, b);
    BuiltFrom(units, links, Selection(groups, alloc, replace, ws, start, |groups|), preserve, d)
  }

  /** All draws of a call: the quotas of the groups add up to the size, and each draw serves them. */
  ghost predicate AreDraws(units: seq<seq<int>>, strata: Option<seq<string>>, links: Links, B: int, size: nat,
                           replace: bool, preserve: bool, ws: Stream, pos: nat, draws: seq<Draw>)
    requires Lively(ws)
  {
    var groups := GroupsOf(|units|, strata);
    && GroupsOk(|units|, groups) && Samplable(groups) && Sum(Sizes(groups)) > 0
    && var alloc := Allocation(size, Sizes(groups));
       && Sum(alloc) == size && |alloc| == |groups| && (!replace ==> QuotasFit(groups, alloc))
       && |draws| == B
       && forall b: nat :: b < B ==> IsDraw(units, groups, alloc, links, replace, preserve, ws, pos, b, draws[b])
  }

  /**
   * `exchangeable_resampling_draws_cpp`. A call succeeds exactly when its arguments are sound: without
   * replacement, no more units are asked for than exist. Every draw is then built from the selection that
   * the apportionment and its part of the stream determine.
   */
  method Resample(units: seq<seq<int>>, strata: Option<seq<string>>, links: Links, B: int, size: int,
                  replace: bool, preserve: bool, rng: MersenneTwister.RRng)
    returns (r: Result<seq<Draw>, string>)
    requires |units| < W && rng.Valid() && Lively(rng.ws) && (!replace ==> Varied(rng.ws))
    modifies rng.mt, rng`mti, rng`block, rng`pos
    ensures rng.Valid()
    ensures r.Ok? <==> Sound(units, strata, links, B, size, replace)
    ensures r.Ok? ==> AreDraws(units, strata, links, B, size, replace, preserve, rng.ws, old(rng.pos), r.value)
  {
    hide Generator.Valid, Lively, Varied, GroupsOk, IsDraw, Allocation, GroupsOf, Samplable, QuotasFit, AreDraws;
    var refusal := Refusal(units, strata, links, B, size);
    if refusal.Some? {
      return Err(refusal.value);
    }
    var groups := MakeGroups(|units|, strata);
    GroupsTotal(|units|, groups);
    var alloc := ProportionalAllocation(size, Sizes(groups), replace);
    if alloc.Err? {
      return Err(alloc.error);
    }
    Quotas(size, groups);
    GroupsSamplable(|units|, groups);
    var draws := DrawAll(units, links, B, replace, preserve, groups, alloc.value, rng);
    WholeCall(units, strata, links, B, size, replace, preserve, rng.ws, old(rng.pos), draws);
    r := Ok(draws);
  }

  lemma WholeCall(units: seq<seq<int>>, strata: Option<seq<string>>, links: Links, B: int, size: nat,
                  replace: bool, preserve: bool, ws: Stream, pos: nat, draws: seq<Draw>)
    requires Lively(ws) && Sound(units, strata, links, B, size, replace) && |draws| == B
    requires GroupsOk(|units|, GroupsOf(|units|, strata)) && Samplable(GroupsOf(|units|, strata))
    requires var groups := GroupsOf(|units|, strata);
             && Sum(Sizes(groups)) == |units|
             && var alloc := Allocation(size, Sizes(groups));
                && |alloc| == |groups|
                && forall b: nat :: b < B ==>
                      IsDraw(units, groups, alloc, links, replace, preserve, ws, pos, b, draws[b])
    ensures AreDraws(units, strata, links, B, size, replace, preserve, ws, pos, draws)
  {
    Quotas(size, GroupsOf(|units|, strata));
  }

  lemma GroupsTotal(n: nat, groups: seq<seq<nat>>)
    requires GroupsOk(n, groups)
    ensures Sum(Sizes(groups)) == n
  {}

  lemma Quotas(size: nat, groups: seq<seq<nat>>)
    requires Sum(Sizes(groups)) > 0
    ensures var alloc := Allocation(size, Sizes(groups));
      |alloc| == |groups| && Sum(alloc) == size && (size <= Sum(Sizes(groups)) ==> QuotasFit(groups, alloc))
  {
    AllocationSpendsAll(size, Sizes(groups));
    TooSmallIffOversampled(size, Sizes(groups));
  }

  method DrawAll(units: seq<seq<int>>, links: Links, B: nat, replace: bool, preserve: bool,
                 groups: seq<seq<nat>>, alloc: seq<nat>, rng: MersenneTwister.RRng)
    returns (draws: seq<Draw>)
    requires 0 < |units| < W && (links.ByKind? ==> |links.kind| == |units|)
    requires GroupsOk(|units|, groups) && Samplable(groups) && |alloc| == |groups|
    requires rng.Valid() && Lively(rng.ws) && (!replace ==> QuotasFit(groups, alloc) && Varied(rng.ws))
    modifies rng.mt, rng`mti, rng`block, rng`pos
    ensures rng.Valid() && |draws| == B
    ensures forall b: nat :: b < B ==>
              IsDraw(units, groups, alloc, links, replace, preserve, rng.ws, old(rng.pos), b, draws[b])
  {
    hide Generator.Valid, Lively, Varied, GroupsOk, GeneralDraw, IdentitySingletons, Selection, SelectionEnd, QuotasFit;
    ghost var pos := rng.pos;
    var singletons := AllSingletons(units);
    draws := [];
    for b := 0 to B
      invariant rng.Valid() && |draws| == b && rng.pos == DrawStart(groups, alloc, replace, rng.ws, pos, b)
      invariant forall a: nat :: a < b ==>
                  IsDraw(units, groups, alloc, links, replace, preserve, rng.ws, pos, a, draws[a])
    {
      SelectionIsStratified(|units|, groups, alloc, replace, rng.ws, rng.pos, |groups|);
      var sel := SelectUnits(groups, alloc, replace, rng);
      var d := BuildDraw(units, links, sel, preserve, singletons);
      draws := draws + [d];
    }
  }
}

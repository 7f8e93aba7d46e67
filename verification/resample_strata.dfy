/** What stratified resampling means in terms of the stratum names: groups, their order, and the shares drawn. */
module ResampleStrata {
  import opened Sequences
  import opened Wrappers
  import opened Apportionment
  import opened Resampling
  import opened ResampleDraw
  import opened ResampleDriver
  import opened BlockRecurrence
  import opened BoundedRand

  // Groups are the strata.

  /** The groups of a call with one stratum name per unit. */
  function Strata(keys: seq<string>): seq<seq<nat>> { GroupsOf(|keys|, Some(keys)) }

  /** The stratum names in the order of the groups. */
  function Names(keys: seq<string>): (names: seq<string>)
    ensures |names| == |Strata(keys)|
  {
    KeysOf(KeyOf(keys), |keys|)
  }

  /** The name of a group: that of its first unit. */
  function NameOf(keys: seq<string>, g: nat): string
    requires g < |Strata(keys)| && Strata(keys)[g] != [] && Strata(keys)[g][0] < |keys|
  {
    keys[Strata(keys)[g][0]]
  }

  lemma StratumUnits(keys: seq<string>, g: nat, u: nat)
    requires g < |Strata(keys)|
    ensures u in Strata(keys)[g] <==> u < |keys| && keys[u] == Names(keys)[g]
    ensures Increasing(Strata(keys)[g])
  {
    MembersAre(KeyOf(keys), |keys|, Names(keys)[g], u);
  }

  /** A group is never empty; it holds exactly the units with the name of its first one, ascending. */
  lemma GroupIsStratum(keys: seq<string>, g: nat)
    requires g < |Strata(keys)|
    ensures Strata(keys)[g] != [] && Strata(keys)[g][0] < |keys|
    ensures forall u: nat :: u in Strata(keys)[g] <==> u < |keys| && keys[u] == NameOf(keys, g)
    ensures Increasing(Strata(keys)[g]) && NameOf(keys, g) == Names(keys)[g]
  {
    hide Strata, Names;
    GroupIsNonEmpty(keys, g);
    assert Strata(keys)[g][0] in Strata(keys)[g];
    forall u: nat
      ensures u in Strata(keys)[g] <==> u < |keys| && keys[u] == Names(keys)[g]
    {
      StratumUnits(keys, g, u);
    }
    StratumUnits(keys, g, Strata(keys)[g][0]);
  }

  lemma GroupIsNonEmpty(keys: seq<string>, g: nat)
    requires g < |Strata(keys)|
    ensures Strata(keys)[g] != []
  {
    var name := Names(keys)[g];
    KeysAre(KeyOf(keys), |keys|, name);
    var u :| 0 <= u < |keys| && KeyOf(keys)(u) == name;
    StratumUnits(keys, g, u);
  }

  ghost predicate Together(groups: seq<seq<nat>>, u: nat, v: nat) {
    exists g :: 0 <= g < |groups| && u in groups[g] && v in groups[g]
  }

  lemma UnitHasGroup(keys: seq<string>, u: nat) returns (g: nat)
    requires u < |keys|
    ensures g < |Strata(keys)| && u in Strata(keys)[g]
  {
    KeysAre(KeyOf(keys), |keys|, keys[u]);
    assert KeyOf(keys)(u) == keys[u];
    g :| g < |Strata(keys)| && Names(keys)[g] == keys[u];
    StratumUnits(keys, g, u);
  }

  /** Two units are in one group exactly when their names are equal. */
  lemma SameGroupIffSameName(keys: seq<string>, u: nat, v: nat)
    requires u < |keys| && v < |keys|
    ensures Together(Strata(keys), u, v) <==> keys[u] == keys[v]
  {
    hide Strata;
    var g := UnitHasGroup(keys, u);
    GroupIsStratum(keys, g);
    if Together(Strata(keys), u, v) {
      var h :| 0 <= h < |Strata(keys)| && u in Strata(keys)[h] && v in Strata(keys)[h];
      GroupIsStratum(keys, h);
    }
  }

  ghost predicate FirstUnitsAscend(groups: seq<seq<nat>>, n: nat) {
    && (forall g :: 0 <= g < |groups| ==> groups[g] != [] && groups[g][0] < n)
    && forall g, h :: 0 <= g < h < |groups| ==> groups[g][0] < groups[h][0]
  }

  /** Groups are numbered in the order in which their names appear. */
  lemma {:induction false} GroupsInOrder(key: nat -> string, n: nat)
    ensures FirstUnitsAscend(Grouped(key, n), n)
  {
    hide Grouped, FirstUnitsAscend;
    if n == 0 {
      NoGroups(key);
    } else {
      GroupsInOrder(key, n - 1);
      if key(n - 1) in KeysOf(key, n - 1) {
        var g: nat :| g < |KeysOf(key, n - 1)| && KeysOf(key, n - 1)[g] == key(n - 1);
        GroupedJoin(key, n - 1, g);
        JoinAscends(Grouped(key, n - 1), n - 1, g);
      } else {
        GroupedOpen(key, n - 1);
        OpenAscends(Grouped(key, n - 1), n - 1);
      }
    }
  }

  lemma NoGroups(key: nat -> string)
    ensures FirstUnitsAscend(Grouped(key, 0), 0)
  {}

  lemma JoinAscends(groups: seq<seq<nat>>, u: nat, g: nat)
    requires FirstUnitsAscend(groups, u) && g < |groups|
    ensures FirstUnitsAscend(groups[g := groups[g] + [u]], u + 1)
  {
    var more := groups[g := groups[g] + [u]];
    assert forall h :: 0 <= h < |groups| ==> more[h] != [] && more[h][0] == groups[h][0];
  }

  lemma OpenAscends(groups: seq<seq<nat>>, u: nat)
    requires FirstUnitsAscend(groups, u)
    ensures FirstUnitsAscend(groups + [[u]], u + 1)
  {}

  lemma StrataInOrder(keys: seq<string>)
    ensures FirstUnitsAscend(Strata(keys), |keys|)
  {
    GroupsInOrder(KeyOf(keys), |keys|);
  }

  /** Without strata there is one group, of all units. */
  lemma NoStrata(n: nat, u: nat)
    ensures |GroupsOf(n, None)| == 1 && |GroupsOf(n, None)[0]| == n
    ensures u in GroupsOf(n, None)[0] <==> u < n
  {
    var all := GroupsOf(n, None)[0];
    if u < n { assert all[u] == u; }
  }

  // Shares.

  /** How many of the unit ids, counted from 1, belong to the stratum `name`. */
  function Named(keys: seq<string>, ids: seq<int>, name: string): nat {
    if ids == [] then 0
    else
      var id := ids[|ids| - 1];
      Named(keys, ids[..|ids| - 1], name) + if 1 <= id <= |keys| && keys[id - 1] == name then 1 else 0
  }

  lemma {:induction false} NamedAppend(keys: seq<string>, ids: seq<int>, more: seq<int>, name: string)
    ensures Named(keys, ids + more, name) == Named(keys, ids, name) + Named(keys, more, name)
  {
    if more == [] {
      assert ids + more == ids;
    } else {
      var last := |more| - 1;
      assert (ids + more)[..|ids| + last] == ids + more[..last];
      NamedAppend(keys, ids, more[..last], name);
    }
  }

  lemma {:induction false} NamedUniform(keys: seq<string>, ids: seq<int>, name: string, all: bool)
    requires forall i :: 0 <= i < |ids| ==> 1 <= ids[i] <= |keys| && (keys[ids[i] - 1] == name <==> all)
    ensures Named(keys, ids, name) == if all then |ids| else 0
  {
    if ids != [] {
      NamedUniform(keys, ids[..|ids| - 1], name, all);
    }
  }

  lemma NamesDiffer(keys: seq<string>, g: nat, h: nat)
    requires g < |Strata(keys)| && h < |Strata(keys)| && g != h
    ensures Names(keys)[g] != Names(keys)[h]
  {
    KeysAre(KeyOf(keys), |keys|, "");
  }

  /** What one group adds to the count of a name. */
  lemma GroupAdds(keys: seq<string>, g: nat, h: nat, more: seq<nat>)
    requires g < |Strata(keys)| && h < |Strata(keys)|
    requires forall i :: 0 <= i < |more| ==> more[i] in Strata(keys)[g]
    ensures Named(keys, OneBased(more), Names(keys)[h]) == if g == h then |more| else 0
  {
    if g != h {
      NamesDiffer(keys, g, h);
    }
    forall i | 0 <= i < |more|
      ensures more[i] < |keys| && keys[more[i]] == Names(keys)[g]
    {
      StratumUnits(keys, g, more[i]);
    }
    NamedUniform(keys, OneBased(more), Names(keys)[h], g == h);
  }

  /** Among the units taken from the first g groups, those of stratum h are exactly its quota. */
  lemma {:induction false} SelectionNamed(keys: seq<string>, alloc: seq<nat>, replace: bool, ws: Stream, pos: nat,
                                          g: nat, h: nat)
    requires GroupsOk(|keys|, Strata(keys)) && Samplable(Strata(keys)) && Lively(ws)
    requires g <= |Strata(keys)| == |alloc| && h < |alloc|
    requires !replace ==> QuotasFit(Strata(keys), alloc) && Varied(ws)
    ensures Named(keys, OneBased(Selection(Strata(keys), alloc, replace, ws, pos, g)),
                  Names(keys)[h])
         == if h < g then alloc[h] else 0
  {
    hide Lively, Varied, GroupsOk, GroupSample, Strata, Names, SelectionEnd;
    var groups := Strata(keys);
    if g > 0 {
      SelectionNamed(keys, alloc, replace, ws, pos, g - 1, h);
      var start := SelectionEnd(groups, alloc, replace, ws, pos, g - 1);
      SampleFacts(groups[g - 1], alloc[g - 1], replace, ws, start);
      SelectionGrows(keys, Selection(groups, alloc, replace, ws, pos, g - 1), g - 1, h,
                     GroupSample(groups[g - 1], alloc[g - 1], replace, ws, start));
    }
  }

  lemma SelectionGrows(keys: seq<string>, sel: seq<nat>, g: nat, h: nat, more: seq<nat>)
    requires g < |Strata(keys)| && h < |Strata(keys)|
    requires forall i :: 0 <= i < |more| ==> more[i] in Strata(keys)[g]
    ensures Named(keys, OneBased(sel + more), Names(keys)[h])
         == Named(keys, OneBased(sel), Names(keys)[h]) + if g == h then |more| else 0
  {
    hide Strata, Names, Named;
    GroupAdds(keys, g, h, more);
    assert OneBased(sel + more) == OneBased(sel) + OneBased(more);
    NamedAppend(keys, OneBased(sel), OneBased(more), Names(keys)[h]);
  }

  /** Each draw of a stratified call holds, for every stratum name, exactly the apportioned number of its units. */
  lemma DrawServesStrata(units: seq<seq<int>>, keys: seq<string>, links: Links, B: int, size: nat, replace: bool,
                         preserve: bool, ws: Stream, pos: nat, draws: seq<Draw>, b: nat, h: nat)
    requires Lively(ws) && (!replace ==> Varied(ws)) && |keys| == |units|
    requires AreDraws(units, Some(keys), links, B, size, replace, preserve, ws, pos, draws)
    requires b < |draws| && h < |Strata(keys)|
    ensures Sum(Sizes(Strata(keys))) == |units| > 0 && |draws[b].unitIds| == size
    ensures Named(keys, draws[b].unitIds, Names(keys)[h]) == Allocation(size, Sizes(Strata(keys)))[h]
  {
    hide Lively, Varied, GroupsOk, Allocation, Named, Names, Selection, Selected, Samplable, QuotasFit;
    var groups := Strata(keys);
    var alloc := Allocation(size, Sizes(groups));
    GroupsTotal(|units|, groups);
    var start := DrawStart(groups, alloc, replace, ws, pos, b);
    assert IsDraw(units, groups, alloc, links, replace, preserve, ws, pos, b, draws[b]);
    SelectionNamed(keys, alloc, replace, ws, start, |groups|, h);
    SelectionIsStratified(|units|, groups, alloc, replace, ws, start, |groups|);
    SelectionSize(groups, alloc, replace, Selection(groups, alloc, replace, ws, start, |groups|));
  }

  lemma SelectionSize(groups: seq<seq<nat>>, alloc: seq<nat>, replace: bool, sel: seq<nat>)
    requires |groups| == |alloc| && Selected(groups, alloc, replace, |groups|, sel)
    ensures |sel| == Sum(alloc)
  {
    assert alloc[..|groups|] == alloc;
  }

  ghost function UnitsNamed(key: nat -> string, n: nat, name: string): set<nat> { set u: nat | u < n && key(u) == name }

  lemma {:induction false} MembersCount(key: nat -> string, n: nat, name: string)
    ensures |Members(key, n, name)| == |UnitsNamed(key, n, name)|
  {
    if n == 0 {
      assert UnitsNamed(key, 0, name) == {};
    } else {
      MembersCount(key, n - 1, name);
      assert UnitsNamed(key, n, name)
          == UnitsNamed(key, n - 1, name) + if key(n - 1) == name then {n - 1} else {};
    }
  }

  /** The units of a stratum, as a set over the names. */
  ghost function Population(keys: seq<string>, name: string): set<nat> {
    set u: nat | u < |keys| && keys[u] == name
  }

  lemma GroupSizeIsPopulation(keys: seq<string>, h: nat)
    requires h < |Strata(keys)|
    ensures Sizes(Strata(keys))[h] == |Population(keys, Names(keys)[h])|
  {
    MembersCount(KeyOf(keys), |keys|, Names(keys)[h]);
    assert UnitsNamed(KeyOf(keys), |keys|, Names(keys)[h]) == Population(keys, Names(keys)[h]);
  }

  /**
   * So the number of units drawn from a stratum differs from its proportional share, size * |stratum| / n, by
   * less than one.
   */
  lemma DrawIsProportional(units: seq<seq<int>>, keys: seq<string>, links: Links, B: int, size: nat, replace: bool,
                           preserve: bool, ws: Stream, pos: nat, draws: seq<Draw>, b: nat, u: nat)
    requires Lively(ws) && (!replace ==> Varied(ws)) && |keys| == |units|
    requires AreDraws(units, Some(keys), links, B, size, replace, preserve, ws, pos, draws)
    requires b < |draws| && u < |units|
    ensures var n, share := |units|, Times(size, |Population(keys, keys[u])|);
      share - n < Times(n, Named(keys, draws[b].unitIds, keys[u])) < share + n
  {
    hide Lively, Varied, Allocation, Named, Names, AreDraws, Strata, Times;
    var h := UnitHasGroup(keys, u);
    NameOfUnit(keys, h, u);
    DrawServesStrata(units, keys, links, B, size, replace, preserve, ws, pos, draws, b, h);
    GroupSizeIsPopulation(keys, h);
    RoundedShare(size, Sizes(Strata(keys)), h);
  }

  lemma NameOfUnit(keys: seq<string>, h: nat, u: nat)
    requires h < |Strata(keys)| && u in Strata(keys)[h]
    ensures u < |keys| && Names(keys)[h] == keys[u]
  {
    StratumUnits(keys, h, u);
  }

  lemma RoundedShare(size: nat, sizes: seq<nat>, h: nat)
    requires Sum(sizes) > 0 && h < |sizes|
    ensures var n, share := Sum(sizes), Times(size, sizes[h]);
      share - n < Times(n, Allocation(size, sizes)[h]) < share + n
  {
    hide Allocation, Floor, Remainder, Times, Sum;
    var n, a := Sum(sizes), Allocation(size, sizes)[h];
    var f := Floor(size, sizes[h], n);
    AllocationRounds(size, sizes, h);
    QuotaSplits(size, sizes[h], n);
    TimesDistributes(n, f, 1);
    TimesOne(n);
    assert a == f || a == f + 1;
  }
}

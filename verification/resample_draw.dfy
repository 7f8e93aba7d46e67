/** One resampled data set: its rows, the match ids of its rows, and the fast path for singletons. */
module ResampleDraw {
  import opened Wrappers
  import opened StableSort
  import opened Resampling

  /**
   * Where match ids come from: nowhere, from pair units (fresh per selected occurrence), or from
   * the ids of the original rows, where a missing id is None.
   */
  datatype Links = NoLinks | ByKind(kind: seq<string>) | ByIds(ids: seq<Option<int>>)

  datatype Draw = Draw(rows: seq<int>, matchIds: Option<seq<int>>, unitIds: seq<int>, count: nat)

  ghost predicate SelectionOk(units: seq<seq<int>>, links: Links, sel: seq<nat>) {
    && (forall i :: 0 <= i < |sel| ==> sel[i] < |units|)
    && (links.ByKind? ==> |links.kind| == |units|)
  }

  /** The rows of the selected units, one unit after the other. */
  function FlatRows(units: seq<seq<int>>, sel: seq<nat>): seq<int>
    requires forall i :: 0 <= i < |sel| ==> sel[i] < |units|
  {
    if sel == [] then [] else FlatRows(units, sel[..|sel| - 1]) + units[sel[|sel| - 1]]
  }

  /** For every row the position in `sel` that it comes from. */
  function Occurrences(units: seq<seq<int>>, sel: seq<nat>): (occ: seq<nat>)
    requires forall i :: 0 <= i < |sel| ==> sel[i] < |units|
    ensures |occ| == |FlatRows(units, sel)|
    ensures forall r :: 0 <= r < |occ| ==> occ[r] < |sel|
  {
    if sel == [] then []
    else Occurrences(units, sel[..|sel| - 1]) + seq<nat>(|units[sel[|sel| - 1]]|, _ => |sel| - 1)
  }

  predicate IsPair(kind: seq<string>, unit: nat)
    requires unit < |kind|
  {
    kind[unit] == "pair"
  }

  function PairCount(kind: seq<string>, sel: seq<nat>): nat
    requires forall i :: 0 <= i < |sel| ==> sel[i] < |kind|
  {
    if sel == [] then 0
    else PairCount(kind, sel[..|sel| - 1]) + if IsPair(kind, sel[|sel| - 1]) then 1 else 0
  }

  /** The id of an original row; missing, out of range and nonpositive ids count as 0. */
  function IdOfRow(ids: seq<Option<int>>, row: int): int {
    if 0 <= row - 1 < |ids| && ids[row - 1].Some? && ids[row - 1].value > 0 then ids[row - 1].value else 0
  }

  function UnitIds(units: seq<seq<int>>, links: Links, sel: seq<nat>): (raw: seq<int>)
    requires sel != [] && SelectionOk(units, links, sel)
    ensures |raw| == |units[sel[|sel| - 1]]|
  {
    var rows := units[sel[|sel| - 1]];
    match links
    case NoLinks => seq(|rows|, _ => 0)
    case ByKind(kind) =>
      seq(|rows|, _ => if IsPair(kind, sel[|sel| - 1]) then PairCount(kind, sel) else 0)
    case ByIds(ids) => seq(|rows|, r requires 0 <= r < |rows| => IdOfRow(ids, rows[r]))
  }

  /** The match ids before sorting and renumbering. */
  function RawIds(units: seq<seq<int>>, links: Links, sel: seq<nat>): (raw: seq<int>)
    requires SelectionOk(units, links, sel)
    ensures |raw| == |FlatRows(units, sel)|
  {
    if sel == [] then [] else RawIds(units, links, sel[..|sel| - 1]) + UnitIds(units, links, sel)
  }

  /** The order of the output rows: as they came, or sorted by row with ties as they came. */
  function RowOrder(rows: seq<int>, preserve: bool): (o: seq<nat>)
    ensures |o| == |rows| && forall i :: 0 <= i < |o| ==> o[i] < |rows|
  {
    if preserve then Order(rows) else seq<nat>(|rows|, i => i)
  }

  function OneBased(sel: seq<nat>): (ids: seq<int>)
    ensures |ids| == |sel| && forall i :: 0 <= i < |sel| ==> ids[i] == sel[i] + 1
  {
    seq(|sel|, i requires 0 <= i < |sel| => sel[i] + 1)
  }

  /** What a draw is, whichever path computes it. */
  function GeneralDraw(units: seq<seq<int>>, links: Links, sel: seq<nat>, preserve: bool): Draw
    requires SelectionOk(units, links, sel)
  {
    var rows := FlatRows(units, sel);
    var o := RowOrder(rows, preserve);
    Draw(Gather(rows, o),
         if links.NoLinks? then None else Some(Renumbered(Gather(RawIds(units, links, sel), o))),
         OneBased(sel), |sel|)
  }

  // Pairs keep their identity.

  lemma {:induction false} RawIdAt(units: seq<seq<int>>, kind: seq<string>, sel: seq<nat>, r: nat)
    requires SelectionOk(units, ByKind(kind), sel) && r < |FlatRows(units, sel)|
    ensures var o := Occurrences(units, sel)[r];
      RawIds(units, ByKind(kind), sel)[r] == if IsPair(kind, sel[o]) then PairCount(kind, sel[..o + 1]) else 0
  {
    var last := |sel| - 1;
    var before := |FlatRows(units, sel[..last])|;
    if r < before {
      RawIdAt(units, kind, sel[..last], r);
      var o := Occurrences(units, sel[..last])[r];
      assert sel[..last][..o + 1] == sel[..o + 1];
    } else {
      assert sel[..last + 1] == sel;
    }
  }

  lemma {:induction false} PairCountGrows(kind: seq<string>, sel: seq<nat>, a: nat, b: nat)
    requires (forall i :: 0 <= i < |sel| ==> sel[i] < |kind|) && a <= b <= |sel|
    ensures PairCount(kind, sel[..a]) <= PairCount(kind, sel[..b])
    ensures a < b && IsPair(kind, sel[b - 1]) ==> PairCount(kind, sel[..a]) < PairCount(kind, sel[..b])
  {
    if a < b {
      assert sel[..b][..b - 1] == sel[..b - 1];
      PairCountGrows(kind, sel, a, b - 1);
    }
  }

  /** Before sorting: rows carry the same positive id exactly when they are of one pair occurrence. */
  lemma RawIdsIdentify(units: seq<seq<int>>, kind: seq<string>, sel: seq<nat>, r: nat, s: nat)
    requires SelectionOk(units, ByKind(kind), sel) && r < |FlatRows(units, sel)| && s < |FlatRows(units, sel)|
    ensures var raw, occ := RawIds(units, ByKind(kind), sel), Occurrences(units, sel);
      && (raw[r] > 0 <==> IsPair(kind, sel[occ[r]]))
      && (raw[r] == raw[s] && raw[r] > 0 <==> occ[r] == occ[s] && IsPair(kind, sel[occ[r]]))
  {
    hide RawIds, FlatRows, Occurrences, IsPair;
    RawIdAt(units, kind, sel, r);
    RawIdAt(units, kind, sel, s);
    SelectedKinds(units, kind, sel);
    CountsIdentify(kind, sel, Occurrences(units, sel)[r], Occurrences(units, sel)[s]);
  }

  lemma SelectedKinds(units: seq<seq<int>>, kind: seq<string>, sel: seq<nat>)
    requires SelectionOk(units, ByKind(kind), sel)
    ensures forall i :: 0 <= i < |sel| ==> sel[i] < |kind|
  {}

  /** The running count of pair units tells selected pair occurrences apart. */
  lemma CountsIdentify(kind: seq<string>, sel: seq<nat>, a: nat, b: nat)
    requires (forall i :: 0 <= i < |sel| ==> sel[i] < |kind|) && a < |sel| && b < |sel|
    ensures IsPair(kind, sel[a]) ==> PairCount(kind, sel[..a + 1]) > 0
    ensures IsPair(kind, sel[a]) && IsPair(kind, sel[b]) ==>
              (PairCount(kind, sel[..a + 1]) == PairCount(kind, sel[..b + 1]) <==> a == b)
  {
    hide IsPair;
    PairCountGrows(kind, sel, a, a + 1);
    if a < b {
      PairCountGrows(kind, sel, a + 1, b + 1);
    } else {
      PairCountGrows(kind, sel, b + 1, a + 1);
    }
  }

  /**
   * In the finished draw, two rows share a positive match id exactly when they come from the same
   * selected occurrence of a pair unit; repeated selections of one pair stay apart.
   */
  lemma PairIdentity(units: seq<seq<int>>, kind: seq<string>, sel: seq<nat>, preserve: bool, i: nat, j: nat)
    requires SelectionOk(units, ByKind(kind), sel)
    requires i < |FlatRows(units, sel)| && j < |FlatRows(units, sel)|
    ensures var m := GeneralDraw(units, ByKind(kind), sel, preserve).matchIds.value;
      var occ, o := Occurrences(units, sel), RowOrder(FlatRows(units, sel), preserve);
      |m| == |FlatRows(units, sel)|
      && (m[i] == m[j] && m[i] > 0 <==> occ[o[i]] == occ[o[j]] && kind[sel[occ[o[i]]]] == "pair")
  {
    var o := RowOrder(FlatRows(units, sel), preserve);
    var raw := Gather(RawIds(units, ByKind(kind), sel), o);
    hide RowOrder, RawIds, Occurrences, FlatRows;
    RenumberKeepsLinks(raw, i, j);
    RenumberKeepsLinks(raw, j, i);
    RawIdsIdentify(units, kind, sel, o[i], o[j]);
  }

  function Linked(rows: seq<int>, raw: seq<int>): (z: seq<(int, int)>)
    requires |rows| == |raw|
    ensures |z| == |rows| && forall i :: 0 <= i < |z| ==> z[i] == (rows[i], raw[i])
  {
    seq(|rows|, i requires 0 <= i < |rows| => (rows[i], raw[i]))
  }

  /** Sorting keeps the multiset of (row, id) links; equal rows stay in selection order. */
  lemma SortingKeepsLinks(rows: seq<int>, raw: seq<int>)
    requires |rows| == |raw|
    ensures var o := RowOrder(rows, true);
      && multiset(Linked(Gather(rows, o), Gather(raw, o))) == multiset(Linked(rows, raw))
      && Ascending(Gather(rows, o))
      && forall i, j :: 0 <= i < j < |o| && rows[o[i]] == rows[o[j]] ==> o[i] < o[j]
  {
    var o := Order(rows);
    OrderGathers(Linked(rows, raw), rows);
    assert Linked(Gather(rows, o), Gather(raw, o)) == Gather(Linked(rows, raw), o);
    OrderSorts(rows);
    forall i, j | 0 <= i < j < |o|
      ensures rows[o[i]] <= rows[o[j]] && (rows[o[i]] == rows[o[j]] ==> o[i] < o[j])
    {
      assert Before(rows, o[i], o[j]);
    }
  }

  // The two paths.

  ghost predicate IdentitySingletons(units: seq<seq<int>>) {
    forall i :: 0 <= i < |units| ==> units[i] == [i + 1]
  }

  lemma {:induction false} SingletonRows(units: seq<seq<int>>, sel: seq<nat>)
    requires IdentitySingletons(units) && forall i :: 0 <= i < |sel| ==> sel[i] < |units|
    ensures FlatRows(units, sel) == OneBased(sel)
  {
    if sel != [] {
      SingletonRows(units, sel[..|sel| - 1]);
    }
  }

  /** `std::sort`. */
  method StdSort(s: seq<int>) returns (r: seq<int>)
    ensures Ascending(r) && multiset(r) == multiset(s)
  {
    GatherAscends(s);
    r := Gather(s, Order(s));
  }

  lemma SortIsUnique(s: seq<int>, r: seq<int>)
    requires Ascending(r) && multiset(r) == multiset(s)
    ensures r == Gather(s, Order(s))
  {
    GatherAscends(s);
    AscendingUnique(r, Gather(s, Order(s)));
  }

  lemma UnsortedIsIdentity(rows: seq<int>)
    ensures Gather(rows, RowOrder(rows, false)) == rows
    ensures |rows| <= 1 ==> Gather(rows, RowOrder(rows, true)) == rows
  {
    if |rows| <= 1 {
      assert forall i :: 0 <= i < |rows| ==> Order(rows)[i] == 0;
    }
  }

  /** `build_draw`: the early return for identity singletons agrees with the general path. */
  method BuildDraw(units: seq<seq<int>>, links: Links, sel: seq<nat>, preserve: bool, identitySingletons: bool)
    returns (d: Draw)
    requires SelectionOk(units, links, sel)
    requires identitySingletons ==> IdentitySingletons(units)
    ensures d == GeneralDraw(units, links, sel, preserve)
  {
    if identitySingletons && links.NoLinks? {
      d := SingletonDraw(units, sel, preserve);
      return;
    }
    var rows, raw := CollectRows(units, links, sel);
    UnsortedIsIdentity(rows);
    UnsortedIsIdentity(raw);
    if preserve && |rows| > 1 {
      var ord := Order(rows);
      rows, raw := Gather(rows, ord), Gather(raw, ord);
    } else if preserve {
      SmallOrders(rows, raw);
    }
    var m := None;
    if !links.NoLinks? {
      var ids := Renumber(raw);
      m := Some(ids);
    }
    d := Draw(rows, m, OneBased(sel), |sel|);
  }

  lemma SmallOrders(rows: seq<int>, raw: seq<int>)
    requires |rows| == |raw| <= 1
    ensures Gather(raw, RowOrder(rows, true)) == raw
  {
    assert forall i :: 0 <= i < |rows| ==> Order(rows)[i] == 0;
  }

  method SingletonDraw(units: seq<seq<int>>, sel: seq<nat>, preserve: bool) returns (d: Draw)
    requires SelectionOk(units, NoLinks, sel) && IdentitySingletons(units)
    ensures d == GeneralDraw(units, NoLinks, sel, preserve)
  {
    var rows, unitIds := [], [];
    for i := 0 to |sel|
      invariant rows == unitIds == OneBased(sel[..i])
    {
      assert OneBased(sel[..i + 1]) == OneBased(sel[..i]) + [sel[i] + 1];
      var row := sel[i] + 1;
      rows, unitIds := rows + [row], unitIds + [row];
    }
    assert sel[..|sel|] == sel;
    SingletonRows(units, sel);
    UnsortedIsIdentity(rows);
    if preserve && |sel| > 1 {
      ghost var unsorted := rows;
      rows := StdSort(rows);
      SortIsUnique(unsorted, rows);
    }
    d := Draw(rows, None, unitIds, |sel|);
  }

  /** The loop over the selected units, with its running pair number. */
  method CollectRows(units: seq<seq<int>>, links: Links, sel: seq<nat>) returns (rows: seq<int>, raw: seq<int>)
    requires SelectionOk(units, links, sel)
    ensures rows == FlatRows(units, sel) && raw == RawIds(units, links, sel)
  {
    rows, raw := [], [];
    var pairId := 0;
    for k := 0 to |sel|
      invariant rows == FlatRows(units, sel[..k]) && raw == RawIds(units, links, sel[..k])
      invariant links.ByKind? ==> pairId == PairCount(links.kind, sel[..k])
    {
      var next := sel[..k + 1];
      assert next[..k] == sel[..k];
      if links.ByKind? && IsPair(links.kind, sel[k]) {
        pairId := pairId + 1;
      }
      var ids := IdsOfUnit(units[sel[k]], links, sel[k], pairId);
      assert ids == UnitIds(units, links, next);
      rows := rows + units[sel[k]];
      raw := raw + ids;
    }
    assert sel[..|sel|] == sel;
  }

  function RowId(links: Links, unit: nat, pairId: int, row: int): int
    requires links.ByKind? ==> unit < |links.kind|
  {
    match links
    case NoLinks => 0
    case ByKind(kind) => if IsPair(kind, unit) then pairId else 0
    case ByIds(ids) => IdOfRow(ids, row)
  }

  /** The inner loop over the rows of one unit. */
  method IdsOfUnit(unitRows: seq<int>, links: Links, unit: nat, pairId: nat) returns (ids: seq<int>)
    requires links.ByKind? ==> unit < |links.kind|
    ensures |ids| == |unitRows|
    ensures forall r :: 0 <= r < |ids| ==> ids[r] == RowId(links, unit, pairId, unitRows[r])
  {
    ids := [];
    for r := 0 to |unitRows|
      invariant |ids| == r
      invariant forall q :: 0 <= q < r ==> ids[q] == RowId(links, unit, pairId, unitRows[q])
    {
      var id := 0;
      if links.ByKind? {
        id := if IsPair(links.kind, unit) then pairId else 0;
      } else if links.ByIds? {
        var pos := unitRows[r] - 1;
        if 0 <= pos && pos < |links.ids| && links.ids[pos].Some? {
          id := links.ids[pos].value;
        }
        id := if id > 0 then id else 0;
      }
      ids := ids + [id];
    }
  }
}

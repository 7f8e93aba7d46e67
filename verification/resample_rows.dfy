/** The rows of a draw and their match ids, read against the units and the original ids. */
module ResampleRows {
  import opened Wrappers
  import opened StableSort
  import opened Resampling
  import opened ResampleDraw

  ghost predicate Selects(units: seq<seq<int>>, sel: seq<nat>) { forall i :: 0 <= i < |sel| ==> sel[i] < |units| }

  /** Where the rows of the o-th selected unit begin. */
  function Offset(units: seq<seq<int>>, sel: seq<nat>, o: nat): nat
    requires (forall i :: 0 <= i < |sel| ==> sel[i] < |units|) && o <= |sel|
  {
    if o == 0 then 0 else Offset(units, sel, o - 1) + |units[sel[o - 1]]|
  }

  lemma {:induction false} OffsetIsLength(units: seq<seq<int>>, sel: seq<nat>, o: nat)
    requires Selects(units, sel) && o <= |sel|
    ensures Offset(units, sel, o) == |FlatRows(units, sel[..o])|
  {
    if o > 0 {
      OffsetIsLength(units, sel, o - 1);
      assert sel[..o][..o - 1] == sel[..o - 1];
    }
  }

  lemma {:induction false} FlatRowsPrefix(units: seq<seq<int>>, sel: seq<nat>, o: nat, r: nat)
    requires Selects(units, sel) && o <= |sel| && r < |FlatRows(units, sel[..o])|
    ensures r < |FlatRows(units, sel)| && FlatRows(units, sel)[r] == FlatRows(units, sel[..o])[r]
    ensures Occurrences(units, sel)[r] == Occurrences(units, sel[..o])[r]
  {
    if o < |sel| {
      var last := |sel| - 1;
      assert sel[..last][..o] == sel[..o];
      FlatRowsPrefix(units, sel[..last], o, r);
    } else {
      assert sel[..o] == sel;
    }
  }

  /** The j-th row of the o-th selected unit stands j places after the rows of the units before it. */
  lemma RowsOfUnit(units: seq<seq<int>>, sel: seq<nat>, o: nat, j: nat)
    requires Selects(units, sel) && o < |sel| && j < |units[sel[o]]|
    ensures Offset(units, sel, o) + j < |FlatRows(units, sel)| == Offset(units, sel, |sel|)
    ensures FlatRows(units, sel)[Offset(units, sel, o) + j] == units[sel[o]][j]
    ensures Occurrences(units, sel)[Offset(units, sel, o) + j] == o
  {
    OffsetIsLength(units, sel, o);
    OffsetIsLength(units, sel, |sel|);
    assert sel[..|sel|] == sel && sel[..o + 1][..o] == sel[..o];
    FlatRowsPrefix(units, sel, o + 1, Offset(units, sel, o) + j);
  }

  /** A draw lists its units from 1, and its rows are those of its units: as they came, or sorted. */
  lemma DrawRows(units: seq<seq<int>>, links: Links, sel: seq<nat>, preserve: bool)
    requires SelectionOk(units, links, sel)
    ensures var d := GeneralDraw(units, links, sel, preserve);
      && d.count == |d.unitIds| == |sel| && (forall i :: 0 <= i < |sel| ==> d.unitIds[i] == sel[i] + 1)
      && multiset(d.rows) == multiset(FlatRows(units, sel))
      && (if preserve then Ascending(d.rows) else d.rows == FlatRows(units, sel))
  {
    var rows := FlatRows(units, sel);
    if preserve {
      GatherAscends(rows);
    } else {
      UnsortedIsIdentity(rows);
    }
  }

  /** The original row carries this positive id. */
  ghost predicate Carries(ids: seq<Option<int>>, row: int, id: int) {
    1 <= row <= |ids| && ids[row - 1] == Some(id) && id > 0
  }

  lemma CarriedByBoth(ids: seq<Option<int>>, row: int, other: int)
    ensures (exists id: int :: Carries(ids, row, id) && Carries(ids, other, id))
       <==> IdOfRow(ids, row) == IdOfRow(ids, other) && IdOfRow(ids, row) > 0
  {
    if IdOfRow(ids, row) == IdOfRow(ids, other) && IdOfRow(ids, row) > 0 {
      assert Carries(ids, row, IdOfRow(ids, row)) && Carries(ids, other, IdOfRow(ids, row));
    }
  }

  lemma RenumberLinks(raw: seq<int>, i: nat, j: nat)
    requires i < |raw| && j < |raw|
    ensures |Renumbered(raw)| == |raw|
    ensures Renumbered(raw)[i] == Renumbered(raw)[j] && Renumbered(raw)[i] > 0 <==> raw[i] == raw[j] && raw[i] > 0
  {
    hide Renumbered;
    RenumberKeepsLinks(raw, i, j);
    RenumberKeepsLinks(raw, j, i);
  }

  lemma {:induction false} RawIdOfRow(units: seq<seq<int>>, ids: seq<Option<int>>, sel: seq<nat>, r: nat)
    requires Selects(units, sel) && r < |FlatRows(units, sel)|
    ensures RawIds(units, ByIds(ids), sel)[r] == IdOfRow(ids, FlatRows(units, sel)[r])
  {
    var last := |sel| - 1;
    if r < |FlatRows(units, sel[..last])| {
      RawIdOfRow(units, ids, sel[..last], r);
    }
  }

  /**
   * With ids of the original rows, two rows of a draw share a positive id exactly when their original rows
   * carry the same positive id; missing, nonpositive and out-of-range ids link nothing.
   */
  lemma IdRowsLinked(units: seq<seq<int>>, ids: seq<Option<int>>, sel: seq<nat>, preserve: bool, i: nat, j: nat)
    requires SelectionOk(units, ByIds(ids), sel)
    requires i < |FlatRows(units, sel)| && j < |FlatRows(units, sel)|
    ensures var d := GeneralDraw(units, ByIds(ids), sel, preserve);
      && d.matchIds.Some? && |d.matchIds.value| == |d.rows| == |FlatRows(units, sel)|
      && var m := d.matchIds.value;
         (m[i] == m[j] && m[i] > 0 <==> exists id: int :: Carries(ids, d.rows[i], id) && Carries(ids, d.rows[j], id))
  {
    var rows := FlatRows(units, sel);
    var o := RowOrder(rows, preserve);
    var raw := Gather(RawIds(units, ByIds(ids), sel), o);
    hide RowOrder, RawIds, Occurrences, FlatRows, Carries, Renumbered, IdOfRow;
    RenumberLinks(raw, i, j);
    RawIdOfRow(units, ids, sel, o[i]);
    RawIdOfRow(units, ids, sel, o[j]);
    CarriedByBoth(ids, rows[o[i]], rows[o[j]]);
  }
}

/** The grouped data of the mixed-model engine: rows sorted by group, and the groups' segments. */
module GlmmGrouping {
  import opened Vectors
  import opened StableSort
  import opened GroupLayout
  import opened Wrappers

  /** The last element grows by one. */
  lemma Grow(ids: seq<int>, start: seq<nat>, size: seq<nat>, i: nat)
    requires IsLayout(ids, i, start, size) && 0 < i < |ids| && ids[i] == ids[i - 1]
    ensures size != [] && IsLayout(ids, i + 1, start, size[|size| - 1 := size[|size| - 1] + 1])
  {
    var g := |start| - 1;
    assert ids[i - 1] == ids[start[g]];
  }

  /** The smallest id is not the value the loop starts its comparison with. */
  ghost predicate SentinelFree(gid: seq<int>) { -1 in gid ==> exists i :: 0 <= i < |gid| && gid[i] < -1 }

  /** What the segmentation loop does, `None` where it extends a group that does not exist. */
  function Segmented(ids: seq<int>, n: nat): Option<(seq<nat>, seq<nat>)>
    requires n <= |ids|
  {
    if n == 0 then Some(([], []))
    else
      match Segmented(ids, n - 1)
      case None => None
      case Some((start, size)) =>
        var prev := if n == 1 then -1 else ids[n - 2];
        if ids[n - 1] != prev then Some((start + [n - 1], size + [1]))
        else if size == [] then None
        else Some((start, size[|size| - 1 := size[|size| - 1] + 1]))
  }

  /** It fails exactly on a first id of -1, and otherwise finds the layout. */
  lemma {:induction false} SegmentedIs(ids: seq<int>, n: nat)
    requires n <= |ids|
    ensures Segmented(ids, n).None? <==> n > 0 && ids[0] == -1
    ensures Segmented(ids, n).Some? ==> IsLayout(ids, n, Segmented(ids, n).value.0, Segmented(ids, n).value.1)
  {
    hide IsLayout;
    NoRuns(ids);
    if n > 0 {
      SegmentedIs(ids, n - 1);
      if Segmented(ids, n - 1).Some? {
        var (start, size) := Segmented(ids, n - 1).value;
        if n > 1 && ids[n - 1] == ids[n - 2] {
          Grow(ids, start, size, n - 1);
        } else {
          Append(ids, start, size, n - 1, n);
        }
      }
    }
  }

  lemma SmallestFirst(gid: seq<int>)
    requires gid != []
    ensures forall i :: 0 <= i < |gid| ==> gid[Order(gid)[0]] <= gid[i]
  {
    OrderSorts(gid);
    forall i: nat | i < |gid|
      ensures gid[Order(gid)[0]] <= gid[i]
    {
      assert i in Order(gid);
      var k: nat :| k < |Order(gid)| && Order(gid)[k] == i;
      assert k > 0 ==> Before(gid, Order(gid)[0], Order(gid)[k]);
    }
  }

  /** The constructor is defined exactly when the smallest group id differs from -1. */
  lemma DefinedIffSentinelFree(gid: seq<int>)
    ensures Segmented(Gather(gid, Order(gid)), |gid|).Some? <==> SentinelFree(gid)
  {
    var ids := Gather(gid, Order(gid));
    SegmentedIs(ids, |gid|);
    if gid != [] {
      SmallestFirst(gid);
      assert ids[0] == gid[Order(gid)[0]];
      assert ids[0] in gid;
      if -1 in gid {
        var i: nat :| i < |gid| && gid[i] == -1;
        assert ids[0] <= -1;
      }
    }
  }

  class GLMMData {
    var xS: Mat
    var yS: Vec
    var grpStart: seq<nat>
    var grpSize: seq<nat>
    var n: nat
    var p: nat
    var G: nat

    constructor (x: Mat, y: Vec, gid: seq<int>, p: nat)
      requires IsMat(x, |x|, p) && |y| == |gid| == |x| && SentinelFree(gid)
      ensures n == |x| && this.p == p && G == |grpStart|
      ensures xS == Gather(x, Order(gid)) && yS == Gather(y, Order(gid))
      ensures IsLayout(Gather(gid, Order(gid)), n, grpStart, grpSize)
    {
      OrderSorts(gid);
      var ord := Order(gid);
      var rows, outcomes := Rearranged(x, y, ord);
      DefinedIffSentinelFree(gid);
      var starts, sizes := SegmentGroups(gid, ord);
      xS, yS, grpStart, grpSize := rows, outcomes, starts, sizes;
      n, this.p, G := |x|, p, |starts|;
    }
  }

  /** The first loop: rows and outcomes in one order. */
  method Rearranged(x: Mat, y: Vec, ord: seq<nat>) returns (xS: Mat, yS: Vec)
    requires |x| == |y| == |ord| && forall i :: 0 <= i < |ord| ==> ord[i] < |x|
    ensures xS == Gather(x, ord) && yS == Gather(y, ord)
  {
    xS, yS := [], [];
    for i := 0 to |ord|
      invariant |xS| == |yS| == i && forall k :: 0 <= k < i ==> xS[k] == x[ord[k]] && yS[k] == y[ord[k]]
    {
      xS, yS := xS + [x[ord[i]]], yS + [y[ord[i]]];
    }
  }

  /** The second loop: a new segment at each change of id, else one more row in the last segment. */
  method SegmentGroups(gid: seq<int>, ord: seq<nat>) returns (grpStart: seq<nat>, grpSize: seq<nat>)
    requires forall i :: 0 <= i < |ord| ==> ord[i] < |gid|
    requires Segmented(Gather(gid, ord), |ord|).Some?
    ensures IsLayout(Gather(gid, ord), |ord|, grpStart, grpSize)
  {
    hide IsLayout, Segmented;
    ghost var ids := Gather(gid, ord);
    SegmentedIs(ids, |ord|);
    NoRuns(ids);
    grpStart, grpSize := [], [];
    var prev := -1;
    for i := 0 to |ord|
      invariant prev == (if i == 0 then -1 else ids[i - 1])
      invariant IsLayout(ids, i, grpStart, grpSize)
    {
      if gid[ord[i]] != prev {
        Append(ids, grpStart, grpSize, i, i + 1);
        grpStart, grpSize := grpStart + [i], grpSize + [1];
        prev := gid[ord[i]];
      } else {
        Grow(ids, grpStart, grpSize, i);
        grpSize := grpSize[|grpSize| - 1 := grpSize[|grpSize| - 1] + 1];
      }
    }
  }

  /** Both loops find the same layout on the sorted ids. */
  method SameLayout(x: Mat, y: Vec, gid: seq<int>, p: nat) returns (data: GLMMData, layout: Layout)
    requires IsMat(x, |x|, p) && |y| == |gid| == |x| && SentinelFree(gid)
    ensures data.grpStart == layout.start && data.grpSize == layout.size && data.G == layout.G
  {
    data := new GLMMData(x, y, gid, p);
    layout := BuildContiguousGroupLayout(Gather(gid, Order(gid)));
    LayoutUnique(Gather(gid, Order(gid)), |x|, data.grpStart, data.grpSize, layout.start, layout.size);
  }

  // Segments are groups.

  /** The id of a segment. */
  function GroupId(gid: seq<int>, start: seq<nat>, g: nat): int
    requires g < |start| && start[g] < |gid|
  {
    gid[Order(gid)[start[g]]]
  }

  /** Sorted positions i < j have the smaller id first, or the same id and the earlier row first. */
  lemma SortedBefore(gid: seq<int>, i: nat, j: nat)
    requires i < j < |gid|
    ensures Before(gid, Order(gid)[i], Order(gid)[j])
  {
    OrderSorts(gid);
  }

  lemma {:induction false} IdsRise(gid: seq<int>, start: seq<nat>, size: seq<nat>, g: nat, h: nat)
    requires IsLayout(Gather(gid, Order(gid)), |gid|, start, size) && g < h < |start|
    ensures start[g] + size[g] <= start[h] && GroupId(gid, start, g) < GroupId(gid, start, h)
  {
    var ids := Gather(gid, Order(gid));
    if g < h - 1 {
      IdsRise(gid, start, size, g, h - 1);
    }
    assert start[h - 1 + 1] == start[h - 1] + size[h - 1];
    assert ids[start[h - 1]] != ids[start[h - 1 + 1]];
    SortedBefore(gid, start[h - 1], start[h]);
  }

  lemma {:induction false} SegmentAt(ids: seq<int>, n: nat, start: seq<nat>, size: seq<nat>, i: nat, last: nat)
    returns (g: nat)
    requires IsLayout(ids, n, start, size) && last < |start| && i < start[last] + size[last]
    ensures g <= last && start[g] <= i < start[g] + size[g]
  {
    if start[last] <= i {
      g := last;
    } else {
      assert start[last - 1 + 1] == start[last - 1] + size[last - 1];
      g := SegmentAt(ids, n, start, size, i, last - 1);
    }
  }

  /** Segment g holds all rows of its id and no others, in their original order; ids rise from segment to segment. */
  lemma SegmentsAreGroups(gid: seq<int>, start: seq<nat>, size: seq<nat>, g: nat)
    requires IsLayout(Gather(gid, Order(gid)), |gid|, start, size) && g < |start|
    ensures forall row: nat :: row < |gid| ==>
              (gid[row] == GroupId(gid, start, g) <==> row in Order(gid)[start[g]..start[g] + size[g]])
    ensures forall i, j :: start[g] <= i < j < start[g] + size[g] ==> Order(gid)[i] < Order(gid)[j]
  {
    var ord, ids := Order(gid), Gather(gid, Order(gid));
    OrderSorts(gid);
    forall row: nat | row < |gid|
      ensures gid[row] == GroupId(gid, start, g) <==> row in ord[start[g]..start[g] + size[g]]
    {
      RowInSegment(gid, start, size, g, row);
    }
    forall i, j | start[g] <= i < j < start[g] + size[g]
      ensures ord[i] < ord[j]
    {
      SortedBefore(gid, i, j);
      assert ids[i] == ids[start[g]] && ids[j] == ids[start[g]];
    }
  }

  lemma RowInSegment(gid: seq<int>, start: seq<nat>, size: seq<nat>, g: nat, row: nat)
    requires IsLayout(Gather(gid, Order(gid)), |gid|, start, size) && g < |start| && row < |gid|
    ensures gid[row] == GroupId(gid, start, g) <==> row in Order(gid)[start[g]..start[g] + size[g]]
  {
    var ord := Order(gid);
    if row in ord[start[g]..start[g] + size[g]] {
      var j: nat :| j < size[g] && ord[start[g]..start[g] + size[g]][j] == row;
      assert Gather(gid, ord)[start[g] + j] == Gather(gid, ord)[start[g]];
    } else if gid[row] == GroupId(gid, start, g) {
      RowFound(gid, start, size, g, row);
    }
  }

  /** A row with the id of segment g lies in segment g, since ids differ between segments. */
  lemma RowFound(gid: seq<int>, start: seq<nat>, size: seq<nat>, g: nat, row: nat)
    requires IsLayout(Gather(gid, Order(gid)), |gid|, start, size) && g < |start| && row < |gid|
    requires gid[row] == GroupId(gid, start, g)
    ensures row in Order(gid)[start[g]..start[g] + size[g]]
  {
    var ord, ids := Order(gid), Gather(gid, Order(gid));
    OrderSorts(gid);
    assert row in ord;
    var i: nat :| i < |ord| && ord[i] == row;
    var h := SegmentAt(ids, |gid|, start, size, i, |start| - 1);
    assert ids[i] == ids[start[h]];
    if h < g {
      IdsRise(gid, start, size, h, g);
    } else if h > g {
      IdsRise(gid, start, size, g, h);
    } else {
      assert ord[start[g]..start[g] + size[g]][i - start[g]] == row;
    }
  }
}

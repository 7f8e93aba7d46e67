/** Turning observed outcomes into categories 1, ..., K; only the order of the outcomes matters. */
module AdjacentLevels {
  import opened StableSort

  /** `get_levels`: sort a copy, keep the first of each run, drop the rest. */
  method GetLevels(y: seq<int>) returns (levels: seq<int>)
    ensures IsDistinctSorted(levels, y)
  {
    levels := EraseRepeats(Gather(y, Order(y)));
    DistinctSortedIs(y);
  }

  method EraseRepeats(sorted: seq<int>) returns (levels: seq<int>)
    ensures levels == Unique(sorted)
  {
    levels := [];
    for i := 0 to |sorted|
      invariant levels == Unique(sorted[..i])
    {
      assert sorted[..i + 1][..i] == sorted[..i];
      if i == 0 || sorted[i - 1] != sorted[i] {
        levels := levels + [sorted[i]];
      }
    }
    assert sorted[..|sorted|] == sorted;
  }

  /** `map_y_to_1K`, by binary search for each outcome. */
  method MapToCategories(y: seq<int>, levels: seq<int>) returns (mapped: seq<nat>)
    ensures mapped == Categories(y, levels)
  {
    mapped := [];
    for i := 0 to |y|
      invariant mapped == Categories(y[..i], levels)
    {
      mapped := mapped + [LowerBound(levels, y[i]) + 1];
    }
    assert y[..|y|] == y;
  }

  function Categories(y: seq<int>, levels: seq<int>): (c: seq<nat>)
    ensures |c| == |y| && forall i :: 0 <= i < |y| ==> c[i] == LowerBound(levels, y[i]) + 1
  {
    seq(|y|, i requires 0 <= i < |y| => LowerBound(levels, y[i]) + 1)
  }

  lemma CategoryOf(y: seq<int>, levels: seq<int>, i: nat)
    requires IsDistinctSorted(levels, y) && i < |y|
    ensures 1 <= Categories(y, levels)[i] <= |levels| && levels[Categories(y, levels)[i] - 1] == y[i]
  {
    assert y[i] in y;
    var k: nat :| k < |levels| && levels[k] == y[i];
    LowerBoundFinds(levels, y[i], k);
  }

  /** Categories lie in 1..K, name their outcome, respect the order both ways, and none is empty. */
  lemma CategoriesAreRanks(y: seq<int>, levels: seq<int>)
    requires IsDistinctSorted(levels, y)
    ensures var c := Categories(y, levels);
            && (forall i :: 0 <= i < |y| ==> 1 <= c[i] <= |levels| && levels[c[i] - 1] == y[i])
            && (forall i, j :: 0 <= i < |y| && 0 <= j < |y| ==> (c[i] < c[j] <==> y[i] < y[j]))
            && (forall k :: 1 <= k <= |levels| ==> k in c)
  {
    var c := Categories(y, levels);
    forall i | 0 <= i < |y|
      ensures 1 <= c[i] <= |levels| && levels[c[i] - 1] == y[i]
    {
      CategoryOf(y, levels, i);
    }
    forall i, j | 0 <= i < |y| && 0 <= j < |y|
      ensures c[i] < c[j] <==> y[i] < y[j]
    {
      assert c[i] < c[j] ==> levels[c[i] - 1] < levels[c[j] - 1];
      assert c[j] < c[i] ==> levels[c[j] - 1] < levels[c[i] - 1];
    }
    forall k | 1 <= k <= |levels|
      ensures k in c
    {
      assert levels[k - 1] in y;
      var i: nat :| i < |y| && y[i] == levels[k - 1];
      LowerBoundFinds(levels, y[i], k - 1);
      assert c[i] == k;
    }
  }
}

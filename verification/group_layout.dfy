/** Runs of equal ids: the layout of contiguous groups, computed by two different loops. */
module GroupLayout {

  /** Segments [start, start + size) tile the first n positions; ids are constant inside and change between them. */
  ghost predicate IsLayout(ids: seq<int>, n: nat, start: seq<nat>, size: seq<nat>) {
    && n <= |ids| && |start| == |size| && (n == 0 <==> start == [])
    && (start != [] ==> start[0] == 0 && start[|start| - 1] + size[|start| - 1] == n)
    && (forall g :: 0 <= g < |start| ==> size[g] > 0 && start[g] + size[g] <= n)
    && (forall g :: 0 <= g < |start| - 1 ==> start[g + 1] == start[g] + size[g])
    && (forall g, i :: 0 <= g < |start| && start[g] <= i < start[g] + size[g] ==> ids[i] == ids[start[g]])
    && (forall g :: 0 <= g < |start| - 1 ==> ids[start[g]] != ids[start[g + 1]])
  }

  lemma NextStart(ids: seq<int>, n: nat, start: seq<nat>, size: seq<nat>, g: nat)
    requires IsLayout(ids, n, start, size) && g < |start|
    ensures start[g] + size[g] < n ==> g + 1 < |start| && ids[start[g] + size[g]] != ids[start[g]]
    ensures start[g] + size[g] == n ==> g + 1 == |start|
  {
    if g < |start| - 1 {
      assert start[g + 1] == start[g] + size[g];
    }
  }

  lemma SameSize(ids: seq<int>, n: nat, start: seq<nat>, size: seq<nat>, start': seq<nat>, size': seq<nat>, g: nat)
    requires IsLayout(ids, n, start, size) && IsLayout(ids, n, start', size')
    requires g < |start| && g < |start'| && start[g] == start'[g]
    ensures size[g] == size'[g]
  {
    NextStart(ids, n, start, size, g);
    NextStart(ids, n, start', size', g);
  }

  lemma {:induction false} SamePrefix(ids: seq<int>, n: nat, start: seq<nat>, size: seq<nat>, start': seq<nat>,
                                      size': seq<nat>, g: nat)
    requires IsLayout(ids, n, start, size) && IsLayout(ids, n, start', size') && g < |start| && g < |start'|
    ensures start[g] == start'[g] && size[g] == size'[g]
  {
    if g > 0 {
      SamePrefix(ids, n, start, size, start', size', g - 1);
      assert start[g - 1 + 1] == start[g - 1] + size[g - 1] && start'[g - 1 + 1] == start'[g - 1] + size'[g - 1];
    }
    SameSize(ids, n, start, size, start', size', g);
  }

  lemma NotShorter(ids: seq<int>, n: nat, start: seq<nat>, size: seq<nat>, start': seq<nat>, size': seq<nat>)
    requires IsLayout(ids, n, start, size) && IsLayout(ids, n, start', size')
    ensures |start| >= |start'|
  {
    if start != [] && |start| < |start'| {
      SamePrefix(ids, n, start, size, start', size', |start| - 1);
      NextStart(ids, n, start', size', |start| - 1);
    }
  }

  /** The description determines the layout. */
  lemma LayoutUnique(ids: seq<int>, n: nat, start: seq<nat>, size: seq<nat>, start': seq<nat>, size': seq<nat>)
    requires IsLayout(ids, n, start, size) && IsLayout(ids, n, start', size')
    ensures start == start' && size == size'
  {
    NotShorter(ids, n, start, size, start', size');
    NotShorter(ids, n, start', size', start, size);
    forall g | 0 <= g < |start|
      ensures start[g] == start'[g] && size[g] == size'[g]
    {
      SamePrefix(ids, n, start, size, start', size', g);
    }
  }

  ghost predicate IsMax(s: seq<nat>, m: nat) {
    (forall g :: 0 <= g < |s| ==> s[g] <= m) && (if s == [] then m == 0 else m in s)
  }

  datatype Layout = Layout(start: seq<nat>, size: seq<nat>, G: nat, maxSize: nat)

  /** Appending the run [from, to). */
  lemma Append(ids: seq<int>, start: seq<nat>, size: seq<nat>, from: nat, to: nat)
    requires IsLayout(ids, from, start, size) && from < to <= |ids|
    requires forall i :: from <= i < to ==> ids[i] == ids[from]
    requires from > 0 ==> ids[from - 1] != ids[from]
    ensures IsLayout(ids, to, start + [from], size + [to - from])
  {
    if start != [] {
      var g := |start| - 1;
      assert ids[from - 1] == ids[start[g]];
    }
  }

  /** `build_contiguous_group_layout`. */
  method BuildContiguousGroupLayout(ids: seq<int>) returns (r: Layout)
    ensures IsLayout(ids, |ids|, r.start, r.size) && r.G == |r.start| && IsMax(r.size, r.maxSize)
  {
    hide IsLayout, IsMax;
    var n := |ids|;
    var starts: seq<nat>, sizes: seq<nat>, maxSize := [], [], 0;
    NoRuns(ids);
    var start := 0;
    while start < n
      invariant start <= n && IsLayout(ids, start, starts, sizes) && IsMax(sizes, maxSize)
      invariant 0 < start < n ==> ids[start - 1] != ids[start]
    {
      var end := RunEnd(ids, start);
      Append(ids, starts, sizes, start, end);
      var sz := end - start;
      NewMax(sizes, maxSize, sz);
      starts, sizes := starts + [start], sizes + [sz];
      if sz > maxSize { maxSize := sz; }
      start := end;
    }
    return Layout(starts, sizes, |starts|, maxSize);
  }

  lemma NoRuns(ids: seq<int>)
    ensures IsLayout(ids, 0, [], []) && IsMax([], 0)
  {}

  lemma NewMax(s: seq<nat>, m: nat, x: nat)
    requires IsMax(s, m) && x > 0
    ensures IsMax(s + [x], if x > m then x else m)
  {
    var t := s + [x];
    assert t[|s|] == x;
    assert forall g :: 0 <= g < |s| ==> t[g] == s[g];
    assert m in s ==> m in t;
  }

  /** The inner loop: past the last position with the id of `start`. */
  method RunEnd(ids: seq<int>, start: nat) returns (end: nat)
    requires start < |ids|
    ensures start < end <= |ids| && forall i :: start <= i < end ==> ids[i] == ids[start]
    ensures end < |ids| ==> ids[end - 1] != ids[end]
  {
    end := start + 1;
    while end < |ids| && ids[end] == ids[start]
      invariant start < end <= |ids| && forall i :: start <= i < end ==> ids[i] == ids[start]
    {
      end := end + 1;
    }
  }
}

/** The library sorts that the sources call, given by the contracts that determine their results. */
module StableSort {
  import opened Sequences

  /** Entries of `s` picked in the order `o`. */
  function Gather<T>(s: seq<T>, o: seq<nat>): (r: seq<T>)
    requires forall i :: 0 <= i < |o| ==> o[i] < |s|
    ensures |r| == |o| && forall i :: 0 <= i < |o| ==> r[i] == s[o[i]]
  {
    seq(|o|, i requires 0 <= i < |o| => s[o[i]])
  }

  /** Index `a` comes before index `b`: smaller key, or equal keys and the original order. */
  predicate Before(keys: seq<int>, a: nat, b: nat)
    requires a < |keys| && b < |keys|
  {
    keys[a] < keys[b] || (keys[a] == keys[b] && a < b)
  }

  ghost predicate InOrder(keys: seq<int>, o: seq<nat>) {
    && (forall i :: 0 <= i < |o| ==> o[i] < |keys|)
    && forall i, j :: 0 <= i < j < |o| ==> Before(keys, o[i], o[j])
  }

  /** What `std::stable_sort` on the indices 0, 1, ... guarantees. */
  ghost predicate IsStableOrder(keys: seq<int>, o: seq<nat>) {
    InOrder(keys, o) && forall k: nat :: k < |keys| ==> k in o
  }

  /** Index `k` placed behind everything that is not larger. */
  function Insert(keys: seq<int>, o: seq<nat>, k: nat): (r: seq<nat>)
    requires k < |keys| && forall i :: 0 <= i < |o| ==> o[i] < |keys|
    ensures |r| == |o| + 1 && forall i :: 0 <= i < |r| ==> r[i] < |keys|
  {
    if o == [] || keys[o[|o| - 1]] <= keys[k] then o + [k]
    else Insert(keys, o[..|o| - 1], k) + [o[|o| - 1]]
  }

  function SortFirst(keys: seq<int>, n: nat): (o: seq<nat>)
    requires n <= |keys|
    ensures |o| == n && forall i :: 0 <= i < |o| ==> o[i] < n
  {
    if n == 0 then []
    else
      var o := SortFirst(keys, n - 1);
      InsertMembers(keys, o, n - 1);
      var r := Insert(keys, o, n - 1);
      assert forall i :: 0 <= i < |r| ==> r[i] in r;
      r
  }

  /** The stable ascending order of all indices. */
  function Order(keys: seq<int>): (o: seq<nat>)
    ensures |o| == |keys| && forall i :: 0 <= i < |o| ==> o[i] < |keys|
  {
    SortFirst(keys, |keys|)
  }

  lemma {:induction false} InsertMembers(keys: seq<int>, o: seq<nat>, k: nat)
    requires k < |keys| && forall i :: 0 <= i < |o| ==> o[i] < |keys|
    ensures multiset(Insert(keys, o, k)) == multiset(o) + multiset{k}
    ensures forall x :: x in Insert(keys, o, k) <==> x in o || x == k
  {
    if o != [] && keys[o[|o| - 1]] > keys[k] {
      InsertMembers(keys, o[..|o| - 1], k);
      assert o == o[..|o| - 1] + [o[|o| - 1]];
    }
  }

  lemma {:induction false} InsertInOrder(keys: seq<int>, o: seq<nat>, k: nat)
    requires k < |keys| && InOrder(keys, o) && forall i :: 0 <= i < |o| ==> o[i] < k
    ensures InOrder(keys, Insert(keys, o, k))
  {
    if o != [] && keys[o[|o| - 1]] > keys[k] {
      InsertInOrder(keys, o[..|o| - 1], k);
      InsertedBeforeLast(keys, o, k);
      OneMoreInOrder(keys, Insert(keys, o[..|o| - 1], k), o[|o| - 1]);
    } else if o != [] {
      assert forall i :: 0 <= i < |o| - 1 ==> Before(keys, o[i], o[|o| - 1]);
    }
  }

  ghost predicate AllBefore(keys: seq<int>, r: seq<nat>, x: nat) {
    x < |keys| && forall i :: 0 <= i < |r| ==> r[i] < |keys| && Before(keys, r[i], x)
  }

  lemma OneMoreInOrder(keys: seq<int>, r: seq<nat>, x: nat)
    requires InOrder(keys, r) && AllBefore(keys, r, x)
    ensures InOrder(keys, r + [x])
  {}

  lemma InsertedBeforeLast(keys: seq<int>, o: seq<nat>, k: nat)
    requires k < |keys| && InOrder(keys, o) && (forall i :: 0 <= i < |o| ==> o[i] < k)
    requires o != [] && keys[o[|o| - 1]] > keys[k]
    ensures AllBefore(keys, Insert(keys, o[..|o| - 1], k), o[|o| - 1])
  {
    hide Insert;
    var last := |o| - 1;
    InsertMembers(keys, o[..last], k);
    var r := Insert(keys, o[..last], k);
    forall i | 0 <= i < |r|
      ensures Before(keys, r[i], o[last])
    {
      assert r[i] in r;
      if r[i] != k {
        var j: nat :| j < last && o[..last][j] == r[i];
        assert o[j] == r[i];
      }
    }
  }

  lemma {:induction false} SortFirstSorts(keys: seq<int>, n: nat)
    requires n <= |keys|
    ensures InOrder(keys, SortFirst(keys, n))
    ensures forall k: nat :: k < n ==> k in SortFirst(keys, n)
  {
    if n > 0 {
      SortFirstSorts(keys, n - 1);
      InsertMembers(keys, SortFirst(keys, n - 1), n - 1);
      InsertInOrder(keys, SortFirst(keys, n - 1), n - 1);
    }
  }

  lemma OrderSorts(keys: seq<int>)
    ensures IsStableOrder(keys, Order(keys))
  {
    SortFirstSorts(keys, |keys|);
  }

  /** The contract leaves no choice: there is only one stable order. */
  lemma {:induction false} InOrderUnique(keys: seq<int>, s: seq<nat>, t: seq<nat>)
    requires InOrder(keys, s) && InOrder(keys, t)
    requires forall x :: x in s <==> x in t
    ensures s == t
  {
    hide InOrder;
    assert s != [] ==> s[0] in s;
    assert t != [] ==> t[0] in t;
    if s != [] && t != [] {
      SameLatest(keys, s, t);
      SameBeforeLatest(keys, s, t);
      InOrderUnique(keys, s[..|s| - 1], t[..|t| - 1]);
      SplitLast(s);
      SplitLast(t);
    }
  }

  ghost predicate SameMembers(s: seq<nat>, t: seq<nat>) { forall x :: x in s <==> x in t }

  lemma SplitLast<T>(s: seq<T>)
    requires s != []
    ensures s == s[..|s| - 1] + [s[|s| - 1]]
  {}

  lemma SameLatest(keys: seq<int>, s: seq<nat>, t: seq<nat>)
    requires InOrder(keys, s) && InOrder(keys, t) && s != [] && t != []
    requires forall x :: x in s <==> x in t
    ensures s[|s| - 1] == t[|t| - 1]
  {
    assert s[|s| - 1] in s && t[|t| - 1] in t;
    LastIsLatest(keys, s, t[|t| - 1]);
    LastIsLatest(keys, t, s[|s| - 1]);
  }

  lemma SameBeforeLatest(keys: seq<int>, s: seq<nat>, t: seq<nat>)
    requires InOrder(keys, s) && InOrder(keys, t) && s != [] && t != []
    requires s[|s| - 1] == t[|t| - 1] && forall x :: x in s <==> x in t
    ensures InOrder(keys, s[..|s| - 1]) && InOrder(keys, t[..|t| - 1])
    ensures SameMembers(s[..|s| - 1], t[..|t| - 1])
  {
    hide InOrder;
    DropLatest(keys, s);
    DropLatest(keys, t);
    var u, v := s[..|s| - 1], t[..|t| - 1];
    forall x
      ensures x in u <==> x in v
    {
      assert x in s <==> x in t;
    }
  }

  lemma LastIsLatest(keys: seq<int>, s: seq<nat>, x: nat)
    requires InOrder(keys, s) && x in s
    ensures x == s[|s| - 1] || Before(keys, x, s[|s| - 1])
  {
    var i: nat :| i < |s| && s[i] == x;
  }

  lemma DropLatest(keys: seq<int>, s: seq<nat>)
    requires InOrder(keys, s) && s != []
    ensures InOrder(keys, s[..|s| - 1])
    ensures forall x :: x in s[..|s| - 1] <==> x in s && x != s[|s| - 1]
  {
    assert s == s[..|s| - 1] + [s[|s| - 1]];
  }

  lemma StableOrderUnique(keys: seq<int>, o: seq<nat>)
    requires IsStableOrder(keys, o)
    ensures o == Order(keys)
  {
    OrderSorts(keys);
    forall x
      ensures x in o <==> x in Order(keys)
    {
      if x in o { var i: nat :| i < |o| && o[i] == x; }
    }
    InOrderUnique(keys, o, Order(keys));
  }

  lemma {:induction false} InsertGathers<T>(s: seq<T>, keys: seq<int>, o: seq<nat>, k: nat)
    requires |s| == |keys| && k < |keys| && forall i :: 0 <= i < |o| ==> o[i] < |keys|
    ensures multiset(Gather(s, Insert(keys, o, k))) == multiset(Gather(s, o)) + multiset{s[k]}
  {
    if o == [] || keys[o[|o| - 1]] <= keys[k] {
      assert Gather(s, o + [k]) == Gather(s, o) + [s[k]];
    } else {
      var last := |o| - 1;
      InsertGathers(s, keys, o[..last], k);
      assert Gather(s, o) == Gather(s, o[..last]) + [s[o[last]]];
      assert Gather(s, Insert(keys, o, k)) == Gather(s, Insert(keys, o[..last], k)) + [s[o[last]]];
    }
  }

  lemma {:induction false} SortFirstGathers<T>(s: seq<T>, keys: seq<int>, n: nat)
    requires n <= |s| == |keys|
    ensures multiset(Gather(s, SortFirst(keys, n))) == multiset(s[..n])
  {
    hide Gather, Insert;
    if n > 0 {
      SortFirstGathers(s, keys, n - 1);
      InsertGathers(s, keys, SortFirst(keys, n - 1), n - 1);
      PrefixGrows(s, n - 1);
    } else {
      assert Gather(s, []) == [] == s[..0];
    }
  }

  lemma PrefixGrows<T>(s: seq<T>, n: nat)
    requires n < |s|
    ensures multiset(s[..n + 1]) == multiset(s[..n]) + multiset{s[n]}
  {
    assert s[..n + 1] == s[..n] + [s[n]];
  }

  /** Sorting any data along keys keeps the multiset of the data. */
  lemma OrderGathers<T>(s: seq<T>, keys: seq<int>)
    requires |s| == |keys|
    ensures multiset(Gather(s, Order(keys))) == multiset(s)
  {
    SortFirstGathers(s, keys, |keys|);
    assert s[..|s|] == s;
  }

  // Sorting plain values.

  ghost predicate Ascending(s: seq<int>) { forall i, j :: 0 <= i < j < |s| ==> s[i] <= s[j] }

  /** What `std::sort` guarantees also has only one result. */
  lemma {:induction false} AscendingUnique(s: seq<int>, t: seq<int>)
    requires Ascending(s) && Ascending(t) && multiset(s) == multiset(t)
    ensures s == t
  {
    assert |s| == |multiset(s)| && |t| == |multiset(t)|;
    if s != [] {
      SameLargest(s, t);
      AscendingUnique(s[..|s| - 1], t[..|t| - 1]);
      SplitLast(s);
      SplitLast(t);
    }
  }

  lemma SameLargest(s: seq<int>, t: seq<int>)
    requires Ascending(s) && Ascending(t) && multiset(s) == multiset(t) && s != [] && t != []
    ensures s[|s| - 1] == t[|t| - 1] && multiset(s[..|s| - 1]) == multiset(t[..|t| - 1])
    ensures Ascending(s[..|s| - 1]) && Ascending(t[..|t| - 1])
  {
    LastBounds(s, t);
    LastBounds(t, s);
    DropLast<int>(s);
    DropLast<int>(t);
  }

  lemma LastBounds(s: seq<int>, t: seq<int>)
    requires Ascending(t) && multiset(s) == multiset(t) && s != [] && t != []
    ensures s[|s| - 1] <= t[|t| - 1]
  {
    assert s[|s| - 1] in multiset(t);
    var j: nat :| j < |t| && t[j] == s[|s| - 1];
  }

  lemma DropLast<T>(s: seq<T>)
    requires s != []
    ensures multiset(s[..|s| - 1]) == multiset(s) - multiset{s[|s| - 1]}
  {
    assert s == s[..|s| - 1] + [s[|s| - 1]];
  }

  lemma GatherAscends(keys: seq<int>)
    ensures Ascending(Gather(keys, Order(keys))) && multiset(Gather(keys, Order(keys))) == multiset(keys)
  {
    OrderSorts(keys);
    OrderGathers(keys, keys);
  }

  /** `std::sort`, `std::unique` and `erase`: the distinct values, ascending. */
  ghost predicate IsDistinctSorted(s: seq<int>, values: seq<int>) {
    Increasing(s) && forall x :: x in s <==> x in values
  }

  /** Keeps the first of each run of equal neighbours. */
  function Unique(s: seq<int>): seq<int> {
    if |s| <= 1 then s
    else if s[|s| - 2] == s[|s| - 1] then Unique(s[..|s| - 1])
    else Unique(s[..|s| - 1]) + [s[|s| - 1]]
  }

  lemma {:induction false} UniqueIsIncreasing(s: seq<int>)
    requires Ascending(s)
    ensures Increasing(Unique(s)) && forall x :: x in Unique(s) <==> x in s
  {
    if |s| > 1 {
      var a := |s| - 1;
      UniqueIsIncreasing(s[..a]);
      assert s == s[..a] + [s[a]];
      var u := Unique(s[..a]);
      if s[a - 1] == s[a] {
        assert s[..a][a - 1] == s[a];
      } else {
        forall i | 0 <= i < |u|
          ensures u[i] < s[a]
        {
          assert u[i] in u;
          var j: nat :| j < a && s[..a][j] == u[i];
          assert s[a - 1] < s[a];
        }
      }
    }
  }

  function DistinctSorted(values: seq<int>): seq<int> { Unique(Gather(values, Order(values))) }

  lemma DistinctSortedIs(values: seq<int>)
    ensures IsDistinctSorted(DistinctSorted(values), values)
  {
    GatherAscends(values);
    var s := Gather(values, Order(values));
    UniqueIsIncreasing(s);
    assert forall x :: x in s <==> x in multiset(s);
    assert forall x :: x in values <==> x in multiset(values);
  }

  /** `std::lower_bound` on increasing values: how many of them lie below `x`. */
  function LowerBound(s: seq<int>, x: int): (k: nat)
    ensures k <= |s|
  {
    if s == [] || s[0] >= x then 0 else 1 + LowerBound(s[1..], x)
  }

  lemma {:induction false} LowerBoundFinds(s: seq<int>, x: int, k: nat)
    requires Increasing(s) && k < |s| && s[k] == x
    ensures LowerBound(s, x) == k
  {
    if k > 0 {
      LowerBoundFinds(s[1..], x, k - 1);
    }
  }
}

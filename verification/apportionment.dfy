/** Largest-remainder apportionment of a sample size over groups of units. */
module Apportionment {
  import opened Wrappers
  import opened StableSort

  function Sum(s: seq<nat>): nat { if s == [] then 0 else Sum(s[..|s| - 1]) + s[|s| - 1] }

  function Times(a: nat, b: nat): nat { a * b }

  /** The integer part of the exact quota total * size / n. */
  function Floor(total: nat, size: nat, n: nat): nat
    requires n > 0
  {
    Times(total, size) / n
  }

  /** The fractional part of the quota, scaled by n so that it is an integer. */
  function Remainder(total: nat, size: nat, n: nat): nat
    requires n > 0
  {
    Times(total, size) % n
  }

  function Floors(total: nat, sizes: seq<nat>, n: nat): (f: seq<nat>)
    requires n > 0
    ensures |f| == |sizes| && forall g :: 0 <= g < |f| ==> f[g] == Floor(total, sizes[g], n)
  {
    seq<nat>(|sizes|, g requires 0 <= g < |sizes| => Floor(total, sizes[g], n))
  }

  function Remainders(total: nat, sizes: seq<nat>, n: nat): (r: seq<nat>)
    requires n > 0
    ensures |r| == |sizes| && forall g :: 0 <= g < |r| ==> r[g] == Remainder(total, sizes[g], n)
  {
    seq<nat>(|sizes|, g requires 0 <= g < |sizes| => Remainder(total, sizes[g], n))
  }

  function Negated(rem: seq<nat>): (keys: seq<int>)
    ensures |keys| == |rem| && forall g :: 0 <= g < |rem| ==> keys[g] == 0 - rem[g] as int
  {
    seq<int>(|rem|, g requires 0 <= g < |rem| => 0 - rem[g] as int)
  }

  /** The groups by descending remainder, equal remainders in their original order. */
  function Ranking(rem: seq<nat>): (o: seq<nat>)
    ensures |o| == |rem| && forall i :: 0 <= i < |o| ==> o[i] < |rem|
  {
    Order(Negated(rem))
  }

  lemma RankingDescends(rem: seq<nat>)
    ensures forall i, j :: 0 <= i < j < |rem| ==>
              var a, b := Ranking(rem)[i], Ranking(rem)[j];
              rem[a] > rem[b] || (rem[a] == rem[b] && a < b)
    ensures forall g: nat :: g < |rem| ==> g in Ranking(rem)
    ensures multiset(Gather(rem, Ranking(rem))) == multiset(rem)
  {
    var keys := Negated(rem);
    OrderSorts(keys);
    OrderGathers(rem, keys);
    forall i, j | 0 <= i < j < |rem|
      ensures var a, b := Ranking(rem)[i], Ranking(rem)[j];
        rem[a] > rem[b] || (rem[a] == rem[b] && a < b)
    {
      assert Before(keys, Ranking(rem)[i], Ranking(rem)[j]);
    }
  }

  // Conservation: n * (sum of floors) + (sum of remainders) = total * n.

  lemma QuotaSplits(total: nat, size: nat, n: nat)
    requires n > 0
    ensures Times(total, size) == Times(n, Floor(total, size, n)) + Remainder(total, size, n)
    ensures Remainder(total, size, n) < n
  {}

  lemma TimesDistributes(a: nat, b: nat, c: nat)
    ensures Times(a, b + c) == Times(a, b) + Times(a, c)
  {}

  lemma {:induction false} SumsSplit(total: nat, sizes: seq<nat>, n: nat)
    requires n > 0
    ensures Times(total, Sum(sizes))
         == Times(n, Sum(Floors(total, sizes, n))) + Sum(Remainders(total, sizes, n))
  {
    if sizes != [] {
      hide Times, Floor, Remainder;
      var a := |sizes| - 1;
      SumsSplit(total, sizes[..a], n);
      assert Floors(total, sizes, n)[..a] == Floors(total, sizes[..a], n);
      assert Remainders(total, sizes, n)[..a] == Remainders(total, sizes[..a], n);
      QuotaSplits(total, sizes[a], n);
      TimesDistributes(total, Sum(sizes[..a]), sizes[a]);
      TimesDistributes(n, Sum(Floors(total, sizes[..a], n)), Floor(total, sizes[a], n));
    } else {
      TimesZero(total);
      TimesZero(n);
    }
  }

  lemma TimesZero(a: nat)
    ensures Times(a, 0) == 0
  {}

  lemma {:induction false} SumOfMultiset(s: seq<nat>, t: seq<nat>)
    requires multiset(s) == multiset(t)
    ensures Sum(s) == Sum(t)
  {
    assert |s| == |multiset(s)| == |t|;
    if s != [] {
      var a := |s| - 1;
      DropLast<nat>(s);
      assert s[a] in multiset(t);
      var k: nat :| k < |t| && t[k] == s[a];
      RemoveOne(t, k);
      SumOfMultiset(s[..a], t[..k] + t[k + 1..]);
      SumRemove(t, k);
    }
  }

  lemma RemoveOne(t: seq<nat>, k: nat)
    requires k < |t|
    ensures multiset(t[..k] + t[k + 1..]) == multiset(t) - multiset{t[k]}
  {
    assert t == t[..k] + [t[k]] + t[k + 1..];
  }

  lemma {:induction false} SumRemove(t: seq<nat>, k: nat)
    requires k < |t|
    ensures Sum(t) == Sum(t[..k] + t[k + 1..]) + t[k]
  {
    var a := |t| - 1;
    if k == a {
      assert t[..k] + t[k + 1..] == t[..a];
    } else {
      var rest := t[..k] + t[k + 1..];
      assert rest[..|rest| - 1] == t[..a][..k] + t[..a][k + 1..];
      SumRemove(t[..a], k);
    }
  }

  /** Entries below n, all zero from position `c` on: the sum is less than n * c unless c = 0. */
  lemma {:induction false} SumBound(s: seq<nat>, n: nat, c: nat)
    requires c <= |s| && forall i :: 0 <= i < |s| ==> s[i] < n
    requires forall i :: c <= i < |s| ==> s[i] == 0
    ensures Sum(s) + c <= Times(n, c)
  {
    if s == [] {
      TimesZero(n);
    } else {
      var a := |s| - 1;
      if c == |s| {
        SumBound(s[..a], n, a);
        TimesDistributes(n, a, 1);
        TimesOne(n);
      } else {
        SumBound(s[..a], n, c);
      }
    }
  }

  lemma TimesOne(n: nat)
    ensures Times(n, 1) == n
  {}

  lemma TimesOrder(n: nat, a: nat, b: nat)
    requires n > 0
    ensures Times(n, a) < Times(n, b) <==> a < b
    ensures Times(n, a) == Times(n, b) <==> a == b
  {
    if a < b {
      TimesDistributes(n, a, b - a);
      TimesPositive(n, b - a);
    } else if b < a {
      TimesDistributes(n, b, a - b);
      TimesPositive(n, a - b);
    }
  }

  lemma TimesPositive(a: nat, b: nat)
    requires a > 0 && b > 0
    ensures Times(a, b) > 0
  {}

  /** How many units are left after the floors. */
  function Leftover(total: nat, sizes: seq<nat>, n: nat): int
    requires n > 0
  {
    total - Sum(Floors(total, sizes, n))
  }

  /** The remainders in ranked order: all below n, and n times the leftover in sum. */
  lemma RankedRemainders(total: nat, sizes: seq<nat>, n: nat) returns (ranked: seq<nat>)
    requires n == Sum(sizes) > 0
    ensures ranked == Gather(Remainders(total, sizes, n), Ranking(Remainders(total, sizes, n)))
    ensures forall i :: 0 <= i < |ranked| ==> ranked[i] < n
    ensures forall i, j :: 0 <= i < j < |ranked| ==> ranked[i] >= ranked[j]
    ensures Times(n, total) == Times(n, Sum(Floors(total, sizes, n))) + Sum(ranked)
  {
    hide Times, Floor, Remainder, Ranking;
    var rem := Remainders(total, sizes, n);
    var o := Ranking(rem);
    ranked := Gather(rem, o);
    SumsSplit(total, sizes, n);
    TimesCommutes(total, n);
    RankingDescends(rem);
    SumOfMultiset(ranked, rem);
    forall i | 0 <= i < |ranked|
      ensures ranked[i] < n
    {
      QuotaSplits(total, sizes[o[i]], n);
    }
  }

  /** If n times a nonnegative amount is a sum of `ranked`, the amount counts positive entries. */
  lemma LeadingPositives(n: nat, left: int, ranked: seq<nat>, total: nat, floors: nat)
    requires n > 0 && left == total - floors && ranked != []
    requires forall i :: 0 <= i < |ranked| ==> ranked[i] < n
    requires forall i, j :: 0 <= i < j < |ranked| ==> ranked[i] >= ranked[j]
    requires Times(n, total) == Times(n, floors) + Sum(ranked)
    ensures 0 <= left < |ranked| && forall i :: 0 <= i < left ==> ranked[i] > 0
  {
    hide Times;
    SumBound(ranked, n, |ranked|);
    TimesOrder(n, total, floors);
    TimesDistributes(n, floors, left);
    TimesOrder(n, left, |ranked|);
    forall i | 0 <= i < left
      ensures ranked[i] > 0
    {
      if ranked[i] == 0 {
        SumBound(ranked, n, i);
        TimesOrder(n, left, i);
      }
    }
  }

  /** The leftover count indexes the ranking safely, and only groups with a remainder are bumped. */
  lemma LeftoverInRange(total: nat, sizes: seq<nat>)
    requires Sum(sizes) > 0
    ensures var n := Sum(sizes);
      var left, rem := Leftover(total, sizes, n), Remainders(total, sizes, n);
      && 0 <= left < |sizes|
      && forall i :: 0 <= i < left ==> rem[Ranking(rem)[i]] > 0
  {
    hide Times, Floor, Remainder, Ranking;
    var n := Sum(sizes);
    var ranked := RankedRemainders(total, sizes, n);
    LeadingPositives(n, Leftover(total, sizes, n), ranked, total, Sum(Floors(total, sizes, n)));
    assert forall i :: 0 <= i < |ranked| ==>
          ranked[i] == Remainders(total, sizes, n)[Ranking(Remainders(total, sizes, n))[i]];
  }

  lemma TimesCommutes(a: nat, b: nat)
    ensures Times(a, b) == Times(b, a)
  {}

  /** The allocation: floors, plus one for the first groups of the ranking. */
  function Bumped(f: seq<nat>, o: seq<nat>, k: nat): (alloc: seq<nat>)
    requires k <= |o| && forall i :: 0 <= i < |o| ==> o[i] < |f|
    ensures |alloc| == |f|
  {
    if k == 0 then f
    else var a := Bumped(f, o, k - 1); a[o[k - 1] := a[o[k - 1]] + 1]
  }

  lemma {:induction false} BumpedAt(f: seq<nat>, o: seq<nat>, k: nat, g: nat)
    requires k <= |o| && (forall i :: 0 <= i < |o| ==> o[i] < |f|) && g < |f|
    requires forall i, j :: 0 <= i < j < |o| ==> o[i] != o[j]
    ensures Bumped(f, o, k)[g] == f[g] + if g in o[..k] then 1 else 0
  {
    if k > 0 {
      BumpedAt(f, o, k - 1, g);
      assert o[..k] == o[..k - 1] + [o[k - 1]];
    }
  }

  lemma {:induction false} BumpedSum(f: seq<nat>, o: seq<nat>, k: nat)
    requires k <= |o| && forall i :: 0 <= i < |o| ==> o[i] < |f|
    ensures Sum(Bumped(f, o, k)) == Sum(f) + k
  {
    if k > 0 {
      BumpedSum(f, o, k - 1);
      SumUpdate(Bumped(f, o, k - 1), o[k - 1], Bumped(f, o, k - 1)[o[k - 1]] + 1);
    }
  }

  lemma {:induction false} SumUpdate(s: seq<nat>, i: nat, x: nat)
    requires i < |s|
    ensures Sum(s[i := x]) == Sum(s) - s[i] + x
  {
    var a := |s| - 1;
    if i < a {
      assert s[i := x][..a] == s[..a][i := x];
      SumUpdate(s[..a], i, x);
    } else {
      assert s[i := x][..a] == s[..a];
    }
  }

  ghost function Allocation(total: nat, sizes: seq<nat>): (alloc: seq<nat>)
    requires Sum(sizes) > 0
    ensures |alloc| == |sizes|
  {
    var n := Sum(sizes);
    LeftoverInRange(total, sizes);
    Bumped(Floors(total, sizes, n), Ranking(Remainders(total, sizes, n)), Leftover(total, sizes, n))
  }

  /** The allocation spends the whole sample size. */
  lemma AllocationSpendsAll(total: nat, sizes: seq<nat>)
    requires Sum(sizes) > 0
    ensures Sum(Allocation(total, sizes)) == total
  {
    var n := Sum(sizes);
    LeftoverInRange(total, sizes);
    BumpedSum(Floors(total, sizes, n), Ranking(Remainders(total, sizes, n)), Leftover(total, sizes, n));
  }

  /** A group is rounded up exactly when it is among the first of the ranking. */
  lemma AllocationAt(total: nat, sizes: seq<nat>, g: nat)
    requires Sum(sizes) > 0 && g < |sizes|
    ensures var n := Sum(sizes);
      var left := Leftover(total, sizes, n);
      0 <= left <= |sizes| && Allocation(total, sizes)[g] == Floor(total, sizes[g], n)
        + if g in Ranking(Remainders(total, sizes, n))[..left] then 1 else 0
  {
    var n := Sum(sizes);
    var rem := Remainders(total, sizes, n);
    hide Floor, Remainder, Ranking, Leftover;
    LeftoverInRange(total, sizes);
    RankingDescends(rem);
    BumpedAt(Floors(total, sizes, n), Ranking(rem), Leftover(total, sizes, n), g);
  }

  /** Every group gets the floor of its quota, or the ceiling of a quota that is not whole. */
  lemma AllocationRounds(total: nat, sizes: seq<nat>, g: nat)
    requires Sum(sizes) > 0 && g < |sizes|
    ensures var n, a := Sum(sizes), Allocation(total, sizes)[g];
      && Floor(total, sizes[g], n) <= a <= Floor(total, sizes[g], n) + 1
      && (a > Floor(total, sizes[g], n) ==> Remainder(total, sizes[g], n) > 0)
  {
    var n := Sum(sizes);
    var o, k := Ranking(Remainders(total, sizes, n)), Leftover(total, sizes, n);
    hide Floor, Remainder, Remainders, Ranking, Leftover, Allocation, Sum;
    AllocationAt(total, sizes, g);
    LeftoverInRange(total, sizes);
    if g in o[..k] {
      LeadingIsPositive(Remainders(total, sizes, n), o, k, g);
    }
  }

  lemma LeadingIsPositive(rem: seq<nat>, o: seq<nat>, k: nat, g: nat)
    requires k <= |o| && (forall i :: 0 <= i < |o| ==> o[i] < |rem|) && g in o[..k]
    requires forall i :: 0 <= i < k ==> rem[o[i]] > 0
    ensures g < |rem| && rem[g] > 0
  {
    var i: nat :| i < k && o[..k][i] == g;
    assert o[i] == g;
  }

  /** A group that is rounded up has at least the remainder of every group that is not. */
  lemma LargestRemaindersWin(total: nat, sizes: seq<nat>, g: nat, h: nat)
    requires Sum(sizes) > 0 && g < |sizes| && h < |sizes|
    requires Allocation(total, sizes)[g] > Floor(total, sizes[g], Sum(sizes))
    requires Allocation(total, sizes)[h] == Floor(total, sizes[h], Sum(sizes))
    ensures var n := Sum(sizes);
      Remainder(total, sizes[g], n) > Remainder(total, sizes[h], n)
      || (Remainder(total, sizes[g], n) == Remainder(total, sizes[h], n) && g < h)
  {
    var n := Sum(sizes);
    var rem := Remainders(total, sizes, n);
    var o, k := Ranking(rem), Leftover(total, sizes, n);
    hide Floor, Remainder, Ranking, Leftover, Allocation;
    AllocationAt(total, sizes, g);
    AllocationAt(total, sizes, h);
    TopRanks(rem, k, g, h);
  }

  lemma TopRanks(rem: seq<nat>, k: nat, g: nat, h: nat)
    requires g < |rem| && h < |rem| && k <= |rem|
    requires g in Ranking(rem)[..k] && h !in Ranking(rem)[..k]
    ensures rem[g] > rem[h] || (rem[g] == rem[h] && g < h)
  {
    hide Ranking;
    RankingDescends(rem);
    var o := Ranking(rem);
    var i: nat :| i < k && o[..k][i] == g;
    assert h in o;
    var j: nat :| j < |o| && o[j] == h;
    assert forall m :: 0 <= m < k ==> o[m] in o[..k];
    assert o[i] == g && i < j;
  }

  lemma FloorBelowSize(total: nat, size: nat, n: nat)
    requires total <= n && n > 0
    ensures Floor(total, size, n) <= size
    ensures Remainder(total, size, n) > 0 ==> Floor(total, size, n) < size
  {
    QuotaSplits(total, size, n);
    TimesCommutes(total, size);
    TimesCommutes(n, size);
    assert Times(size, total) <= Times(size, n) by { TimesDistributes(size, total, n - total); }
    var f := Floor(total, size, n);
    hide Times, Floor, Remainder;
    if size < f {
      TimesOrder(n, size, f);
    } else if size == f {
      assert Times(n, f) == Times(size, n);
    }
  }

  /** When the sample is not larger than the population, no group has to give more than it has. */
  lemma AllocationFits(total: nat, sizes: seq<nat>, g: nat)
    requires 0 < Sum(sizes) && total <= Sum(sizes) && g < |sizes|
    ensures Allocation(total, sizes)[g] <= sizes[g]
  {
    AllocationRounds(total, sizes, g);
    FloorBelowSize(total, sizes[g], Sum(sizes));
  }

  lemma {:induction false} SumMonotone(s: seq<nat>, t: seq<nat>)
    requires |s| == |t| && forall i :: 0 <= i < |s| ==> s[i] <= t[i]
    ensures Sum(s) <= Sum(t)
  {
    if s != [] {
      SumMonotone(s[..|s| - 1], t[..|t| - 1]);
    }
  }

  /** The "stratum is too small" stop is reached exactly when more units are asked for than exist. */
  lemma TooSmallIffOversampled(total: nat, sizes: seq<nat>)
    requires Sum(sizes) > 0
    ensures (forall g :: 0 <= g < |sizes| ==> Allocation(total, sizes)[g] <= sizes[g]) <==> total <= Sum(sizes)
  {
    hide Allocation;
    var alloc := Allocation(total, sizes);
    AllocationSpendsAll(total, sizes);
    if total <= Sum(sizes) {
      forall g | 0 <= g < |sizes|
        ensures alloc[g] <= sizes[g]
      {
        AllocationFits(total, sizes, g);
      }
    } else if forall g :: 0 <= g < |sizes| ==> alloc[g] <= sizes[g] {
      SumMonotone(alloc, sizes);
    }
  }

  /** `proportional_allocation`, given the group sizes. */
  method ProportionalAllocation(total: nat, sizes: seq<nat>, replace: bool) returns (r: Result<seq<nat>, string>)
    ensures r.Ok? <==> Sum(sizes) > 0 && (replace || total <= Sum(sizes))
    ensures r.Ok? ==> r.value == Allocation(total, sizes)
  {
    var nTotal := CountAll(sizes);
    if nTotal <= 0 {
      return Err("No exchangeable units are available.");
    }
    var alloc := LargestRemainders(total, sizes, nTotal);
    hide Allocation;
    TooSmallIffOversampled(total, sizes);
    if !replace {
      var fits := FitsAll(alloc, sizes);
      if !fits {
        return Err("Subsampling stratum is too small for the requested subsample size.");
      }
    }
    r := Ok(alloc);
  }

  method CountAll(sizes: seq<nat>) returns (n: nat)
    ensures n == Sum(sizes)
  {
    n := 0;
    for g := 0 to |sizes|
      invariant n == Sum(sizes[..g])
    {
      assert sizes[..g + 1][..g] == sizes[..g];
      n := n + sizes[g];
    }
    assert sizes[..|sizes|] == sizes;
  }

  /** Floors first, then one more for the largest remainders. */
  method LargestRemainders(total: nat, sizes: seq<nat>, n: nat) returns (alloc: seq<nat>)
    requires n == Sum(sizes) > 0
    ensures alloc == Allocation(total, sizes)
  {
    hide Times, Floor, Remainder, Ranking;
    var rem, given;
    alloc, rem, given := TakeFloors(total, sizes, n);
    var remaining := total - given;
    LeftoverInRange(total, sizes);
    var ord := Ranking(rem);
    ghost var floors := alloc;
    for i := 0 to remaining
      invariant alloc == Bumped(floors, ord, i)
    {
      alloc := alloc[ord[i] := alloc[ord[i]] + 1];
    }
  }

  method FitsAll(alloc: seq<nat>, sizes: seq<nat>) returns (fits: bool)
    requires |alloc| == |sizes|
    ensures fits <==> forall g :: 0 <= g < |sizes| ==> alloc[g] <= sizes[g]
  {
    for g := 0 to |sizes|
      invariant forall h :: 0 <= h < g ==> alloc[h] <= sizes[h]
    {
      if alloc[g] > sizes[g] {
        return false;
      }
    }
    fits := true;
  }

  method TakeFloors(total: nat, sizes: seq<nat>, n: nat) returns (alloc: seq<nat>, rem: seq<nat>, given: nat)
    requires n > 0
    ensures alloc == Floors(total, sizes, n) && rem == Remainders(total, sizes, n) && given == Sum(alloc)
  {
    alloc, rem, given := [], [], 0;
    for g := 0 to |sizes|
      invariant |alloc| == |rem| == g && given == Sum(alloc)
      invariant forall h :: 0 <= h < g ==>
                alloc[h] == Floor(total, sizes[h], n) && rem[h] == Remainder(total, sizes[h], n)
    {
      var f := Floor(total, sizes[g], n);
      assert (alloc + [f])[..g] == alloc;
      alloc := alloc + [f];
      rem := rem + [Remainder(total, sizes[g], n)];
      given := given + f;
    }
  }
}

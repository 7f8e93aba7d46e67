/** Allocations kept together with the lists of their treated and control units. */
module TreatmentArms {
  import opened Sequences
  import opened Vectors
  import opened BlockRecurrence
  import opened BoundedRand
  import opened Shuffle

  ghost predicate CanExchange(w: seq<int>, i: nat, j: nat) {
    i < |w| && j < |w| && w[i] == 1 && w[j] == 0
  }

  /** An allocation together with the lists of its treated and its control units. */
  datatype Arms = Arms(w: seq<int>, treated: seq<nat>, control: seq<nat>)

  /** The lists hold exactly the units with w = 1 and with w = 0, without repetition. */
  ghost predicate ArmsOk(n: nat, nT: nat, a: Arms) {
    && |a.w| == n && IsAllocation(a.w) && Ones(a.w) == nT <= n
    && |a.treated| == nT && |a.control| == n - nT
    && Lists(a.w, 1, a.treated) && Lists(a.w, 0, a.control)
  }

  ghost predicate Lists(w: seq<int>, v: int, units: seq<nat>) {
    && Distinct(units)
    && (forall t :: 0 <= t < |units| ==> units[t] < |w| && w[units[t]] == v)
    && forall x :: 0 <= x < |w| && w[x] == v ==> x in units
  }

  function Exchanged(a: Arms, ti: nat, ci: nat): Arms
    requires ti < |a.treated| && ci < |a.control|
    requires a.treated[ti] < |a.w| && a.control[ci] < |a.w|
  {
    Arms(Exchange(a.w, a.treated[ti], a.control[ci]),
         a.treated[ti := a.control[ci]], a.control[ci := a.treated[ti]])
  }

  lemma ListsReplace(w: seq<int>, w': seq<int>, v: int, units: seq<nat>, t: nat, y: nat)
    requires Lists(w, v, units) && t < |units| && y < |w| == |w'|
    requires w[y] != v && w'[units[t]] != v && w'[y] == v
    requires forall x :: 0 <= x < |w| && x != y && x != units[t] ==> w'[x] == w[x]
    ensures Lists(w', v, units[t := y])
  {
    forall x | 0 <= x < |w'| && w'[x] == v
      ensures x in units[t := y]
    {
      if x == y {
        assert units[t := y][t] == y;
      } else {
        var s :| 0 <= s < |units| && units[s] == x;
        assert units[t := y][s] == x;
      }
    }
  }

  lemma ExchangedOk(n: nat, nT: nat, a: Arms, ti: nat, ci: nat)
    requires ArmsOk(n, nT, a) && ti < nT && ci < n - nT
    ensures CanExchange(a.w, a.treated[ti], a.control[ci]) && ArmsOk(n, nT, Exchanged(a, ti, ci))
  {
    var i, j := a.treated[ti], a.control[ci];
    var w' := Exchange(a.w, i, j);
    ExchangeKeepsOnes(a.w, i, j);
    ListsReplace(a.w, w', 1, a.treated, ti, j);
    ListsReplace(a.w, w', 0, a.control, ci, i);
  }

  // Random starts.

  function Iota(n: nat): (s: seq<nat>)
    ensures |s| == n && forall i :: 0 <= i < n ==> s[i] == i
  {
    seq(n, i => i)
  }

  /** Ones at the first `k` entries of a permutation. */
  function MarkFirst(perm: seq<nat>, n: nat, k: nat): (w: seq<int>)
    requires k <= |perm| && forall i :: 0 <= i < |perm| ==> perm[i] < n
    ensures |w| == n
  {
    if k == 0 then seq(n, _ => 0) else MarkFirst(perm, n, k - 1)[perm[k - 1] := 1]
  }

  lemma {:induction false} MarkFirstAt(perm: seq<nat>, n: nat, k: nat, x: nat)
    requires k <= |perm| && (forall i :: 0 <= i < |perm| ==> perm[i] < n) && x < n
    ensures MarkFirst(perm, n, k)[x] == if x in perm[..k] then 1 else 0
  {
    if k > 0 {
      assert perm[..k] == perm[..k - 1] + [perm[k - 1]];
      MarkFirstAt(perm, n, k - 1, x);
    }
  }

  lemma {:induction false} OnesOfZeros(n: nat)
    ensures Ones(seq(n, _ => 0)) == 0 && IsAllocation(seq(n, _ => 0))
  {
    if n > 0 {
      assert seq(n, _ => 0)[1..] == seq(n - 1, _ => 0);
      OnesOfZeros(n - 1);
    }
  }

  lemma {:induction false} MarkFirstCounts(perm: seq<nat>, n: nat, k: nat)
    requires k <= |perm| && Distinct(perm) && forall i :: 0 <= i < |perm| ==> perm[i] < n
    ensures Ones(MarkFirst(perm, n, k)) == k && IsAllocation(MarkFirst(perm, n, k))
  {
    if k == 0 {
      OnesOfZeros(n);
    } else {
      MarkFirstCounts(perm, n, k - 1);
      MarkFirstAt(perm, n, k - 1, perm[k - 1]);
      OnesUpdate(MarkFirst(perm, n, k - 1), perm[k - 1], 1);
    }
  }

  /** The units below `k` with w = v, in ascending order. */
  function Where(w: seq<int>, v: int, k: nat): seq<nat>
    requires k <= |w|
  {
    if k == 0 then [] else Where(w, v, k - 1) + if w[k - 1] == v then [k - 1] else []
  }

  lemma {:induction false} WhereLists(w: seq<int>, v: int, k: nat)
    requires k <= |w|
    ensures Lists(w[..k], v, Where(w, v, k))
  {
    if k > 0 {
      hide Lists;
      WhereLists(w, v, k - 1);
      if w[k - 1] == v {
        ListsExtend(w[..k - 1], w[k - 1], v, Where(w, v, k - 1));
      } else {
        ListsKeep(w[..k - 1], w[k - 1], v, Where(w, v, k - 1));
      }
      assert w[..k] == w[..k - 1] + [w[k - 1]];
    }
  }

  lemma ListsExtend(w: seq<int>, x: int, v: int, units: seq<nat>)
    requires Lists(w, v, units) && x == v
    ensures Lists(w + [x], v, units + [|w|])
  {
    var w', units' := w + [x], units + [|w|];
    forall y | 0 <= y < |w'| && w'[y] == v
      ensures y in units'
    {
      if y == |w| { assert units'[|units|] == y; } else { assert w[y] == v; }
    }
  }

  lemma ListsKeep(w: seq<int>, x: int, v: int, units: seq<nat>)
    requires Lists(w, v, units) && x != v
    ensures Lists(w + [x], v, units)
  {
    assert forall y :: 0 <= y < |w| ==> (w + [x])[y] == w[y];
  }

  lemma {:induction false} WhereCounts(w: seq<int>, k: nat)
    requires k <= |w| && IsAllocation(w)
    ensures |Where(w, 1, k)| == Ones(w[..k]) && |Where(w, 0, k)| == k - Ones(w[..k])
  {
    if k > 0 {
      WhereCounts(w, k - 1);
      assert w[..k] == w[..k - 1] + [w[k - 1]];
      OnesSnoc(w[..k - 1], w[k - 1]);
    }
  }

  lemma {:induction false} OnesSnoc(w: seq<int>, x: int)
    ensures Ones(w + [x]) == Ones(w) + if x == 1 then 1 else 0
  {
    if w == [] {
      assert [] + [x] == [x];
    } else {
      assert (w + [x])[1..] == w[1..] + [x];
      OnesSnoc(w[1..], x);
    }
  }

  lemma {:induction false} WhereMonotone(w: seq<int>, v: int, k: nat, n: nat)
    requires k <= n <= |w|
    ensures |Where(w, v, k)| <= |Where(w, v, n)|
  {
    if k < n {
      WhereMonotone(w, v, k, n - 1);
    }
  }

  ghost function StartPermutation(ws: Stream, pos: nat, n: nat): (perm: seq<nat>)
    requires Lively(ws)
    ensures |perm| == n && Distinct<nat>(perm) && forall i :: 0 <= i < n ==> perm[i] < n
    ensures forall x: nat :: x < n ==> x in perm
  {
    ShuffledIota(n, DrawnChoices(ws, pos, n));
    Shuffled<nat>(Iota(n), n, DrawnChoices(ws, pos, n))
  }

  lemma ShuffledIota(n: nat, cs: seq<nat>)
    requires ValidChoices(n, cs)
    ensures var perm := Shuffled<nat>(Iota(n), n, cs);
      && |perm| == n && Distinct<nat>(perm) && (forall i :: 0 <= i < n ==> perm[i] < n)
      && forall x: nat :: x < n ==> x in perm
  {
    var perm := Shuffled<nat>(Iota(n), n, cs);
    ShuffledPermutes<nat>(Iota(n), n, cs);
    DistinctPermutation<nat>(Iota(n), perm);
    forall i | 0 <= i < n
      ensures perm[i] < n
    {
      assert perm[i] in multiset(Iota(n));
    }
    forall x: nat | x < n
      ensures x in perm
    {
      assert Iota(n)[x] in multiset(perm);
    }
  }

  /** The arms read straight off a permutation: its first nT entries are treated. */
  function SplitArms(perm: seq<nat>, n: nat, nT: nat): Arms
    requires nT <= |perm| && forall i :: 0 <= i < |perm| ==> perm[i] < n
  {
    Arms(MarkFirst(perm, n, nT), perm[..nT], perm[nT..])
  }

  lemma SplitArmsOk(perm: seq<nat>, n: nat, nT: nat)
    requires nT <= |perm| == n && Distinct(perm) && forall i :: 0 <= i < n ==> perm[i] < n
    requires forall x: nat :: x < n ==> x in perm
    ensures ArmsOk(n, nT, SplitArms(perm, n, nT))
  {
    var w := MarkFirst(perm, n, nT);
    MarkFirstCounts(perm, n, nT);
    forall x: nat | x < n
      ensures w[x] == (if x in perm[..nT] then 1 else 0) && (x in perm[..nT] || x in perm[nT..])
    {
      MarkFirstAt(perm, n, nT, x);
      assert x in perm;
      var i :| 0 <= i < n && perm[i] == x;
      if i < nT { assert perm[..nT][i] == x; } else { assert perm[nT..][i - nT] == x; }
    }
  }

  /** The treated units of a split are the first nT entries of the permutation, in its order. */
  lemma SplitArmsAt(perm: seq<nat>, n: nat, nT: nat, i: nat)
    requires nT <= |perm| == n && Distinct(perm) && (forall i :: 0 <= i < n ==> perm[i] < n) && i < n
    ensures SplitArms(perm, n, nT).w[perm[i]] == if i < nT then 1 else 0
    ensures if i < nT then SplitArms(perm, n, nT).treated[i] == perm[i]
            else SplitArms(perm, n, nT).control[i - nT] == perm[i]
  {
    MarkFirstAt(perm, n, nT, perm[i]);
    if i < nT { assert perm[..nT][i] == perm[i]; }
  }
}

/** The in-place Fisher-Yates shuffle, and the exact count of word tuples behind each permutation. */
module Shuffle {
  import opened Sequences
  import opened BlockRecurrence
  import opened MersenneTwister
  import opened BoundedRand

  function Swap<T>(s: seq<T>, i: nat, j: nat): (r: seq<T>)
    requires i < |s| && j < |s|
    ensures |r| == |s|
  {
    s[i := s[j]][j := s[i]]
  }

  lemma SwapPermutes<T>(s: seq<T>, i: nat, j: nat)
    requires i < |s| && j < |s|
    ensures multiset(Swap(s, i, j)) == multiset(s)
  {}

  /** One choice below k for each of k = r, r-1, ..., 2. */
  predicate ValidChoices(r: nat, cs: seq<nat>) {
    if r <= 1 then cs == [] else cs != [] && cs[0] < r && ValidChoices(r - 1, cs[1..])
  }

  /** The shuffle as a function of its choices: the element at r-1 is swapped with a chosen one. */
  function Shuffled<T>(s: seq<T>, r: nat, cs: seq<nat>): (t: seq<T>)
    requires r <= |s| && ValidChoices(r, cs)
    ensures |t| == |s|
    decreases r
  {
    if r <= 1 then s else Shuffled(Swap(s, r - 1, cs[0]), r - 1, cs[1..])
  }

  /** Whatever the choices, the result is a permutation and leaves everything from `r` on in place. */
  lemma {:induction false} ShuffledPermutes<T>(s: seq<T>, r: nat, cs: seq<nat>)
    requires r <= |s| && ValidChoices(r, cs)
    ensures multiset(Shuffled(s, r, cs)) == multiset(s)
    ensures forall k :: r <= k < |s| ==> Shuffled(s, r, cs)[k] == s[k]
    decreases r
  {
    if r > 1 {
      SwapPermutes(s, r - 1, cs[0]);
      ShuffledPermutes(Swap(s, r - 1, cs[0]), r - 1, cs[1..]);
    }
  }

  /** Drawing from an urn: the places are filled from the last to the first, and the hole by the last ball. */
  function Urn<T>(balls: seq<T>, cs: seq<nat>): (t: seq<T>)
    requires ValidChoices(|balls|, cs)
    ensures |t| == |balls|
    decreases |balls|
  {
    if |balls| <= 1 then balls
    else
      var last := |balls| - 1;
      var rest := if cs[0] == last then balls[..last] else balls[..last][cs[0] := balls[last]];
      Urn(rest, cs[1..]) + [balls[cs[0]]]
  }

  lemma {:induction false} ShuffleDrawsFromUrn<T>(s: seq<T>, r: nat, cs: seq<nat>)
    requires r <= |s| && ValidChoices(r, cs)
    ensures Shuffled(s, r, cs) == Urn(s[..r], cs) + s[r..]
    decreases r
  {
    if r > 1 {
      var next := Swap(s, r - 1, cs[0]);
      ShuffleDrawsFromUrn(next, r - 1, cs[1..]);
      var rest := if cs[0] == r - 1 then s[..r][..r - 1] else s[..r][..r - 1][cs[0] := s[r - 1]];
      assert next[..r - 1] == rest;
      assert next[r - 1..] == [s[cs[0]]] + s[r..];
    }
  }

  lemma {:induction false} DistinctCounts<T(!new)>(s: seq<T>, x: T)
    requires Distinct(s)
    ensures multiset(s)[x] <= 1
  {
    if s != [] {
      var last := |s| - 1;
      assert s == s[..last] + [s[last]];
      DistinctCounts(s[..last], x);
    }
  }

  lemma DistinctPermutation<T(!new)>(s: seq<T>, t: seq<T>)
    requires Distinct(s) && multiset(s) == multiset(t)
    ensures Distinct(t)
  {
    forall i, j | 0 <= i < j < |t|
      ensures t[i] != t[j]
    {
      DistinctCounts(s, t[i]);
      assert t == t[..j] + [t[j]] + t[j + 1..];
      assert t[..j][i] == t[i];
    }
  }

  ghost function IndexOf<T(!new)>(s: seq<T>, x: T): (i: nat)
    requires x in s
    ensures i < |s| && s[i] == x
  {
    var i: nat :| i < |s| && s[i] == x;
    i
  }

  lemma IndexOfDistinct<T(!new)>(s: seq<T>, i: nat)
    requires Distinct(s) && i < |s|
    ensures IndexOf(s, s[i]) == i
  {}

  /** The target `t` is a rearrangement of the distinct `s` that agrees with it from `r` on. */
  ghost predicate Reachable<T(!new)>(s: seq<T>, r: nat, t: seq<T>) {
    && r <= |s| == |t|
    && Distinct(s)
    && multiset(s) == multiset(t)
    && forall k :: r <= k < |s| ==> s[k] == t[k]
  }

  lemma ChoiceExists<T(!new)>(s: seq<T>, r: nat, t: seq<T>)
    requires Reachable(s, r, t) && r > 0
    ensures t[r - 1] in s && IndexOf(s, t[r - 1]) < r
    ensures Reachable(Swap(s, r - 1, IndexOf(s, t[r - 1])), r - 1, t)
  {
    assert t[r - 1] in multiset(s);
    DistinctPermutation(s, t);
    var i := IndexOf(s, t[r - 1]);
    assert i < r;
    var s' := Swap(s, r - 1, i);
    SwapPermutes(s, r - 1, i);
    DistinctPermutation(s, s');
  }

  lemma OneLeft<T(!new)>(s: seq<T>, r: nat, t: seq<T>)
    requires Reachable(s, r, t) && r <= 1
    ensures s == t
  {
    if r == 1 {
      assert s[0] in multiset(t);
      var k: nat :| k < |t| && t[k] == s[0];
      assert k == 0;
    }
  }

  /** Every rearrangement is reached: these are choices that lead from `s` to `t`. */
  ghost function Unshuffle<T(!new)>(s: seq<T>, r: nat, t: seq<T>): (cs: seq<nat>)
    requires Reachable(s, r, t)
    ensures ValidChoices(r, cs) && Shuffled(s, r, cs) == t
    decreases r
  {
    if r <= 1 then
      OneLeft(s, r, t);
      []
    else
      ChoiceExists(s, r, t);
      var i := IndexOf(s, t[r - 1]);
      var rest := Unshuffle(Swap(s, r - 1, i), r - 1, t);
      ShuffledStep(s, r, i, rest);
      [i] + rest
  }

  lemma ShuffledStep<T>(s: seq<T>, r: nat, i: nat, rest: seq<nat>)
    requires 1 < r <= |s| && i < r && ValidChoices(r - 1, rest)
    ensures ValidChoices(r, [i] + rest)
    ensures Shuffled(s, r, [i] + rest) == Shuffled(Swap(s, r - 1, i), r - 1, rest)
  {
    assert ([i] + rest)[1..] == rest;
  }

  /** No two choice sequences lead to the same one: choices and rearrangements are in bijection. */
  lemma {:induction false} ShuffleIsInjective<T(!new)>(s: seq<T>, r: nat, cs: seq<nat>)
    requires r <= |s| && Distinct(s) && ValidChoices(r, cs)
    ensures Reachable(s, r, Shuffled(s, r, cs))
    ensures Unshuffle(s, r, Shuffled(s, r, cs)) == cs
    decreases r
  {
    hide Distinct;
    var t := Shuffled(s, r, cs);
    ShuffledPermutes(s, r, cs);
    if r > 1 {
      var s' := Swap(s, r - 1, cs[0]);
      SwapPermutes(s, r - 1, cs[0]);
      DistinctPermutation(s, s');
      ShuffleIsInjective(s', r - 1, cs[1..]);
      assert t[r - 1] == s'[r - 1] == s[cs[0]];
      ChoiceExists(s, r, t);
      IndexOfDistinct(s, cs[0]);
    }
  }

  // Counting.

  ghost function Prepend<T(!new)>(heads: set<T>, tails: set<seq<T>>): (r: set<seq<T>>)
    ensures forall v :: v in r <==> v != [] && v[0] in heads && v[1..] in tails
  {
    assert forall v: seq<T> :: v != [] ==> v == [v[0]] + v[1..];
    set x, w | x in heads && w in tails :: [x] + w
  }

  lemma {:induction false} PrependOne<T(!new)>(x: T, tails: set<seq<T>>)
    ensures |Prepend({x}, tails)| == |tails|
  {
    hide Prepend;
    if tails == {} {
      assert Prepend({x}, tails) == {};
    } else {
      var w :| w in tails;
      PrependOne(x, tails - {w});
      var v := [x] + w;
      forall u
        ensures u in Prepend({x}, tails) <==> u in Prepend({x}, tails - {w}) + {v}
      {
        if u != [] {
          assert u == [u[0]] + u[1..] && v[1..] == w;
        }
      }
      assert Prepend({x}, tails) == Prepend({x}, tails - {w}) + {v};
    }
  }

  lemma {:induction false} PrependSize<T(!new)>(heads: set<T>, tails: set<seq<T>>)
    ensures |Prepend(heads, tails)| == Product(|heads|, |tails|)
    decreases heads
  {
    hide Prepend;
    if heads == {} {
      assert Prepend(heads, tails) == {};
    } else {
      var x :| x in heads;
      PrependSize(heads - {x}, tails);
      PrependOne(x, tails);
      var h := |heads - {x}|;
      assert Prepend(heads, tails) == Prepend(heads - {x}, tails) + Prepend({x}, tails);
      assert |Prepend(heads, tails)| == Product(h, |tails|) + |tails|;
      assert |heads| == h + 1;
      ProductStep(h, |tails|);
    }
  }

  lemma ProductStep(a: nat, b: nat)
    ensures Product(a + 1, b) == Product(a, b) + b
  {}

  ghost function Factorial(n: nat): nat {
    if n <= 1 then 1 else Product(n, Factorial(n - 1))
  }

  ghost function AllChoices(r: nat): set<seq<nat>> {
    if r <= 1 then {[]} else Prepend(Interval(0, r), AllChoices(r - 1))
  }

  /** There are exactly r! choice sequences, hence (by the bijection) r! equally placed outcomes. */
  lemma {:induction false} ChoiceCount(r: nat)
    ensures |AllChoices(r)| == Factorial(r)
    ensures forall cs :: cs in AllChoices(r) <==> ValidChoices(r, cs)
  {
    if r > 1 {
      ChoiceCount(r - 1);
      IntervalSize(0, r);
      PrependSize(Interval(0, r), AllChoices(r - 1));
    }
  }

  /** The word tuples that are accepted against the bounds r, r-1, ..., 2. */
  predicate AcceptedWords(r: nat, ws: seq<nat>)
    requires r < W
  {
    if r <= 1 then ws == []
    else ws != [] && ws[0] < W && Accepted(ws[0], r) && AcceptedWords(r - 1, ws[1..])
  }

  /** The choices that an accepted word tuple stands for. */
  function Decode(r: nat, ws: seq<nat>): (cs: seq<nat>)
    requires r < W && AcceptedWords(r, ws)
    ensures ValidChoices(r, cs)
  {
    if r <= 1 then []
    else
      ScaledBelow(ws[0], r);
      [Scaled(ws[0], r)] + Decode(r - 1, ws[1..])
  }

  lemma DecodeStep(r: nat, x: nat, rest: seq<nat>)
    requires 1 < r < W && x < W && Accepted(x, r) && AcceptedWords(r - 1, rest)
    ensures AcceptedWords(r, [x] + rest)
    ensures Decode(r, [x] + rest) == [Scaled(x, r)] + Decode(r - 1, rest)
  {
    assert ([x] + rest)[1..] == rest;
  }

  ghost function TuplesFor(r: nat, cs: seq<nat>): set<seq<nat>>
    requires r < W && ValidChoices(r, cs)
  {
    if r <= 1 then {[]} else Prepend(WordsFor(r, cs[0]), TuplesFor(r - 1, cs[1..]))
  }

  /** floor(2^32/r) * floor(2^32/(r-1)) * ... * floor(2^32/2). */
  ghost function Weight(r: nat): nat
    requires r < W
  {
    if r <= 1 then 1 else Product(W / r, Weight(r - 1))
  }

  lemma {:induction false} TupleCount(r: nat, cs: seq<nat>)
    requires r < W && ValidChoices(r, cs)
    ensures |TuplesFor(r, cs)| == Weight(r)
  {
    if r > 1 {
      TupleCount(r - 1, cs[1..]);
      OneMoreChoice(r, cs);
    }
  }

  lemma OneMoreChoice(r: nat, cs: seq<nat>)
    requires 1 < r < W && ValidChoices(r, cs)
    ensures |TuplesFor(r, cs)| == Product(W / r, |TuplesFor(r - 1, cs[1..])|)
  {
    hide Product, Prepend, WordsFor;
    Unbiased(r, cs[0]);
    PrependSize(WordsFor(r, cs[0]), TuplesFor(r - 1, cs[1..]));
  }

  lemma {:induction false} TupleMember(r: nat, cs: seq<nat>, ws: seq<nat>)
    requires r < W && ValidChoices(r, cs)
    ensures ws in TuplesFor(r, cs) <==> AcceptedWords(r, ws) && Decode(r, ws) == cs
  {
    if r > 1 && ws != [] {
      TupleMember(r - 1, cs[1..], ws[1..]);
      FirstOfTuple(r, cs, ws);
    }
  }

  lemma FirstOfTuple(r: nat, cs: seq<nat>, ws: seq<nat>)
    requires 1 < r < W && ValidChoices(r, cs) && ws != []
    ensures AcceptedWords(r, ws) <==> ws[0] < W && Accepted(ws[0], r) && AcceptedWords(r - 1, ws[1..])
    ensures AcceptedWords(r, ws) ==>
              (Decode(r, ws) == cs <==> Scaled(ws[0], r) == cs[0] && Decode(r - 1, ws[1..]) == cs[1..])
    ensures ws in TuplesFor(r, cs) <==> ws[0] in WordsFor(r, cs[0]) && ws[1..] in TuplesFor(r - 1, cs[1..])
  {
    hide Accepted, Scaled, Prepend, WordsFor;
    assert cs == [cs[0]] + cs[1..];
    if AcceptedWords(r, ws) {
      assert Decode(r, ws)[1..] == Decode(r - 1, ws[1..]);
    }
  }

  /**
   * Exact uniformity: for every rearrangement `t` of the distinct elements of `s`, the accepted
   * word tuples that turn `s` into `t` are `Weight(|s|)` many, the same number for every `t`.
   */
  lemma ShuffleIsUniform<T(!new)>(s: seq<T>, t: seq<T>) returns (tuples: set<seq<nat>>)
    requires |s| < W && Distinct(s) && multiset(s) == multiset(t)
    ensures forall ws :: ws in tuples <==>
                AcceptedWords(|s|, ws) && Shuffled(s, |s|, Decode(|s|, ws)) == t
    ensures |tuples| == Weight(|s|)
  {
    var r := |s|;
    assert |multiset(s)| == |s| && |multiset(t)| == |t|;
    tuples := TuplesFor(r, Unshuffle(s, r, t));
    TupleCount(r, Unshuffle(s, r, t));
    forall ws
      ensures ws in tuples <==> AcceptedWords(r, ws) && Shuffled(s, r, Decode(r, ws)) == t
    {
      TupleMember(r, Unshuffle(s, r, t), ws);
      if AcceptedWords(r, ws) && Shuffled(s, r, Decode(r, ws)) == t {
        ShuffleIsInjective(s, r, Decode(r, ws));
      }
    }
  }

  // The loop over a generator.

  /** `static_cast<std::uint32_t>(remaining)`. */
  function Bound(r: nat): nat { r % 0x1_0000_0000 }

  /** The choices that a stream makes for a shuffle of length `r`, and where it stops. */
  ghost function DrawnChoices(ws: Stream, pos: nat, r: nat): (cs: seq<nat>)
    requires Lively(ws)
    ensures ValidChoices(r, cs)
    decreases r
  {
    if r <= 1 then []
    else
      DrawBelow(ws, pos, Bound(r));
      [DrawValue(ws, pos, Bound(r))] + DrawnChoices(ws, DrawNext(ws, pos, Bound(r)), r - 1)
  }

  ghost function DrawnEnd(ws: Stream, pos: nat, r: nat): nat
    requires Lively(ws)
    decreases r
  {
    if r <= 1 then pos else DrawnEnd(ws, DrawNext(ws, pos, Bound(r)), r - 1)
  }

  lemma DrawnStep<T>(ws: Stream, pos: nat, s: seq<T>, r: nat)
    requires Lively(ws) && 1 < r <= |s|
    ensures var v, next := DrawValue(ws, pos, Bound(r)), DrawNext(ws, pos, Bound(r));
      && v < r
      && DrawnEnd(ws, pos, r) == DrawnEnd(ws, next, r - 1)
      && Shuffled(s, r, DrawnChoices(ws, pos, r))
         == Shuffled(Swap(s, r - 1, v), r - 1, DrawnChoices(ws, next, r - 1))
  {
    var v, next := DrawValue(ws, pos, Bound(r)), DrawNext(ws, pos, Bound(r));
    DrawBelow(ws, pos, Bound(r));
    ShuffledStep(s, r, v, DrawnChoices(ws, next, r - 1));
  }

  /** The deciding words of those draws: below 2^32 elements the choices are their decoding. */
  ghost function DecidingWords(ws: Stream, pos: nat, r: nat): seq<nat>
    requires Lively(ws) && r < W
    decreases r
  {
    if r <= 1 then []
    else [ws(FirstAccepted(ws, pos, r))] + DecidingWords(ws, DrawNext(ws, pos, r), r - 1)
  }

  lemma BoundIsExact(r: nat)
    requires r < W
    ensures Bound(r) == r
  {}

  lemma DrawnUnfold(ws: Stream, pos: nat, r: nat)
    requires Lively(ws) && 1 < r < W
    ensures DrawnChoices(ws, pos, r)
         == [DrawValue(ws, pos, r)] + DrawnChoices(ws, DrawNext(ws, pos, r), r - 1)
  {
    hide Bound;
    BoundIsExact(r);
  }

  lemma {:induction false} DrawnChoicesDecode(ws: Stream, pos: nat, r: nat)
    requires Lively(ws) && r < W
    ensures AcceptedWords(r, DecidingWords(ws, pos, r))
    ensures Decode(r, DecidingWords(ws, pos, r)) == DrawnChoices(ws, pos, r)
    decreases r
  {
    if r > 1 {
      DrawnChoicesDecode(ws, DrawNext(ws, pos, r), r - 1);
      DrawDecodes(ws, pos, r, DecidingWords(ws, DrawNext(ws, pos, r), r - 1));
      DrawnUnfold(ws, pos, r);
    }
  }

  /** The deciding word of one draw, in front of those of the rest. */
  lemma DrawDecodes(ws: Stream, pos: nat, r: nat, rest: seq<nat>)
    requires Lively(ws) && 1 < r < W && AcceptedWords(r - 1, rest)
    ensures AcceptedWords(r, [ws(FirstAccepted(ws, pos, r))] + rest)
    ensures Decode(r, [ws(FirstAccepted(ws, pos, r))] + rest) == [DrawValue(ws, pos, r)] + Decode(r - 1, rest)
  {
    hide Decode, AcceptedWords, Scaled, Accepted;
    DecodeStep(r, ws(FirstAccepted(ws, pos, r)), rest);
  }

  /** `std::iter_swap`. */
  method SwapInPlace<T>(a: array<T>, i: nat, j: nat)
    requires i < a.Length && j < a.Length
    modifies a
    ensures a[..] == Swap(old(a[..]), i, j)
  {
    a[i], a[j] := a[j], a[i];
  }

  /** One round: the last of the first `r` elements is swapped with a drawn one among them. */
  method ShuffleRound<T>(a: array<T>, rng: RRng, r: nat)
    requires rng.Valid() && Lively(rng.ws) && rng.mt as object != a
    requires 1 < r <= a.Length
    modifies a, rng.mt, rng`mti, rng`block, rng`pos
    ensures rng.Valid()
    ensures Shuffled(a[..], r - 1, DrawnChoices(rng.ws, rng.pos, r - 1))
         == Shuffled(old(a[..]), r, DrawnChoices(rng.ws, old(rng.pos), r))
    ensures DrawnEnd(rng.ws, rng.pos, r - 1) == DrawnEnd(rng.ws, old(rng.pos), r)
  {
    DrawnStep(rng.ws, rng.pos, a[..], r);
    var j := BoundedLive(rng, Bound(r));
    SwapInPlace(a, r - 1, j);
  }

  /** `fisher_yates_shuffle`. */
  method FisherYates<T>(a: array<T>, rng: RRng)
    requires rng.Valid() && Lively(rng.ws)
    requires rng.mt as object != a
    modifies a, rng.mt, rng`mti, rng`block, rng`pos
    ensures rng.Valid()
    ensures a[..] == Shuffled(old(a[..]), a.Length, DrawnChoices(rng.ws, old(rng.pos), a.Length))
    ensures rng.pos == DrawnEnd(rng.ws, old(rng.pos), a.Length)
  {
    hide Lively, Bound;
    var remaining := a.Length;
    while remaining > 1
      invariant 0 <= remaining <= a.Length
      invariant rng.Valid()
      invariant Shuffled(a[..], remaining, DrawnChoices(rng.ws, rng.pos, remaining))
             == Shuffled(old(a[..]), a.Length, DrawnChoices(rng.ws, old(rng.pos), a.Length))
      invariant DrawnEnd(rng.ws, rng.pos, remaining) == DrawnEnd(rng.ws, old(rng.pos), a.Length)
    {
      ShuffleRound(a, rng, remaining);
      remaining := remaining - 1;
    }
  }
}

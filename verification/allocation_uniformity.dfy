/**
 * The random start without covariates: every allocation with n_T ones comes from the same number of tuples
 * of accepted words.
 */
module AllocationUniformity {
  import opened Sequences
  import opened Vectors
  import opened BlockRecurrence
  import opened BoundedRand
  import opened Shuffle
  import opened TreatmentArms
  import opened GreedyReference

  // Arrangements of a set.

  /** All sequences that list every element of `a` once. */
  ghost function Arrangements(a: set<nat>): set<seq<nat>>
    decreases |a|, 1, 0
  {
    if a == {} then {[]} else Starting(a, a)
  }

  /** Those that begin with an element of `b`. */
  ghost function Starting(a: set<nat>, b: set<nat>): set<seq<nat>>
    requires b <= a
    decreases |a|, 0, |b|
  {
    if b == {} then {}
    else
      var x := Element(b);
      assert |a - {x}| < |a|;
      Prepend({x}, Arrangements(a - {x})) + Starting(a, b - {x})
  }

  ghost function Element<T>(b: set<T>): (x: T)
    requires b != {}
    ensures x in b
  {
    var x :| x in b;
    x
  }

  ghost predicate Lists(t: seq<nat>, a: set<nat>) { Distinct(t) && forall x: nat :: x in t <==> x in a }

  lemma {:induction false} StartingAre(a: set<nat>, b: set<nat>, t: seq<nat>)
    requires b <= a
    ensures t in Starting(a, b) <==> t != [] && t[0] in b && t[1..] in Arrangements(a - {t[0]})
    decreases |b|
  {
    if b != {} {
      hide Arrangements, Prepend, Element;
      StartingAre(a, b - {Element(b)}, t);
    }
  }

  lemma ListsTail(t: seq<nat>, a: set<nat>)
    requires t != []
    ensures Lists(t, a) <==> t[0] in a && AllDifferent(t) && Lists(t[1..], a - {t[0]})
  {
    assert t == [t[0]] + t[1..];
    if Lists(t, a) {
      forall x: nat
        ensures x in t[1..] <==> x in a - {t[0]}
      {
        assert x in t <==> x in a;
      }
    }
  }

  ghost predicate AllDifferent(t: seq<nat>)
    requires t != []
  {
    t[0] !in t[1..]
  }

  lemma {:induction false} ArrangementsAre(a: set<nat>, t: seq<nat>)
    ensures t in Arrangements(a) <==> Lists(t, a)
    decreases |a|
  {
    if a == {} {
      assert t != [] ==> t[0] in t;
    } else if t == [] {
      StartingAre(a, a, t);
      var x :| x in a;
      assert x !in t;
    } else {
      StartingAre(a, a, t);
      if t[0] in a {
        ArrangementsAre(a - {t[0]}, t[1..]);
      }
      ListsTail(t, a);
    }
  }

  lemma {:induction false} ArrangementCount(a: set<nat>)
    ensures |Arrangements(a)| == Factorial(|a|)
    decreases |a|, 1, 0
  {
    if a != {} {
      StartingCount(a, a);
      FactorialStep(|a|);
    }
  }

  lemma FactorialStep(n: nat)
    requires n > 0
    ensures Factorial(n) == Product(n, Factorial(n - 1))
  {}

  lemma {:induction false} StartingCount(a: set<nat>, b: set<nat>)
    requires b <= a && a != {}
    ensures |Starting(a, b)| == Product(|b|, Factorial(|a| - 1))
    decreases |a|, 0, |b|
  {
    hide Product, Factorial, Starting, Arrangements, Element;
    if b == {} {
      NoStart(a);
      ProductZero(Factorial(|a| - 1));
    } else {
      var x := Element(b);
      ArrangementCount(a - {x});
      StartingCount(a, b - {x});
      OneMoreStart(a, b, x);
      ProductStep(|b| - 1, Factorial(|a| - 1));
    }
  }

  lemma NoStart(a: set<nat>)
    ensures Starting(a, {}) == {}
  {}

  lemma OneMoreStart(a: set<nat>, b: set<nat>, x: nat)
    requires b <= a && b != {} && x == Element(b)
    ensures |Starting(a, b)| == |Arrangements(a - {x})| + |Starting(a, b - {x})|
  {
    hide Prepend, Arrangements, Element;
    PrependOne(x, Arrangements(a - {x}));
    StartDiffers(a, b, x);
  }

  lemma ProductZero(n: nat)
    ensures Product(0, n) == 0
  {}

  lemma StartDiffers(a: set<nat>, b: set<nat>, x: nat)
    requires b <= a && x in b
    ensures Prepend({x}, Arrangements(a - {x})) !! Starting(a, b - {x})
  {
    forall t | t in Prepend({x}, Arrangements(a - {x}))
      ensures t !in Starting(a, b - {x})
    {
      StartingAre(a, b - {x}, t);
    }
  }

  // Orders with a given set in front.

  ghost function Appended(u: seq<nat>, vs: set<seq<nat>>): (r: set<seq<nat>>)
    ensures forall t :: t in r <==> |u| <= |t| && t[..|u|] == u && t[|u|..] in vs
  {
    assert forall t: seq<nat> :: |u| <= |t| && t[..|u|] == u ==> t == u + t[|u|..];
    set v | v in vs :: u + v
  }

  lemma {:induction false} AppendedSize(u: seq<nat>, vs: set<seq<nat>>)
    ensures |Appended(u, vs)| == |vs|
    decreases |vs|
  {
    hide Appended;
    if vs == {} {
      assert Appended(u, vs) == {};
    } else {
      var v :| v in vs;
      AppendedSize(u, vs - {v});
      forall t
        ensures t in Appended(u, vs) <==> t in Appended(u, vs - {v}) + {u + v}
      {
        if |u| <= |t| && t[..|u|] == u {
          assert t == u + t[|u|..];
        }
        assert (u + v)[..|u|] == u && (u + v)[|u|..] == v;
      }
      assert Appended(u, vs) == Appended(u, vs - {v}) + {u + v};
    }
  }

  /** Every `u` followed by every `v`. */
  ghost function Joined(us: set<seq<nat>>, vs: set<seq<nat>>): set<seq<nat>> {
    if us == {} then {}
    else
      var u := Element(us);
      Appended(u, vs) + Joined(us - {u}, vs)
  }

  lemma {:induction false} JoinedAre(us: set<seq<nat>>, vs: set<seq<nat>>, n: nat, t: seq<nat>)
    requires forall u :: u in us ==> |u| == n
    ensures t in Joined(us, vs) <==> n <= |t| && t[..n] in us && t[n..] in vs
    decreases |us|
  {
    if us != {} {
      hide Appended, Element;
      JoinedAre(us - {Element(us)}, vs, n, t);
    }
  }

  lemma {:induction false} JoinedSize(us: set<seq<nat>>, vs: set<seq<nat>>, n: nat)
    requires forall u :: u in us ==> |u| == n
    ensures |Joined(us, vs)| == Product(|us|, |vs|)
    decreases |us|
  {
    hide Product, Joined, Element;
    if us == {} {
      NothingJoined(vs);
      ProductZero(|vs|);
    } else {
      JoinedSize(us - {Element(us)}, vs, n);
      OneMoreFront(us, vs, n);
      ProductStep(|us| - 1, |vs|);
    }
  }

  lemma NothingJoined(vs: set<seq<nat>>)
    ensures Joined({}, vs) == {}
  {}

  lemma OneMoreFront(us: set<seq<nat>>, vs: set<seq<nat>>, n: nat)
    requires us != {} && forall u :: u in us ==> |u| == n
    ensures |Joined(us, vs)| == |vs| + |Joined(us - {Element(us)}, vs)|
  {
    hide Appended, Element;
    var u := Element(us);
    AppendedSize(u, vs);
    assert Appended(u, vs) !! Joined(us - {u}, vs) by {
      forall t | t in Appended(u, vs)
        ensures t !in Joined(us - {u}, vs)
      {
        JoinedAre(us - {u}, vs, n, t);
      }
    }
  }

  // Word tuples behind a set of orders.

  ghost predicate Leads(n: nat, words: seq<nat>, orders: set<seq<nat>>)
    requires n < W
  {
    AcceptedWords(n, words) && Shuffled<nat>(Iota(n), n, Decode(n, words)) in orders
  }

  ghost predicate AllOrders(n: nat, orders: set<seq<nat>>) {
    forall t :: t in orders ==> SameItems<nat>(Iota(n), t)
  }

  ghost predicate SameItems<T>(s: seq<T>, t: seq<T>) { multiset(s) == multiset(t) }

  /** Disjoint orders come from disjoint tuples, so their numbers add up. */
  lemma {:induction false} TuplesOf(n: nat, orders: set<seq<nat>>) returns (tuples: set<seq<nat>>)
    requires n < W && AllOrders(n, orders)
    ensures forall words :: words in tuples <==> Leads(n, words, orders)
    ensures |tuples| == Product(|orders|, Weight(n))
    decreases |orders|
  {
    hide Product, Weight, Shuffled, AcceptedWords, Decode;
    tuples := {};
    if orders == {} {
      ProductZero(Weight(n));
    } else {
      var t :| t in orders;
      var rest := TuplesOf(n, orders - {t});
      IotaHolds(n);
      var own := ShuffleIsUniform<nat>(Iota(n), t);
      tuples := own + rest;
      assert own !! rest;
      ProductStep(|orders| - 1, Weight(n));
    }
  }

  // Allocations.

  ghost function Units(w: seq<int>, v: int): set<nat> { set x: nat | x < |w| && w[x] == v }

  lemma {:induction false} UnitsCount(w: seq<int>)
    requires IsAllocation(w)
    ensures |Units(w, 1)| == Ones(w) && |Units(w, 0)| == |w| - Ones(w)
  {
    hide Units, Ones;
    if w == [] {
      NoUnits();
    } else {
      var last := |w| - 1;
      UnitsCount(w[..last]);
      assert w == w[..last] + [w[last]];
      OnesSnoc(w[..last], w[last]);
      OneMoreUnit(w, 0);
      OneMoreUnit(w, 1);
    }
  }

  lemma NoUnits()
    ensures Units([], 1) == {} && Units([], 0) == {} && Ones([]) == 0
  {}

  lemma OneMoreUnit(w: seq<int>, v: int)
    requires w != []
    ensures |Units(w, v)| == |Units(w[..|w| - 1], v)| + if w[|w| - 1] == v then 1 else 0
  {
    var last := |w| - 1;
    var before := Units(w[..last], v);
    assert Units(w, v) == if w[last] == v then before + {last} else before;
  }

  /** The orders whose first units are the treated ones of w. */
  ghost function OrdersOf(w: seq<int>): set<seq<nat>> { Joined(Arrangements(Units(w, 1)), Arrangements(Units(w, 0))) }

  lemma {:induction false} ListsSize(t: seq<nat>, a: set<nat>)
    requires Lists(t, a)
    ensures |t| == |a|
  {
    if t == [] {
      assert forall x: nat :: x in a ==> x in t;
      assert a == {};
    } else {
      ListsTail(t, a);
      ListsSize(t[1..], a - {t[0]});
    }
  }

  lemma ArrangementsLong(a: set<nat>)
    ensures forall u :: u in Arrangements(a) ==> |u| == |a|
  {
    forall u | u in Arrangements(a)
      ensures |u| == |a|
    {
      ArrangementsAre(a, u);
      ListsSize(u, a);
    }
  }

  lemma OrdersAre(w: seq<int>, t: seq<nat>)
    requires IsAllocation(w)
    ensures t in OrdersOf(w) <==>
              Ones(w) <= |t| && Lists(t[..Ones(w)], Units(w, 1)) && Lists(t[Ones(w)..], Units(w, 0))
  {
    hide Joined;
    UnitsCount(w);
    ArrangementsLong(Units(w, 1));
    JoinedAre(Arrangements(Units(w, 1)), Arrangements(Units(w, 0)), Ones(w), t);
    if Ones(w) <= |t| {
      ArrangementsAre(Units(w, 1), t[..Ones(w)]);
      ArrangementsAre(Units(w, 0), t[Ones(w)..]);
    }
  }

  lemma OrderCount(w: seq<int>)
    requires IsAllocation(w) && Ones(w) <= |w|
    ensures |OrdersOf(w)| == Product(Factorial(Ones(w)), Factorial(|w| - Ones(w)))
  {
    hide Joined, Arrangements, Product, Factorial, Units;
    UnitsCount(w);
    ArrangementsLong(Units(w, 1));
    JoinedSize(Arrangements(Units(w, 1)), Arrangements(Units(w, 0)), Ones(w));
    ArrangementCount(Units(w, 1));
    ArrangementCount(Units(w, 0));
  }

  lemma DistinctItems<T(!new)>(s: seq<T>, t: seq<T>)
    requires Distinct(s) && Distinct(t) && forall x :: x in s <==> x in t
    ensures SameItems(s, t)
  {
    forall x
      ensures multiset(s)[x] == multiset(t)[x]
    {
      DistinctCounts(s, x);
      DistinctCounts(t, x);
      assert x in multiset(s) <==> x in s;
      assert x in multiset(t) <==> x in t;
    }
  }

  /** The two lists one after the other are an order of all units that marks w. */
  lemma ListsMark(w: seq<int>, t: seq<nat>)
    requires IsAllocation(w) && Ones(w) <= |t|
    requires Lists(t[..Ones(w)], Units(w, 1)) && Lists(t[Ones(w)..], Units(w, 0))
    ensures SameItems<nat>(Iota(|w|), t) && InRange(t, |w|) && MarkFirst(t, |w|, Ones(w)) == w
  {
    hide Lists, Units, MarkFirst;
    ListsItems(w, t);
    forall x: nat | x < |w|
      ensures MarkFirst(t, |w|, Ones(w))[x] == w[x]
    {
      MarkFirstAt(t, |w|, Ones(w), x);
      TreatedFirst(w, t, x);
    }
  }

  lemma TreatedFirst(w: seq<int>, t: seq<nat>, x: nat)
    requires IsAllocation(w) && Ones(w) <= |t| && x < |w| && Lists(t[..Ones(w)], Units(w, 1))
    ensures w[x] == if x in t[..Ones(w)] then 1 else 0
  {
    assert x in t[..Ones(w)] <==> x in Units(w, 1);
  }

  lemma ListsItems(w: seq<int>, t: seq<nat>)
    requires IsAllocation(w) && Ones(w) <= |t|
    requires Lists(t[..Ones(w)], Units(w, 1)) && Lists(t[Ones(w)..], Units(w, 0))
    ensures SameItems<nat>(Iota(|w|), t) && InRange(t, |w|)
  {
    hide Lists, Units, SameItems, IsAllocation;
    var u, v := t[..Ones(w)], t[Ones(w)..];
    assert t == u + v;
    AllUnits(w, u, v);
    IotaHolds(|w|);
    TwoListsDistinct(w, u, v);
    DistinctItems<nat>(Iota(|w|), t);
    ItemsHold(|w|, t);
  }

  lemma AllUnits(w: seq<int>, u: seq<nat>, v: seq<nat>)
    requires IsAllocation(w) && Lists(u, Units(w, 1)) && Lists(v, Units(w, 0))
    ensures forall x: nat :: x in u + v <==> x < |w|
  {
    forall x: nat
      ensures x in u + v <==> x < |w|
    {
      assert x in u <==> x in Units(w, 1);
      assert x in v <==> x in Units(w, 0);
    }
  }

  lemma TwoListsDistinct(w: seq<int>, u: seq<nat>, v: seq<nat>)
    requires Lists(u, Units(w, 1)) && Lists(v, Units(w, 0))
    ensures Distinct<nat>(u + v)
  {
    forall i, j | 0 <= i < |u| && 0 <= j < |v|
      ensures u[i] != v[j]
    {
      assert u[i] in u && v[j] in v;
    }
  }

  lemma IotaHolds(n: nat)
    ensures Distinct<nat>(Iota(n)) && forall x: nat :: x in Iota(n) <==> x < n
  {
    forall x: nat
      ensures x in Iota(n) <==> x < n
    {
      if x < n {
        assert Iota(n)[x] == x;
      }
    }
  }

  lemma ItemsHold(n: nat, t: seq<nat>)
    requires SameItems<nat>(Iota(n), t)
    ensures Distinct<nat>(t) && (forall x: nat :: x in t <==> x < n) && InRange(t, n)
  {
    IotaHolds(n);
    DistinctPermutation<nat>(Iota(n), t);
    forall x: nat
      ensures x in t <==> x < n
    {
      ItemIn<nat>(Iota(n), t, x);
    }
    forall i | 0 <= i < |t|
      ensures 0 <= t[i] < n
    {
      assert t[i] in t;
    }
  }

  lemma ItemIn<T>(s: seq<T>, t: seq<T>, x: T)
    requires SameItems(s, t)
    ensures x in s <==> x in t
  {
    assert x in multiset(s) <==> x in s;
    assert x in multiset(t) <==> x in t;
  }

  lemma NotInFront(t: seq<nat>, k: nat, j: nat)
    requires Distinct(t) && k <= j < |t|
    ensures t[j] !in t[..k]
  {
    assert forall i :: 0 <= i < k ==> t[..k][i] == t[i];
  }

  /** And every order of all units that marks w consists of the two lists. */
  lemma MarkedLists(w: seq<int>, t: seq<nat>)
    requires IsAllocation(w) && SameItems<nat>(Iota(|w|), t) && Ones(w) <= |t| && InRange(t, |w|)
    requires MarkFirst(t, |w|, Ones(w)) == w
    ensures Lists(t[..Ones(w)], Units(w, 1)) && Lists(t[Ones(w)..], Units(w, 0))
  {
    var k := Ones(w);
    ItemsHold(|w|, t);
    forall x: nat
      ensures x in t[..k] <==> x in Units(w, 1)
      ensures x in t[k..] <==> x in Units(w, 0)
    {
      MarkedUnit(w, t, x);
    }
  }

  lemma MarkedUnit(w: seq<int>, t: seq<nat>, x: nat)
    requires IsAllocation(w) && Distinct(t) && (forall y: nat :: y in t <==> y < |w|) && InRange(t, |w|)
    requires Ones(w) <= |t| && MarkFirst(t, |w|, Ones(w)) == w
    ensures x in t[..Ones(w)] <==> x in Units(w, 1)
    ensures x in t[Ones(w)..] <==> x in Units(w, 0)
  {
    var k := Ones(w);
    assert t == t[..k] + t[k..];
    assert x in t <==> x < |w|;
    if x < |w| {
      MarkFirstAt(t, |w|, k, x);
    }
    if x in t[k..] {
      var j: nat :| j < |t| - k && t[k..][j] == x;
      NotInFront(t, k, k + j);
    }
  }

  /** An order of all units is in the set exactly when it marks w. */
  lemma OrderMarks(w: seq<int>, t: seq<nat>)
    requires IsAllocation(w)
    ensures t in OrdersOf(w) <==>
              SameItems<nat>(Iota(|w|), t) && Ones(w) <= |t| && InRange(t, |w|) && MarkFirst(t, |w|, Ones(w)) == w
  {
    hide OrdersOf, Lists, Units, IsAllocation, SameItems;
    OrdersAre(w, t);
    if Ones(w) <= |t| && Lists(t[..Ones(w)], Units(w, 1)) && Lists(t[Ones(w)..], Units(w, 0)) {
      ListsMark(w, t);
    } else if SameItems<nat>(Iota(|w|), t) && Ones(w) <= |t| && InRange(t, |w|) && MarkFirst(t, |w|, Ones(w)) == w {
      MarkedLists(w, t);
    }
  }

  /** The allocation that a tuple of accepted words leads to: shuffle, then treat the first units. */
  ghost function Marked(n: nat, nT: nat, words: seq<nat>): (w: seq<int>)
    requires nT <= n < W && AcceptedWords(n, words)
    ensures |w| == n && IsAllocation(w) && Ones(w) == nT
  {
    var cs := Decode(n, words);
    ShuffledIota(n, cs);
    MarkFirstCounts(Shuffled<nat>(Iota(n), n, cs), n, nT);
    MarkFirst(Shuffled<nat>(Iota(n), n, cs), n, nT)
  }

  /**
   * Exact uniformity: each allocation with nT ones is reached by nT! (n - nT)! Weight(n) tuples of accepted
   * words, the same number for all of them.
   */
  lemma AllocationIsUniform(n: nat, nT: nat, w: seq<int>) returns (tuples: set<seq<nat>>)
    requires nT <= n < W && |w| == n && IsAllocation(w) && Ones(w) == nT
    ensures forall words :: words in tuples <==> AcceptedWords(n, words) && Marked(n, nT, words) == w
    ensures |tuples| == Product(Product(Factorial(nT), Factorial(n - nT)), Weight(n))
  {
    hide Product, Factorial, Weight, OrdersOf, AcceptedWords, Decode, Shuffled, MarkFirst;
    forall t | t in OrdersOf(w)
      ensures SameItems<nat>(Iota(n), t)
    {
      OrderMarks(w, t);
    }
    tuples := TuplesOf(n, OrdersOf(w));
    OrderCount(w);
    forall words
      ensures words in tuples <==> AcceptedWords(n, words) && Marked(n, nT, words) == w
    {
      if AcceptedWords(n, words) {
        MarkedOrder(n, nT, words, w);
      }
    }
  }

  lemma MarkedOrder(n: nat, nT: nat, words: seq<nat>, w: seq<int>)
    requires nT <= n < W && |w| == n && IsAllocation(w) && Ones(w) == nT && AcceptedWords(n, words)
    ensures Leads(n, words, OrdersOf(w)) <==> Marked(n, nT, words) == w
  {
    hide OrdersOf, AcceptedWords, Decode, Shuffled, MarkFirst;
    var t := Shuffled<nat>(Iota(n), n, Decode(n, words));
    ShuffledPermutes<nat>(Iota(n), n, Decode(n, words));
    ShuffledIota(n, Decode(n, words));
    OrderMarks(w, t);
  }

  /** The design without covariates is the allocation that the deciding words of its stream lead to. */
  lemma DesignIsMarked(c: Config, ws: Stream, pos: nat)
    requires Valid(c) && Lively(ws) && c.m == []
    ensures AcceptedWords(c.n, DecidingWords(ws, pos, c.n))
    ensures Design(c, ws, pos) == Marked(c.n, c.nT, DecidingWords(ws, pos, c.n))
  {
    hide Lively, Decode, Shuffled, AcceptedWords;
    DrawnChoicesDecode(ws, pos, c.n);
  }

  /** And so is the start of the search with covariates and without pairs. */
  lemma StartIsMarked(c: Config, ws: Stream, pos: nat)
    requires Valid(c) && Lively(ws)
    ensures AcceptedWords(c.n, DecidingWords(ws, pos, c.n))
    ensures BalancedStart(c, ws, pos).w == Marked(c.n, c.nT, DecidingWords(ws, pos, c.n))
  {
    hide Lively, Decode, Shuffled, AcceptedWords;
    DrawnChoicesDecode(ws, pos, c.n);
  }
}

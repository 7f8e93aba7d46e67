/** Lemire's rejection sampling of an integer below a bound, over a stream of 32-bit words. */
module BoundedRand {
  import Words
  import opened BlockRecurrence
  import opened MersenneTwister

  const W: nat := 0x1_0000_0000

  /** The 64-bit product of a word and the bound, and its two 32-bit halves. */
  function Product(x: nat, s: nat): nat { x * s }

  function LowHalf(m: nat): (l: nat)
    ensures l < W
  {
    m % 0x1_0000_0000
  }

  function HighHalf(m: nat): (h: nat)
    ensures m == h * W + LowHalf(m)
  {
    m / 0x1_0000_0000
  }

  /** The value that an accepted word yields. */
  function Scaled(x: nat, s: nat): nat { HighHalf(Product(x, s)) }

  /** The source's `(-s) % s` on 32-bit unsigned integers. */
  function Threshold(s: nat): nat
    requires 0 < s < W
  {
    (W - s) % s
  }

  /** With `s == 0` the source returns 0 from the first word and never divides. */
  predicate Accepted(x: nat, s: nat)
    requires s < W
  {
    s == 0 || LowHalf(Product(x, s)) >= Threshold(s)
  }

  lemma MulMonotone(a: int, b: int, s: nat)
    requires a <= b
    ensures a * s <= b * s
  {
    assert (b - a) * s >= 0;
  }

  lemma QuotientIs(a: int, s: int, q: int, r: int)
    requires s > 0 && a == q * s + r && 0 <= r < s
    ensures a / s == q && a % s == r
  {
    var p := a / s;
    assert a == p * s + a % s;
    if p > q {
      MulMonotone(q + 1, p, s);
    } else if p < q {
      MulMonotone(p + 1, q, s);
    }
  }

  lemma ThresholdIsRemainder(s: nat)
    requires 0 < s < W
    ensures Threshold(s) == W % s < s
  {
    var q := W / s;
    assert W == q * s + W % s;
    assert W - s == (q - 1) * s + W % s;
    QuotientIs(W - s, s, q - 1, W % s);
  }

  /** The accepted words that yield `v`. */
  ghost function WordsFor(s: nat, v: nat): set<nat>
    requires 0 < s < W
  {
    set x: nat | x < W && Accepted(x, s) && Scaled(x, s) == v
  }

  ghost function Interval(lo: nat, q: nat): set<nat> {
    if q == 0 then {} else Interval(lo, q - 1) + {lo + q - 1}
  }

  lemma {:induction false} IntervalSize(lo: nat, q: nat)
    ensures |Interval(lo, q)| == q
    ensures forall x :: x in Interval(lo, q) <==> lo <= x < lo + q
  {
    if q > 0 {
      IntervalSize(lo, q - 1);
    }
  }

  /** Accepted words for `v` are those whose product with `s` lies in one stretch of length s * q. */
  lemma AcceptedStretch(s: nat, v: nat, x: nat)
    requires 0 < s < W
    ensures Accepted(x, s) && Scaled(x, s) == v <==> v * W + W % s <= x * s < (v + 1) * W
  {
    ThresholdIsRemainder(s);
    if v * W + W % s <= x * s < (v + 1) * W {
      QuotientIs(x * s, W, v, x * s - v * W);
    }
  }

  /** The multiples of `s` in a stretch of length q * s are those of q consecutive numbers. */
  lemma MultiplesInStretch(s: nat, a: nat, q: nat, lo: nat, x: nat)
    requires (lo - 1) * s < a <= lo * s
    ensures a <= x * s < a + q * s <==> lo <= x < lo + q
  {
    if x < lo { MulMonotone(x, lo - 1, s); } else { MulMonotone(lo, x, s); }
    assert (lo + q) * s == lo * s + q * s;
    assert (lo + q - 1) * s == (lo - 1) * s + q * s;
    if x < lo + q { MulMonotone(x, lo + q - 1, s); } else { MulMonotone(lo + q, x, s); }
  }

  lemma CeilingExists(s: nat, a: nat) returns (lo: nat)
    requires 0 < s
    ensures (lo - 1) * s < a <= lo * s
  {
    lo := (a + s - 1) / s;
    assert a + s - 1 == lo * s + (a + s - 1) % s;
    assert (lo - 1) * s == lo * s - s;
  }

  /**
   * Exact unbiasedness: each of the `s` outcomes is produced by exactly floor(2^32 / s) of the
   * accepted words.
   */
  lemma Unbiased(s: nat, v: nat)
    requires v < s < W
    ensures |WordsFor(s, v)| == W / s
  {
    var q, a := W / s, v * W + W % s;
    assert a + q * s == (v + 1) * W by { assert W == q * s + W % s; }
    var lo := CeilingExists(s, a);
    IntervalSize(lo, q);
    forall x: nat
      ensures x in WordsFor(s, v) <==> x in Interval(lo, q)
    {
      AcceptedStretch(s, v, x);
      MultiplesInStretch(s, a, q, lo, x);
      if x >= W {
        assert x * s >= W * s >= (v + 1) * W by { MulMonotone(W, x, s); MulMonotone(v + 1, s, W); }
      }
    }
    assert WordsFor(s, v) == Interval(lo, q);
  }

  /** Every accepted word yields an outcome below the bound. */
  lemma ScaledBelow(x: nat, s: nat)
    requires x < W
    ensures HighHalf(Product(x, s)) < s || HighHalf(Product(x, s)) == s == 0
  {
    MulMonotone(x + 1, W, s);
    assert (x + 1) * s == x * s + s;
  }

  // Draws from a stream.

  ghost predicate Words32(ws: Stream) { forall i :: ws(i) < W }

  lemma SeedStreamWords32(seed: bv32)
    ensures Words32(SeedStream(seed))
  {
    forall i
      ensures SeedStream(seed)(i) < W
    {
      assert SeedStream(seed)(i) == Tempered(Term(Words.NextTerm, SeedState(seed), i));
    }
  }

  /** The rejection loop started at `pos` ends. */
  ghost predicate Supplies(ws: Stream, pos: nat, s: nat)
    requires s < W
  {
    exists k :: pos <= k && Accepted(ws(k), s)
  }

  ghost predicate IsFirstAccepted(ws: Stream, pos: nat, s: nat, k: nat)
    requires s < W
  {
    pos <= k && Accepted(ws(k), s) && forall i :: pos <= i < k ==> !Accepted(ws(i), s)
  }

  lemma FirstAcceptedExists(ws: Stream, pos: nat, s: nat, k: nat) returns (f: nat)
    requires s < W && pos <= k && Accepted(ws(k), s)
    ensures IsFirstAccepted(ws, pos, s, f)
  {
    f := pos;
    while !Accepted(ws(f), s)
      invariant pos <= f <= k
      invariant forall i :: pos <= i < f ==> !Accepted(ws(i), s)
      decreases k - f
    {
      f := f + 1;
    }
  }

  /** Position of the word that decides the draw. */
  ghost function FirstAccepted(ws: Stream, pos: nat, s: nat): (k: nat)
    requires s < W && Supplies(ws, pos, s)
    ensures IsFirstAccepted(ws, pos, s, k)
  {
    assert exists k :: IsFirstAccepted(ws, pos, s, k) by {
      var k0 :| pos <= k0 && Accepted(ws(k0), s);
      var f := FirstAcceptedExists(ws, pos, s, k0);
    }
    var k :| IsFirstAccepted(ws, pos, s, k);
    k
  }

  lemma FirstAcceptedIs(ws: Stream, pos: nat, s: nat, k: nat)
    requires s < W && IsFirstAccepted(ws, pos, s, k)
    ensures Supplies(ws, pos, s) && FirstAccepted(ws, pos, s) == k
  {}

  ghost function DrawValue(ws: Stream, pos: nat, s: nat): nat
    requires s < W && Supplies(ws, pos, s)
  {
    Scaled(ws(FirstAccepted(ws, pos, s)), s)
  }

  ghost function DrawNext(ws: Stream, pos: nat, s: nat): (next: nat)
    requires s < W && Supplies(ws, pos, s)
    ensures next > pos
  {
    FirstAccepted(ws, pos, s) + 1
  }

  /** Every rejection loop on the stream ends, whatever its bound and wherever it starts. */
  ghost predicate Plentiful(ws: Stream) {
    forall pos: nat, s: nat | s < W :: Supplies(ws, pos, s)
  }

  ghost predicate Lively(ws: Stream) { Words32(ws) && Plentiful(ws) }

  /** Of a seeded stream only the acceptances have to be assumed. */
  lemma SeedStreamLively(seed: bv32)
    requires Plentiful(SeedStream(seed))
    ensures Lively(SeedStream(seed))
  {
    SeedStreamWords32(seed);
  }

  lemma DrawBelow(ws: Stream, pos: nat, s: nat)
    requires s < W && Lively(ws)
    ensures DrawValue(ws, pos, s) < s || DrawValue(ws, pos, s) == s == 0
  {
    ScaledBelow(ws(FirstAccepted(ws, pos, s)), s);
  }

  /** The rejection loop: from word `x0` on, the first one whose low half is not below `t`. */
  method RejectBelow(rng: RRng, s: nat, t: nat, x0: nat, ghost f: nat) returns (x: nat)
    requires rng.Valid()
    requires 1 <= rng.pos <= f + 1 && x0 == rng.ws(rng.pos - 1)
    requires t <= LowHalf(Product(rng.ws(f), s))
    modifies rng.mt, rng`mti, rng`block, rng`pos
    ensures rng.Valid()
    ensures old(rng.pos) <= rng.pos <= f + 1 && x == rng.ws(rng.pos - 1)
    ensures t <= LowHalf(Product(x, s))
    ensures forall i :: old(rng.pos) <= i + 1 < rng.pos ==> LowHalf(Product(rng.ws(i), s)) < t
  {
    hide Product, LowHalf;
    x := x0;
    var l := LowHalf(Product(x, s));
    while l < t
      invariant rng.Valid()
      invariant old(rng.pos) <= rng.pos <= f + 1
      invariant x == rng.ws(rng.pos - 1) && l == LowHalf(Product(x, s))
      invariant forall i :: old(rng.pos) <= i + 1 < rng.pos ==> LowHalf(Product(rng.ws(i), s)) < t
      decreases f + 1 - rng.pos
    {
      x := rng.NextWord();
      l := LowHalf(Product(x, s));
    }
  }

  /** `bounded_rand`: with the early test `l < s` in front of the rejection loop. */
  method Bounded(rng: RRng, s: nat) returns (v: nat)
    requires rng.Valid() && s < W
    requires Words32(rng.ws) && Supplies(rng.ws, rng.pos, s)
    modifies rng.mt, rng`mti, rng`block, rng`pos
    ensures rng.Valid()
    ensures v == DrawValue(rng.ws, old(rng.pos), s)
    ensures rng.pos == DrawNext(rng.ws, old(rng.pos), s)
    ensures v < s || v == s == 0
  {
    hide Product, LowHalf, HighHalf, Threshold;
    ghost var ws, pos := rng.ws, rng.pos;
    ghost var f := FirstAccepted(ws, pos, s);
    if s > 0 {
      ThresholdIsRemainder(s);
    }
    var x := rng.NextWord();
    ghost var x0 := x;
    var l := LowHalf(Product(x, s));
    if l < s {
      var t := Threshold(s);
      x := RejectBelow(rng, s, t, x, f);
    }
    FirstAcceptedIs(ws, pos, s, rng.pos - 1);
    v := HighHalf(Product(x, s));
    ScaledBelow(x, s);
  }

  /** The same on a stream where every rejection loop ends. */
  method BoundedLive(rng: RRng, s: nat) returns (v: nat)
    requires rng.Valid() && Lively(rng.ws) && s < W
    modifies rng.mt, rng`mti, rng`block, rng`pos
    ensures rng.Valid()
    ensures v == DrawValue(rng.ws, old(rng.pos), s) && (v < s || v == s == 0)
    ensures rng.pos == DrawNext(rng.ws, old(rng.pos), s)
  {
    v := Bounded(rng, s);
  }
}

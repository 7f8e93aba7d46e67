/**
 * The walk of a lagged recurrence over one block of 624 entries, replaced in place.
 * Nothing here depends on what the entries are or how three of them combine.
 */
module BlockRecurrence {

  const N: nat := 624
  const M: nat := 397

  /** The unbounded recurrence x[k+624] = step(x[k+397], x[k], x[k+1]), started from `s`. */
  ghost function Term<T>(step: (T, T, T) -> T, s: seq<T>, k: nat): T
    requires |s| == N
  {
    if k < N then s[k]
    else step(Term(step, s, k - N + M), Term(step, s, k - N), Term(step, s, k - N + 1))
  }

  lemma TermBase<T>(step: (T, T, T) -> T, s: seq<T>, k: nat)
    requires k < |s| == N
    ensures Term(step, s, k) == s[k]
  {}

  lemma TermStep<T>(step: (T, T, T) -> T, s: seq<T>, k: nat)
    requires N <= k && |s| == N
    ensures Term(step, s, k)
         == step(Term(step, s, k - N + M), Term(step, s, k - N), Term(step, s, k - N + 1))
  {}

  /** The `b`-th block of 624 consecutive terms. */
  ghost function Block<T>(step: (T, T, T) -> T, s: seq<T>, b: nat): (r: seq<T>)
    requires |s| == N
    ensures |r| == N
  {
    seq(N, i requires 0 <= i < N => Term(step, s, b * 624 + i))
  }

  /** Restarting the recurrence from any of its own blocks continues the same sequence. */
  lemma {:induction false} RestartFromBlock<T>(step: (T, T, T) -> T, s: seq<T>, b: nat, i: nat)
    requires |s| == N
    ensures Term(step, Block(step, s, b), i) == Term(step, s, b * 624 + i)
  {
    hide Term;
    var r := Block(step, s, b);
    if i < N {
      TermBase(step, r, i);
    } else {
      TermStep(step, r, i);
      TermStep(step, s, b * 624 + i);
      RestartFromBlock(step, s, b, i - N + M);
      RestartFromBlock(step, s, b, i - N);
      RestartFromBlock(step, s, b, i - N + 1);
    }
  }

  /** The three in-place segments turn the block starting at term `b` into the one after it. */
  method Regenerate<T>(step: (T, T, T) -> T, mt: array<T>, ghost s: seq<T>, ghost b: nat)
    requires |s| == N == mt.Length
    requires forall i :: 0 <= i < N ==> mt[i] == Term(step, s, b + i)
    modifies mt
    ensures forall i :: 0 <= i < N ==> mt[i] == Term(step, s, b + N + i)
  {
    hide Term;
    var kk := 0;
    while kk < N - M
      invariant 0 <= kk <= N - M
      invariant forall i :: 0 <= i < kk ==> mt[i] == Term(step, s, b + N + i)
      invariant forall i :: kk <= i < N ==> mt[i] == Term(step, s, b + i)
    {
      TermStep(step, s, b + N + kk);
      mt[kk] := step(mt[kk + M], mt[kk], mt[kk + 1]);
      kk := kk + 1;
    }
    while kk < N - 1
      invariant N - M <= kk <= N - 1
      invariant forall i :: 0 <= i < kk ==> mt[i] == Term(step, s, b + N + i)
      invariant forall i :: kk <= i < N ==> mt[i] == Term(step, s, b + i)
    {
      TermStep(step, s, b + N + kk);
      mt[kk] := step(mt[kk + M - N], mt[kk], mt[kk + 1]);
      kk := kk + 1;
    }
    TermStep(step, s, b + N + N - 1);
    mt[N - 1] := step(mt[M - 1], mt[N - 1], mt[0]);
  }

  /** Index of the next term to be tempered when `mti` is read against block `b`. */
  ghost function NextIndex(b: nat, mti: nat): nat {
    b * 624 + if mti < N then mti else N
  }

  /** The numbers that a generator returns: its tempered terms, in order. */
  type Stream = nat -> nat

  ghost function StreamOf<T>(step: (T, T, T) -> T, temper: T -> nat, s: seq<T>): Stream
    requires |s| == N
  {
    i => temper(Term(step, s, i))
  }

  /** What a generator built from an exported (`mti`, `state`) will return, in order. */
  ghost function Upcoming<T>(step: (T, T, T) -> T, temper: T -> nat, mti: int, state: seq<T>, i: nat): nat
    requires |state| == N
  {
    StreamOf(step, temper, state)(NextIndex(0, if mti <= 0 then N else mti) + i)
  }

  /** An imported index outside 1..624 is not clamped, but it acts like 624: the block is regenerated next. */
  lemma OutsideIndexActsAs624<T>(step: (T, T, T) -> T, temper: T -> nat, mti: int, state: seq<T>, i: nat)
    requires |state| == N && (mti <= 0 || mti >= N)
    ensures Upcoming(step, temper, mti, state, i) == Upcoming(step, temper, N, state, i)
  {}

  /** Every exported state continues the very stream it was exported from. */
  lemma UpcomingFromBlock<T>(step: (T, T, T) -> T, temper: T -> nat, s: seq<T>, block: nat, mti: nat, i: nat)
    requires |s| == N && 1 <= mti
    ensures Upcoming(step, temper, mti, Block(step, s, block), i)
         == StreamOf(step, temper, s)(NextIndex(block, mti) + i)
  {
    hide Term;
    RestartFromBlock(step, s, block, NextIndex(0, mti) + i);
  }

  /** The generator object: the state block, the index into it, and how words are made of it. */
  class Generator<T> {
    const step: (T, T, T) -> T
    const temper: T -> nat
    const mt: array<T>
    var mti: int
    /** The 624 words the stream started from, and how many times they were replaced since. */
    ghost const origin: seq<T>
    ghost var block: nat
    /** The stream and the position of its next word. */
    ghost const ws: Stream
    ghost var pos: nat

    ghost predicate Valid()
      reads this, mt
    {
      && mt.Length == |origin| == N
      && 1 <= mti
      && mt[..] == Block(step, origin, block)
      && ws == StreamOf(step, temper, origin)
      && pos == NextIndex(block, mti)
    }

    /** `RRng(mti, mt)`: continue from a raw state. Only `mti <= 0` is replaced. */
    constructor (step: (T, T, T) -> T, temper: T -> nat, mti0: int, state: seq<T>)
      requires |state| == N
      ensures Valid() && fresh(mt)
      ensures this.step == step && this.temper == temper && origin == state && block == 0
      ensures mti == if mti0 <= 0 then N else mti0
      ensures forall i {:trigger Upcoming(step, temper, mti0, state, i)} ::
                Upcoming(step, temper, mti0, state, i) == ws(pos + i)
    {
      this.step := step;
      this.temper := temper;
      mt := new T[N](i requires 0 <= i < N => state[i]);
      mti := if mti0 <= 0 then N else mti0;
      origin := state;
      block := 0;
      ws := StreamOf(step, temper, state);
      pos := NextIndex(0, if mti0 <= 0 then N else mti0);
    }

    /** `next_word()`: the tempered next term of the recurrence. */
    method NextWord() returns (y: nat)
      requires Valid()
      modifies mt, this`mti, this`block, this`pos
      ensures Valid() && 1 <= mti <= N
      ensures y == ws(old(pos)) == temper(Term(step, origin, old(pos)))
      ensures pos == old(pos) + 1
    {
      hide Term;
      if mti >= N {
        Regenerate(step, mt, origin, block * 624);
        mti := 0;
        block := block + 1;
      }
      y := temper(mt[mti]);
      mti := mti + 1;
      pos := pos + 1;
    }

    /** `mti()` and `state()`: a generator rebuilt from them returns the rest of this stream. */
    method Export() returns (m: int, state: seq<T>)
      requires Valid()
      ensures m == mti && state == Block(step, origin, block)
      ensures forall i {:trigger Upcoming(step, temper, m, state, i)} ::
                Upcoming(step, temper, m, state, i) == ws(pos + i)
    {
      m, state := mti, mt[..];
      forall i: nat {
        UpcomingFromBlock(step, temper, origin, block, m, i);
      }
    }
  }
}

/** MT19937 with R's seeding: the recurrence of the generator `RRng`, and its seeds. */
module MersenneTwister {
  import opened Words
  import opened BlockRecurrence

  type RRng = Generator<bv32>

  type State = s: seq<bv32> | |s| == N witness seq(N, _ => 0)

  function Tempered(y: bv32): nat { Temper(y) as nat }

  /** The state that R's seeding loop leaves: rounds 52 to 675 of the scrambler. */
  ghost function SeedState(seed: bv32): State {
    seq(N, j requires 0 <= j < N => ScrambleN(seed, 52 + j))
  }

  /** The stream of 32-bit numbers that belongs to a seed; drawing starts at position 624. */
  ghost function SeedStream(seed: bv32): Stream {
    StreamOf(NextTerm, Tempered, SeedState(seed))
  }

  /** Different seeds start from different states, and no seed starts from a state that is stuck. */
  lemma SeedStates(s: bv32, t: bv32)
    ensures SeedState(s) == SeedState(t) <==> s == t
    ensures !Stuck(SeedState(s))
  {
    if SeedState(s) == SeedState(t) {
      assert SeedState(s)[0] == SeedState(t)[0];
      ScrambleNInjective(s, t, 52);
    }
    SeedStateNonZero(s);
  }

  lemma SeedStateNonZero(s: bv32)
    ensures SeedState(s)[1] != 0 || SeedState(s)[2] != 0
  {
    assert ScrambleN(s, 54) == Scramble(ScrambleN(s, 53));
    ZeroIsFixed();
  }

  /** Only the top bit of the oldest word enters the recurrence; here it and all other words are zero. */
  ghost predicate Stuck(s: State) { s[0] & UPPER_MASK == 0 && forall i :: 1 <= i < N ==> s[i] == 0 }

  /** Why that matters: from such a state every further term is zero. */
  lemma {:induction false} StuckStateStaysZero(s: State, k: nat)
    requires Stuck(s) && k > 0
    ensures Term(NextTerm, s, k) == 0
  {
    if k >= N {
      StuckStateStaysZero(s, k - N + M);
      StuckStateStaysZero(s, k - N + 1);
      if k > N {
        StuckStateStaysZero(s, k - N);
      }
      LowBitsDropOut(Term(NextTerm, s, k - N));
    }
  }

  lemma LowBitsDropOut(u: bv32)
    requires u & UPPER_MASK == 0
    ensures NextTerm(0, u, 0) == 0
  {}

  /** `RRng(seed)`: 50 rounds of scrambling, one discarded word, then 624 state words. */
  method NewRRng(seed: bv32) returns (rng: RRng)
    ensures rng.Valid() && fresh(rng) && fresh(rng.mt)
    ensures rng.step == NextTerm && rng.temper == Tempered && rng.origin == SeedState(seed)
    ensures rng.ws == SeedStream(seed) && rng.pos == N && rng.mti == N
  {
    var words := new bv32[N];
    var s := seed;
    for j := 0 to 50
      invariant s == ScrambleN(seed, j)
    {
      s := Scramble(s);
    }
    s := Scramble(s);
    for j := 0 to N
      invariant s == ScrambleN(seed, 51 + j)
      invariant forall i :: 0 <= i < j ==> words[i] == SeedState(seed)[i]
    {
      s := Scramble(s);
      words[j] := s;
    }
    assert words[..] == SeedState(seed);
    rng := new Generator(NextTerm, Tempered, N, words[..]);
  }
}

/** Fixed-width word arithmetic: the bit-level maps of the generator and of its seeding. */
module Words {

  const UPPER_MASK: bv32 := 0x8000_0000
  const LOWER_MASK: bv32 := 0x7fff_ffff
  const MATRIX_A: bv32 := 0x9908_b0df

  /** The top bit of `u` joined to the low 31 bits of `l`. */
  function Join(u: bv32, l: bv32): bv32 { (u & UPPER_MASK) | (l & LOWER_MASK) }

  /** The product with the matrix: a shift, and the matrix row if a one was shifted out. */
  function TimesMatrix(y: bv32): bv32 { (y >> 1) ^ (if y & 1 == 1 then MATRIX_A else 0) }

  /** The twist of MT19937. */
  function Twist(u: bv32, l: bv32): bv32 { TimesMatrix(Join(u, l)) }

  /** The next term of the recurrence from the terms 397, 0 and 1 places after the oldest one. */
  function NextTerm(far: bv32, u: bv32, l: bv32): bv32 { far ^ Twist(u, l) }

  // The tempering of MT19937, in its four stages.

  function Temper1(y: bv32): bv32 { y ^ (y >> 11) }

  function Temper2(y: bv32): bv32 { y ^ ((y << 7) & 0x9d2c_5680) }

  function Temper3(y: bv32): bv32 { y ^ ((y << 15) & 0xefc6_0000) }

  function Temper4(y: bv32): bv32 { y ^ (y >> 18) }

  function Temper(y: bv32): bv32 { Temper4(Temper3(Temper2(Temper1(y)))) }

  /** One step of the linear congruential scrambler that R uses to fill the state. */
  function Scramble(s: bv32): bv32 { 69069 * s + 1 }

  function ScrambleN(s: bv32, k: nat): bv32 {
    if k == 0 then s else Scramble(ScrambleN(s, k - 1))
  }

  lemma ZeroIsFixed()
    ensures NextTerm(0, 0, 0) == 0
    ensures Scramble(0) != 0
  {}

  function Unscramble(z: bv32): bv32 { 2783094533 * (z - 1) }

  lemma UnscrambleUndoes(s: bv32)
    ensures Unscramble(69069 * s + 1) == s
  {}

  lemma ScrambleInjective(s: bv32, t: bv32)
    requires Scramble(s) == Scramble(t)
    ensures s == t
  {
    UnscrambleUndoes(s);
    UnscrambleUndoes(t);
  }

  lemma {:induction false} ScrambleNInjective(s: bv32, t: bv32, k: nat)
    requires ScrambleN(s, k) == ScrambleN(t, k)
    ensures s == t
  {
    if k > 0 {
      ScrambleInjective(ScrambleN(s, k - 1), ScrambleN(t, k - 1));
      ScrambleNInjective(s, t, k - 1);
    }
  }

  // The SplitMix64 finaliser behind the per-draw seeds, in three reversible stages.

  function Mix1(x: bv64): bv64 { (x ^ (x >> 30)) * 0xbf58_476d_1ce4_e5b9 }

  function Mix2(x: bv64): bv64 { (x ^ (x >> 27)) * 0x94d0_49bb_1331_11eb }

  function Mix3(x: bv64): bv64 { x ^ (x >> 31) }

  /** `x` is the sum of the master seed and the draw index, modulo 2^64. */
  function SplitMix(x: bv64): bv64 { Mix3(Mix2(Mix1(x + 0x9e37_79b9_7f4a_7c15))) }

  function Sum64(master: bv64, index: bv64): bv64 { master + index }

  /** `seed_for_index`: the low 32 bits of the mixed sum of master seed and draw index. */
  function SeedForIndex(master: bv64, index: bv64): bv32 {
    (SplitMix(Sum64(master, index)) & 0xffff_ffff) as bv32
  }

  /** An index counted up from zero in 64 bits, so modulo 2^64. */
  function Counted(j: nat): bv64 { if j == 0 then 0 else Counted(j - 1) + 1 }

  /** The same for an index that is counted by the parallel loops. */
  function IndexSeed(master: bv64, j: nat): bv32 { SeedForIndex(master, Counted(j)) }

  function Unmix1(z: bv64): bv64 {
    var y := z * 0x96de_1b17_3f11_9089;
    y ^ (y >> 30) ^ (y >> 60)
  }

  function Unmix2(z: bv64): bv64 {
    var y := z * 0x3196_42b2_d24d_8ec3;
    y ^ (y >> 27) ^ (y >> 54)
  }

  function Unmix3(z: bv64): bv64 { z ^ (z >> 31) ^ (z >> 62) }

  lemma Unmix1Undoes(x: bv64)
    ensures Unmix1((x ^ (x >> 30)) * 0xbf58_476d_1ce4_e5b9) == x
  {}

  lemma Unmix2Undoes(x: bv64)
    ensures Unmix2((x ^ (x >> 27)) * 0x94d0_49bb_1331_11eb) == x
  {}

  lemma Unmix3Undoes(x: bv64)
    ensures Unmix3(x ^ (x >> 31)) == x
  {}

  lemma Mix1Injective(x: bv64, y: bv64)
    requires Mix1(x) == Mix1(y)
    ensures x == y
  {
    Unmix1Undoes(x);
    Unmix1Undoes(y);
  }

  lemma Mix2Injective(x: bv64, y: bv64)
    requires Mix2(x) == Mix2(y)
    ensures x == y
  {
    Unmix2Undoes(x);
    Unmix2Undoes(y);
  }

  lemma Mix3Injective(x: bv64, y: bv64)
    requires Mix3(x) == Mix3(y)
    ensures x == y
  {
    Unmix3Undoes(x);
    Unmix3Undoes(y);
  }

  lemma OffsetInjective(x: bv64, y: bv64)
    requires x + 0x9e37_79b9_7f4a_7c15 == y + 0x9e37_79b9_7f4a_7c15
    ensures x == y
  {}

  /** The 64-bit mixing is a bijection: distinct sums stay distinct until the final truncation. */
  lemma SplitMixInjective(x: bv64, y: bv64)
    requires SplitMix(x) == SplitMix(y)
    ensures x == y
  {
    var a, b := x + 0x9e37_79b9_7f4a_7c15, y + 0x9e37_79b9_7f4a_7c15;
    Mix3Injective(Mix2(Mix1(a)), Mix2(Mix1(b)));
    Mix2Injective(Mix1(a), Mix1(b));
    Mix1Injective(a, b);
    OffsetInjective(x, y);
  }

  /** Before the truncation, distinct draw indices of one master seed are mixed to distinct words. */
  lemma IndicesStayDistinct(master: bv64, i: bv64, j: bv64)
    requires SplitMix(Sum64(master, i)) == SplitMix(Sum64(master, j))
    ensures i == j
  {
    hide Sum64, SplitMix;
    SplitMixInjective(Sum64(master, i), Sum64(master, j));
    Sum64Injective(master, i, j);
  }

  function Difference64(x: bv64, m: bv64): bv64 { x - m }

  lemma DifferenceOfSum(m: bv64, i: bv64)
    ensures Difference64(m + i, m) == i
  {}

  lemma Sum64Injective(m: bv64, i: bv64, j: bv64)
    requires Sum64(m, i) == Sum64(m, j)
    ensures i == j
  {
    DifferenceOfSum(m, i);
    DifferenceOfSum(m, j);
  }
}

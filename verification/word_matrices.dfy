/** The generator's two bit maps as matrices over the two-element field, and how to undo them. */
module WordMatrices {
  import opened Words

  // The twist.

  function High(u: bv32): bv32 { u & 0x8000_0000 }

  function Low(l: bv32): bv32 { l & 0x7fff_ffff }

  /** The top bit of a twisted word says whether the matrix was added; without it the rest is the shifted word. */
  function Untwist(t: bv32): bv32 {
    if t & 0x8000_0000 == 0 then t << 1 else ((t ^ 0x9908_b0df) << 1) | 1
  }

  /** Both parts of the argument are recovered: the top bit of `u` and the low 31 bits of `l`. */
  lemma UntwistUndoes(u: bv32, l: bv32)
    ensures High(Untwist(Twist(u, l))) == High(u)
    ensures Low(Untwist(Twist(u, l))) == Low(l)
  {}

  lemma TwistLinear(u: bv32, l: bv32, v: bv32, m: bv32)
    ensures Twist(u ^ v, l ^ m) == Twist(u, l) ^ Twist(v, m)
  {
    hide Twist;
    Twisted(u, l, v, m, u ^ v, l ^ m);
  }

  lemma Twisted(u: bv32, l: bv32, v: bv32, m: bv32, uv: bv32, lm: bv32)
    requires IsXor(u, v, uv) && IsXor(l, m, lm)
    ensures IsXor(Twist(u, l), Twist(v, m), Twist(uv, lm))
  {
    hide Join, TimesMatrix, IsXor;
    Joined(u, l, v, m, uv, lm);
    Multiplied(Join(u, l), Join(v, m), Join(uv, lm));
  }

  predicate IsXor(x: bv32, y: bv32, z: bv32) { z == x ^ y }

  predicate IsHalf(y: bv32, h: bv32) { h == y >> 1 }

  predicate Odd(y: bv32) { y & 1 == 1 }

  predicate IsSum(h: bv32, odd: bool, t: bv32) { t == h ^ (if odd then 0x9908_b0df else 0) }

  lemma Halved(x: bv32, y: bv32, z: bv32, hx: bv32, hy: bv32, hz: bv32)
    requires IsHalf(x, hx) && IsHalf(y, hy) && IsHalf(z, hz) && IsXor(x, y, z)
    ensures IsXor(hx, hy, hz)
  {}

  lemma OddXor(x: bv32, y: bv32, z: bv32)
    requires IsXor(x, y, z)
    ensures Odd(z) <==> Odd(x) != Odd(y)
  {}

  lemma Summed(x: bv32, y: bv32, z: bv32, a: bool, b: bool, tx: bv32, ty: bv32, tz: bv32)
    requires IsSum(x, a, tx) && IsSum(y, b, ty) && IsSum(z, a != b, tz) && IsXor(x, y, z)
    ensures IsXor(tx, ty, tz)
  {}

  function Half(y: bv32): bv32 { y >> 1 }

  lemma ProductIs(y: bv32)
    ensures IsHalf(y, Half(y)) && IsSum(Half(y), Odd(y), TimesMatrix(y))
  {}

  lemma Multiplied(x: bv32, y: bv32, z: bv32)
    requires IsXor(x, y, z)
    ensures IsXor(TimesMatrix(x), TimesMatrix(y), TimesMatrix(z))
  {
    hide TimesMatrix, Half, Odd, IsHalf, IsSum, IsXor;
    ProductIs(x);
    ProductIs(y);
    ProductIs(z);
    Halved(x, y, z, Half(x), Half(y), Half(z));
    OddXor(x, y, z);
    Summed(Half(x), Half(y), Half(z), Odd(x), Odd(y), TimesMatrix(x), TimesMatrix(y), TimesMatrix(z));
  }

  lemma Joined(u: bv32, l: bv32, v: bv32, m: bv32, uv: bv32, lm: bv32)
    requires IsXor(u, v, uv) && IsXor(l, m, lm)
    ensures IsXor(Join(u, l), Join(v, m), Join(uv, lm))
  {}

  /** The images of single bits, which by linearity determine the twist. */
  lemma TwistImages()
    ensures Twist(0x8000_0000, 0) == 0x4000_0000
    ensures Twist(0, 0x8000_0000) == 0
    ensures Twist(0, 0x0000_0001) == 0x9908_b0df
    ensures Twist(0, 0x0000_0002) == 0x0000_0001
    ensures Twist(0, 0x0000_0004) == 0x0000_0002
    ensures Twist(0, 0x0000_0008) == 0x0000_0004
    ensures Twist(0, 0x0000_0010) == 0x0000_0008
    ensures Twist(0, 0x0000_0020) == 0x0000_0010
    ensures Twist(0, 0x0000_0040) == 0x0000_0020
    ensures Twist(0, 0x0000_0080) == 0x0000_0040
    ensures Twist(0, 0x0000_0100) == 0x0000_0080
    ensures Twist(0, 0x0000_0200) == 0x0000_0100
    ensures Twist(0, 0x0000_0400) == 0x0000_0200
    ensures Twist(0, 0x0000_0800) == 0x0000_0400
    ensures Twist(0, 0x0000_1000) == 0x0000_0800
    ensures Twist(0, 0x0000_2000) == 0x0000_1000
    ensures Twist(0, 0x0000_4000) == 0x0000_2000
    ensures Twist(0, 0x0000_8000) == 0x0000_4000
    ensures Twist(0, 0x0001_0000) == 0x0000_8000
    ensures Twist(0, 0x0002_0000) == 0x0001_0000
    ensures Twist(0, 0x0004_0000) == 0x0002_0000
    ensures Twist(0, 0x0008_0000) == 0x0004_0000
    ensures Twist(0, 0x0010_0000) == 0x0008_0000
    ensures Twist(0, 0x0020_0000) == 0x0010_0000
    ensures Twist(0, 0x0040_0000) == 0x0020_0000
    ensures Twist(0, 0x0080_0000) == 0x0040_0000
    ensures Twist(0, 0x0100_0000) == 0x0080_0000
    ensures Twist(0, 0x0200_0000) == 0x0100_0000
    ensures Twist(0, 0x0400_0000) == 0x0200_0000
    ensures Twist(0, 0x0800_0000) == 0x0400_0000
    ensures Twist(0, 0x1000_0000) == 0x0800_0000
    ensures Twist(0, 0x2000_0000) == 0x1000_0000
    ensures Twist(0, 0x4000_0000) == 0x2000_0000
  {}

  lemma LowBitsOfOldestDropOut(u: bv32, l: bv32)
    ensures Twist(u, l) == Twist(High(u), l)
  {}

  // The tempering.

  function UndoRight18(z: bv32): bv32 { z ^ (z >> 18) }

  function UndoLeft15(z: bv32): bv32 { z ^ ((z << 15) & 0xefc6_0000) }

  /** A shift by 7 has to be undone seven bits at a time. */
  function UndoLeft7(z: bv32): bv32 {
    var a := z ^ ((z << 7) & 0x9d2c_5680);
    var b := z ^ ((a << 7) & 0x9d2c_5680);
    var c := z ^ ((b << 7) & 0x9d2c_5680);
    z ^ ((c << 7) & 0x9d2c_5680)
  }

  function UndoRight11(z: bv32): bv32 {
    var a := z ^ (z >> 11);
    z ^ (a >> 11)
  }

  function Untemper(z: bv32): bv32 { UndoRight11(UndoLeft7(UndoLeft15(UndoRight18(z)))) }

  /** Tempering is reversible, so a word shows the whole term that it was made of. */
  lemma UntemperUndoes(y: bv32)
    ensures Untemper(Temper(y)) == y
  {
    hide Temper1, Temper2, Temper3, Temper4, UndoRight11, UndoLeft7, UndoLeft15, UndoRight18;
    Temper4Undone(Temper3(Temper2(Temper1(y))));
    Temper3Undone(Temper2(Temper1(y)));
    Temper2Undone(Temper1(y));
    Temper1Undone(y);
  }

  lemma Temper1Undone(y: bv32)
    ensures UndoRight11(Temper1(y)) == y
  {
    Undone1(y);
  }

  lemma Undone1(y: bv32)
    ensures UndoRight11(y ^ (y >> 11)) == y
  {}

  lemma Temper2Undone(y: bv32)
    ensures UndoLeft7(Temper2(y)) == y
  {}

  lemma Temper3Undone(y: bv32)
    ensures UndoLeft15(Temper3(y)) == y
  {}

  lemma Temper4Undone(y: bv32)
    ensures UndoRight18(Temper4(y)) == y
  {
    Undone4(y);
  }

  lemma Undone4(y: bv32)
    ensures UndoRight18(y ^ (y >> 18)) == y
  {}

  lemma TemperLinear(x: bv32, y: bv32)
    ensures Temper(x ^ y) == Temper(x) ^ Temper(y)
  {
    hide Temper;
    Stages(x, y, x ^ y);
  }

  lemma Stages(x: bv32, y: bv32, z: bv32)
    requires IsXor(x, y, z)
    ensures IsXor(Temper(x), Temper(y), Temper(z))
  {
    hide Temper1, Temper2, Temper3, Temper4, IsXor;
    Stage1(x, y, z);
    Stage2(Temper1(x), Temper1(y), Temper1(z));
    Stage3(Temper2(Temper1(x)), Temper2(Temper1(y)), Temper2(Temper1(z)));
    Stage4(Temper3(Temper2(Temper1(x))), Temper3(Temper2(Temper1(y))), Temper3(Temper2(Temper1(z))));
  }

  // One stage each, as a relation between a word and its image.

  predicate IsTemper1(x: bv32, t: bv32) { t == x ^ (x >> 11) }

  lemma Xored1(x: bv32, y: bv32, z: bv32, tx: bv32, ty: bv32, tz: bv32)
    requires IsTemper1(x, tx) && IsTemper1(y, ty) && IsTemper1(z, tz) && IsXor(x, y, z)
    ensures IsXor(tx, ty, tz)
  {}

  lemma Stage1(x: bv32, y: bv32, z: bv32)
    requires IsXor(x, y, z)
    ensures IsXor(Temper1(x), Temper1(y), Temper1(z))
  {
    Xored1(x, y, z, Temper1(x), Temper1(y), Temper1(z));
  }

  predicate IsTemper2(x: bv32, t: bv32) { t == x ^ ((x << 7) & 0x9d2c_5680) }

  lemma Xored2(x: bv32, y: bv32, z: bv32, tx: bv32, ty: bv32, tz: bv32)
    requires IsTemper2(x, tx) && IsTemper2(y, ty) && IsTemper2(z, tz) && IsXor(x, y, z)
    ensures IsXor(tx, ty, tz)
  {}

  lemma Stage2(x: bv32, y: bv32, z: bv32)
    requires IsXor(x, y, z)
    ensures IsXor(Temper2(x), Temper2(y), Temper2(z))
  {
    Xored2(x, y, z, Temper2(x), Temper2(y), Temper2(z));
  }

  predicate IsTemper3(x: bv32, t: bv32) { t == x ^ ((x << 15) & 0xefc6_0000) }

  lemma Xored3(x: bv32, y: bv32, z: bv32, tx: bv32, ty: bv32, tz: bv32)
    requires IsTemper3(x, tx) && IsTemper3(y, ty) && IsTemper3(z, tz) && IsXor(x, y, z)
    ensures IsXor(tx, ty, tz)
  {}

  lemma Stage3(x: bv32, y: bv32, z: bv32)
    requires IsXor(x, y, z)
    ensures IsXor(Temper3(x), Temper3(y), Temper3(z))
  {
    Xored3(x, y, z, Temper3(x), Temper3(y), Temper3(z));
  }

  predicate IsTemper4(x: bv32, t: bv32) { t == x ^ (x >> 18) }

  lemma Xored4(x: bv32, y: bv32, z: bv32, tx: bv32, ty: bv32, tz: bv32)
    requires IsTemper4(x, tx) && IsTemper4(y, ty) && IsTemper4(z, tz) && IsXor(x, y, z)
    ensures IsXor(tx, ty, tz)
  {}

  lemma Stage4(x: bv32, y: bv32, z: bv32)
    requires IsXor(x, y, z)
    ensures IsXor(Temper4(x), Temper4(y), Temper4(z))
  {
    Xored4(x, y, z, Temper4(x), Temper4(y), Temper4(z));
  }

  /** The images of the 32 single bits, which by linearity determine the tempering. */
  lemma TemperImages()
    ensures Temper(0x0000_0001) == 0x0040_0091
    ensures Temper(0x0000_0002) == 0x0000_0002
    ensures Temper(0x0000_0004) == 0x0102_0244
    ensures Temper(0x0000_0008) == 0x0204_0489
    ensures Temper(0x0000_0010) == 0x0000_0010
    ensures Temper(0x0000_0020) == 0x0800_1220
    ensures Temper(0x0000_0040) == 0x0000_0040
    ensures Temper(0x0000_0080) == 0x2040_4890
    ensures Temper(0x0000_0100) == 0x0080_0120
    ensures Temper(0x0000_0200) == 0x0100_0240
    ensures Temper(0x0000_0400) == 0x0200_0480
    ensures Temper(0x0000_0800) == 0x0444_0990
    ensures Temper(0x0000_1000) == 0x0808_1200
    ensures Temper(0x0000_2000) == 0x0102_2244
    ensures Temper(0x0000_4000) == 0x2224_4c81
    ensures Temper(0x0000_8000) == 0x4000_9010
    ensures Temper(0x0001_0000) == 0x8801_3220
    ensures Temper(0x0002_0000) == 0x0102_0000
    ensures Temper(0x0004_0000) == 0x2044_4891
    ensures Temper(0x0008_0000) == 0x0488_0022
    ensures Temper(0x0010_0000) == 0x0910_0044
    ensures Temper(0x0020_0000) == 0x1220_0088
    ensures Temper(0x0040_0000) == 0x0444_0911
    ensures Temper(0x0080_0000) == 0x0888_1222
    ensures Temper(0x0100_0000) == 0x8100_0040
    ensures Temper(0x0200_0000) == 0x2220_4888
    ensures Temper(0x0400_0000) == 0x4400_9100
    ensures Temper(0x0800_0000) == 0x8801_2200
    ensures Temper(0x1000_0000) == 0x1102_0440
    ensures Temper(0x2000_0000) == 0x2004_0801
    ensures Temper(0x4000_0000) == 0x4408_1102
    ensures Temper(0x8000_0000) == 0x8810_2204
  {}

  // The per-draw seeds.

  /** The seed is the low half of the mixed sum: widened again, it is the mixed sum without its high half. */
  lemma SeedIsLowHalf(master: bv64, index: bv64)
    ensures SeedForIndex(master, index) as bv64 == SplitMix(Sum64(master, index)) & 0x0000_0000_ffff_ffff
  {}

  /**
   * Draw `j` of a master seed is draw 0 of the master seed that is larger by `j`; with the low half of the
   * mixed master seed for draw 0 this determines every seed.
   */
  lemma NextDrawNextMaster(master: bv64, j: nat)
    ensures IndexSeed(master, j + 1) == IndexSeed(Next64(master), j)
  {
    hide SeedForIndex, Next64;
    CountedNext(j);
    SumMoves(master, Counted(j));
  }

  function Next64(x: bv64): bv64 { x + 1 }

  lemma CountedNext(j: nat)
    ensures Counted(j + 1) == Next64(Counted(j))
  {}

  lemma SumMoves(m: bv64, i: bv64)
    ensures SeedForIndex(m, Next64(i)) == SeedForIndex(Next64(m), i)
  {
    hide SplitMix;
  }

  lemma FirstDraw(master: bv64)
    ensures IndexSeed(master, 0) as bv64 == SplitMix(master) & 0x0000_0000_ffff_ffff
  {
    hide SplitMix, SeedForIndex;
    SeedIsLowHalf(master, 0);
    NothingAdded(master);
  }

  lemma NothingAdded(m: bv64)
    ensures Sum64(m, 0) == m
  {}

  /** The mixing of the numbers 0 and 1, stage by stage. */
  lemma SplitMixVectors()
    ensures SplitMix(0) == 0xe220_a839_7b1d_cdaf
    ensures SplitMix(1) == 0x910a_2dec_8902_5cc1
  {
    hide Mix1, Mix2, Mix3;
    SplitMixStages();
  }

  lemma SplitMixStages()
    ensures Mix1(0x9e37_79b9_7f4a_7c15) == 0x6f68_261b_57e7_a770
    ensures Mix2(0x6f68_261b_57e7_a770) == 0xe220_a838_bf5c_9dde
    ensures Mix3(0xe220_a838_bf5c_9dde) == 0xe220_a839_7b1d_cdaf
    ensures Mix1(0x9e37_79b9_7f4a_7c16) == 0xad70_fc62_ae96_589b
    ensures Mix2(0xad70_fc62_ae96_589b) == 0x910a_2ded_ab16_071a
    ensures Mix3(0x910a_2ded_ab16_071a) == 0x910a_2dec_8902_5cc1
  {}
}

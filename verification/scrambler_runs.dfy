/** Runs of the scrambler: every run of its steps is again one multiplication and one addition. */
module ScramblerRuns {
  import opened Words

  /** Eight rounds, and sixty-four, in one step. */
  function Eight(s: bv32): bv32 { 0x16c4_3621 * s + 0x6313_2a58 }

  function SixtyFour(s: bv32): bv32 { 0x50c8_2101 * s + 0x80ba_46c0 }

  lemma {:induction false} ScrambleSplits(s: bv32, k: nat, l: nat)
    ensures ScrambleN(s, k + l) == ScrambleN(ScrambleN(s, k), l)
  {
    if l > 0 {
      ScrambleSplits(s, k, l - 1);
    }
  }

  lemma ScrambleFolds(s: bv32)
    ensures Scramble(s) == 0x0001_0dcd * s + 0x0000_0001
    ensures Scramble(0x0001_0dcd * s + 0x0000_0001) == 0x1c58_7629 * s + 0x0001_0dce
    ensures Scramble(0x1c58_7629 * s + 0x0001_0dce) == 0xa6ff_b3d5 * s + 0x1c59_83f7
    ensures Scramble(0xa6ff_b3d5 * s + 0x1c59_83f7) == 0x6ab9_d291 * s + 0xc359_37cc
    ensures Scramble(0x6ab9_d291 * s + 0xc359_37cc) == 0xb90f_fb1d * s + 0x2e13_0a5d
    ensures Scramble(0xb90f_fb1d * s + 0x2e13_0a5d) == 0xfca9_8f39 * s + 0xe723_057a
    ensures Scramble(0xfca9_8f39 * s + 0xe723_057a) == 0x7f46_95a5 * s + 0xe3cc_94b3
    ensures Scramble(0x7f46_95a5 * s + 0xe3cc_94b3) == Eight(s)
  {}

  lemma EightRounds(s: bv32)
    ensures ScrambleN(s, 8) == Eight(s)
  {
    hide Scramble, Eight;
    FourRounds(s);
    ScrambleSplits(s, 4, 4);
    FourRounds(ScrambleN(s, 4));
    ScrambleFolds(s);
  }

  lemma FourRounds(s: bv32)
    ensures ScrambleN(s, 4) == Scramble(Scramble(Scramble(Scramble(s))))
  {
    hide Scramble;
    assert ScrambleN(s, 0) == s;
    OneMore(s, 0);
    OneMore(s, 1);
    OneMore(s, 2);
    OneMore(s, 3);
  }

  lemma EightFolds(s: bv32)
    ensures Eight(s) == 0x16c4_3621 * s + 0x6313_2a58
    ensures Eight(0x16c4_3621 * s + 0x6313_2a58) == 0x99f9_f041 * s + 0x2eda_2fb0
    ensures Eight(0x99f9_f041 * s + 0x2eda_2fb0) == 0x19a9_ae61 * s + 0x1602_7008
    ensures Eight(0x19a9_ae61 * s + 0x1602_7008) == 0xf1eb_f081 * s + 0x3325_4b60
    ensures Eight(0xf1eb_f081 * s + 0x3325_4b60) == 0x2ce9_36a1 * s + 0xce48_21b8
    ensures Eight(0x2ce9_36a1 * s + 0xce48_21b8) == 0xa4da_00c1 * s + 0xd25c_5310
    ensures Eight(0xa4da_00c1 * s + 0xd25c_5310) == 0x6606_cee1 * s + 0xf2bf_3f68
    ensures Eight(0x6606_cee1 * s + 0xf2bf_3f68) == SixtyFour(s)
  {}

  lemma EightMore(s: bv32, k: nat)
    ensures ScrambleN(s, k + 8) == Eight(ScrambleN(s, k))
  {
    ScrambleSplits(s, k, 8);
    EightRounds(ScrambleN(s, k));
  }

  lemma SixtyFourRounds(s: bv32)
    ensures ScrambleN(s, 64) == SixtyFour(s)
  {
    hide Eight, SixtyFour, ScrambleN;
    EightRounds(s);
    EightMore(s, 8);
    EightMore(s, 16);
    EightMore(s, 24);
    EightMore(s, 32);
    EightMore(s, 40);
    EightMore(s, 48);
    EightMore(s, 56);
    EightFolds(s);
  }

  lemma SixtyFourMore(s: bv32, k: nat)
    ensures ScrambleN(s, k + 64) == SixtyFour(ScrambleN(s, k))
  {
    ScrambleSplits(s, k, 64);
    SixtyFourRounds(ScrambleN(s, k));
  }

  /** Words 0, 1 and 397 of the state of seed 0: rounds 52, 53 and 449. */
  lemma SeedZeroWords()
    ensures ScrambleN(0, 52) == 0x4c57_63dc && ScrambleN(0, 53) == 0xf5e9_232d
    ensures ScrambleN(0, 449) == 0x22ab_9641
  {
    hide Eight, SixtyFour, Scramble, ScrambleN;
    NoRounds();
    EightMore(0, 0);
    EightMore(0, 8);
    EightMore(0, 16);
    EightMore(0, 24);
    EightMore(0, 32);
    EightMore(0, 40);
    OneMore(0, 48);
    OneMore(0, 49);
    OneMore(0, 50);
    OneMore(0, 51);
    OneMore(0, 52);
    SixtyFourMore(0, 0);
    SixtyFourMore(0, 64);
    SixtyFourMore(0, 128);
    SixtyFourMore(0, 192);
    SixtyFourMore(0, 256);
    SixtyFourMore(0, 320);
    SixtyFourMore(0, 384);
    OneMore(0, 448);
    SeedZeroArithmetic();
  }

  lemma NoRounds()
    ensures ScrambleN(0, 0) == 0
  {}

  lemma OneMore(s: bv32, k: nat)
    ensures ScrambleN(s, k + 1) == Scramble(ScrambleN(s, k))
  {}

  lemma SeedZeroArithmetic()
    ensures Eight(0x0000_0000) == 0x6313_2a58
    ensures Eight(0x6313_2a58) == 0x2eda_2fb0
    ensures Eight(0x2eda_2fb0) == 0x1602_7008
    ensures Eight(0x1602_7008) == 0x3325_4b60
    ensures Eight(0x3325_4b60) == 0xce48_21b8
    ensures Eight(0xce48_21b8) == 0xd25c_5310
    ensures Scramble(0xd25c_5310) == 0x7736_53d1
    ensures Scramble(0x7736_53d1) == 0x8c93_bb5e
    ensures Scramble(0x8c93_bb5e) == 0xce2e_d047
    ensures Scramble(0xce2e_d047) == 0x4c57_63dc
    ensures Scramble(0x4c57_63dc) == 0xf5e9_232d
    ensures SixtyFour(0x0000_0000) == 0x80ba_46c0
    ensures SixtyFour(0x80ba_46c0) == 0x4a93_4d80
    ensures SixtyFour(0x4a93_4d80) == 0x544b_1440
    ensures SixtyFour(0x544b_1440) == 0x54a1_9b00
    ensures SixtyFour(0x54a1_9b00) == 0xc256_e1c0
    ensures SixtyFour(0xc256_e1c0) == 0xd42a_e880
    ensures SixtyFour(0xd42a_e880) == 0x80dd_af40
    ensures Scramble(0x80dd_af40) == 0x22ab_9641
  {}

  /** Words 0, 1 and 397 of the state of seed 1, which is seed 0 one round later. */
  lemma SeedOneWords()
    ensures ScrambleN(1, 52) == 0xf5e9_232d && ScrambleN(1, 53) == 0xe5a7_740a
    ensures ScrambleN(1, 449) == 0x1049_9f0e
  {
    hide Scramble, ScrambleN;
    SeedZeroWords();
    OneRound();
    OneMore(0, 53);
    OneMore(0, 449);
    ScrambleSplits(0, 1, 52);
    ScrambleSplits(0, 1, 53);
    ScrambleSplits(0, 1, 449);
    SeedOneArithmetic();
  }

  lemma OneRound()
    ensures ScrambleN(0, 1) == 1
  {
    assert ScrambleN(0, 0) == 0;
  }

  lemma SeedOneArithmetic()
    ensures Scramble(0xf5e9_232d) == 0xe5a7_740a
    ensures Scramble(0x22ab_9641) == 0x1049_9f0e
  {}
}

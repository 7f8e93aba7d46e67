/** The first words of two seeds, computed from the seeding loop to the tempering. */
module FirstWords {
  import opened Words
  import opened BlockRecurrence
  import opened MersenneTwister
  import opened ScramblerRuns

  /** The first word of a seed is made of three of its state words. */
  lemma FirstWord(seed: bv32)
    ensures SeedStream(seed)(N)
         == Tempered(NextTerm(ScrambleN(seed, 449), ScrambleN(seed, 52), ScrambleN(seed, 53)))
  {
    hide ScrambleN, NextTerm, Term;
    var s := SeedState(seed);
    assert s[0] == ScrambleN(seed, 52) && s[1] == ScrambleN(seed, 53) && s[M] == ScrambleN(seed, 449);
    TermStep(NextTerm, s, N);
    TermBase(NextTerm, s, 0);
    TermBase(NextTerm, s, 1);
    TermBase(NextTerm, s, M);
  }

  /** Seed 0 starts with 0xe58df29d; the top bit of its oldest state word is clear. */
  lemma SeedZeroFirstWord()
    ensures SeedStream(0)(N) == 0xe58d_f29d
  {
    hide ScrambleN, NextTerm, Tempered;
    SeedZeroWords();
    FirstWord(0);
    SeedZeroTerm();
  }

  lemma SeedZeroTerm()
    ensures Tempered(NextTerm(0x22ab_9641, 0x4c57_63dc, 0xf5e9_232d)) == 0xe58d_f29d
  {}

  /** Seed 1 starts with 0x43f86031; the top bit of its oldest state word is set. */
  lemma SeedOneFirstWord()
    ensures SeedStream(1)(N) == 0x43f8_6031
  {
    hide ScrambleN, NextTerm, Tempered;
    SeedOneWords();
    FirstWord(1);
    SeedOneTerm();
  }

  lemma SeedOneTerm()
    ensures Tempered(NextTerm(0x1049_9f0e, 0xf5e9_232d, 0xe5a7_740a)) == 0x43f8_6031
  {}
}

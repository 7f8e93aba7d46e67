/** Shapes of index sequences that several components rely on. */
module Sequences {

  ghost predicate Distinct<T(!new)>(s: seq<T>) {
    forall i, j :: 0 <= i < j < |s| ==> s[i] != s[j]
  }

  ghost predicate Increasing(s: seq<int>) { forall i, j :: 0 <= i < j < |s| ==> s[i] < s[j] }

  /** All entries are indices below n. */
  ghost predicate InRange(s: seq<int>, n: nat) { forall i :: 0 <= i < |s| ==> 0 <= s[i] < n }
}

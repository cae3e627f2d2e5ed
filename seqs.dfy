/** Facts about sequences that the store and the reports rely on. */
module Seqs {

  /**
   * No element occurs twice (document ids in a collection). Stated from the end, so that
   * the verifier unfolds it only where a proof asks for it.
   */
  predicate Distinct<T(==)>(s: seq<T>) {
    s == [] || (s[|s| - 1] !in s[..|s| - 1] && Distinct(s[..|s| - 1]))
  }

  /** The pairwise reading of `Distinct`. */
  lemma {:induction false} DistinctPairwise<T>(s: seq<T>)
    requires Distinct(s)
    ensures forall i, j :: 0 <= i < j < |s| ==> s[i] != s[j]
  {
    if s != [] {
      var init := s[..|s| - 1];
      DistinctPairwise(init);
      forall i, j | 0 <= i < j < |s|
        ensures s[i] != s[j]
      {
        assert s[i] == init[i];
        if j < |s| - 1 {
          assert s[j] == init[j];
        }
      }
    }
  }

  /** The converse of `DistinctPairwise`. */
  lemma {:induction false} PairwiseDistinct<T>(s: seq<T>)
    requires forall i, j :: 0 <= i < j < |s| ==> s[i] != s[j]
    ensures Distinct(s)
  {
    if s != [] {
      var init := s[..|s| - 1];
      assert forall i, j :: 0 <= i < j < |init| ==> init[i] == s[i] && init[j] == s[j];
      PairwiseDistinct(init);
      assert forall i :: 0 <= i < |init| ==> init[i] == s[i];
    }
  }

  /** How many positions of `s` hold `x`. */
  function Occurrences<T(==)>(s: seq<T>, x: T): nat {
    if s == [] then 0
    else Occurrences(s[..|s| - 1], x) + (if s[|s| - 1] == x then 1 else 0)
  }

  lemma {:induction false} OccurrencesOfDistinct<T>(s: seq<T>, x: T)
    requires Distinct(s)
    ensures Occurrences(s, x) == if x in s then 1 else 0
  {
    if s != [] {
      var init := s[..|s| - 1];
      OccurrencesOfDistinct(init, x);
      assert x in s <==> x in init || s[|s| - 1] == x by {
        assert s == init + [s[|s| - 1]];
      }
    }
  }

  lemma {:induction false} DistinctPrefix<T>(s: seq<T>, n: nat)
    requires Distinct(s) && n <= |s|
    ensures Distinct(s[..n])
  {
    if n < |s| {
      assert s[..|s| - 1][..n] == s[..n];
      DistinctPrefix(s[..|s| - 1], n);
    } else {
      assert s[..n] == s;
    }
  }

  /** The element at position i of a distinct sequence does not occur before i. */
  lemma DistinctNotEarlier<T>(s: seq<T>, i: nat)
    requires Distinct(s) && i < |s|
    ensures s[i] !in s[..i]
  {
    DistinctPairwise(s);
    assert forall j :: 0 <= j < i ==> s[..i][j] != s[i];
  }

  /** Adding an element not yet present keeps a sequence distinct. */
  lemma DistinctAppend<T>(s: seq<T>, x: T)
    requires Distinct(s) && x !in s
    ensures Distinct(s + [x])
  {
    assert (s + [x])[..|s|] == s;
  }

  /** A prefix one longer is the prefix and the next element. */
  lemma TakeOneMore<T>(s: seq<T>, i: nat)
    requires i < |s|
    ensures s[..i + 1] == s[..i] + [s[i]]
  {
  }
}

/**
 * The word-list scramble as a function of its draws: for each draw j, in
 * order, the last slot is swapped with slot j.  This is not a uniform
 * shuffle, but it is always a permutation.
 */
module Scramble {

  predicate DrawsInRange(js: seq<int>, n: int)
  {
    forall i :: 0 <= i < |js| ==> 0 <= js[i] < n
  }

  /** Swap the last element with element j (a no-op when j is the last slot). */
  function SwapLast<T>(s: seq<T>, j: int): (r: seq<T>)
    requires 0 <= j < |s|
    ensures |r| == |s|
  {
    seq(|s|, i requires 0 <= i < |s| => if i == j then s[|s| - 1] else if i == |s| - 1 then s[j] else s[i])
  }

  /** One swap keeps every element, each as often as before. */
  lemma SwapLastPermutes<T>(s: seq<T>, j: int)
    requires 0 <= j < |s|
    ensures multiset(SwapLast(s, j)) == multiset(s)
  {
    var last := |s| - 1;
    var t := s[last := s[j]];
    assert SwapLast(s, j) == t[j := s[last]];
    assert multiset(t) == multiset(s) - multiset{s[last]} + multiset{s[j]};
    assert multiset(t[j := s[last]]) == multiset(t) - multiset{t[j]} + multiset{s[last]};
  }

  /** The list after the first n swaps, the draws taken in order. */
  function Scrambled<T>(s: seq<T>, js: seq<int>, n: nat): (r: seq<T>)
    requires n <= |js| && DrawsInRange(js, |s|)
    ensures |r| == |s|
  {
    if n == 0 then s else SwapLast(Scrambled(s, js, n - 1), js[n - 1])
  }

  /** One more draw keeps the words, each as often as before. */
  lemma ScrambledStep<T>(s: seq<T>, js: seq<int>, n: nat)
    requires 0 < n <= |js| && DrawsInRange(js, |s|)
    ensures multiset(Scrambled(s, js, n)) == multiset(Scrambled(s, js, n - 1))
  {
    SwapLastPermutes(Scrambled(s, js, n - 1), js[n - 1]);
  }

  /** Scrambling is a permutation: the same words, each as often as before. */
  lemma {:induction false} ScrambledPermutes<T>(s: seq<T>, js: seq<int>, n: nat)
    requires n <= |js| && DrawsInRange(js, |s|)
    ensures multiset(Scrambled(s, js, n)) == multiset(s)
  {
    if n > 0 {
      ScrambledPermutes(s, js, n - 1);
      ScrambledStep(s, js, n);
    }
  }
}

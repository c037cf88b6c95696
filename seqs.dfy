/** Small facts about sequences used across the crawler model. */
module Seqs {

  /** No element occurs twice. */
  ghost predicate Distinct<T>(s: seq<T>) {
    forall i, j :: 0 <= i < j < |s| ==> s[i] != s[j]
  }

  /** The set of elements of a sequence (Python's `set(s)`). */
  function Elems<T>(s: seq<T>): set<T> {
    set x | x in s
  }

  /** A sequence without repetitions has as many distinct elements as positions. */
  lemma {:induction false} DistinctElems<T>(s: seq<T>)
    requires Distinct(s)
    ensures |Elems(s)| == |s|
  {
    if s != [] {
      var t := s[..|s| - 1];
      var last := s[|s| - 1];
      DistinctElems(t);
      assert last !in Elems(t);
      assert Elems(s) == Elems(t) + {last} by {
        assert forall x :: x in s <==> x in t || x == last;
      }
    }
  }

  /** A sequence with fewer distinct elements than positions repeats some element. */
  lemma NotDistinctElems<T>(s: seq<T>)
    requires |Elems(s)| < |s|
    ensures !Distinct(s)
  {
    if Distinct(s) {
      DistinctElems(s);
    }
  }

  /** `xs` is obtained from `ys` by deleting elements, keeping the order of the rest. */
  predicate IsSubsequence<T(==)>(xs: seq<T>, ys: seq<T>)
    decreases |ys|
  {
    if xs == [] then true
    else if ys == [] then false
    else
      (xs[|xs| - 1] == ys[|ys| - 1] && IsSubsequence(xs[..|xs| - 1], ys[..|ys| - 1]))
      || IsSubsequence(xs, ys[..|ys| - 1])
  }

  /** Dropping the last element of the longer sequence keeps a subsequence, whatever that element is. */
  lemma SubsequenceDropLast<T>(xs: seq<T>, ys: seq<T>)
    requires ys != []
    requires IsSubsequence(xs, ys[..|ys| - 1])
    ensures IsSubsequence(xs, ys)
  {
  }

  /** Every element of a subsequence is an element of the sequence it was taken from. */
  lemma {:induction false} SubsequenceElems<T>(xs: seq<T>, ys: seq<T>)
    requires IsSubsequence(xs, ys)
    ensures |xs| <= |ys|
    ensures forall x :: x in xs ==> x in ys
    decreases |ys|
  {
    if xs != [] {
      var ys' := ys[..|ys| - 1];
      if xs[|xs| - 1] == ys[|ys| - 1] && IsSubsequence(xs[..|xs| - 1], ys') {
        SubsequenceElems(xs[..|xs| - 1], ys');
        assert xs == xs[..|xs| - 1] + [xs[|xs| - 1]];
        assert ys == ys' + [ys[|ys| - 1]];
      } else {
        SubsequenceElems(xs, ys');
        assert ys == ys' + [ys[|ys| - 1]];
      }
    }
  }
}

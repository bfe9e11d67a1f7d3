/** Generic facts about sequences: distinct elements and order-preserving subsequences. */
module Sequences {

  /** No element occurs twice (a Python list of host objects taken from a collection). */
  ghost predicate Distinct<T>(s: seq<T>) {
    forall i, j :: 0 <= i < j < |s| ==> s[i] != s[j]
  }

  /** `set(s)`: the elements of a sequence. */
  function Elements<T>(s: seq<T>): set<T> {
    set x | x in s
  }

  /** In a list without repeats, no element occurs before its own position. */
  lemma DistinctNotBefore<T>(s: seq<T>, i: int)
    requires Distinct(s) && 0 <= i < |s|
    ensures s[i] !in s[..i]
  {
    assert forall k :: 0 <= k < i ==> s[..i][k] == s[k] != s[i];
  }

  /** `a` is `b` with some elements dropped and the rest kept in order: the last element of
      `b` either supplies the last element of `a` or is dropped. */
  ghost predicate IsSubsequence<T>(a: seq<T>, b: seq<T>)
    decreases |b|
  {
    if b == [] then a == []
    else
      (a != [] && a[|a| - 1] == b[|b| - 1] && IsSubsequence(a[..|a| - 1], b[..|b| - 1]))
      || IsSubsequence(a, b[..|b| - 1])
  }

  /** Every element of a subsequence is an element of the whole. */
  lemma {:induction false} SubsequenceElements<T>(a: seq<T>, b: seq<T>)
    requires IsSubsequence(a, b)
    ensures forall x :: x in a ==> x in b
    decreases |b|
  {
    if b != [] {
      var b' := b[..|b| - 1];
      assert b == b' + [b[|b| - 1]];
      if a != [] && a[|a| - 1] == b[|b| - 1] && IsSubsequence(a[..|a| - 1], b') {
        SubsequenceElements(a[..|a| - 1], b');
        assert a == a[..|a| - 1] + [a[|a| - 1]];
      } else {
        SubsequenceElements(a, b');
      }
    }
  }

  /** A subsequence of a sequence without repetitions has none either. */
  lemma {:induction false} SubsequenceOfDistinct<T>(a: seq<T>, b: seq<T>)
    requires IsSubsequence(a, b) && Distinct(b)
    ensures Distinct(a)
    decreases |b|
  {
    if b != [] {
      var b' := b[..|b| - 1];
      assert Distinct(b');
      if a != [] && a[|a| - 1] == b[|b| - 1] && IsSubsequence(a[..|a| - 1], b') {
        var a' := a[..|a| - 1];
        SubsequenceOfDistinct(a', b');
        SubsequenceElements(a', b');
        assert b[|b| - 1] !in b';
        assert a == a' + [a[|a| - 1]];
      } else {
        SubsequenceOfDistinct(a, b');
      }
    }
  }

  /** Python's `list(s)` for a set: each element once, in an order the set leaves open. */
  method ListOf<T>(s: set<T>) returns (r: seq<T>)
    ensures Distinct(r)
    ensures forall x :: x in r <==> x in s
    ensures |r| == |s|
  {
    r := [];
    var rest := s;
    while rest != {}
      invariant rest <= s
      invariant Distinct(r)
      invariant forall x :: x in r <==> x in s && x !in rest
      invariant |r| + |rest| == |s|
      decreases |rest|
    {
      var x :| x in rest;
      r := r + [x];
      rest := rest - {x};
    }
  }
}

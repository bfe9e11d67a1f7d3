/** Python's ordering of `str` values (code point by code point) and `sorted` of a set of them. */
module Ordering {

  /** Python's `a < b` on strings: the first differing code point decides, and a proper
      prefix comes first. */
  predicate Less(a: string, b: string)
    decreases |a|
  {
    if a == [] then b != []
    else if b == [] then false
    else if a[0] != b[0] then a[0] < b[0]
    else Less(a[1..], b[1..])
  }

  lemma {:induction false} LessIrreflexive(a: string)
    ensures !Less(a, a)
    decreases |a|
  {
    if a != [] {
      LessIrreflexive(a[1..]);
    }
  }

  lemma {:induction false} LessTransitive(a: string, b: string, c: string)
    requires Less(a, b) && Less(b, c)
    ensures Less(a, c)
    decreases |a|
  {
    if a != [] && b != [] && c != [] && a[0] == b[0] == c[0] {
      LessTransitive(a[1..], b[1..], c[1..]);
    }
  }

  lemma {:induction false} LessTotal(a: string, b: string)
    requires a != b
    ensures Less(a, b) || Less(b, a)
    decreases |a|
  {
    if a != [] && b != [] && a[0] == b[0] {
      assert a == [a[0]] + a[1..] && b == [b[0]] + b[1..];
      LessTotal(a[1..], b[1..]);
    }
  }

  lemma LessAsymmetric(a: string, b: string)
    requires Less(a, b)
    ensures !Less(b, a)
  {
    if Less(b, a) {
      LessTransitive(a, b, a);
      LessIrreflexive(a);
    }
  }

  /** Strictly ascending, hence free of duplicates. */
  ghost predicate StrictlySorted(xs: seq<string>) {
    forall i, j :: 0 <= i < j < |xs| ==> Less(xs[i], xs[j])
  }

  /** `x` placed into an ascending sequence at its place; nothing happens when it is there. */
  function Insert(xs: seq<string>, x: string): (r: seq<string>)
    requires StrictlySorted(xs)
    ensures StrictlySorted(r)
    ensures forall y :: y in r <==> y in xs || y == x
    decreases |xs|
  {
    if xs == [] then [x]
    else if xs[0] == x then xs
    else if Less(x, xs[0]) then
      assert forall j :: 0 < j < |xs| ==> Less(x, xs[j]) by {
        forall j | 0 < j < |xs| ensures Less(x, xs[j]) { LessTransitive(x, xs[0], xs[j]); }
      }
      [x] + xs
    else
      LessTotal(x, xs[0]);
      var rest := Insert(xs[1..], x);
      assert forall y :: y in rest ==> Less(xs[0], y) by {
        forall y | y in rest ensures Less(xs[0], y) {
          if y != x {
            var j :| 0 <= j < |xs[1..]| && xs[1..][j] == y;
            assert xs[j + 1] == y;
          }
        }
      }
      [xs[0]] + rest
  }

  /** The elements of a strictly ascending sequence fix it completely. */
  lemma {:induction false} SortedUnique(xs: seq<string>, ys: seq<string>)
    requires StrictlySorted(xs) && StrictlySorted(ys)
    requires forall z :: z in xs <==> z in ys
    ensures xs == ys
    decreases |xs|
  {
    if xs != [] { assert xs[0] in ys; }
    if ys != [] { assert ys[0] in xs; }
    if xs != [] && ys != [] {
      // The head of each is the least element of both.
      if xs[0] != ys[0] {
        assert xs[0] in xs && ys[0] in ys;
        assert xs[0] in ys && ys[0] in xs;
        var i :| 0 <= i < |ys| && ys[i] == xs[0];
        var j :| 0 <= j < |xs| && xs[j] == ys[0];
        assert i > 0 && j > 0;
        assert Less(ys[0], xs[0]) && Less(xs[0], ys[0]);
        LessAsymmetric(ys[0], xs[0]);
      }
      forall z ensures z in xs[1..] <==> z in ys[1..] {
        if z in xs[1..] {
          var i :| 0 <= i < |xs[1..]| && xs[1..][i] == z;
          assert Less(xs[0], z);
          if z == ys[0] { LessIrreflexive(z); }
          assert z in ys && z != ys[0];
          var k :| 0 <= k < |ys| && ys[k] == z;
          assert k > 0;
          assert ys[1..][k - 1] == z;
        }
        if z in ys[1..] {
          var i :| 0 <= i < |ys[1..]| && ys[1..][i] == z;
          assert Less(ys[0], z);
          if z == xs[0] { LessIrreflexive(z); }
          assert z in xs && z != xs[0];
          var k :| 0 <= k < |xs| && xs[k] == z;
          assert k > 0;
          assert xs[1..][k - 1] == z;
        }
      }
      SortedUnique(xs[1..], ys[1..]);
      assert xs == [xs[0]] + xs[1..] && ys == [ys[0]] + ys[1..];
    }
  }

  /** Some strictly ascending sequence lists exactly the elements of `s`. */
  lemma {:induction false} SortedExists(s: set<string>)
    ensures exists xs :: StrictlySorted(xs) && forall z :: z in xs <==> z in s
    decreases |s|
  {
    if s == {} {
      assert StrictlySorted([]);
    } else {
      var x :| x in s;
      SortedExists(s - {x});
      var xs :| StrictlySorted(xs) && forall z :: z in xs <==> z in s - {x};
      var ys := Insert(xs, x);
      assert forall z :: z in ys <==> z in s;
    }
  }

  /** Python's `sorted(s)` for a set of strings: its one strictly ascending listing. */
  ghost function SortedOf(s: set<string>): (r: seq<string>)
    ensures StrictlySorted(r)
    ensures forall z :: z in r <==> z in s
  {
    SortedExists(s);
    var xs :| StrictlySorted(xs) && forall z :: z in xs <==> z in s;
    xs
  }

  /** Computes `sorted(s)` by inserting the elements one at a time. */
  method SortSet(s: set<string>) returns (r: seq<string>)
    ensures r == SortedOf(s)
  {
    r := [];
    var rest := s;
    while rest != {}
      invariant rest <= s
      invariant StrictlySorted(r)
      invariant forall z :: z in r <==> z in s - rest
      decreases |rest|
    {
      var x :| x in rest;
      r := Insert(r, x);
      rest := rest - {x};
    }
    SortedUnique(r, SortedOf(s));
  }
}

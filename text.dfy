/** Python `str` behaviour the tag code relies on: whitespace, `strip`, `split`, `startswith`,
    `endswith`, `in`, and the name character class `[a-zA-Z0-9_-]` shared by both regexes. */
module Text {

  /** `str.isspace()` for one character; the same set is what `\s` matches in a `str` regex. */
  predicate IsSpace(c: char) {
    ('\t' <= c <= '\r') || ('\U{1C}' <= c <= ' ') || c == '\U{85}' || c == '\U{A0}'
    || c == '\U{1680}' || ('\U{2000}' <= c <= '\U{200A}') || c == '\U{2028}' || c == '\U{2029}'
    || c == '\U{202F}' || c == '\U{205F}' || c == '\U{3000}'
  }

  /** The regex character class `[a-zA-Z0-9_-]` (ASCII only, case-sensitive). */
  predicate IsNameChar(c: char) {
    ('a' <= c <= 'z') || ('A' <= c <= 'Z') || ('0' <= c <= '9') || c == '_' || c == '-'
  }

  /** A well-formed tag name: one or more name characters. */
  predicate IsTagName(s: string) {
    |s| > 0 && forall i :: 0 <= i < |s| ==> IsNameChar(s[i])
  }

  ghost predicate AllWhitespace(s: string) {
    forall i :: 0 <= i < |s| ==> IsSpace(s[i])
  }

  predicate StartsWith(s: string, p: string) {
    |p| <= |s| && s[..|p|] == p
  }

  predicate EndsWith(s: string, p: string) {
    |p| <= |s| && s[|s| - |p|..] == p
  }

  /** `p` occurs in `s` starting at index `i`. */
  ghost predicate OccursAt(s: string, p: string, i: int) {
    0 <= i && i + |p| <= |s| && s[i..i + |p|] == p
  }

  /** Python's `p in s`, scanning the start positions left to right. */
  function Contains(s: string, p: string): bool
    decreases |s|
  {
    StartsWith(s, p) || (|s| > 0 && Contains(s[1..], p))
  }

  /** `Contains` finds exactly the occurrences `OccursAt` describes. */
  lemma {:induction false} ContainsIff(s: string, p: string)
    ensures Contains(s, p) <==> exists i :: OccursAt(s, p, i)
    decreases |s|
  {
    if StartsWith(s, p) {
      assert OccursAt(s, p, 0);
    } else if |s| > 0 {
      ContainsIff(s[1..], p);
      if Contains(s[1..], p) {
        var i :| OccursAt(s[1..], p, i);
        assert s[1..][i..i + |p|] == s[i + 1..i + 1 + |p|];
        assert OccursAt(s, p, i + 1);
      }
      if i :| OccursAt(s, p, i) {
        assert i != 0;
        assert s[1..][i - 1..i - 1 + |p|] == s[i..i + |p|];
        assert OccursAt(s[1..], p, i - 1);
      }
    } else {
      assert |p| > 0;
    }
  }

  /** Leading whitespace removed (`str.lstrip()`). */
  function TrimLeft(s: string): (r: string)
    ensures |r| <= |s| && r == s[|s| - |r|..]
    ensures r == [] || !IsSpace(r[0])
    ensures forall i :: 0 <= i < |s| - |r| ==> IsSpace(s[i])
    decreases |s|
  {
    if |s| > 0 && IsSpace(s[0]) then TrimLeft(s[1..]) else s
  }

  /** Trailing whitespace removed (`str.rstrip()`). */
  function TrimRight(s: string): (r: string)
    ensures |r| <= |s| && r == s[..|r|]
    ensures r == [] || !IsSpace(r[|r| - 1])
    ensures forall i :: |r| <= i < |s| ==> IsSpace(s[i])
    decreases |s|
  {
    if |s| > 0 && IsSpace(s[|s| - 1]) then TrimRight(s[..|s| - 1]) else s
  }

  /** `str.strip()`: the slice of `s` left once whitespace is removed from both ends. */
  function Strip(s: string): (r: string)
    ensures r == [] <==> AllWhitespace(s)
    ensures r != [] ==> !IsSpace(r[0]) && !IsSpace(r[|r| - 1])
    ensures (s == [] || (!IsSpace(s[0]) && !IsSpace(s[|s| - 1]))) ==> r == s
  {
    TrimRight(TrimLeft(s))
  }

  /** Stripping twice is stripping once. */
  lemma StripIdempotent(s: string)
    ensures Strip(Strip(s)) == Strip(s)
  {
  }

  /** Whitespace in front of a string that does not itself start with whitespace is exactly
      what `TrimLeft` removes. */
  lemma {:induction false} TrimLeftPrefix(ws: string, x: string)
    requires AllWhitespace(ws)
    requires x == [] || !IsSpace(x[0])
    ensures TrimLeft(ws + x) == x
    decreases |ws|
  {
    if ws != [] {
      assert (ws + x)[1..] == ws[1..] + x;
      TrimLeftPrefix(ws[1..], x);
    } else {
      assert ws + x == x;
    }
  }

  /** Trailing whitespace of `a + b` lies in `b` when `a` does not end with whitespace. */
  lemma {:induction false} TrimRightAppend(a: string, b: string)
    requires a != [] && !IsSpace(a[|a| - 1])
    ensures TrimRight(a + b) == a + TrimRight(b)
    decreases |b|
  {
    if b == [] {
      assert a + b == a;
    } else if IsSpace(b[|b| - 1]) {
      assert (a + b)[..|a + b| - 1] == a + b[..|b| - 1];
      TrimRightAppend(a, b[..|b| - 1]);
    }
  }

  /** Nothing is trimmed from a string that does not end in whitespace. */
  lemma TrimRightKeeps(s: string)
    requires s == [] || !IsSpace(s[|s| - 1])
    ensures TrimRight(s) == s
  {
  }

  /** Python's `s.split(sep)` for a non-empty separator: cut at each leftmost occurrence
      of `sep`, scanning left to right without overlaps. */
  function Split(s: string, sep: string): (r: seq<string>)
    requires sep != []
    ensures |r| >= 1
    ensures StartsWith(s, r[0])
    decreases |s|
  {
    if |s| < |sep| then [s]
    else if s[..|sep|] == sep then [[]] + Split(s[|sep|..], sep)
    else
      var rest := Split(s[1..], sep);
      [[s[0]] + rest[0]] + rest[1..]
  }

  /** Python's `sep.join(pieces)`. */
  function Join(pieces: seq<string>, sep: string): string
    decreases |pieces|
  {
    if |pieces| == 0 then []
    else if |pieces| == 1 then pieces[0]
    else pieces[0] + sep + Join(pieces[1..], sep)
  }

  /** Joining the pieces of a split with the same separator gives back the string. */
  lemma {:induction false} JoinSplit(s: string, sep: string)
    requires sep != []
    ensures Join(Split(s, sep), sep) == s
    decreases |s|
  {
    if |s| < |sep| {
    } else if s[..|sep|] == sep {
      JoinSplit(s[|sep|..], sep);
      JoinSplitAtSep(s, sep);
    } else {
      JoinSplit(s[1..], sep);
      JoinSplitAtChar(s, sep);
    }
  }

  /** Helper: the step of `JoinSplit` where `s` starts with the separator. */
  lemma JoinSplitAtSep(s: string, sep: string)
    requires sep != [] && |sep| <= |s| && s[..|sep|] == sep
    requires Join(Split(s[|sep|..], sep), sep) == s[|sep|..]
    ensures Join(Split(s, sep), sep) == s
  {
    var rest := Split(s[|sep|..], sep);
    var ps := Split(s, sep);
    assert ps == [[]] + rest;
    assert |ps| >= 2 && ps[0] == [] && ps[1..] == rest;
    assert Join(ps, sep) == [] + sep + s[|sep|..];
    assert [] + sep == sep;
    SliceJoin(s, |sep|);
    assert s == sep + s[|sep|..];
  }

  /** Helper: a string is its prefix followed by the rest. */
  lemma SliceJoin(s: string, n: int)
    requires 0 <= n <= |s|
    ensures s == s[..n] + s[n..]
  {
  }

  /** Helper: the step of `JoinSplit` where the first character of `s` joins the first piece. */
  lemma JoinSplitAtChar(s: string, sep: string)
    requires sep != [] && |sep| <= |s| && s[..|sep|] != sep
    requires Join(Split(s[1..], sep), sep) == s[1..]
    ensures Join(Split(s, sep), sep) == s
  {
    var rest := Split(s[1..], sep);
    assert Split(s, sep) == [[s[0]] + rest[0]] + rest[1..];
    JoinFront(s[0], rest, sep);
    SliceJoin(s, 1);
    assert s[..1] == [s[0]];
  }

  /** Prepending a character to the first piece prepends it to the joined string. */
  lemma JoinFront(c: char, pieces: seq<string>, sep: string)
    requires |pieces| >= 1
    ensures Join([[c] + pieces[0]] + pieces[1..], sep) == [c] + Join(pieces, sep)
  {
    var ps := [[c] + pieces[0]] + pieces[1..];
    assert ps[1..] == pieces[1..];
  }

  /** Joining two pieces puts one separator between them. */
  lemma JoinTwo(a: string, b: string, sep: string)
    ensures Join([a, b], sep) == a + sep + b
  {
    assert [a, b][1..] == [b];
  }

  /** A join ends with its last piece. */
  lemma {:induction false} JoinLast(pieces: seq<string>, sep: string) returns (pre: string)
    requires |pieces| >= 1
    ensures Join(pieces, sep) == pre + pieces[|pieces| - 1]
    decreases |pieces|
  {
    if |pieces| == 1 {
      pre := [];
    } else {
      var p := JoinLast(pieces[1..], sep);
      pre := pieces[0] + sep + p;
    }
  }

  /** No piece of a split contains the separator. */
  lemma {:induction false} SplitPiecesFree(s: string, sep: string)
    requires sep != []
    ensures forall i :: 0 <= i < |Split(s, sep)| ==> !Contains(Split(s, sep)[i], sep)
    decreases |s|
  {
    var r := Split(s, sep);
    if |s| < |sep| {
      NoRoomNoOccurrence(s, sep);
    } else if s[..|sep|] == sep {
      SplitPiecesFree(s[|sep|..], sep);
      assert !Contains([], sep) by { assert !StartsWith([], sep); }
      forall i | 0 <= i < |r| ensures !Contains(r[i], sep) {
        if i > 0 {
          assert r[i] == Split(s[|sep|..], sep)[i - 1];
        }
      }
    } else {
      var rest := Split(s[1..], sep);
      SplitPiecesFree(s[1..], sep);
      var first := [s[0]] + rest[0];
      assert first == s[..|first|];
      assert !StartsWith(first, sep);
      assert first[1..] == rest[0];
      assert !Contains(first, sep);
      forall i | 0 <= i < |r| ensures !Contains(r[i], sep) {
        if i > 0 {
          assert r[i] == rest[i];
        }
      }
    }
  }

  /** A string shorter than `p` does not contain it. */
  lemma {:induction false} NoRoomNoOccurrence(s: string, p: string)
    requires |s| < |p|
    ensures !Contains(s, p)
    decreases |s|
  {
    if |s| > 0 {
      NoRoomNoOccurrence(s[1..], p);
    }
  }

  /** A piece with no occurrence of the separator that could start inside it, followed by the
      separator, is split off as the first piece. */
  lemma {:induction false} SplitFirst(p: string, sep: string, t: string)
    requires sep != []
    requires forall k :: 0 <= k < |p| ==> !OccursAt(p + sep, sep, k)
    ensures Split(p + sep + t, sep) == [p] + Split(t, sep)
    decreases |p|
  {
    var s := p + sep + t;
    if p == [] {
      assert s == sep + t;
      assert s[..|sep|] == sep;
      assert s[|sep|..] == t;
    } else {
      assert s[..|sep|] == (p + sep)[0..|sep|];
      assert !OccursAt(p + sep, sep, 0);
      assert s[..|sep|] != sep;
      assert s[1..] == p[1..] + sep + t;
      forall k | 0 <= k < |p[1..]| ensures !OccursAt(p[1..] + sep, sep, k) {
        assert !OccursAt(p + sep, sep, k + 1);
        assert (p[1..] + sep)[k..k + |sep|] == (p + sep)[k + 1..k + 1 + |sep|];
      }
      SplitFirst(p[1..], sep, t);
      assert [s[0]] + p[1..] == p;
    }
  }

  /** `p` has no occurrence of `sep` anywhere. */
  ghost predicate Free(p: string, sep: string) {
    forall k :: !OccursAt(p, sep, k)
  }

  /** A string with no occurrence of the separator splits into itself alone. */
  lemma {:induction false} SplitWhole(p: string, sep: string)
    requires sep != []
    requires Free(p, sep)
    ensures Split(p, sep) == [p]
    decreases |p|
  {
    if |p| >= |sep| {
      assert !OccursAt(p, sep, 0);
      forall k ensures !OccursAt(p[1..], sep, k) {
        if OccursAt(p[1..], sep, k) {
          assert p[1..][k..k + |sep|] == p[k + 1..k + 1 + |sep|];
          assert OccursAt(p, sep, k + 1);
        }
      }
      SplitWhole(p[1..], sep);
      assert [p[0]] + p[1..] == p;
    }
  }

  /** Splitting a join gives back the pieces, when no separator can be found inside a piece. */
  lemma {:induction false} SplitJoin(pieces: seq<string>, sep: string)
    requires sep != [] && |pieces| >= 1
    requires forall i, k :: 0 <= i < |pieces| - 1 && 0 <= k < |pieces[i]| ==> !OccursAt(pieces[i] + sep, sep, k)
    requires Free(pieces[|pieces| - 1], sep)
    ensures Split(Join(pieces, sep), sep) == pieces
    decreases |pieces|
  {
    if |pieces| == 1 {
      SplitWhole(pieces[0], sep);
    } else {
      var tail := pieces[1..];
      assert Join(pieces, sep) == pieces[0] + sep + Join(tail, sep);
      SplitFirst(pieces[0], sep, Join(tail, sep));
      forall i, k | 0 <= i < |tail| - 1 && 0 <= k < |tail[i]| ensures !OccursAt(tail[i] + sep, sep, k) {
        assert tail[i] == pieces[i + 1];
      }
      assert tail[|tail| - 1] == pieces[|pieces| - 1];
      SplitJoin(tail, sep);
      assert pieces == [pieces[0]] + tail;
    }
  }

  /** An occurrence inside an occurrence is an occurrence in the outer string. */
  lemma OccursAtCompose(s: string, t: string, a: int, p: string, i: int)
    requires OccursAt(s, t, a) && OccursAt(t, p, i)
    ensures OccursAt(s, p, a + i)
  {
    assert t == s[a..a + |t|];
    forall k | 0 <= k < |p| ensures s[a + i..a + i + |p|][k] == p[k] {
      assert p[k] == t[i + k] == s[a + i + k];
    }
  }

  /** Every piece of a split is a slice of the string that was split, starting at `a`. */
  lemma {:induction false} SplitPieceOccurs(s: string, sep: string, i: int) returns (a: int)
    requires sep != [] && 0 <= i < |Split(s, sep)|
    ensures OccursAt(s, Split(s, sep)[i], a)
    decreases |s|
  {
    if i == 0 || |s| < |sep| {
      a := 0;
    } else if s[..|sep|] == sep {
      var b := SplitPieceOccurs(s[|sep|..], sep, i - 1);
      a := SplitPieceAfterSep(s, sep, i, b);
    } else {
      var b := SplitPieceOccurs(s[1..], sep, i);
      a := SplitPieceAfterChar(s, sep, i, b);
    }
  }

  /** Helper: past a leading separator, piece `i` is piece `i - 1` of the rest. */
  lemma SplitPieceAfterSep(s: string, sep: string, i: int, b: int) returns (a: int)
    requires sep != [] && |sep| <= |s| && s[..|sep|] == sep && 0 < i < |Split(s, sep)|
    requires OccursAt(s[|sep|..], Split(s[|sep|..], sep)[i - 1], b)
    ensures OccursAt(s, Split(s, sep)[i], a)
  {
    var t := s[|sep|..];
    assert Split(s, sep)[i] == Split(t, sep)[i - 1];
    assert OccursAt(s, t, |sep|);
    OccursAtCompose(s, t, |sep|, Split(t, sep)[i - 1], b);
    a := |sep| + b;
  }

  /** Helper: past a first character that starts no separator, piece `i > 0` is piece `i`
      of the rest. */
  lemma SplitPieceAfterChar(s: string, sep: string, i: int, b: int) returns (a: int)
    requires sep != [] && |sep| <= |s| && s[..|sep|] != sep && 0 < i < |Split(s, sep)|
    requires OccursAt(s[1..], Split(s[1..], sep)[i], b)
    ensures OccursAt(s, Split(s, sep)[i], a)
  {
    var t := s[1..];
    assert Split(s, sep)[i] == Split(t, sep)[i];
    assert OccursAt(s, t, 1);
    OccursAtCompose(s, t, 1, Split(t, sep)[i], b);
    a := 1 + b;
  }

  /** The stripped string is a slice of the original. */
  lemma StripOccurs(s: string)
    ensures OccursAt(s, Strip(s), |s| - |TrimLeft(s)|)
  {
    PrefixOfSuffix(s, TrimLeft(s), TrimRight(TrimLeft(s)));
  }

  /** Where the stripped string starts in the original. */
  lemma StripStart(s: string) returns (a: int)
    ensures OccursAt(s, Strip(s), a)
  {
    StripOccurs(s);
    a := |s| - |TrimLeft(s)|;
  }

  /** Helper: a prefix `r` of a suffix `l` of `s` occurs in `s` where `l` starts. */
  lemma PrefixOfSuffix(s: string, l: string, r: string)
    requires |l| <= |s| && l == s[|s| - |l|..]
    requires |r| <= |l| && r == l[..|r|]
    ensures OccursAt(s, r, |s| - |l|)
  {
    assert s[|s| - |l|..][..|r|] == s[|s| - |l|..|s| - |l| + |r|];
  }
}

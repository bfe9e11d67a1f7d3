/** Queries written in canonical form, `tag:<name>` and `NOT tag:<name>` literals joined by
    ` AND ` into clauses and the clauses joined by ` OR `, mean exactly the disjunctive normal
    form they spell: OR over AND over literals, with AND binding tighter. */
module CanonicalQueries {
  import opened Text
  import opened QueryParser

  /** One literal of a query: a tag that must be present or one that must be absent. */
  datatype Literal = Has(name: string) | Lacks(name: string)

  /** A query in disjunctive normal form: a list of clauses, each a list of literals. */
  type Dnf = seq<seq<Literal>>

  /** Every clause has a literal, there is a clause, and every name is a tag name. */
  ghost predicate WellFormed(d: Dnf) {
    |d| >= 1 &&
    forall i :: 0 <= i < |d| ==> |d[i]| >= 1 && forall j :: 0 <= j < |d[i]| ==> IsTagName(d[i][j].name)
  }

  ghost predicate LiteralHolds(l: Literal, tags: set<string>) {
    match l
    case Has(name) => name in tags
    case Lacks(name) => name !in tags
  }

  ghost predicate ClauseSatisfied(c: seq<Literal>, tags: set<string>) {
    forall j :: 0 <= j < |c| ==> LiteralHolds(c[j], tags)
  }

  /** The reference meaning of a DNF: some clause has every literal true. */
  ghost predicate Satisfies(d: Dnf, tags: set<string>) {
    exists i :: 0 <= i < |d| && ClauseSatisfied(d[i], tags)
  }

  // ----- Rendering -----

  function LiteralText(l: Literal): string {
    match l
    case Has(name) => "tag:" + name
    case Lacks(name) => "NOT tag:" + name
  }

  function LiteralTexts(c: seq<Literal>): (r: seq<string>)
    ensures |r| == |c|
    ensures forall j :: 0 <= j < |c| ==> r[j] == LiteralText(c[j])
    decreases |c|
  {
    if c == [] then [] else [LiteralText(c[0])] + LiteralTexts(c[1..])
  }

  function ClauseText(c: seq<Literal>): string {
    Join(LiteralTexts(c), " AND ")
  }

  function ClauseTexts(d: Dnf): (r: seq<string>)
    ensures |r| == |d|
    ensures forall i :: 0 <= i < |d| ==> r[i] == ClauseText(d[i])
    decreases |d|
  {
    if d == [] then [] else [ClauseText(d[0])] + ClauseTexts(d[1..])
  }

  /** The canonical text of a DNF query. */
  function QueryText(d: Dnf): string {
    Join(ClauseTexts(d), " OR ")
  }

  /** The term the evaluator should read each literal as. */
  function LiteralTerm(l: Literal): Term {
    match l
    case Has(name) => Present(name)
    case Lacks(name) => Absent(name)
  }

  function ClauseTerms(c: seq<Literal>): (r: seq<Term>)
    ensures |r| == |c|
    ensures forall j :: 0 <= j < |c| ==> r[j] == LiteralTerm(c[j])
    decreases |c|
  {
    if c == [] then [] else [LiteralTerm(c[0])] + ClauseTerms(c[1..])
  }

  function DnfTerms(d: Dnf): (r: seq<seq<Term>>)
    ensures |r| == |d|
    ensures forall i :: 0 <= i < |d| ==> r[i] == ClauseTerms(d[i])
    decreases |d|
  {
    if d == [] then [] else [ClauseTerms(d[0])] + DnfTerms(d[1..])
  }

  // ----- Where the separators can occur -----

  /** Every space in `s` is followed, inside `s`, by a character other than `c`. */
  ghost predicate SpaceGuarded(s: string, c: char) {
    forall k :: 0 <= k < |s| && s[k] == ' ' ==> k + 1 < |s| && s[k + 1] != c
  }

  /** A separator made of a space and `c` cannot be found in a guarded piece, nor straddle
      its end. */
  lemma GuardedFree(p: string, sep: string, c: char)
    requires |sep| >= 2 && sep[0] == ' ' && sep[1] == c
    requires SpaceGuarded(p, c)
    ensures forall k :: 0 <= k < |p| ==> !OccursAt(p + sep, sep, k)
    ensures Free(p, sep)
  {
    var s := p + sep;
    forall k | 0 <= k < |p| ensures !OccursAt(s, sep, k) {
      if k + |sep| <= |s| {
        assert s[k..k + |sep|][0] == p[k];
        if p[k] == ' ' {
          assert s[k..k + |sep|][1] == p[k + 1];
        }
      }
    }
    forall k ensures !OccursAt(p, sep, k) {
      if 0 <= k && k + |sep| <= |p| {
        assert p[k..k + |sep|][0] == p[k];
        assert p[k..k + |sep|][1] == p[k + 1];
      }
    }
  }

  lemma GuardedConcat(a: string, b: string, c: char)
    requires SpaceGuarded(a, c) && SpaceGuarded(b, c)
    ensures SpaceGuarded(a + b, c)
  {
    var s := a + b;
    forall k | 0 <= k < |s| && s[k] == ' ' ensures k + 1 < |s| && s[k + 1] != c {
      if k < |a| {
        assert s[k] == a[k];
        assert s[k + 1] == a[k + 1];
      } else {
        assert s[k] == b[k - |a|];
        assert s[k + 1] == b[k - |a| + 1];
      }
    }
  }

  /** A literal text starts with `t` or `N`, ends with a name character, and its one space
      is followed by `t`. */
  lemma LiteralTextShape(l: Literal)
    requires IsTagName(l.name)
    ensures var s := LiteralText(l); s != [] && (s[0] == 't' || s[0] == 'N') && IsNameChar(s[|s| - 1])
    ensures SpaceGuarded(LiteralText(l), 'A') && SpaceGuarded(LiteralText(l), 'O')
  {
    var s := LiteralText(l);
    assert s[|s| - 1] == l.name[|l.name| - 1];
    match l
    case Has(name) =>
      forall k | 0 <= k < |s| ensures s[k] != ' ' {
        if k >= 4 {
          assert s[k] == name[k - 4];
        }
      }
    case Lacks(name) =>
      forall k | 0 <= k < |s| && k != 3 ensures s[k] != ' ' {
        if k >= 8 {
          assert s[k] == name[k - 8];
        }
      }
  }

  /** Helper: ` AND ` in front of a guarded text that does not start with `O` keeps it
      guarded against ` OR `. */
  lemma AndPrefixGuarded(t: string)
    requires t != [] && t[0] != 'O' && SpaceGuarded(t, 'O')
    ensures SpaceGuarded(" AND " + t, 'O')
  {
    var s := " AND " + t;
    forall k | 0 <= k < |s| && s[k] == ' ' ensures k + 1 < |s| && s[k + 1] != 'O' {
      if k >= 5 {
        assert s[k] == t[k - 5];
        assert s[k + 1] == t[k - 4];
      }
    }
  }

  /** Helper: the literal texts of a clause past the first are those of its tail. */
  lemma LiteralTextsTail(c: seq<Literal>)
    requires |c| >= 1
    ensures LiteralTexts(c)[1..] == LiteralTexts(c[1..])
  {
  }

  /** A clause text starts like a literal, ends with a name character, and ` OR ` can only
      be found where it is put between clauses. */
  lemma {:induction false} ClauseTextShape(c: seq<Literal>)
    requires |c| >= 1 && forall j :: 0 <= j < |c| ==> IsTagName(c[j].name)
    ensures var s := ClauseText(c); s != [] && (s[0] == 't' || s[0] == 'N') && IsNameChar(s[|s| - 1])
    ensures SpaceGuarded(ClauseText(c), 'O')
    decreases |c|
  {
    LiteralTextShape(c[0]);
    if |c| > 1 {
      var a := LiteralText(c[0]);
      var rest := ClauseText(c[1..]);
      ClauseTextShape(c[1..]);
      LiteralTextsTail(c);
      assert ClauseText(c) == a + (" AND " + rest);
      AndPrefixGuarded(rest);
      GuardedConcat(a, " AND " + rest, 'O');
    }
  }

  /** Neither `t`, `N` nor a name character is whitespace, so stripping the text changes
      nothing. */
  lemma StripCanonical(s: string)
    requires s != [] && (s[0] == 't' || s[0] == 'N') && IsNameChar(s[|s| - 1])
    ensures Strip(s) == s
  {
  }

  /** The evaluator reads each literal text back as the literal's term. */
  lemma LiteralParses(l: Literal)
    requires IsTagName(l.name)
    ensures ParseTerm(LiteralText(l)) == LiteralTerm(l)
  {
    var s := LiteralText(l);
    LiteralTextShape(l);
    StripCanonical(s);
    match l
    case Has(name) =>
      assert s == "tag:" + name + [];
      PositiveTerm(s, name, []);
    case Lacks(name) =>
      assert s == "NOT" + " " + "tag:" + name + [];
      NegativeTerm(s, " ", name, []);
  }

  /** Cutting a clause text at ` AND ` gives back its literal texts. */
  lemma ClauseSplits(c: seq<Literal>)
    requires |c| >= 1 && forall j :: 0 <= j < |c| ==> IsTagName(c[j].name)
    ensures Split(ClauseText(c), " AND ") == LiteralTexts(c)
  {
    var ps := LiteralTexts(c);
    forall i | 0 <= i < |ps|
      ensures (forall k :: 0 <= k < |ps[i]| ==> !OccursAt(ps[i] + " AND ", " AND ", k)) && Free(ps[i], " AND ")
    {
      PieceAndFree(ps[i], c[i]);
    }
    SplitJoin(ps, " AND ");
  }

  /** Helper: `LiteralAndFree` for a piece known only to be the literal's text. */
  lemma PieceAndFree(p: string, l: Literal)
    requires IsTagName(l.name) && p == LiteralText(l)
    ensures forall k :: 0 <= k < |p| ==> !OccursAt(p + " AND ", " AND ", k)
    ensures Free(p, " AND ")
  {
    LiteralAndFree(l);
  }

  /** Helper: ` AND ` occurs neither inside a literal's text nor across its end. */
  lemma LiteralAndFree(l: Literal)
    requires IsTagName(l.name)
    ensures forall k :: 0 <= k < |LiteralText(l)| ==> !OccursAt(LiteralText(l) + " AND ", " AND ", k)
    ensures Free(LiteralText(l), " AND ")
  {
    LiteralTextShape(l);
    GuardedFree(LiteralText(l), " AND ", 'A');
  }

  /** The evaluator reads a clause text, stripped, back as the clause's terms. */
  lemma ClauseParses(c: seq<Literal>)
    requires |c| >= 1 && forall j :: 0 <= j < |c| ==> IsTagName(c[j].name)
    ensures ParseClause(Strip(ClauseText(c))) == ClauseTerms(c)
  {
    ClauseTextStripped(c);
    ClauseTextParses(c);
    StrippedClauseParses(c);
  }

  /** Helper: stripping leaves a clause text alone. */
  lemma ClauseTextStripped(c: seq<Literal>)
    requires |c| >= 1 && forall j :: 0 <= j < |c| ==> IsTagName(c[j].name)
    ensures Strip(ClauseText(c)) == ClauseText(c)
  {
    ClauseTextShape(c);
    StripCanonical(ClauseText(c));
  }

  /** Helper: the unstripped clause text is read back as the clause's terms. */
  lemma ClauseTextParses(c: seq<Literal>)
    requires |c| >= 1 && forall j :: 0 <= j < |c| ==> IsTagName(c[j].name)
    ensures ParseClause(ClauseText(c)) == ClauseTerms(c)
  {
    ClauseSplits(c);
    LiteralTextsParse(c);
  }

  /** Helper: the two facts above combined. */
  lemma StrippedClauseParses(c: seq<Literal>)
    requires Strip(ClauseText(c)) == ClauseText(c)
    requires ParseClause(ClauseText(c)) == ClauseTerms(c)
    ensures ParseClause(Strip(ClauseText(c))) == ClauseTerms(c)
  {
  }

  /** Helper: the literal texts of a clause are read back as its terms. */
  lemma LiteralTextsParse(c: seq<Literal>)
    requires forall j :: 0 <= j < |c| ==> IsTagName(c[j].name)
    ensures ParseTerms(LiteralTexts(c)) == ClauseTerms(c)
  {
    var ts := ParseTerms(LiteralTexts(c));
    forall j | 0 <= j < |c| ensures ts[j] == LiteralTerm(c[j]) {
      ParseTermsAt(LiteralTexts(c), j);
      LiteralParses(c[j]);
    }
  }

  /** Cutting a canonical query at ` OR ` gives back its clause texts. */
  lemma QuerySplits(d: Dnf)
    requires WellFormed(d)
    ensures Split(QueryText(d), " OR ") == ClauseTexts(d)
  {
    var ps := ClauseTexts(d);
    forall i | 0 <= i < |ps|
      ensures (forall k :: 0 <= k < |ps[i]| ==> !OccursAt(ps[i] + " OR ", " OR ", k)) && Free(ps[i], " OR ")
    {
      ClauseTextShape(d[i]);
      GuardedFree(ps[i], " OR ", 'O');
    }
    SplitJoin(ps, " OR ");
  }

  /** The evaluator parses a canonical query into exactly the terms of its DNF. */
  lemma QueryParses(d: Dnf)
    requires WellFormed(d)
    ensures ParseQuery(QueryText(d)) == DnfTerms(d)
  {
    QuerySplits(d);
    var cs := ParseQuery(QueryText(d));
    forall i | 0 <= i < |d| ensures cs[i] == ClauseTerms(d[i]) {
      ParseClausesAt(ClauseTexts(d), i);
      ClauseParses(d[i]);
    }
  }

  // ----- Meaning -----

  /** A canonical query starts with a clause text, so it is not blank. */
  lemma QueryTextNotBlank(d: Dnf)
    requires WellFormed(d)
    ensures !AllWhitespace(QueryText(d))
  {
    var ps := ClauseTexts(d);
    ClauseTextShape(d[0]);
    assert QueryText(d)[0] == ps[0][0];
  }

  /** Reading the literals as terms preserves their truth. */
  lemma DnfTermsHold(d: Dnf, tags: set<string>)
    ensures SomeClauseHolds(DnfTerms(d), tags) <==> Satisfies(d, tags)
  {
    var cs := DnfTerms(d);
    forall i | 0 <= i < |d| ensures AllTermsHold(cs[i], tags) <==> ClauseSatisfied(d[i], tags) {
      var c := d[i];
      assert forall j :: 0 <= j < |c| ==> (TermHolds(cs[i][j], tags) <==> LiteralHolds(c[j], tags));
    }
    if Satisfies(d, tags) {
      var i :| 0 <= i < |d| && ClauseSatisfied(d[i], tags);
      assert AllTermsHold(cs[i], tags);
    }
    if SomeClauseHolds(cs, tags) {
      var i :| 0 <= i < |cs| && AllTermsHold(cs[i], tags);
      assert ClauseSatisfied(d[i], tags);
    }
  }

  /** The evaluator gives a canonical query exactly the meaning of the DNF it spells: OR of
      the clauses, AND of the literals within each, NOT on a single literal. */
  lemma QueryTextMeaning(d: Dnf, tags: set<string>)
    requires WellFormed(d)
    ensures QueryHolds(QueryText(d), tags) <==> Satisfies(d, tags)
  {
    QueryParses(d);
    QueryHoldsIff(QueryText(d), tags);
    QueryTextNotBlank(d);
    DnfTermsHold(d, tags);
  }

  // ----- Validity -----

  /** The name of the last literal of the last clause. */
  function LastName(d: Dnf): string
    requires |d| >= 1 && |d[|d| - 1]| >= 1
  {
    var c := d[|d| - 1];
    c[|c| - 1].name
  }

  /** A canonical query ends with `tag:` and the last name. */
  lemma QueryTextSuffix(d: Dnf) returns (pre: string)
    requires WellFormed(d)
    ensures QueryText(d) == pre + ("tag:" + LastName(d))
  {
    var c := d[|d| - 1];
    var l := c[|c| - 1];
    var p1 := QueryTextLast(d);
    var p2 := ClauseTextLast(c);
    var p3 := LiteralTextLast(l);
    pre := p1 + p2 + p3;
    Regroup3(QueryText(d), ClauseText(c), LiteralText(l), p1, p2, p3, "tag:" + l.name);
  }

  /** Helper: a canonical query ends with its last clause text. */
  lemma QueryTextLast(d: Dnf) returns (pre: string)
    requires |d| >= 1
    ensures QueryText(d) == pre + ClauseText(d[|d| - 1])
  {
    var ps := ClauseTexts(d);
    pre := JoinLast(ps, " OR ");
    assert ps[|ps| - 1] == ClauseText(d[|d| - 1]);
  }

  /** Helper: a clause text ends with its last literal text. */
  lemma ClauseTextLast(c: seq<Literal>) returns (pre: string)
    requires |c| >= 1
    ensures ClauseText(c) == pre + LiteralText(c[|c| - 1])
  {
    var ps := LiteralTexts(c);
    pre := JoinLast(ps, " AND ");
    LastLiteralText(ps, c);
  }

  /** Helper: the last literal text is the text of the last literal. */
  lemma LastLiteralText(ps: seq<string>, c: seq<Literal>)
    requires |c| >= 1 && ps == LiteralTexts(c)
    ensures ps[|ps| - 1] == LiteralText(c[|c| - 1])
  {
  }

  /** Helper: a literal text ends with `tag:` and its name. */
  lemma LiteralTextLast(l: Literal) returns (pre: string)
    ensures LiteralText(l) == pre + ("tag:" + l.name)
  {
    pre := if l.Has? then [] else "NOT ";
  }

  /** Helper: three nested suffix facts make one. */
  lemma Regroup3(x: string, y: string, z: string, p1: string, p2: string, p3: string, u: string)
    requires x == p1 + y && y == p2 + z && z == p3 + u
    ensures x == p1 + p2 + p3 + u
  {
  }

  /** What ending in `tag:<name>` settles for the end-of-query checks: no trailing
      operator, a trailing `NOT` only as the end of the name itself, a tag-name match, and
      no trailing whitespace. */
  lemma TagSuffixFacts(pre: string, name: string)
    requires IsTagName(name)
    ensures var q := pre + ("tag:" + name);
      !EndsWith(q, " AND") && !EndsWith(q, " OR") && !EndsWith(q, " NOT")
      && (EndsWith(q, "NOT") <==> EndsWith(name, "NOT"))
      && TagNameAt(q, |pre|) && IsNameChar(q[|q| - 1])
  {
    TagSuffixNoOperator(pre, name);
    TagSuffixNot(pre, name);
    TagSuffixName(pre, name);
  }

  /** Helper: text ending in `tag:<name>` ends in no operator. */
  lemma TagSuffixNoOperator(pre: string, name: string)
    requires IsTagName(name)
    ensures var q := pre + ("tag:" + name);
      !EndsWith(q, " AND") && !EndsWith(q, " OR") && !EndsWith(q, " NOT")
  {
    var u := "tag:" + name;
    var q := pre + u;
    assert u[|u| - 4] != ' ' && u[|u| - 3] != ' ' by {
      if |name| >= 4 {
        assert u[|u| - 4] == name[|name| - 4];
      }
      if |name| >= 3 {
        assert u[|u| - 3] == name[|name| - 3];
      }
    }
    assert q[|q| - 4..][0] == q[|q| - 4] == u[|u| - 4];
    assert q[|q| - 3..][0] == q[|q| - 3] == u[|u| - 3];
  }

  /** Helper: text ending in `tag:<name>` ends in `NOT` exactly when the name does. */
  lemma TagSuffixNot(pre: string, name: string)
    requires IsTagName(name)
    ensures var q := pre + ("tag:" + name);
      EndsWith(q, "NOT") <==> EndsWith(name, "NOT")
  {
    var u := "tag:" + name;
    var q := pre + u;
    if |name| >= 3 {
      assert q[|q| - 3..] == name[|name| - 3..];
    } else {
      assert q[|q| - 3] == u[|u| - 3] != 'N';
      assert q[|q| - 3..][0] == q[|q| - 3];
    }
  }

  /** Helper: text ending in `tag:<name>` has a tag-name match where `tag:` starts, and ends
      in a name character. */
  lemma TagSuffixName(pre: string, name: string)
    requires IsTagName(name)
    ensures var q := pre + ("tag:" + name);
      TagNameAt(q, |pre|) && IsNameChar(q[|q| - 1])
  {
    var u := "tag:" + name;
    var q := pre + u;
    assert q[|q| - 1] == name[|name| - 1];
    assert q[|pre|..|pre| + 4] == "tag:";
    assert q[|pre| + 4] == name[0];
  }

  /** A canonical query passes `validate_query` unless its last name ends in `NOT`, which
      the `NOT\s*$` check takes for a dangling `NOT` (it has no word boundary). */
  lemma CanonicalValidity(d: Dnf)
    requires WellFormed(d)
    ensures ValidateQuery(QueryText(d)) == Valid <==> !EndsWith(LastName(d), "NOT")
    ensures ValidateQuery(QueryText(d)) != Valid ==> ValidateQuery(QueryText(d)) == Invalid(DanglingNot)
  {
    var pre := QueryTextSuffix(d);
    ClauseTextShape(d[0]);
    assert QueryText(d)[0] == ClauseTexts(d)[0][0];
    TaggedQueryValidity(QueryText(d), pre, LastName(d));
  }

  /** Helper: the same for any query that starts with `t` or `N` and ends with
      `tag:<name>`. */
  lemma TaggedQueryValidity(q: string, pre: string, name: string)
    requires q == pre + ("tag:" + name) && IsTagName(name)
    requires q[0] == 't' || q[0] == 'N'
    ensures ValidateQuery(q) == Valid <==> !EndsWith(name, "NOT")
    ensures ValidateQuery(q) != Valid ==> ValidateQuery(q) == Invalid(DanglingNot)
  {
    TaggedQueryChecks(q, pre, name);
    ValidityByChecks(q);
  }

  /** Helper: how such a query fares under each check. */
  lemma TaggedQueryChecks(q: string, pre: string, name: string)
    requires q == pre + ("tag:" + name) && IsTagName(name)
    requires q[0] == 't' || q[0] == 'N'
    ensures exists i :: TagNameAt(q, i)
    ensures !StartsWithOperator(q) && !EndsWithOperator(q)
    ensures (exists i :: NotAtEnd(q, i)) <==> EndsWith(name, "NOT")
  {
    TagSuffixFacts(pre, name);
    TaggedQueryNoOperator(q, pre, name);
    TaggedQueryNotAtEnd(q, pre, name);
  }

  /** Helper: such a query is its own strip and has no leading or trailing operator. */
  lemma TaggedQueryNoOperator(q: string, pre: string, name: string)
    requires q == pre + ("tag:" + name) && IsTagName(name)
    requires q[0] == 't' || q[0] == 'N'
    ensures !StartsWithOperator(q) && !EndsWithOperator(q)
  {
    TagSuffixFacts(pre, name);
    StripCanonical(q);
    NoOperatorAtEnds(q);
  }

  /** Helper: a query that is its own strip, starts with `t` or `N` and has no trailing
      operator text has neither a leading nor a trailing operator. */
  lemma NoOperatorAtEnds(q: string)
    requires Strip(q) == q && q != [] && (q[0] == 't' || q[0] == 'N')
    requires !EndsWith(q, " AND") && !EndsWith(q, " OR") && !EndsWith(q, " NOT")
    ensures !StartsWithOperator(q) && !EndsWithOperator(q)
  {
    if |q| >= 3 {
      assert q[..3][0] == q[0];
    }
    if |q| >= 4 {
      assert q[..4][0] == q[0];
    }
  }

  /** Helper: such a query ends in a dangling `NOT` exactly when the name ends in `NOT`. */
  lemma TaggedQueryNotAtEnd(q: string, pre: string, name: string)
    requires q == pre + ("tag:" + name) && IsTagName(name)
    ensures (exists i :: NotAtEnd(q, i)) <==> EndsWith(name, "NOT")
  {
    TagSuffixFacts(pre, name);
    TrimRightKeeps(q);
    EndsWithNotIff(q);
  }

  /** Helper: past the first three checks, only the dangling-`NOT` check is left. */
  lemma ValidityByChecks(q: string)
    requires exists i :: TagNameAt(q, i)
    requires !StartsWithOperator(q) && !EndsWithOperator(q)
    ensures ValidateQuery(q) == Valid <==> !exists i :: NotAtEnd(q, i)
    ensures ValidateQuery(q) != Valid ==> ValidateQuery(q) == Invalid(DanglingNot)
  {
  }
}

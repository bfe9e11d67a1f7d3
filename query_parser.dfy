/** The tag query language of `virtual_groups/query_parser.py`: an ordered chain of syntax
    checks, and a split-based evaluator where OR is loosest, AND binds tighter and NOT
    negates a single term. */
module QueryParser {
  import opened Wrappers
  import opened Text
  import opened Sequences
  import opened TagStore
  import opened SceneScan

  // ----- Validation (`validate_query`) -----

  /** The six ways `validate_query` can reject a query, in the order it checks them. */
  datatype QueryError = EmptyQuery | MissingTagClause | NoValidTagName | LeadingOperator | TrailingOperator | DanglingNot

  datatype Validation = Valid | Invalid(error: QueryError)

  /** The error text `validate_query` returns for each rejection. */
  function Message(e: QueryError): (m: string)
    ensures m != []
  {
    match e
    case EmptyQuery => "Query cannot be empty"
    case MissingTagClause => "Query must contain at least one 'tag:' clause"
    case NoValidTagName => "No valid tag names found (use alphanumeric, underscore, or hyphen)"
    case LeadingOperator => "Query cannot start with AND or OR"
    case TrailingOperator => "Query cannot end with an operator"
    case DanglingNot => "NOT operator must be followed by a tag"
  }

  /** The `(is_valid, error_message)` pair the source returns. */
  function AsTuple(v: Validation): (r: (bool, string))
    ensures r.0 <==> v.Valid?
    ensures r.0 <==> r.1 == ""
    ensures v.Invalid? ==> r.1 == Message(v.error)
  {
    match v
    case Valid => (true, "")
    case Invalid(e) => (false, Message(e))
  }

  /** `not query_string.strip()`. */
  predicate IsBlank(q: string) {
    Strip(q) == []
  }

  /** A match of `tag:([a-zA-Z0-9_-]+)` starts at index `i`. */
  ghost predicate TagNameAt(q: string, i: int) {
    OccursAt(q, "tag:", i) && i + 4 < |q| && IsNameChar(q[i + 4])
  }

  /** `re.findall(r'tag:([a-zA-Z0-9_-]+)', q)` is non-empty: scan the start positions. */
  function HasTagName(q: string): bool
    decreases |q|
  {
    |q| >= 5 && ((q[..4] == "tag:" && IsNameChar(q[4])) || HasTagName(q[1..]))
  }

  lemma {:induction false} HasTagNameIff(q: string)
    ensures HasTagName(q) <==> exists i :: TagNameAt(q, i)
    decreases |q|
  {
    if |q| >= 5 {
      HasTagNameIff(q[1..]);
      if q[..4] == "tag:" && IsNameChar(q[4]) {
        assert TagNameAt(q, 0);
      } else if HasTagName(q[1..]) {
        var j :| TagNameAt(q[1..], j);
        assert q[1..][j..j + 4] == q[j + 1..j + 5];
        assert TagNameAt(q, j + 1);
      }
      if i :| TagNameAt(q, i) {
        if i > 0 {
          assert q[1..][i - 1..i + 3] == q[i..i + 4];
          assert TagNameAt(q[1..], i - 1);
        }
      }
    }
  }

  /** `query_string.strip().startswith(('AND ', 'OR '))`. */
  predicate StartsWithOperator(q: string) {
    StartsWith(Strip(q), "AND ") || StartsWith(Strip(q), "OR ")
  }

  /** `query_string.strip().endswith((' AND', ' OR', ' NOT'))`. */
  predicate EndsWithOperator(q: string) {
    EndsWith(Strip(q), " AND") || EndsWith(Strip(q), " OR") || EndsWith(Strip(q), " NOT")
  }

  /** A match of `NOT\s*$` starts at index `i`: `NOT`, then only whitespace to the end (the
      position before a final newline that `$` also accepts leaves the same set, since a
      newline is whitespace). */
  ghost predicate NotAtEnd(q: string, i: int) {
    OccursAt(q, "NOT", i) && AllWhitespace(q[i + 3..])
  }

  /** `re.search(r'NOT\s*$', q)`, computed as: `q` ends with `NOT` once trailing whitespace
      is dropped. */
  predicate EndsWithNot(q: string) {
    EndsWith(TrimRight(q), "NOT")
  }

  lemma EndsWithNotIff(q: string)
    ensures EndsWithNot(q) <==> exists i :: NotAtEnd(q, i)
  {
    var r := TrimRight(q);
    if EndsWith(r, "NOT") {
      var i := |r| - 3;
      assert q[i..i + 3] == r[i..];
      assert NotAtEnd(q, i);
    }
    if i :| NotAtEnd(q, i) {
      // The `T` at i + 2 is the last non-space character, so `TrimRight` stops right after it.
      assert !IsSpace(q[i + 2]);
      assert |r| == i + 3;
      assert r[i..] == q[i..i + 3];
    }
  }

  /** A `tag:` name match means the query is neither blank nor missing `tag:`. */
  lemma TagNameImpliesText(q: string, i: int)
    requires TagNameAt(q, i)
    ensures !AllWhitespace(q) && OccursAt(q, "tag:", i)
  {
    assert q[i..i + 4][0] == q[i] == 't';
  }

  /** `validate_query`: the checks run in the source's order and the first one that fails
      decides the error. */
  function ValidateQuery(q: string): (v: Validation)
    ensures v == Invalid(EmptyQuery) <==> AllWhitespace(q)
    ensures v == Invalid(MissingTagClause) <==> !AllWhitespace(q) && !exists i :: OccursAt(q, "tag:", i)
    ensures v == Invalid(NoValidTagName) <==>
              (exists i :: OccursAt(q, "tag:", i)) && !exists i :: TagNameAt(q, i)
    ensures v == Invalid(LeadingOperator) <==> (exists i :: TagNameAt(q, i)) && StartsWithOperator(q)
    ensures v == Invalid(TrailingOperator) <==>
              (exists i :: TagNameAt(q, i)) && !StartsWithOperator(q) && EndsWithOperator(q)
    ensures v == Invalid(DanglingNot) <==>
              (exists i :: TagNameAt(q, i)) && !StartsWithOperator(q) && !EndsWithOperator(q)
              && exists i :: NotAtEnd(q, i)
    ensures v == Valid <==>
              (exists i :: TagNameAt(q, i)) && !StartsWithOperator(q) && !EndsWithOperator(q)
              && !exists i :: NotAtEnd(q, i)
  {
    ContainsIff(q, "tag:");
    HasTagNameIff(q);
    EndsWithNotIff(q);
    assert (exists i :: OccursAt(q, "tag:", i)) ==> !AllWhitespace(q) by {
      if i :| OccursAt(q, "tag:", i) {
        assert q[i..i + 4][0] == q[i];
      }
    }
    if IsBlank(q) then Invalid(EmptyQuery)
    else if !Contains(q, "tag:") then Invalid(MissingTagClause)
    else if !HasTagName(q) then Invalid(NoValidTagName)
    else if StartsWithOperator(q) then Invalid(LeadingOperator)
    else if EndsWithOperator(q) then Invalid(TrailingOperator)
    else if EndsWithNot(q) then Invalid(DanglingNot)
    else Valid
  }

  // ----- Evaluation (`evaluate_query`, `_evaluate_and_clause`, `_evaluate_term`) -----

  /** The longest prefix of `s` made of name characters (what the greedy `+` captures). */
  function NamePrefix(s: string): (n: string)
    ensures |n| <= |s| && n == s[..|n|]
    ensures forall k :: 0 <= k < |n| ==> IsNameChar(n[k])
    ensures |n| < |s| ==> !IsNameChar(s[|n|])
    decreases |s|
  {
    if s != [] && IsNameChar(s[0]) then [s[0]] + NamePrefix(s[1..]) else []
  }

  /** `re.match(r'tag:([a-zA-Z0-9_-]+)', s)`: the captured name, if the match succeeds. */
  function MatchTag(s: string): (m: Option<string>)
    ensures m.Some? <==> StartsWith(s, "tag:") && |s| > 4 && IsNameChar(s[4])
    ensures m.Some? ==> m.value == NamePrefix(s[4..]) && IsTagName(m.value)
  {
    if StartsWith(s, "tag:") && NamePrefix(s[4..]) != [] then Some(NamePrefix(s[4..])) else None
  }

  /** `s` reads as `NOT`, a non-empty whitespace run, `tag:`, a name, and then text that does
      not extend the name: the text `NOT\s+tag:([a-zA-Z0-9_-]+)` matches, capturing `name`. */
  ghost predicate NotTagShape(s: string, gap: string, name: string, rest: string) {
    s == "NOT" + gap + "tag:" + name + rest && gap != [] && AllWhitespace(gap)
    && IsTagName(name) && (rest == [] || !IsNameChar(rest[0]))
  }

  /** `re.match(r'NOT\s+tag:([a-zA-Z0-9_-]+)', s)`: it succeeds exactly when `s` has that
      shape, and captures the shape's name. Backtracking inside the greedy `\s+` cannot help,
      since it would leave a whitespace character where `t` is needed, so the whitespace run
      is dropped whole. */
  function MatchNotTag(s: string): (m: Option<string>)
    ensures m.Some? <==> exists gap, name, rest :: NotTagShape(s, gap, name, rest)
    ensures forall gap, name, rest :: NotTagShape(s, gap, name, rest) ==> m == Some(name)
  {
    NotTagCapture(s);
    if StartsWith(s, "NOT") && |s| > 3 && IsSpace(s[3]) then MatchTag(TrimLeft(s[3..])) else None
  }

  /** Helper for `MatchNotTag`: `NOT`, a whitespace character, and a `tag:` match after the
      whitespace run is exactly the `NotTagShape`, with the same name. */
  lemma NotTagCapture(s: string)
    ensures (StartsWith(s, "NOT") && |s| > 3 && IsSpace(s[3]) && MatchTag(TrimLeft(s[3..])).Some?)
            <==> exists gap, name, rest :: NotTagShape(s, gap, name, rest)
    ensures forall gap, name, rest :: NotTagShape(s, gap, name, rest) ==>
              StartsWith(s, "NOT") && |s| > 3 && IsSpace(s[3]) && MatchTag(TrimLeft(s[3..])) == Some(name)
  {
    if StartsWith(s, "NOT") && |s| > 3 && IsSpace(s[3]) && MatchTag(TrimLeft(s[3..])).Some? {
      var gap, name, rest := NotTagWitness(s);
    }
    forall gap, name, rest | NotTagShape(s, gap, name, rest)
      ensures StartsWith(s, "NOT") && |s| > 3 && IsSpace(s[3]) && MatchTag(TrimLeft(s[3..])) == Some(name)
    {
      NotTagShapeMatches(s, gap, name, rest);
    }
  }

  /** Helper: a successful `NOT\s+tag:` match splits `s` into the shape's parts. */
  lemma NotTagWitness(s: string) returns (gap: string, name: string, rest: string)
    requires StartsWith(s, "NOT") && |s| > 3 && IsSpace(s[3]) && MatchTag(TrimLeft(s[3..])).Some?
    ensures NotTagShape(s, gap, name, rest)
  {
    var x := s[3..];
    var u := TrimLeft(x);
    gap := LeadingGap(x);
    name := MatchTag(u).value;
    rest := u[4 + |name|..];
    TagMatchParts(u, name, rest);
    Assemble(s, x, gap, u, name, rest);
  }

  /** Helper: the whitespace `TrimLeft` drops from text starting with whitespace. */
  lemma LeadingGap(x: string) returns (gap: string)
    requires x != [] && IsSpace(x[0])
    ensures gap != [] && AllWhitespace(gap) && x == gap + TrimLeft(x)
  {
    var u := TrimLeft(x);
    gap := x[..|x| - |u|];
    assert |u| < |x|;
    assert AllWhitespace(gap) by {
      forall i | 0 <= i < |gap| ensures IsSpace(gap[i]) {
        assert gap[i] == x[i];
      }
    }
    assert x == gap + u;
  }

  /** Helper: text `tag:` matches splits into `tag:`, the captured name and the rest. */
  lemma TagMatchParts(u: string, name: string, rest: string)
    requires MatchTag(u) == Some(name) && rest == u[4 + |name|..]
    ensures u == "tag:" + name + rest && IsTagName(name) && (rest == [] || !IsNameChar(rest[0]))
  {
    assert u == u[..4] + u[4..];
    assert name == u[4..][..|name|];
    assert u[4..] == name + rest;
  }

  /** Helper: the parts put back together. */
  lemma Assemble(s: string, x: string, gap: string, u: string, name: string, rest: string)
    requires StartsWith(s, "NOT") && x == s[3..] && x == gap + u && u == "tag:" + name + rest
    ensures s == "NOT" + gap + "tag:" + name + rest
  {
    assert s == s[..3] + x;
  }

  /** Helper: text of the shape matches `NOT\s+tag:` with the shape's name. */
  lemma NotTagShapeMatches(s: string, gap: string, name: string, rest: string)
    requires NotTagShape(s, gap, name, rest)
    ensures StartsWith(s, "NOT") && |s| > 3 && IsSpace(s[3]) && MatchTag(TrimLeft(s[3..])) == Some(name)
  {
    var u := "tag:" + name + rest;
    assert s == "NOT" + (gap + u);
    assert s[..3] == "NOT";
    assert s[3] == gap[0];
    assert s[3..] == gap + u;
    TrimLeftPrefix(gap, u);
    MatchTagOf(name, rest);
  }

  /** What `_evaluate_term` makes of one term once its regex has run: a name that must be
      present, a name that must be absent, or a term that matches neither pattern. */
  datatype Term = Present(name: string) | Absent(name: string) | Malformed

  /** The parsing half of `_evaluate_term`: strip the term; a term starting with `NOT ` is
      read with `NOT\s+tag:(...)`, any other with `tag:(...)`. */
  function ParseTerm(term: string): (r: Term)
    ensures !r.Malformed? ==> IsTagName(r.name)
  {
    var t := Strip(term);
    if StartsWith(t, "NOT ") then
      match MatchNotTag(t)
      case Some(name) => Absent(name)
      case None => Malformed
    else
      match MatchTag(t)
      case Some(name) => Present(name)
      case None => Malformed
  }

  /** The testing half of `_evaluate_term`: exact, case-sensitive membership; a malformed
      term fails safe. */
  function TermHolds(t: Term, tags: set<string>): bool {
    match t
    case Present(name) => name in tags
    case Absent(name) => name !in tags
    case Malformed => false
  }

  /** `_evaluate_term(term, obj_tags)`: only a term that starts, once stripped, with `tag:` or
      `NOT ` and that contains `tag:NAME` can hold. */
  function EvaluateTerm(term: string, tags: set<string>): (r: bool)
    ensures r ==> StartsWith(Strip(term), "tag:") || StartsWith(Strip(term), "NOT ")
    ensures r ==> exists i :: TagNameAt(term, i)
  {
    var t := ParseTerm(term);
    if t.Malformed? then false
    else
      ParsedTermHasTagName(term);
      TermHolds(t, tags)
  }

  /** Each piece read by `ParseTerm`, in order. */
  function ParseTerms(terms: seq<string>): (r: seq<Term>)
    ensures |r| == |terms|
    decreases |terms|
  {
    if terms == [] then [] else [ParseTerm(terms[0])] + ParseTerms(terms[1..])
  }

  /** Term `i` of the list is piece `i` read by `ParseTerm`. */
  lemma {:induction false} ParseTermsAt(terms: seq<string>, i: int)
    requires 0 <= i < |terms|
    ensures ParseTerms(terms)[i] == ParseTerm(terms[i])
    decreases |terms|
  {
    if i > 0 {
      ParseTermsAt(terms[1..], i - 1);
      assert terms[1..][i - 1] == terms[i];
      ParseTermsTail(terms, i, ParseTerm(terms[i]));
    }
  }

  /** Helper: past the first, the terms are those of the remaining pieces. */
  lemma ParseTermsTail(terms: seq<string>, i: int, x: Term)
    requires 0 < i < |terms| && ParseTerms(terms[1..])[i - 1] == x
    ensures ParseTerms(terms)[i] == x
  {
  }

  /** The terms of an AND clause: the clause cut at `" AND "`. */
  function ParseClause(clause: string): seq<Term> {
    ParseTerms(Split(clause, " AND "))
  }

  /** The loop of `_evaluate_and_clause`, returning false at the first failing term. */
  function ClauseHolds(c: seq<Term>, tags: set<string>): bool
    decreases |c|
  {
    |c| == 0 || (TermHolds(c[0], tags) && ClauseHolds(c[1..], tags))
  }

  /** The conjunction reading of a parsed clause: every term true. */
  ghost predicate AllTermsHold(c: seq<Term>, tags: set<string>) {
    forall i :: 0 <= i < |c| ==> TermHolds(c[i], tags)
  }

  /** The early-exit loop computes "every term holds". */
  lemma {:induction false} ClauseHoldsIff(c: seq<Term>, tags: set<string>)
    ensures ClauseHolds(c, tags) <==> AllTermsHold(c, tags)
    decreases |c|
  {
    if |c| > 0 {
      ClauseHoldsIff(c[1..], tags);
      assert forall i :: 1 <= i < |c| ==> c[i] == c[1..][i - 1];
    }
  }

  /** `_evaluate_and_clause(clause, obj_tags)`: true exactly when every piece of the clause cut
      at `" AND "` holds as a term. */
  function EvaluateAndClause(clause: string, tags: set<string>): (r: bool)
    ensures var pieces := Split(clause, " AND ");
      r <==> forall j :: 0 <= j < |pieces| ==> EvaluateTerm(pieces[j], tags)
  {
    ClauseHoldsIff(ParseClause(clause), tags);
    assert ParseClause(clause) == ParseTerms(Split(clause, " AND "));
    ParseTermsAgree(Split(clause, " AND "), tags);
    ClauseHolds(ParseClause(clause), tags)
  }

  /** Helper: the terms read from a list of pieces all hold exactly when every piece holds as
      a term. */
  lemma ParseTermsAgree(pieces: seq<string>, tags: set<string>)
    ensures AllTermsHold(ParseTerms(pieces), tags) <==> forall j :: 0 <= j < |pieces| ==> EvaluateTerm(pieces[j], tags)
  {
    var terms := ParseTerms(pieces);
    forall j | 0 <= j < |pieces| ensures TermHolds(terms[j], tags) == EvaluateTerm(pieces[j], tags) {
      ParseTermsAt(pieces, j);
    }
  }

  /** Each OR piece stripped and read as an AND clause, in order. */
  function ParseClauses(clauses: seq<string>): (r: seq<seq<Term>>)
    ensures |r| == |clauses|
    decreases |clauses|
  {
    if clauses == [] then [] else [ParseClause(Strip(clauses[0]))] + ParseClauses(clauses[1..])
  }

  /** Clause `i` is OR piece `i`, stripped, read by `ParseClause`. */
  lemma {:induction false} ParseClausesAt(clauses: seq<string>, i: int)
    requires 0 <= i < |clauses|
    ensures ParseClauses(clauses)[i] == ParseClause(Strip(clauses[i]))
    decreases |clauses|
  {
    if i > 0 {
      ParseClausesAt(clauses[1..], i - 1);
      assert clauses[1..][i - 1] == clauses[i];
      ParseClausesTail(clauses, i, ParseClause(Strip(clauses[i])));
    }
  }

  /** Helper: past the first, the clauses are those of the remaining pieces. */
  lemma ParseClausesTail(clauses: seq<string>, i: int, x: seq<Term>)
    requires 0 < i < |clauses| && ParseClauses(clauses[1..])[i - 1] == x
    ensures ParseClauses(clauses)[i] == x
  {
  }

  /** The query read as OR over AND over terms: cut at `" OR "` without stripping first. */
  function ParseQuery(q: string): seq<seq<Term>> {
    ParseClauses(Split(q, " OR "))
  }

  /** The loop of `evaluate_query`, returning true at the first clause that holds. */
  function AnyClauseHolds(cs: seq<seq<Term>>, tags: set<string>): bool
    decreases |cs|
  {
    |cs| > 0 && (ClauseHolds(cs[0], tags) || AnyClauseHolds(cs[1..], tags))
  }

  /** The early-exit loop computes "some clause holds". */
  lemma {:induction false} AnyClauseHoldsIff(cs: seq<seq<Term>>, tags: set<string>)
    ensures AnyClauseHolds(cs, tags) <==> exists i :: 0 <= i < |cs| && ClauseHolds(cs[i], tags)
    decreases |cs|
  {
    if |cs| > 0 {
      AnyClauseHoldsIff(cs[1..], tags);
      if i :| 1 <= i < |cs| && ClauseHolds(cs[i], tags) {
        assert cs[1..][i - 1] == cs[i];
      }
      if AnyClauseHolds(cs[1..], tags) {
        var j :| 0 <= j < |cs[1..]| && ClauseHolds(cs[1..][j], tags);
        assert cs[1..][j] == cs[j + 1];
      }
    }
  }

  /** `evaluate_query` against a tag set: false for a blank query, otherwise OR over the
      clauses. Evaluating the parsed form is the source's interleaved parse-and-test loop,
      as every step is free of side effects. */
  function QueryHolds(q: string, tags: set<string>): (b: bool)
    ensures IsBlank(q) ==> !b
  {
    !IsBlank(q) && AnyClauseHolds(ParseQuery(q), tags)
  }

  /** `evaluate_query(query_string, obj)`: the query against the set of the object's tags. */
  function EvaluateQuery(q: string, o: BlendObject): (b: bool)
    reads o`tagSlot
    ensures b == QueryHolds(q, TagSetOf(o))
    ensures IsBlank(q) ==> !b
  {
    QueryHolds(q, TagSetOf(o))
  }

  /** The disjunctive-normal-form reading of parsed clauses: some clause with every term
      true. */
  ghost predicate SomeClauseHolds(cs: seq<seq<Term>>, tags: set<string>) {
    exists i :: 0 <= i < |cs| && AllTermsHold(cs[i], tags)
  }

  /** OR over early-exit AND clauses is that reading. */
  lemma AnyClauseHoldsMeaning(cs: seq<seq<Term>>, tags: set<string>)
    ensures AnyClauseHolds(cs, tags) <==> SomeClauseHolds(cs, tags)
  {
    AnyClauseHoldsIff(cs, tags);
    if AnyClauseHolds(cs, tags) {
      var i :| 0 <= i < |cs| && ClauseHolds(cs[i], tags);
      ClauseHoldsIff(cs[i], tags);
    }
    if SomeClauseHolds(cs, tags) {
      var i :| 0 <= i < |cs| && AllTermsHold(cs[i], tags);
      ClauseHoldsIff(cs[i], tags);
    }
  }

  /** A query holds exactly when it is not blank and some clause has every term true. */
  lemma QueryHoldsIff(q: string, tags: set<string>)
    ensures QueryHolds(q, tags) <==> !AllWhitespace(q) && SomeClauseHolds(ParseQuery(q), tags)
  {
    AnyClauseHoldsMeaning(ParseQuery(q), tags);
  }

  /** `evaluate_query` as written: a query that is not blank holds exactly when some piece of
      it cut at `" OR "`, stripped, holds as an AND clause. */
  lemma QueryHoldsByClauses(q: string, tags: set<string>)
    ensures QueryHolds(q, tags) <==>
      !AllWhitespace(q) && exists i :: 0 <= i < |Split(q, " OR ")| && EvaluateAndClause(Strip(Split(q, " OR ")[i]), tags)
  {
    var pieces := Split(q, " OR ");
    AnyClauseHoldsIff(ParseQuery(q), tags);
    forall i | 0 <= i < |pieces|
      ensures ClauseHolds(ParseQuery(q)[i], tags) == EvaluateAndClause(Strip(pieces[i]), tags)
    {
      ParseQueryAt(q, i);
    }
  }

  /** Clause `i` of the parsed query is OR piece `i`, stripped, read as an AND clause. */
  lemma ParseQueryAt(q: string, i: int)
    requires 0 <= i < |ParseQuery(q)|
    ensures ParseQuery(q)[i] == ParseClause(Strip(Split(q, " OR ")[i]))
  {
    ParseClausesAt(Split(q, " OR "), i);
  }

  // ----- Terms -----

  /** The greedy capture stops exactly at the end of a name followed by a non-name character. */
  lemma NamePrefixOf(name: string, rest: string)
    requires IsTagName(name)
    requires rest == [] || !IsNameChar(rest[0])
    ensures NamePrefix(name + rest) == name
  {
    var s := name + rest;
    var n := NamePrefix(s);
    assert n == s[..|n|];
    assert s[..|name|] == name;
  }

  /** `re.match(r'tag:([a-zA-Z0-9_-]+)', ...)` captures exactly the name after `tag:`. */
  lemma MatchTagOf(name: string, rest: string)
    requires IsTagName(name)
    requires rest == [] || !IsNameChar(rest[0])
    ensures MatchTag("tag:" + name + rest) == Some(name)
  {
    var s := "tag:" + name + rest;
    assert s[..4] == "tag:";
    assert s[4..] == name + rest;
    NamePrefixOf(name, rest);
  }

  /** A term that strips to `tag:<name>` followed by anything that is not a name character
      asks for that name to be present; whatever follows the name is ignored. */
  lemma PositiveTerm(term: string, name: string, rest: string)
    requires Strip(term) == "tag:" + name + rest
    requires IsTagName(name)
    requires rest == [] || !IsNameChar(rest[0])
    ensures ParseTerm(term) == Present(name)
  {
    MatchTagOf(name, rest);
    TagIsNoNot(Strip(term));
  }

  /** Helper: text starting with `tag:` does not start with `NOT `. */
  lemma TagIsNoNot(t: string)
    requires StartsWith(t, "tag:")
    ensures !StartsWith(t, "NOT ")
  {
    assert t[..4][0] == t[0] == 't';
  }

  /** A term that strips to `NOT`, whitespace starting with a space, then `tag:<name>`,
      asks for that name to be absent. */
  lemma NegativeTerm(term: string, gap: string, name: string, rest: string)
    requires Strip(term) == "NOT" + gap + "tag:" + name + rest
    requires AllWhitespace(gap) && gap != [] && gap[0] == ' '
    requires IsTagName(name)
    requires rest == [] || !IsNameChar(rest[0])
    ensures ParseTerm(term) == Absent(name)
  {
    var t := Strip(term);
    var u := "tag:" + name + rest;
    Regroup(t, gap, u, name, rest);
    NotTermShape(t, gap, u);
    MatchTagOf(name, rest);
  }

  /** Helper: the stripped negative term read as `NOT` then `gap + u`. */
  lemma Regroup(t: string, gap: string, u: string, name: string, rest: string)
    requires t == "NOT" + gap + "tag:" + name + rest && u == "tag:" + name + rest
    ensures t == "NOT" + (gap + u)
  {
  }

  /** Helper: `NOT`, whitespace starting with a space, then `u` starting with `t` is a `NOT `
      term whose `NOT\s+` part ends exactly where `u` begins. */
  lemma NotTermShape(t: string, gap: string, u: string)
    requires t == "NOT" + (gap + u)
    requires AllWhitespace(gap) && gap != [] && gap[0] == ' '
    requires u != [] && u[0] == 't'
    ensures StartsWith(t, "NOT ") && MatchNotTag(t) == MatchTag(u)
  {
    assert t[..4] == "NOT ";
    assert t[3..] == gap + u;
    TrimLeftPrefix(gap, u);
    assert TrimLeft(t[3..]) == u;
  }

  /** A term that strips to text starting with `NOT ` parses exactly when it has the
      `NOT\s+tag:NAME` shape, and then asks for that name to be absent; every other `NOT `
      term (`NOT candle`, `NOT tag:`, `NOT tag:@x`) is malformed. */
  lemma NotTermIff(term: string)
    requires StartsWith(Strip(term), "NOT ")
    ensures ParseTerm(term) != Malformed <==> exists gap, name, rest :: NotTagShape(Strip(term), gap, name, rest)
    ensures forall gap, name, rest :: NotTagShape(Strip(term), gap, name, rest) ==> ParseTerm(term) == Absent(name)
    ensures (!exists gap, name, rest :: NotTagShape(Strip(term), gap, name, rest)) ==> ParseTerm(term) == Malformed
  {
  }

  /** `_evaluate_term` on a `NOT ` term: true exactly when the term has the
      `NOT\s+tag:NAME` shape and NAME is not among the tags; false for every other `NOT ` term. */
  lemma NotTermHolds(term: string, tags: set<string>)
    requires StartsWith(Strip(term), "NOT ")
    ensures EvaluateTerm(term, tags) <==>
              exists gap, name, rest :: NotTagShape(Strip(term), gap, name, rest) && name !in tags
  {
    NotTermIff(term);
    if EvaluateTerm(term, tags) {
      var gap, name, rest :| NotTagShape(Strip(term), gap, name, rest);
      assert ParseTerm(term) == Absent(name);
    }
  }

  /** `NOT` followed directly by anything but a space is not a `NOT ` term, and it cannot
      match `tag:` either, so the term is malformed. */
  lemma NotWithoutSpaceIsMalformed(term: string)
    requires StartsWith(Strip(term), "NOT") && !StartsWith(Strip(term), "NOT ")
    ensures ParseTerm(term) == Malformed
  {
    NotIsNoTag(Strip(term));
  }

  /** Helper: text starting with `NOT` does not start with `tag:`. */
  lemma NotIsNoTag(t: string)
    requires StartsWith(t, "NOT")
    ensures !StartsWith(t, "tag:")
  {
    assert t[..3][0] == t[0] == 'N';
    if |t| >= 4 {
      assert t[..4][0] == t[0];
    }
  }

  /** A term that starts neither with `tag:` nor with `NOT ` is malformed. */
  lemma OtherTermIsMalformed(term: string)
    requires !StartsWith(Strip(term), "tag:") && !StartsWith(Strip(term), "NOT ")
    ensures ParseTerm(term) == Malformed
  {
  }

  /** A stripped term that parses contains a `tag:` name match. */
  lemma ParsedStrippedTermHasTagName(t: string)
    requires ParseTerm(t) != Malformed && Strip(t) == t
    ensures exists i :: TagNameAt(t, i)
  {
    if StartsWith(t, "NOT ") {
      var x := t[3..];
      var u := TrimLeft(x);
      var b := 3 + |x| - |u|;
      assert OccursAt(t, u, b) by { assert t[b..b + |u|] == x[|x| - |u|..]; }
      assert OccursAt(u, "tag:", 0) by { assert u[..4] == "tag:"; }
      OccursAtCompose(t, u, b, "tag:", 0);
      assert t[b + 4] == u[4];
      assert TagNameAt(t, b);
    } else {
      assert TagNameAt(t, 0);
    }
  }

  /** A tag-name match inside a slice is a tag-name match in the whole string. */
  lemma TagNameAtCompose(s: string, t: string, a: int, i: int)
    requires OccursAt(s, t, a) && TagNameAt(t, i)
    ensures TagNameAt(s, a + i)
  {
    OccursAtCompose(s, t, a, "tag:", i);
    assert s[a + i + 4] == t[i + 4];
  }

  /** Any term that is not malformed contains a `tag:` name match. */
  lemma ParsedTermHasTagName(term: string)
    requires ParseTerm(term) != Malformed
    ensures exists i :: TagNameAt(term, i)
  {
    var i := StrippedTermTagNameAt(term);
    var j := UnstrippedTagNameAt(term, i);
  }

  /** Helper: a `tag:` name match in the stripped term is one in the term. */
  lemma UnstrippedTagNameAt(term: string, i: int) returns (j: int)
    requires TagNameAt(Strip(term), i)
    ensures TagNameAt(term, j)
  {
    var a := StripStart(term);
    j := ComposedTagNameAt(term, Strip(term), a, i);
  }

  /** Helper: `TagNameAtCompose`, naming the position it finds. */
  lemma ComposedTagNameAt(s: string, t: string, a: int, i: int) returns (j: int)
    requires OccursAt(s, t, a) && TagNameAt(t, i)
    ensures TagNameAt(s, j)
  {
    TagNameAtCompose(s, t, a, i);
    j := a + i;
  }

  /** Helper: where such a term, stripped, has its `tag:` name match. */
  lemma StrippedTermTagNameAt(term: string) returns (i: int)
    requires ParseTerm(term) != Malformed
    ensures TagNameAt(Strip(term), i)
  {
    StripIdempotent(term);
    ParsedStrippedTermHasTagName(Strip(term));
    i :| TagNameAt(Strip(term), i);
  }

  /** In a query with no `tag:` name match, which `validate_query` rejects, every term is
      malformed, so the query matches no tag set. */
  lemma RejectedQueriesMatchNothing(q: string, tags: set<string>)
    requires !exists i :: TagNameAt(q, i)
    ensures forall i, j :: 0 <= i < |ParseQuery(q)| && 0 <= j < |ParseQuery(q)[i]| ==> ParseQuery(q)[i][j] == Malformed
    ensures !QueryHolds(q, tags)
  {
    var cs := ParseQuery(q);
    forall i, j | 0 <= i < |cs| && 0 <= j < |cs[i]| ensures cs[i][j] == Malformed {
      PieceTermMalformed(q, i, j);
    }
    AnyClauseHoldsIff(cs, tags);
    forall i | 0 <= i < |cs| ensures !ClauseHolds(cs[i], tags) {
      ParseClausesAt(Split(q, " OR "), i);
      assert cs[i][0] == Malformed;
    }
  }

  /** Helper: one term of a query without any `tag:` name match is malformed. */
  lemma PieceTermMalformed(q: string, i: int, j: int)
    requires !exists k :: TagNameAt(q, k)
    requires 0 <= i < |ParseQuery(q)| && 0 <= j < |ParseQuery(q)[i]|
    ensures ParseQuery(q)[i][j] == Malformed
  {
    var term := QueryTerm(q, i, j);
    QueryTermParses(q, i, j);
    if ParseTerm(term) != Malformed {
      ParsedTermHasTagName(term);
      var k :| TagNameAt(term, k);
      var p := QueryTermOccurs(q, i, j);
      TagNameAtCompose(q, term, p, k);
    }
  }

  /** The text of term `j` of clause `i`: OR piece `i`, stripped, cut at `" AND "`. */
  function QueryTerm(q: string, i: int, j: int): string
    requires 0 <= i < |ParseQuery(q)| && 0 <= j < |ParseQuery(q)[i]|
  {
    ParseQueryAt(q, i);
    Split(Strip(Split(q, " OR ")[i]), " AND ")[j]
  }

  /** Term `j` of clause `i` is that text read by `ParseTerm`. */
  lemma QueryTermParses(q: string, i: int, j: int)
    requires 0 <= i < |ParseQuery(q)| && 0 <= j < |ParseQuery(q)[i]|
    ensures ParseQuery(q)[i][j] == ParseTerm(QueryTerm(q, i, j))
  {
    ParseQueryAt(q, i);
    ParseTermsAt(Split(Strip(Split(q, " OR ")[i]), " AND "), j);
  }

  /** Helper: the text of each term occurs in the query. */
  lemma QueryTermOccurs(q: string, i: int, j: int) returns (p: int)
    requires 0 <= i < |ParseQuery(q)| && 0 <= j < |ParseQuery(q)[i]|
    ensures OccursAt(q, QueryTerm(q, i, j), p)
  {
    ParseQueryAt(q, i);
    var c := Split(q, " OR ")[i];
    p := PieceTermOccurs(q, c, i, j);
  }

  /** Helper: the same, stated on the OR piece. */
  lemma PieceTermOccurs(q: string, c: string, i: int, j: int) returns (p: int)
    requires 0 <= i < |Split(q, " OR ")| && c == Split(q, " OR ")[i]
    requires 0 <= j < |Split(Strip(c), " AND ")|
    ensures OccursAt(q, Split(Strip(c), " AND ")[j], p)
  {
    var a := SplitPieceOccurs(q, " OR ", i);
    var e := ClauseTermOccurs(c, j);
    p := ComposedAt(q, c, a, Split(Strip(c), " AND ")[j], e);
  }

  /** Helper: `OccursAtCompose`, naming the position it finds. */
  lemma ComposedAt(s: string, t: string, a: int, u: string, e: int) returns (p: int)
    requires OccursAt(s, t, a) && OccursAt(t, u, e)
    ensures OccursAt(s, u, p)
  {
    OccursAtCompose(s, t, a, u, e);
    p := a + e;
  }

  /** Helper: each AND piece of the stripped clause occurs in the clause. */
  lemma ClauseTermOccurs(c: string, j: int) returns (p: int)
    requires 0 <= j < |Split(Strip(c), " AND ")|
    ensures OccursAt(c, Split(Strip(c), " AND ")[j], p)
  {
    var sc := Strip(c);
    var a := StripStart(c);
    var e := SplitPieceOccurs(sc, " AND ", j);
    p := ComposedAt(c, sc, a, Split(sc, " AND ")[j], e);
  }

  // ----- Scene filter (`get_objects_matching_query`) -----

  /** `evaluate_query` as a test on an object's tag list. */
  function QueryTest(q: string): seq<string> -> bool {
    tags => QueryHolds(q, Elements(tags))
  }

  /** The scene objects the query holds for, in scene order. */
  function QueryMatches(q: string, objects: seq<BlendObject>): seq<BlendObject>
    reads objects`tagSlot
  {
    ObjectsWhere(objects, QueryTest(q))
  }

  /** An object is matched exactly when it is in the scene and the query holds for it; the
      matches keep scene order. */
  lemma QueryMatchesMeaning(q: string, objects: seq<BlendObject>)
    ensures forall i :: 0 <= i < |QueryMatches(q, objects)| ==>
              QueryMatches(q, objects)[i] in objects && EvaluateQuery(q, QueryMatches(q, objects)[i])
    ensures forall i :: 0 <= i < |objects| && EvaluateQuery(q, objects[i]) ==> objects[i] in QueryMatches(q, objects)
    ensures IsSubsequence(QueryMatches(q, objects), objects)
  {
    forall i | 0 <= i < |objects| && EvaluateQuery(q, objects[i])
      ensures objects[i] in QueryMatches(q, objects)
    {
      ObjectsWhereComplete(objects, QueryTest(q), i);
    }
    ObjectsWhereSubsequence(objects, QueryTest(q));
  }

  /** A query that `validate_query` rejects for want of a `tag:` name match selects no
      object of any scene. */
  lemma RejectedQuerySelectsNothing(q: string, objects: seq<BlendObject>)
    requires !exists i :: TagNameAt(q, i)
    ensures ValidateQuery(q) != Valid
    ensures QueryMatches(q, objects) == []
  {
    forall i | 0 <= i < |objects| ensures !QueryTest(q)(GetTags(objects[i])) {
      RejectedQueriesMatchNothing(q, Elements(GetTags(objects[i])));
    }
    ObjectsWhereNone(objects, QueryTest(q));
  }

  /** `get_objects_matching_query`: one pass over the scene, appending each object the
      query holds for. */
  method GetObjectsMatchingQuery(q: string, objects: seq<BlendObject>) returns (matching: seq<BlendObject>)
    ensures matching == QueryMatches(q, objects)
  {
    matching := [];
    var i := 0;
    while i < |objects|
      invariant 0 <= i <= |objects|
      invariant matching == QueryMatches(q, objects[..i])
    {
      assert objects[..i + 1][..i] == objects[..i];
      if EvaluateQuery(q, objects[i]) {
        matching := matching + [objects[i]];
      }
      i := i + 1;
    }
    assert objects[..i] == objects;
  }
}

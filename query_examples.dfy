/** The behaviour the query tests pin down (tests/test_query_parser.py), derived from the
    general lemmas: precedence, case sensitivity, name characters, fail-safe evaluation. */
module QueryExamples {
  import opened Text
  import opened TagStore
  import opened QueryParser
  import opened CanonicalQueries
  import opened SceneFilters

  /** Two clauses: the DNF holds when either clause does. */
  lemma SatisfiesTwo(d: Dnf, tags: set<string>)
    requires |d| == 2
    ensures Satisfies(d, tags) <==> ClauseSatisfied(d[0], tags) || ClauseSatisfied(d[1], tags)
  {
    if ClauseSatisfied(d[0], tags) {
      assert 0 < |d|;
    }
    if ClauseSatisfied(d[1], tags) {
      assert 1 < |d|;
    }
  }

  /** Helper: the text of a one-literal clause. */
  lemma OneLiteral(l: Literal)
    ensures ClauseText([l]) == LiteralText(l)
  {
  }

  /** Helper: the text of a two-literal clause. */
  lemma TwoLiterals(l: Literal, m: Literal)
    ensures ClauseText([l, m]) == LiteralText(l) + " AND " + LiteralText(m)
  {
    assert LiteralTexts([l, m]) == [LiteralText(l), LiteralText(m)];
    JoinTwo(LiteralText(l), LiteralText(m), " AND ");
  }

  /** Helper: the text of a two-clause query. */
  lemma TwoClauses(c: seq<Literal>, e: seq<Literal>)
    ensures QueryText([c, e]) == ClauseText(c) + " OR " + ClauseText(e)
  {
    assert ClauseTexts([c, e]) == [ClauseText(c), ClauseText(e)];
    JoinTwo(ClauseText(c), ClauseText(e), " OR ");
  }

  /** A canonical query means its DNF (`QueryTextMeaning` with the text given). */
  lemma MeaningOf(q: string, d: Dnf, tags: set<string>)
    requires WellFormed(d) && QueryText(d) == q
    ensures QueryHolds(q, tags) <==> Satisfies(d, tags)
  {
    QueryTextMeaning(d, tags);
  }

  /** A one-literal clause holds when its literal does. */
  lemma ClauseOne(l: Literal, tags: set<string>)
    ensures ClauseSatisfied([l], tags) <==> LiteralHolds(l, tags)
  {
    assert [l][0] == l;
  }

  /** A two-literal clause holds when both literals do. */
  lemma ClauseTwo(l: Literal, m: Literal, tags: set<string>)
    ensures ClauseSatisfied([l, m], tags) <==> LiteralHolds(l, tags) && LiteralHolds(m, tags)
  {
    assert [l, m][0] == l && [l, m][1] == m;
  }

  /** `tag:a OR tag:b AND tag:c` means a OR (b AND c). */
  lemma OrThenAnd(tags: set<string>)
    ensures QueryHolds("tag:a OR tag:b AND tag:c", tags) <==> "a" in tags || ("b" in tags && "c" in tags)
  {
    OrThenAndShape();
    OrThenAndText();
    OrThenAndDnf(tags);
    MeaningOf("tag:a OR tag:b AND tag:c", [[Has("a")], [Has("b"), Has("c")]], tags);
  }

  lemma OrThenAndShape()
    ensures WellFormed([[Has("a")], [Has("b"), Has("c")]])
  {
  }

  lemma OrThenAndText()
    ensures QueryText([[Has("a")], [Has("b"), Has("c")]]) == "tag:a OR tag:b AND tag:c"
  {
    OneLiteral(Has("a"));
    TwoLiterals(Has("b"), Has("c"));
    TwoClauses([Has("a")], [Has("b"), Has("c")]);
  }

  lemma OrThenAndDnf(tags: set<string>)
    ensures Satisfies([[Has("a")], [Has("b"), Has("c")]], tags) <==> "a" in tags || ("b" in tags && "c" in tags)
  {
    SatisfiesTwo([[Has("a")], [Has("b"), Has("c")]], tags);
    ClauseOne(Has("a"), tags);
    ClauseTwo(Has("b"), Has("c"), tags);
  }

  /** `tag:a AND tag:b OR tag:c` means (a AND b) OR c. */
  lemma AndThenOr(tags: set<string>)
    ensures QueryHolds("tag:a AND tag:b OR tag:c", tags) <==> ("a" in tags && "b" in tags) || "c" in tags
  {
    AndThenOrShape();
    AndThenOrText();
    AndThenOrDnf(tags);
    MeaningOf("tag:a AND tag:b OR tag:c", [[Has("a"), Has("b")], [Has("c")]], tags);
  }

  lemma AndThenOrShape()
    ensures WellFormed([[Has("a"), Has("b")], [Has("c")]])
  {
  }

  lemma AndThenOrText()
    ensures QueryText([[Has("a"), Has("b")], [Has("c")]]) == "tag:a AND tag:b OR tag:c"
  {
    TwoLiterals(Has("a"), Has("b"));
    OneLiteral(Has("c"));
    TwoClauses([Has("a"), Has("b")], [Has("c")]);
  }

  lemma AndThenOrDnf(tags: set<string>)
    ensures Satisfies([[Has("a"), Has("b")], [Has("c")]], tags) <==> ("a" in tags && "b" in tags) || "c" in tags
  {
    SatisfiesTwo([[Has("a"), Has("b")], [Has("c")]], tags);
    ClauseTwo(Has("a"), Has("b"), tags);
    ClauseOne(Has("c"), tags);
  }

  /** `tag:a AND tag:b OR tag:c AND NOT tag:d` means (a AND b) OR (c AND NOT d), and it
      passes validation. */
  lemma ComplexPrecedence(tags: set<string>)
    ensures QueryHolds("tag:a AND tag:b OR tag:c AND NOT tag:d", tags)
        <==> ("a" in tags && "b" in tags) || ("c" in tags && "d" !in tags)
    ensures ValidateQuery("tag:a AND tag:b OR tag:c AND NOT tag:d") == Valid
  {
    ComplexShape();
    ComplexText();
    ComplexDnf(tags);
    MeaningOf("tag:a AND tag:b OR tag:c AND NOT tag:d", [[Has("a"), Has("b")], [Has("c"), Lacks("d")]], tags);
    ComplexValid();
  }

  lemma ComplexShape()
    ensures WellFormed([[Has("a"), Has("b")], [Has("c"), Lacks("d")]])
  {
  }

  lemma ComplexText()
    ensures QueryText([[Has("a"), Has("b")], [Has("c"), Lacks("d")]]) == "tag:a AND tag:b OR tag:c AND NOT tag:d"
  {
    ComplexClauses();
    TwoClauses([Has("a"), Has("b")], [Has("c"), Lacks("d")]);
  }

  lemma ComplexClauses()
    ensures ClauseText([Has("a"), Has("b")]) == "tag:a AND tag:b"
    ensures ClauseText([Has("c"), Lacks("d")]) == "tag:c AND NOT tag:d"
  {
    TwoLiterals(Has("a"), Has("b"));
    TwoLiterals(Has("c"), Lacks("d"));
  }

  lemma ComplexDnf(tags: set<string>)
    ensures Satisfies([[Has("a"), Has("b")], [Has("c"), Lacks("d")]], tags)
        <==> ("a" in tags && "b" in tags) || ("c" in tags && "d" !in tags)
  {
    SatisfiesTwo([[Has("a"), Has("b")], [Has("c"), Lacks("d")]], tags);
    ClauseTwo(Has("a"), Has("b"), tags);
    ClauseTwo(Has("c"), Lacks("d"), tags);
  }

  lemma ComplexValid()
    ensures ValidateQuery("tag:a AND tag:b OR tag:c AND NOT tag:d") == Valid
  {
    var d: Dnf := [[Has("a"), Has("b")], [Has("c"), Lacks("d")]];
    ComplexShape();
    ComplexText();
    CanonicalValidity(d);
    assert LastName(d) == "d";
  }

  // ----- Queries without whitespace -----

  ghost predicate NoWhitespace(q: string) {
    forall k :: 0 <= k < |q| ==> !IsSpace(q[k])
  }

  /** Helper: a string without whitespace contains no separator that starts with a space. */
  lemma NoWhitespaceFree(q: string, sep: string)
    requires NoWhitespace(q) && sep != [] && sep[0] == ' '
    ensures Free(q, sep)
  {
    forall k ensures !OccursAt(q, sep, k) {
      if 0 <= k && k + |sep| <= |q| {
        assert q[k..k + |sep|][0] == q[k];
      }
    }
  }

  /** A non-empty query without whitespace is a single term: it holds exactly when that
      term does. */
  lemma SingleTermQuery(q: string, tags: set<string>)
    requires q != [] && NoWhitespace(q)
    ensures QueryHolds(q, tags) <==> EvaluateTerm(q, tags)
  {
    NoWhitespaceFree(q, " OR ");
    SplitWhole(q, " OR ");
    NoWhitespaceFree(q, " AND ");
    SplitWhole(q, " AND ");
    SingleTermParse(q);
    var t := ParseTerm(q);
    assert [[t]][1..] == [] && [t][1..] == [];
    assert AnyClauseHolds([[t]], tags) == ClauseHolds([t], tags);
    assert ClauseHolds([t], tags) == TermHolds(t, tags);
  }

  /** Helper: such a query parses as one clause of one term. */
  lemma SingleTermParse(q: string)
    requires q != [] && NoWhitespace(q)
    requires Split(q, " OR ") == [q] && Split(q, " AND ") == [q]
    ensures ParseQuery(q) == [[ParseTerm(q)]] && !IsBlank(q)
  {
    assert Strip(q) == q;
    assert [q][1..] == [];
    assert ParseTerms([q]) == [ParseTerm(q)];
    assert ParseClauses([q]) == [ParseClause(q)];
  }

  /** A query without whitespace that starts with a `tag:` name match is valid unless it
      ends in `NOT`. */
  lemma SingleTermValidity(q: string)
    requires NoWhitespace(q) && TagNameAt(q, 0)
    ensures ValidateQuery(q) == Valid <==> !EndsWith(q, "NOT")
    ensures ValidateQuery(q) != Valid ==> ValidateQuery(q) == Invalid(DanglingNot)
  {
    SingleTermChecks(q);
    ValidityByChecks(q);
  }

  /** Helper: how such a query fares under each check. */
  lemma SingleTermChecks(q: string)
    requires NoWhitespace(q) && TagNameAt(q, 0)
    ensures exists i :: TagNameAt(q, i)
    ensures !StartsWithOperator(q) && !EndsWithOperator(q)
    ensures (exists i :: NotAtEnd(q, i)) <==> EndsWith(q, "NOT")
  {
    var n := |q|;
    assert !IsSpace(q[0]) && !IsSpace(q[n - 1]) && !IsSpace(q[n - 3]) && !IsSpace(q[n - 4]);
    assert Strip(q) == q;
    TrimRightKeeps(q);
    EndsWithNotIff(q);
    assert q[..4][0] == q[0] == 't';
    assert q[..3][0] == q[0];
    assert q[n - 4..][0] == q[n - 4];
    assert q[n - 3..][0] == q[n - 3];
  }

  /** `tag:hello@world` is valid and asks for `hello`: only one `tag:` match is needed, and
      what follows the name is ignored. */
  lemma HelloAtWorld(tags: set<string>)
    ensures ValidateQuery("tag:hello@world") == Valid
    ensures QueryHolds("tag:hello@world", tags) <==> "hello" in tags
  {
    var q := "tag:hello@world";
    HelloAtWorldShape();
    SingleTermValidity(q);
    SingleTermQuery(q, tags);
    HelloAtWorldTerm();
  }

  lemma HelloAtWorldShape()
    ensures NoWhitespace("tag:hello@world") && TagNameAt("tag:hello@world", 0)
    ensures !EndsWith("tag:hello@world", "NOT")
  {
  }

  lemma HelloAtWorldTerm()
    ensures ParseTerm("tag:hello@world") == Present("hello")
  {
    var q := "tag:hello@world";
    HelloAtWorldShape();
    assert Strip(q) == q;
    assert q == "tag:" + "hello" + "@world";
    PositiveTerm(q, "hello", "@world");
  }

  /** `tag:<name>` alone asks for exactly that name: an exact, case-sensitive test. */
  lemma SingleTag(name: string, tags: set<string>)
    requires IsTagName(name)
    ensures QueryHolds("tag:" + name, tags) <==> name in tags
  {
    SingleTagShape(name);
    SingleTermQuery("tag:" + name, tags);
    SingleTagTerm(name);
  }

  /** Helper: `tag:<name>` reads as the term asking for `name`. */
  lemma SingleTagTerm(name: string)
    requires IsTagName(name)
    ensures ParseTerm("tag:" + name) == Present(name)
  {
    SingleTagStripped(name);
    PositiveTerm("tag:" + name, name, []);
  }

  /** Helper: `tag:<name>` is its own strip, and is `tag:<name>` followed by nothing. */
  lemma SingleTagStripped(name: string)
    requires IsTagName(name)
    ensures Strip("tag:" + name) == "tag:" + name + []
  {
    var q := "tag:" + name;
    assert q[0] == 't' && q[|q| - 1] == name[|name| - 1];
    assert q + [] == q;
  }

  /** Helper: `tag:<name>` has no whitespace and is its own strip. */
  lemma SingleTagShape(name: string)
    requires IsTagName(name)
    ensures NoWhitespace("tag:" + name) && Strip("tag:" + name) == "tag:" + name
  {
    var q := "tag:" + name;
    forall k | 0 <= k < |q| ensures !IsSpace(q[k]) {
      if k >= 4 {
        assert q[k] == name[k - 4];
      }
    }
  }

  /** Helper: `SingleTag` for a name given as text. */
  lemma SingleTagText(q: string, name: string, tags: set<string>)
    requires IsTagName(name) && q == "tag:" + name
    ensures QueryHolds(q, tags) <==> name in tags
  {
    SingleTag(name, tags);
  }

  /** Tags are case-sensitive: `tag:candle` misses `Candle`. */
  lemma LowerCaseMissesCapital()
    ensures !QueryHolds("tag:candle", {"Candle"})
  {
    SingleTagText("tag:candle", "candle", {"Candle"});
  }

  /** `tag:Candle` matches `Candle`. */
  lemma CapitalMatchesCapital()
    ensures QueryHolds("tag:Candle", {"Candle"})
  {
    SingleTagText("tag:Candle", "Candle", {"Candle"});
  }

  /** Hyphens are name characters. */
  lemma HyphenTag()
    ensures QueryHolds("tag:hero-large", {"hero-large", "main_character"})
  {
    SingleTagText("tag:hero-large", "hero-large", {"hero-large", "main_character"});
  }

  /** Underscores are name characters. */
  lemma UnderscoreTag()
    ensures QueryHolds("tag:main_character", {"hero-large", "main_character"})
  {
    SingleTagText("tag:main_character", "main_character", {"hero-large", "main_character"});
  }

  /** The empty query is rejected as empty and matches nothing. */
  lemma EmptyQueryFails(tags: set<string>)
    ensures ValidateQuery("") == Invalid(EmptyQuery) && ValidateQuery("   ") == Invalid(EmptyQuery)
    ensures !QueryHolds("", tags) && !QueryHolds("   ", tags)
  {
    assert AllWhitespace("   ");
  }

  /** `candle`, without `tag:`, is rejected for missing `tag:` and matches nothing. */
  lemma BareWordFails(tags: set<string>)
    ensures ValidateQuery("candle") == Invalid(MissingTagClause)
    ensures !QueryHolds("candle", tags)
  {
    var q := "candle";
    forall i ensures !OccursAt(q, "tag:", i) {
      if 0 <= i && i + 4 <= |q| {
        assert q[i..i + 4][0] == q[i];
      }
    }
    assert !AllWhitespace(q) by { assert !IsSpace(q[0]); }
    RejectedQueriesMatchNothing(q, tags);
  }

  /** Fail-safe: `NOT` before a bare word is malformed, so it holds for no tag set. */
  lemma NotBareWordFails(tags: set<string>)
    ensures ParseTerm("NOT candle") == Malformed && !EvaluateTerm("NOT candle", tags)
  {
    NotTextMalformed("NOT candle", "candle");
  }

  /** Fail-safe: `NOT tag:` without a name is malformed. */
  lemma NotEmptyNameFails(tags: set<string>)
    ensures ParseTerm("NOT tag:") == Malformed && !EvaluateTerm("NOT tag:", tags)
  {
    NotTextMalformed("NOT tag:", "tag:");
  }

  /** Fail-safe: `NOT tag:@x`, whose name starts with a non-name character, is malformed. */
  lemma NotBadNameFails(tags: set<string>)
    ensures ParseTerm("NOT tag:@x") == Malformed && !EvaluateTerm("NOT tag:@x", tags)
  {
    NotTextMalformed("NOT tag:@x", "tag:@x");
  }

  /** Helper: `NOT ` then a word that is not a `tag:` match is a malformed term. */
  lemma NotTextMalformed(t: string, u: string)
    requires t == "NOT " + u && u != [] && !IsSpace(u[0]) && !IsSpace(u[|u| - 1])
    requires MatchTag(u).None?
    ensures ParseTerm(t) == Malformed
  {
    assert t[0] == 'N' && t[|t| - 1] == u[|u| - 1];
    assert Strip(t) == t;
    assert t[..4] == "NOT ";
    assert t[3..] == " " + u;
    TrimLeftPrefix(" ", u);
  }

  /** A View with query `tag:desk` contains both an object tagged `desk` and an object that
      carries only the membership tag: the two ways in are united, not intersected. */
  lemma HybridViewExample(view: View, objects: seq<BlendObject>, desk: BlendObject, member: BlendObject)
    requires view.query == "tag:desk"
    requires desk in objects && "desk" in GetTags(desk)
    requires member in objects && MembershipTag(view.guid) in GetTags(member)
    ensures desk in ViewMembers(view, objects) && member in ViewMembers(view, objects)
  {
    DeskQuery(view.query, TagSetOf(desk));
    assert InView(view, desk);
    ViewMembersMeaning(view, objects);
  }

  /** Helper: `tag:desk` is not blank and holds for a tag set with `desk`. */
  lemma DeskQuery(q: string, tags: set<string>)
    requires q == "tag:desk" && "desk" in tags
    ensures !IsBlank(q) && QueryHolds(q, tags)
  {
    assert IsTagName("desk");
    assert q == "tag:" + "desk";
    SingleTag("desk", tags);
    assert !IsSpace(q[0]);
  }
}

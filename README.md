# Virtual Groups — a Dafny model of the tagging core

Virtual Groups is a Blender add-on that organises scene objects by **tags** instead of
collections. Each object stores its tags as a JSON list in its `"vg_tags"` custom property.
A small **query language** (`tag:desk AND NOT tag:small OR tag:props`) selects objects by
their tags. A **View** is a named, saved selection: an object belongs to it when the View's
query holds for the object, or when the object carries the View's reserved membership tag
`view-<guid>`. The **Tag Palette** keeps a comma-separated selection of tags, and its buttons
hide, show or flip the objects that carry any selected tag. View buttons toggle the viewport
or render visibility of a whole View at once.

This project models that core in Dafny and proves properties of the model:

| file | models |
|---|---|
| `wrappers.dfy` | `Option` |
| `text.dfy` | the Python `str` operations the core relies on: `strip`, `split`, `join`, `in` |
| `sequences.dfy` | distinct lists, subsequences, `list(set)` |
| `ordering.dfy` | code-point string order and `sorted(set)` |
| `tag_store.dfy` | `get/set/add/remove` of an object's tags, `validate_tag_name` |
| `scene_scan.dfy` | the in-order scan over `scene.objects` that the query and tag filters share |
| `query_parser.dfy` | `validate_query`, `evaluate_query`, `_evaluate_and_clause`, `_evaluate_term`, `get_objects_matching_query` |
| `canonical_queries.dfy` | queries written from a DNF formula: they parse back to that formula, mean it, and validate |
| `query_examples.dfy` | the behaviour the query tests pin down: precedence, case sensitivity, rejected queries, malformed `NOT` terms, a hybrid View |
| `scene_filters.dfy` | `get_all_scene_tags`, `get_objects_with_tags`, `get_objects_in_view` |
| `operators.dfy` | the `execute` bodies of the palette, View-management, membership and visibility operators |

Objects are a `class` (`TagStore.BlendObject`) whose tag slot and visibility flags are
updated in place. The scene's View list, active View index and palette selection are fields
of the `Operators.Scene` class. The query language, tag lists and selection strings are
values.

## Model

| member | source | states |
|---|---|---|
| TagStore.GetTags | virtual_groups/utils.py:29-33 | a missing slot reads as `[]`, undecodable text reads as `[]`, otherwise the decoded list |
| TagStore.Encode | virtual_groups/utils.py:44 | what `json.dumps` writes decodes back to the same list |
| TagStore.SetTagsOnObject | virtual_groups/utils.py:36-44 | afterwards the slot holds the encoded list and reading the tags gives exactly that list |
| SceneScan.ObjectsWhereMembers | virtual_groups/query_parser.py:184-190 | an object is kept by the scan exactly when it is in the scene and passes the test |
| SceneScan.ObjectsWhereSubsequence | virtual_groups/query_parser.py:184-190 | the scan keeps scene order: its result is a subsequence of the scene's objects |
| TagStore.AddTagToObject | virtual_groups/utils.py:47-58 | the tag list becomes the old list with the tag appended when absent; a present tag leaves the slot untouched |
| TagStore.AppendIfAbsentMeaning | virtual_groups/utils.py:55-58 | after adding, the tag is present, the old list is a prefix, the length grows by one exactly when the tag was absent, and the tag set gains only the tag |
| TagStore.AppendIfAbsentIdempotent | virtual_groups/utils.py:55-58 | adding the same tag twice equals adding it once |
| TagStore.AddedOnce | tests/test_hybrid_views.py:186-200 | adding an absent tag twice leaves exactly one copy of it |
| TagStore.IndexOf | virtual_groups/utils.py:71 | `list.remove` acts at the first occurrence of the tag |
| TagStore.RemoveTagFromObject | virtual_groups/utils.py:61-72 | the tag list loses the first copy of the tag; an absent tag leaves the slot untouched |
| TagStore.RemoveFirstMeaning | virtual_groups/utils.py:69-72 | removal leaves the list unchanged for an absent tag, shortens it by one otherwise, and takes exactly one copy out of the multiset |
| TagStore.RemoveUniqueTag | virtual_groups/utils.py:69-72 | when the tag occurs at most once, removal leaves no copy and removing again changes nothing |
| TagStore.RemoveUndoesAdd | virtual_groups/utils.py:47-72 | removing a tag that was just added to a list without it gives the original list back |
| TagStore.ValidateTagNameAsWritten | virtual_groups/utils.py:87-93 | the empty name is rejected with the empty-name message; otherwise the verdict is the source's `^…+$` match, which allows one final newline |
| TagStore.TrailingNewlineAccepted | virtual_groups/utils.py:90 | the source accepts `"hero\n"` although it is not a tag name |
| TagStore.ValidateTagName | virtual_groups/utils.py:87-93 | a name is accepted exactly when it is a non-empty run of letters, digits, `_` and `-`; a bad character gives the character message |
| Text.Strip | virtual_groups/query_parser.py:52 | the stripped text is empty exactly for whitespace-only input, has no whitespace at either end, and text without edge whitespace is kept as is |
| Text.StripIdempotent | virtual_groups/query_parser.py:113 | stripping a clause that was already stripped changes nothing |
| Text.ContainsIff | virtual_groups/query_parser.py:56 | Python's `p in s` holds exactly when `p` occurs at some index of `s` |
| Text.Split | virtual_groups/query_parser.py:110 | `str.split(sep)` always returns at least one piece, and the first piece starts the text |
| Text.JoinSplit | virtual_groups/query_parser.py:110 | joining the pieces of a split with the separator gives the text back |
| Text.SplitJoin | virtual_groups/query_parser.py:131 | splitting a join gives back the pieces when no piece contains or ends a separator |
| Text.SplitPieceOccurs | virtual_groups/query_parser.py:131 | every piece of a split occurs in the original text |
| Sequences.ListOf | virtual_groups/utils.py:224 | `list(set)` lists each element of the set exactly once |
| Sequences.SubsequenceOfDistinct | virtual_groups/utils.py:141-148 | a subsequence of a list without duplicates has none either |
| Ordering.SortedOf | virtual_groups/utils.py:110 | `sorted` of a set is strictly increasing and holds exactly the set's elements |
| Ordering.SortedUnique | virtual_groups/utils.py:110 | two strictly sorted lists with the same elements are equal, so `sorted(set)` is determined |
| Ordering.SortSet | virtual_groups/utils.py:110 | the method's result is the sorted list of the set |
| Ordering.LessTotal | virtual_groups/utils.py:110 | the code-point order compares any two different strings |
| Ordering.LessTransitive | virtual_groups/utils.py:110 | the code-point order is transitive |
| SceneFilters.GetAllSceneTags | virtual_groups/utils.py:96-110 | the result is strictly sorted and holds exactly the tags some object carries |
| SceneFilters.SortedSceneTagsExample | tests/test_utils.py:210-218 | the tags `zebra`, `apple`, `mouse` come out as `apple`, `mouse`, `zebra` |
| SceneFilters.FilterKeepsMeaning | virtual_groups/utils.py:129-148 | no tags select nothing; `OR` keeps an object with one of the tags, `AND` one with all of them, any other mode keeps nothing |
| SceneFilters.GetObjectsWithTags | virtual_groups/utils.py:117-148 | an empty tag list gives `[]`; an object is returned exactly when it is in the scene and passes the mode's test; scene order is kept |
| SceneFilters.MembershipTag | virtual_groups/utils.py:219 | the membership tag is `view-` followed by the guid |
| SceneFilters.ViewMembersMeaning | virtual_groups/utils.py:211-224 | an object is in a View exactly when it is in the scene and either the View's non-blank query holds for it or it carries the membership tag; a blank query leaves only the tag carriers |
| SceneFilters.GetObjectsInView | virtual_groups/utils.py:185-224 | the result lists every View member exactly once, only scene objects, and its length is the number of members |
| SceneFilters.CollectMembers | virtual_groups/utils.py:211-222 | the set built is the union of the query matches and the tag carriers |
| SceneFilters.CollectQueryMatches | virtual_groups/utils.py:213-216 | a blank query adds nothing; otherwise exactly the objects `get_objects_matching_query` returns |
| SceneFilters.CollectCarriers | virtual_groups/utils.py:218-222 | exactly the scene objects whose tags include the membership tag |
| QueryParser.AsTuple | virtual_groups/query_parser.py:52-77 | the result is `(True, "")` for a valid query and `(False, message)` with the check's message otherwise |
| QueryParser.ValidateQuery | virtual_groups/query_parser.py:52-77 | one if-and-only-if per outcome: whitespace-only is empty; no `tag:` is a missing clause; no `tag:` followed by a name character is no valid name; then leading `AND `/`OR `, trailing ` AND`/` OR`/` NOT`, a `NOT` at the end followed only by whitespace; valid exactly when no check fires |
| QueryParser.HasTagNameIff | virtual_groups/query_parser.py:60-63 | the left-to-right scan finds a tag name exactly when `tag:` followed by a name character occurs somewhere |
| QueryParser.EndsWithNotIff | virtual_groups/query_parser.py:74 | the scan for `NOT\s*$` succeeds exactly when some `NOT` is followed only by whitespace to the end |
| QueryParser.TagNameImpliesText | virtual_groups/query_parser.py:52-61 | a query with a tag name is not blank and contains `tag:`, so the earlier checks never shadow the name check |
| QueryParser.NamePrefix | virtual_groups/query_parser.py:165 | `[a-zA-Z0-9_-]+` takes the longest prefix of name characters |
| QueryParser.MatchTag | virtual_groups/query_parser.py:165-166 | `tag:NAME` matches exactly when the text starts with `tag:` and a name character, and yields the longest name |
| QueryParser.MatchNotTag | virtual_groups/query_parser.py:157 | `NOT\s+tag:NAME` matches exactly when the text is `NOT`, a non-empty whitespace run, `tag:`, a name and text that does not extend the name, and it captures that name |
| QueryParser.NotTagCapture | virtual_groups/query_parser.py:157 | dropping the whole whitespace run after `NOT` and matching `tag:NAME` there succeeds exactly for that shape, with the same name |
| QueryParser.ParseTerm | virtual_groups/query_parser.py:152-170 | a term that is not malformed carries a valid tag name |
| QueryParser.PositiveTerm | virtual_groups/query_parser.py:164-168 | `tag:NAME` followed by a non-name character parses as "NAME must be present" |
| QueryParser.NegativeTerm | virtual_groups/query_parser.py:155-160 | `NOT`, whitespace starting with a space, then `tag:NAME` parses as "NAME must be absent" |
| QueryParser.NotTermIff | virtual_groups/query_parser.py:155-162 | a `NOT ` term parses exactly when it has the `NOT\s+tag:NAME` shape, and then as "NAME must be absent"; any other `NOT ` term is malformed |
| QueryParser.NotTermHolds | virtual_groups/query_parser.py:155-162 | a `NOT ` term holds exactly when it has the `NOT\s+tag:NAME` shape and NAME is not among the tags |
| QueryParser.NotWithoutSpaceIsMalformed | virtual_groups/query_parser.py:155-170 | a term starting with `NOT` but not `NOT ` is malformed and holds for no object |
| QueryParser.OtherTermIsMalformed | virtual_groups/query_parser.py:164-170 | a term starting with neither `tag:` nor `NOT ` is malformed |
| QueryParser.ParseTermsAt | virtual_groups/query_parser.py:131-135 | the i-th parsed term is the parse of the i-th AND piece |
| QueryParser.EvaluateTerm | virtual_groups/query_parser.py:141-170 | a term can only hold when, stripped, it starts with `tag:` or `NOT `, and when it contains `tag:` followed by a name character |
| QueryParser.EvaluateAndClause | virtual_groups/query_parser.py:119-138 | a clause holds exactly when every piece of it cut at ` AND ` holds as a term |
| QueryParser.QueryHoldsByClauses | virtual_groups/query_parser.py:103-116 | a query holds exactly when it is not blank and some piece of it cut at ` OR `, stripped, holds as an AND clause |
| QueryParser.ClauseHoldsIff | virtual_groups/query_parser.py:131-138 | an AND clause holds exactly when every one of its terms holds |
| QueryParser.ParseClausesAt | virtual_groups/query_parser.py:110-113 | the i-th parsed clause is the parse of the stripped i-th OR piece |
| QueryParser.AnyClauseHoldsIff | virtual_groups/query_parser.py:112-116 | the OR loop succeeds exactly when some clause holds |
| QueryParser.QueryHolds | virtual_groups/query_parser.py:103-116 | a blank query holds for no tag set |
| QueryParser.EvaluateQuery | virtual_groups/query_parser.py:103-106 | a blank query matches no object; otherwise the query is judged on the object's tag set |
| QueryParser.AnyClauseHoldsMeaning | virtual_groups/query_parser.py:110-138 | the OR loop succeeds exactly when some clause has all of its terms true |
| QueryParser.QueryHoldsIff | virtual_groups/query_parser.py:103-116 | a query holds exactly when it is not blank and some clause of its parse holds |
| QueryParser.ParseQueryAt | virtual_groups/query_parser.py:110-113 | clause i of the parse is the parse of the stripped i-th OR piece |
| QueryParser.ParsedTermHasTagName | virtual_groups/query_parser.py:152-170 | a term that parses contains `tag:` followed by a name character |
| QueryParser.QueryTermParses | virtual_groups/query_parser.py:110-135 | each parsed term is the parse of a piece obtained by the two splits |
| QueryParser.QueryTermOccurs | virtual_groups/query_parser.py:110-135 | each such piece occurs in the query text |
| QueryParser.RejectedQueriesMatchNothing | virtual_groups/query_parser.py:141-170 | when the query has no `tag:NAME`, every term is malformed and the query holds for no tag set |
| QueryParser.QueryMatchesMeaning | virtual_groups/query_parser.py:184-190 | the matches are exactly the scene objects the query holds for, in scene order |
| QueryParser.RejectedQuerySelectsNothing | virtual_groups/query_parser.py:184-190 | a query with no `tag:NAME` fails validation and selects no object |
| QueryParser.GetObjectsMatchingQuery | virtual_groups/query_parser.py:173-190 | the loop returns exactly the scene objects the query holds for, in scene order |
| CanonicalQueries.QuerySplits | virtual_groups/query_parser.py:110 | splitting a query written from a DNF formula at ` OR ` gives back its clause texts |
| CanonicalQueries.ClauseSplits | virtual_groups/query_parser.py:131 | splitting a clause text at ` AND ` gives back its literal texts |
| CanonicalQueries.LiteralParses | virtual_groups/query_parser.py:152-168 | `tag:NAME` and `NOT tag:NAME` parse as the literal they were written from |
| CanonicalQueries.QueryParses | virtual_groups/query_parser.py:110-135 | a query written from a DNF formula parses back to that formula |
| CanonicalQueries.DnfTermsHold | virtual_groups/query_parser.py:155-168 | the parsed terms hold exactly when the formula is satisfied |
| CanonicalQueries.QueryTextMeaning | virtual_groups/query_parser.py:80-138 | a query written from a DNF formula holds for a tag set exactly when the formula is satisfied: OR loosest, AND tighter, NOT on one tag |
| CanonicalQueries.CanonicalValidity | virtual_groups/query_parser.py:52-77 | such a query is valid exactly when its last tag name does not end in `NOT`, and is otherwise rejected only as a dangling NOT |
| QueryExamples.OrThenAnd | tests/test_query_parser.py:220-240 | `tag:a OR tag:b AND tag:c` means a or (b and c) |
| QueryExamples.AndThenOr | tests/test_query_parser.py:242-262 | `tag:a AND tag:b OR tag:c` means (a and b) or c |
| QueryExamples.ComplexPrecedence | tests/test_query_parser.py:264-286 | `tag:a AND tag:b OR tag:c AND NOT tag:d` is valid and holds exactly when (a and b) or (c and not d) |
| QueryExamples.HelloAtWorld | tests/test_query_parser.py:72-79 | `tag:hello@world` is valid and tests only the tag `hello` |
| QueryExamples.SingleTag | virtual_groups/query_parser.py:164-168 | `tag:NAME` holds exactly when NAME is among the tags |
| QueryExamples.SingleTermQuery | virtual_groups/query_parser.py:103-138 | a query without whitespace is judged by its single term |
| QueryExamples.SingleTermValidity | virtual_groups/query_parser.py:52-77 | a whitespace-free query starting with a tag name is valid unless it ends in `NOT` |
| QueryExamples.LowerCaseMissesCapital | tests/test_query_parser.py:381-391 | `tag:candle` does not match the tag `Candle` |
| QueryExamples.CapitalMatchesCapital | tests/test_query_parser.py:381-391 | `tag:Candle` matches the tag `Candle` |
| QueryExamples.HyphenTag | tests/test_query_parser.py:393-401 | `tag:hero-large` matches an object tagged `hero-large` |
| QueryExamples.UnderscoreTag | tests/test_query_parser.py:393-401 | `tag:main_character` matches an object tagged `main_character` |
| QueryExamples.EmptyQueryFails | tests/test_query_parser.py:54-64 | the empty and the whitespace-only query are rejected as empty and match nothing |
| QueryExamples.BareWordFails | tests/test_query_parser.py:66-70 | `candle` is rejected for lacking `tag:` and matches nothing |
| QueryExamples.NotBareWordFails | virtual_groups/query_parser.py:155-162 | `NOT candle` is malformed and holds for no tag set |
| QueryExamples.NotEmptyNameFails | virtual_groups/query_parser.py:155-162 | `NOT tag:` is malformed and holds for no tag set |
| QueryExamples.NotBadNameFails | virtual_groups/query_parser.py:155-162 | `NOT tag:@x` is malformed and holds for no tag set |
| QueryExamples.NotTextMalformed | virtual_groups/query_parser.py:155-162 | `NOT ` followed by a word that is not a `tag:NAME` match is a malformed term |
| QueryExamples.HybridViewExample | virtual_groups/utils.py:211-224 | a View with query `tag:desk` holds both an object tagged `desk` and an object that only carries the membership tag |
| Operators.Toggle | virtual_groups/operators.py:148-151 | the tag's membership flips and every other tag keeps its membership |
| Operators.NonEmptyPieces | virtual_groups/operators.py:178 | the filtered pieces are exactly the non-empty pieces |
| Operators.SelectionListSet | virtual_groups/operators.py:178 | the palette's tag list and the toggle's tag set hold the same tags |
| Operators.SelectionSetSelectable | virtual_groups/operators.py:142-145 | every tag read from a selection string is non-empty and comma-free |
| Operators.SelectionRoundTrip | virtual_groups/operators.py:142-154 | reading back the sorted comma-joined text of selectable tags gives the same set |
| Operators.ToggleTwice | virtual_groups/operators.py:142-154 | toggling the same tag twice gives the canonical text of the original selection |
| Operators.Scene.ToggleTagSelection | virtual_groups/operators.py:137-154 | the selection becomes the toggled set, sorted and comma-joined; read back, it is the old set with the tag flipped |
| Operators.Scene.PaletteTargets | virtual_groups/operators.py:178-181 | the targets are exactly the scene objects carrying a selected tag, each once |
| Operators.Scene.TagPaletteHide | virtual_groups/operators.py:176-188 | objects carrying a selected tag become hidden, the others keep their flag, the selection is cleared |
| Operators.Scene.TagPaletteShow | virtual_groups/operators.py:211-223 | objects carrying a selected tag become shown, the others keep their flag, the selection is cleared |
| Operators.Scene.TagPaletteToggle | virtual_groups/operators.py:246-258 | objects carrying a selected tag flip their flag, the others keep it, the selection is cleared |
| Operators.Scene.AddView | virtual_groups/operators.py:399-415 | a blank name cancels and changes nothing; otherwise a View with the stripped name, the guid, no query and count 0 is appended and made active |
| Operators.Scene.DeleteView | virtual_groups/operators.py:444-462 | an out-of-range index cancels; otherwise that View is removed and an active index past the end moves back to the last View |
| Operators.Scene.ApplyQuery | virtual_groups/operators.py:485-506 | no active View or an invalid non-blank query cancels and changes nothing; otherwise the active View's count becomes its number of members |
| Operators.Scene.Recount | virtual_groups/operators.py:502-506 | only the View at the index changes, and only in its cached count |
| Operators.Scene.AddToView | virtual_groups/operators.py:536-554 | a View without a guid cancels with no tag changed; otherwise every selected object gains the membership tag once and the count is refreshed |
| Operators.Scene.RemoveFromView | virtual_groups/operators.py:580-598 | a View without a guid cancels with no tag changed; otherwise every selected object loses one copy of the membership tag and the count is refreshed |
| Operators.Scene.ClearViewMembership | virtual_groups/operators.py:624-643 | a View without a guid cancels; otherwise the count is the number of carriers, each object loses one copy of the membership tag, and the View's count is refreshed |
| Operators.Scene.ToggleViewVisibility | virtual_groups/operators.py:677-704 | a bad index or an empty View cancels; otherwise every member is hidden when all were visible and shown otherwise, and non-members keep their flag |
| Operators.Scene.ToggleViewRenderVisibility | virtual_groups/operators.py:799-826 | the same all-or-nothing rule for the render flag |
| Operators.ChosenIndex | virtual_groups/operators.py:681-684 | a non-negative `view_index` is used as given, a negative one falls back to the active index |
| Operators.MembersOf | virtual_groups/operators.py:693 | the member list holds exactly the View's members, all scene objects |
| Operators.ToggleViewportOf | virtual_groups/operators.py:693-704 | a View without members cancels with no flag changed; otherwise each member's flag becomes the verdict "all members were visible" and non-members keep theirs |
| Operators.ToggleViewportAmong | virtual_groups/operators.py:695-704 | an empty member list cancels; otherwise the members' flags become "all were visible" and other objects keep theirs |
| Operators.ToggleViewport | virtual_groups/operators.py:699-704 | cancels exactly for no members, and every member's flag becomes the "all visible" verdict |
| Operators.ToggleRenderOf | virtual_groups/operators.py:815-826 | a View without members cancels with no flag changed; otherwise each member's render flag becomes the verdict "all members were render-visible" and non-members keep theirs |
| Operators.ToggleRenderAmong | virtual_groups/operators.py:817-826 | an empty member list cancels; otherwise the members' render flags become "all were render-visible" |
| Operators.ToggleRender | virtual_groups/operators.py:821-826 | cancels exactly for no members, and every member's render flag becomes the verdict |
| Operators.CountView | virtual_groups/operators.py:553-554 | the count is the number of View members |
| Operators.Recounted | virtual_groups/operators.py:553-554 | the View with its cached count set to its number of members |
| Operators.TagAll | virtual_groups/operators.py:548-550 | each target's tags become its old tags with the tag appended when absent |
| Operators.UntagAll | virtual_groups/operators.py:592-594 | each target's tags lose the first copy of the tag |
| Operators.ClearTag | virtual_groups/operators.py:636-639 | the count is the number of carriers; each object loses the first copy; an object with at most one copy ends without the tag |
| Operators.AllVisible | virtual_groups/operators.py:700 | true exactly when no target is hidden in the viewport |
| Operators.AllRenderVisible | virtual_groups/operators.py:822 | true exactly when no target is hidden from render |
| Operators.SetHideViewport | virtual_groups/operators.py:184-185 | every target's viewport flag becomes the given value |
| Operators.SetHideRender | virtual_groups/operators.py:825-826 | every target's render flag becomes the given value |
| Operators.FlipHideViewport | virtual_groups/operators.py:254-255 | every target's viewport flag is negated |

## Left out

- JSON: the `"vg_tags"` text is either the encoding of a string list or text `json.loads` rejects (`TagStore.Raw`). Other JSON values are not modelled, and neither is the text format itself.
- `uuid.uuid4()`: `Operators.Scene.AddView` takes the new View's guid as a parameter.
- `parse_query` is an empty stub that returns None. Nothing calls it in the core, so it is not modelled.
- Blender UI: `report`, redraws, `poll`, `invoke`, the panels, lists and property registration are not modelled; the View-index range check in three of the polls becomes a precondition; see the Operators.Scene.AddToView line below.
- Other operators: the add/remove-tag-to-selected operators, the palette's select, add-tags and remove-tags buttons, and `toggle_view_selection` are not part of this model. `has_viewport_selection` and `get_viewport_selection_count` are not part of it either.
- The iteration order of Python sets: `Sequences.ListOf` and `SceneFilters.GetObjectsInView` promise each member once, in an order left open.
- Regular expressions: each pattern is written as the character test and scan it performs. `[a-zA-Z0-9_-]` is ASCII letters, digits, `_` and `-`. `\s` and `str.strip()` use Python's Unicode whitespace set, the characters `str.isspace()` accepts (`Text.IsSpace`).
- The Blender selection `context.selected_objects` is the `selected` parameter. It must list scene objects, which Blender guarantees.
- Operators.Scene.AddToView, RemoveFromView and ClearViewMembership require `0 <= activeViewIndex < |views|`, because each operator's `poll` (virtual_groups/operators.py:532, 576, 620) only enables it for 0 <= index < len(vg_views), so `execute` never runs outside that range. Run on its own, `execute` would raise for an index past the end and would index from the end for a negative one; neither case is modelled.
- Operators.Scene.RemoveFromView requires the selection to list each object once, as Blender's selection does; with a repeated object the source would remove two copies.
- Reported counts: the number of tagged or untagged objects that add/remove report in their message is not modelled. `ClearViewMembership` returns its count.
- Operators.Scene.ClearViewMembership: its contract says each carrier loses one copy of the membership tag. It promises "no object carries the tag afterwards" only for objects that had at most one copy, because `list.remove` takes out only the first copy.
- Operators.Scene.ToggleViewVisibility and ToggleViewRenderVisibility: the members are computed once, before any flag changes, as the source's `get_objects_in_view` call does. Visibility does not affect membership, so the order does not matter.
- `validate_query` rejects any query ending in `NOT` followed only by whitespace, including a tag name ending in `NOT` such as `tag:KNOT` (`CanonicalQueries.CanonicalValidity` states this). The model keeps this behaviour.
- `Text` models only the Python `str` operations the core uses.

## Findings

| source | as written | input that shows it | evidently intended | confidence | as-written member | corrected member |
|---|---|---|---|---|---|---|
| virtual_groups/utils.py:90 | `re.match(r'^[a-zA-Z0-9_-]+$', tag)` lets `$` match just before a final newline | `"hero\n"` is accepted as a tag name | only letters, digits, `_` and `-` are accepted (`\Z` or `re.fullmatch`) | not executed | TagStore.TrailingNewlineAccepted | TagStore.ValidateTagName |

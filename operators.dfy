/** The state changes made by the `execute` bodies of the operators in
    `virtual_groups/operators.py`: the Tag Palette selection and the visibility buttons that
    act on it, adding, deleting and re-counting Views, explicit View membership, and the
    all-or-nothing visibility toggles of a View. */
module Operators {
  import opened Text
  import opened Sequences
  import opened Ordering
  import opened TagStore
  import opened QueryParser
  import opened SceneFilters

  /** How an operator run ends: `{'FINISHED'}` or `{'CANCELLED'}`. */
  datatype Outcome = Finished | Cancelled

  // ----- The Tag Palette selection, a comma-separated string -----

  /** `set(s.split(',')) if s else set()` followed by `discard('')`. */
  function SelectionSet(s: string): set<string> {
    (if s == [] then {} else Elements(Split(s, ","))) - {""}
  }

  /** The pieces that are not empty, in order (`[t for t in pieces if t]`). */
  function NonEmptyPieces(pieces: seq<string>): (r: seq<string>)
    ensures forall t :: t in r <==> t in pieces && t != []
    decreases |pieces|
  {
    if pieces == [] then []
    else (if pieces[0] != [] then [pieces[0]] else []) + NonEmptyPieces(pieces[1..])
  }

  /** `[t for t in s.split(',') if t]`, the tag list the palette buttons filter by. */
  function SelectionList(s: string): seq<string> {
    NonEmptyPieces(Split(s, ","))
  }

  /** The list and the set read from the same selection string hold the same tags. */
  lemma SelectionListSet(s: string)
    ensures Elements(SelectionList(s)) == SelectionSet(s)
  {
    if s == [] {
      assert Split(s, ",") == [""];
    }
  }

  /** Add the tag when absent, remove it when present. */
  function Toggle(sel: set<string>, tag: string): (r: set<string>)
    ensures tag in r <==> tag !in sel
    ensures forall t :: t != tag ==> (t in r <==> t in sel)
  {
    if tag in sel then sel - {tag} else sel + {tag}
  }

  /** What `toggle_tag_selection` stores: the toggled set, sorted and joined with commas. */
  ghost function ToggledText(s: string, tag: string): string {
    Join(SortedOf(Toggle(SelectionSet(s), tag)), ",")
  }

  /** The canonical text of a selection: its tags sorted and joined with commas. */
  ghost function CanonicalText(sel: set<string>): string {
    Join(SortedOf(sel), ",")
  }

  /** A tag the palette can hold: not empty and free of commas. */
  ghost predicate SelectableTag(t: string) {
    t != [] && ',' !in t
  }

  /** Helper: a string without commas contains no `,` separator, not even one that would
      straddle its end. */
  lemma CommaFree(p: string)
    requires ',' !in p
    ensures Free(p, ",")
    ensures forall k :: 0 <= k < |p| ==> !OccursAt(p + ",", ",", k)
  {
    forall k ensures !OccursAt(p, ",", k) {
      if 0 <= k && k + 1 <= |p| {
        assert p[k..k + 1][0] == p[k];
      }
    }
    forall k | 0 <= k < |p| ensures !OccursAt(p + ",", ",", k) {
      assert (p + ",")[k..k + 1][0] == p[k];
    }
  }

  /** Helper: no piece of a split at `,` contains a comma. */
  lemma PiecesCommaFree(s: string)
    ensures forall t :: t in Split(s, ",") ==> ',' !in t
  {
    SplitPiecesFree(s, ",");
    forall t | t in Split(s, ",") ensures ',' !in t {
      var i :| 0 <= i < |Split(s, ",")| && Split(s, ",")[i] == t;
      ContainsIff(t, ",");
      forall k | 0 <= k < |t| ensures t[k] != ',' {
        assert !OccursAt(t, ",", k);
        assert t[k..k + 1] == [t[k]];
      }
    }
  }

  /** Every tag of a parsed selection is selectable. */
  lemma SelectionSetSelectable(s: string)
    ensures forall t :: t in SelectionSet(s) ==> SelectableTag(t)
  {
    PiecesCommaFree(s);
  }

  /** Reading back the canonical text of a set of selectable tags gives the set. */
  lemma {:induction false} SelectionRoundTrip(sel: set<string>)
    requires forall t :: t in sel ==> SelectableTag(t)
    ensures SelectionSet(CanonicalText(sel)) == sel
  {
    var xs := SortedOf(sel);
    if xs == [] {
      assert sel == {};
    } else {
      forall i | 0 <= i < |xs| ensures Free(xs[i], ",") && forall k :: 0 <= k < |xs[i]| ==> !OccursAt(xs[i] + ",", ",", k) {
        assert xs[i] in sel;
        CommaFree(xs[i]);
      }
      SplitJoin(xs, ",");
      assert Split(Join(xs, ","), ",") == xs;
      assert "" !in sel;
    }
  }

  /** Toggling the same selectable tag twice leaves the canonical text of the original
      selection: the tags sorted, without duplicates or empty pieces. */
  lemma ToggleTwice(s: string, tag: string)
    requires SelectableTag(tag)
    ensures ToggledText(ToggledText(s, tag), tag) == CanonicalText(SelectionSet(s))
  {
    var sel := SelectionSet(s);
    SelectionSetSelectable(s);
    var once := Toggle(sel, tag);
    SelectionRoundTrip(once);
    assert Toggle(once, tag) == sel;
  }

  // ----- Scene state -----

  /** The part of a Blender scene the operators read and write: its objects, its Views, the
      active View's index and the palette's selection string. */
  class Scene {
    const objects: seq<BlendObject>
    var views: seq<View>
    var activeViewIndex: int
    var selectedTags: string

    /** A scene lists each object once. */
    ghost predicate Valid() {
      Distinct(objects)
    }

    /** A scene with the given objects, no Views, active index 0 and nothing selected. */
    constructor (objects: seq<BlendObject>)
      requires Distinct(objects)
      ensures Valid() && this.objects == objects
      ensures views == [] && activeViewIndex == 0 && selectedTags == ""
    {
      this.objects := objects;
      views := [];
      activeViewIndex := 0;
      selectedTags := "";
    }

    /** `VG_OT_toggle_tag_selection`: the tag joins or leaves the selection, which is stored
        sorted and comma-joined. */
    method ToggleTagSelection(tag: string)
      modifies this`selectedTags
      ensures selectedTags == ToggledText(old(selectedTags), tag)
      ensures SelectableTag(tag) ==> SelectionSet(selectedTags) == Toggle(SelectionSet(old(selectedTags)), tag)
    {
      var sel := SelectionSet(selectedTags);
      if tag in sel {
        sel := sel - {tag};
      } else {
        sel := sel + {tag};
      }
      var sorted := SortSet(sel);
      selectedTags := Join(sorted, ",");
      if SelectableTag(tag) {
        SelectionSetSelectable(old(selectedTags));
        SelectionRoundTrip(sel);
      }
    }

    /** The objects the palette buttons act on, found as `get_objects_with_tags` finds them
        in `'OR'` mode; each appears once. */
    method PaletteTargets() returns (targets: seq<BlendObject>)
      requires Valid()
      ensures Distinct(targets)
      ensures forall o :: o in targets <==> o in objects && FilterKeeps(GetTags(o), SelectionList(selectedTags), "OR")
      ensures forall o :: o in targets ==> o in objects
    {
      var selected := SelectionList(selectedTags);
      targets := GetObjectsWithTags(objects, selected, "OR");
      SubsequenceOfDistinct(targets, objects);
    }

    /** `VG_OT_tag_palette_hide`: hides every object carrying a selected tag, then clears
        the selection. */
    method TagPaletteHide()
      requires Valid()
      modifies (set o | o in objects)`hideViewport, this`selectedTags
      ensures selectedTags == ""
      ensures forall o :: o in objects ==>
        o.hideViewport == (FilterKeeps(GetTags(o), SelectionList(old(selectedTags)), "OR") || old(o.hideViewport))
    {
      var targets := PaletteTargets();
      SetHideViewport(targets, true);
      selectedTags := "";
    }

    /** `VG_OT_tag_palette_show`: shows every object carrying a selected tag, then clears
        the selection. */
    method TagPaletteShow()
      requires Valid()
      modifies (set o | o in objects)`hideViewport, this`selectedTags
      ensures selectedTags == ""
      ensures forall o :: o in objects ==>
        o.hideViewport == (!FilterKeeps(GetTags(o), SelectionList(old(selectedTags)), "OR") && old(o.hideViewport))
    {
      var targets := PaletteTargets();
      SetHideViewport(targets, false);
      selectedTags := "";
    }

    /** `VG_OT_tag_palette_toggle`: flips the viewport flag of every object carrying a
        selected tag, then clears the selection. */
    method TagPaletteToggle()
      requires Valid()
      modifies (set o | o in objects)`hideViewport, this`selectedTags
      ensures selectedTags == ""
      ensures forall o :: o in objects ==>
        o.hideViewport == (if FilterKeeps(GetTags(o), SelectionList(old(selectedTags)), "OR")
                           then !old(o.hideViewport) else old(o.hideViewport))
    {
      var targets := PaletteTargets();
      FlipHideViewport(targets);
      selectedTags := "";
    }

    // ----- View management -----

    /** `VG_OT_add_view`: a name that is blank once stripped cancels; otherwise a View with
        the stripped name, the given guid, no query and count 0 is appended and made active. */
    method AddView(viewName: string, guid: string) returns (outcome: Outcome)
      modifies this`views, this`activeViewIndex
      ensures Strip(viewName) == [] ==>
        outcome == Cancelled && views == old(views) && activeViewIndex == old(activeViewIndex)
      ensures Strip(viewName) != [] ==>
        outcome == Finished && views == old(views) + [View(Strip(viewName), guid, "", 0)]
        && activeViewIndex == |views| - 1
    {
      var name := Strip(viewName);
      if name == [] {
        return Cancelled;
      }
      views := views + [View(name, guid, "", 0)];
      activeViewIndex := |views| - 1;
      outcome := Finished;
    }

    /** `VG_OT_delete_view`: removes the View at `viewIndex`, or at the active index when
        `viewIndex` is negative; an index out of range cancels. The active index is pulled
        back to the last View when it falls off the end. */
    method DeleteView(viewIndex: int) returns (outcome: Outcome)
      modifies this`views, this`activeViewIndex
      ensures var index := ChosenIndex(viewIndex, old(activeViewIndex));
        if 0 <= index < |old(views)| then
          outcome == Finished && views == old(views)[..index] + old(views)[index + 1..]
          && activeViewIndex == (if old(activeViewIndex) >= |views| then |views| - 1 else old(activeViewIndex))
        else
          outcome == Cancelled && views == old(views) && activeViewIndex == old(activeViewIndex)
      ensures outcome == Finished ==> |views| == |old(views)| - 1 && activeViewIndex <= |views| - 1
    {
      var index := ChosenIndex(viewIndex, activeViewIndex);
      if index < 0 || index >= |views| {
        return Cancelled;
      }
      views := views[..index] + views[index + 1..];
      if activeViewIndex >= |views| {
        activeViewIndex := |views| - 1;
      }
      outcome := Finished;
    }

    /** `VG_OT_apply_query`: with an active View whose query is blank or valid, its cached
        count becomes the number of objects in the View; an invalid query or no active View
        cancels and changes nothing. */
    method ApplyQuery() returns (outcome: Outcome)
      requires Valid()
      modifies this`views
      ensures !(0 <= activeViewIndex < |old(views)|) ==> outcome == Cancelled && views == old(views)
      ensures 0 <= activeViewIndex < |old(views)| ==>
        var view := old(views)[activeViewIndex];
        if !IsBlank(view.query) && ValidateQuery(view.query) != Validation.Valid then
          outcome == Cancelled && views == old(views)
        else
          outcome == Finished
          && views == old(views)[activeViewIndex := view.(cachedCount := |ViewMembers(view, objects)|)]
    {
      var index := activeViewIndex;
      if index < 0 || index >= |views| {
        return Cancelled;
      }
      var view := views[index];
      if !IsBlank(view.query) {
        var validation := ValidateQuery(view.query);
        if validation != Validation.Valid {
          return Cancelled;
        }
      }
      Recount(index);
      outcome := Finished;
    }

    /** Re-counts the View at `index` as `get_objects_in_view` counts it. */
    method Recount(index: int)
      requires 0 <= index < |views|
      modifies this`views
      ensures views == old(views)[index := Counted(old(views)[index], objects)]
    {
      var view := Recounted(views[index], objects);
      views := views[index := view];
    }

    // ----- Explicit membership -----

    /** `VG_OT_add_to_view`: puts the active View's membership tag on every selected object
        and re-counts the View; a View without a guid cancels and no tag changes. */
    method AddToView(selected: seq<BlendObject>) returns (outcome: Outcome)
      requires Valid() && 0 <= activeViewIndex < |views|
      requires forall o :: o in selected ==> o in objects
      modifies (set o | o in selected)`tagSlot, this`views
      ensures var view := old(views)[activeViewIndex];
        if view.guid == [] then
          outcome == Cancelled && views == old(views)
          && forall o :: o in selected ==> o.tagSlot == old(o.tagSlot)
        else
          outcome == Finished
          && views == old(views)[activeViewIndex := view.(cachedCount := |ViewMembers(view, objects)|)]
          && forall o :: o in selected ==> GetTags(o) == AppendIfAbsent(old(GetTags(o)), MembershipTag(view.guid))
    {
      var view := views[activeViewIndex];
      if view.guid == [] {
        return Cancelled;
      }
      TagAll(selected, MembershipTag(view.guid));
      Recount(activeViewIndex);
      outcome := Finished;
    }

    /** `VG_OT_remove_from_view`: takes the active View's membership tag off every selected
        object and re-counts the View; a View without a guid cancels and no tag changes. */
    method RemoveFromView(selected: seq<BlendObject>) returns (outcome: Outcome)
      requires Valid() && 0 <= activeViewIndex < |views|
      requires Distinct(selected) && forall o :: o in selected ==> o in objects
      modifies (set o | o in selected)`tagSlot, this`views
      ensures var view := old(views)[activeViewIndex];
        if view.guid == [] then
          outcome == Cancelled && views == old(views)
          && forall o :: o in selected ==> o.tagSlot == old(o.tagSlot)
        else
          outcome == Finished
          && views == old(views)[activeViewIndex := view.(cachedCount := |ViewMembers(view, objects)|)]
          && forall o :: o in selected ==> GetTags(o) == RemoveFirst(old(GetTags(o)), MembershipTag(view.guid))
    {
      var view := views[activeViewIndex];
      if view.guid == [] {
        return Cancelled;
      }
      UntagAll(selected, MembershipTag(view.guid));
      Recount(activeViewIndex);
      outcome := Finished;
    }

    /** `VG_OT_clear_view_membership`: takes the active View's membership tag off every
        scene object that carries it, counting them, and re-counts the View; a View without
        a guid cancels and no tag changes. */
    method ClearViewMembership() returns (outcome: Outcome, count: nat)
      requires Valid() && 0 <= activeViewIndex < |views|
      modifies (set o | o in objects)`tagSlot, this`views
      ensures var view := old(views)[activeViewIndex];
        if view.guid == [] then
          outcome == Cancelled && count == 0 && views == old(views)
          && forall o :: o in objects ==> o.tagSlot == old(o.tagSlot)
        else
          outcome == Finished
          && count == |old(Carriers(MembershipTag(view.guid), objects))|
          && views == old(views)[activeViewIndex := view.(cachedCount := |ViewMembers(view, objects)|)]
          && (forall o :: o in objects ==> GetTags(o) == RemoveFirst(old(GetTags(o)), MembershipTag(view.guid)))
          && (forall o :: o in objects && multiset(old(GetTags(o)))[MembershipTag(view.guid)] <= 1 ==>
                MembershipTag(view.guid) !in GetTags(o))
    {
      var view := views[activeViewIndex];
      if view.guid == [] {
        return Cancelled, 0;
      }
      count := ClearTag(objects, MembershipTag(view.guid));
      Recount(activeViewIndex);
      outcome := Finished;
    }

    // ----- View visibility -----

    /** `VG_OT_toggle_view_visibility`: when every object of the chosen View is visible they
        are all hidden, otherwise they are all shown; an index out of range or an empty View
        cancels. */
    method ToggleViewVisibility(viewIndex: int) returns (outcome: Outcome)
      modifies (set o | o in objects)`hideViewport
      ensures var index := ChosenIndex(viewIndex, activeViewIndex);
        if !(0 <= index < |views|) || old(ViewMembers(views[index], objects)) == {} then
          outcome == Cancelled && forall o :: o in objects ==> o.hideViewport == old(o.hideViewport)
        else
          var members := old(ViewMembers(views[index], objects));
          outcome == Finished
          && forall o :: o in objects ==>
               o.hideViewport == if o in members then old(AllShown(members)) else old(o.hideViewport)
    {
      var index := ChosenIndex(viewIndex, activeViewIndex);
      if index < 0 || index >= |views| {
        return Cancelled;
      }
      outcome := ToggleViewportOf(views[index], objects, ViewMembers(views[index], objects));
    }

    /** `VG_OT_toggle_view_render_visibility`: the same rule for the render flag. */
    method ToggleViewRenderVisibility(viewIndex: int) returns (outcome: Outcome)
      modifies (set o | o in objects)`hideRender
      ensures var index := ChosenIndex(viewIndex, activeViewIndex);
        if !(0 <= index < |views|) || old(ViewMembers(views[index], objects)) == {} then
          outcome == Cancelled && forall o :: o in objects ==> o.hideRender == old(o.hideRender)
        else
          var members := old(ViewMembers(views[index], objects));
          outcome == Finished
          && forall o :: o in objects ==>
               o.hideRender == if o in members then old(AllRendered(members)) else old(o.hideRender)
    {
      var index := ChosenIndex(viewIndex, activeViewIndex);
      if index < 0 || index >= |views| {
        return Cancelled;
      }
      outcome := ToggleRenderOf(views[index], objects, ViewMembers(views[index], objects));
    }
  }

  /** The index an operator with a `view_index` property works on: that index when it is
      not negative, the active index otherwise. */
  function ChosenIndex(viewIndex: int, activeViewIndex: int): (index: int)
    ensures viewIndex >= 0 ==> index == viewIndex
    ensures viewIndex < 0 ==> index == activeViewIndex
  {
    if viewIndex >= 0 then viewIndex else activeViewIndex
  }

  /** Every object of the set is visible in the viewport. */
  ghost predicate AllShown(members: set<BlendObject>)
    reads members`hideViewport
  {
    forall o :: o in members ==> !o.hideViewport
  }

  /** Every object of the set is enabled for rendering. */
  ghost predicate AllRendered(members: set<BlendObject>)
    reads members`hideRender
  {
    forall o :: o in members ==> !o.hideRender
  }

  /** `get_objects_in_view`, for a caller that names the View's members `memberSet`. */
  method MembersOf(view: View, objects: seq<BlendObject>, ghost memberSet: set<BlendObject>)
    returns (members: seq<BlendObject>)
    requires memberSet == ViewMembers(view, objects)
    ensures forall o :: o in members <==> o in memberSet
    ensures forall o :: o in members ==> o in objects
  {
    members := GetObjectsInView(view, objects);
  }

  /** The viewport toggle applied to one View's members, `memberSet`. */
  method ToggleViewportOf(view: View, objects: seq<BlendObject>, ghost memberSet: set<BlendObject>)
    returns (outcome: Outcome)
    requires memberSet == ViewMembers(view, objects)
    modifies (set o | o in objects)`hideViewport
    ensures memberSet == {} ==>
      outcome == Cancelled && forall o :: o in objects ==> o.hideViewport == old(o.hideViewport)
    ensures memberSet != {} ==>
      outcome == Finished
      && forall o :: o in objects ==> o.hideViewport == if o in memberSet then old(AllShown(memberSet)) else old(o.hideViewport)
  {
    var members := MembersOf(view, objects, memberSet);
    outcome := ToggleViewportAmong(members, objects, memberSet);
  }

  /** The viewport toggle applied to the members of one View, listed in `members`; the other
      scene objects keep their flag. */
  method ToggleViewportAmong(members: seq<BlendObject>, objects: seq<BlendObject>, ghost memberSet: set<BlendObject>)
    returns (outcome: Outcome)
    requires forall o :: o in members <==> o in memberSet
    requires forall o :: o in members ==> o in objects
    modifies (set o | o in objects)`hideViewport
    ensures memberSet == {} ==>
      outcome == Cancelled && forall o :: o in objects ==> o.hideViewport == old(o.hideViewport)
    ensures memberSet != {} ==>
      outcome == Finished
      && forall o :: o in objects ==> o.hideViewport == if o in memberSet then old(AllShown(memberSet)) else old(o.hideViewport)
  {
    ghost var before := AllShown(memberSet);
    outcome := ToggleViewport(members, memberSet, before);
    assert forall o :: o in objects && o !in memberSet ==> o !in members;
  }

  /** The render toggle applied to one View's members, `memberSet`. */
  method ToggleRenderOf(view: View, objects: seq<BlendObject>, ghost memberSet: set<BlendObject>)
    returns (outcome: Outcome)
    requires memberSet == ViewMembers(view, objects)
    modifies (set o | o in objects)`hideRender
    ensures memberSet == {} ==>
      outcome == Cancelled && forall o :: o in objects ==> o.hideRender == old(o.hideRender)
    ensures memberSet != {} ==>
      outcome == Finished
      && forall o :: o in objects ==> o.hideRender == if o in memberSet then old(AllRendered(memberSet)) else old(o.hideRender)
  {
    var members := MembersOf(view, objects, memberSet);
    outcome := ToggleRenderAmong(members, objects, memberSet);
  }

  /** The render toggle applied to the members of one View, listed in `members`; the other
      scene objects keep their flag. */
  method ToggleRenderAmong(members: seq<BlendObject>, objects: seq<BlendObject>, ghost memberSet: set<BlendObject>)
    returns (outcome: Outcome)
    requires forall o :: o in members <==> o in memberSet
    requires forall o :: o in members ==> o in objects
    modifies (set o | o in objects)`hideRender
    ensures memberSet == {} ==>
      outcome == Cancelled && forall o :: o in objects ==> o.hideRender == old(o.hideRender)
    ensures memberSet != {} ==>
      outcome == Finished
      && forall o :: o in objects ==> o.hideRender == if o in memberSet then old(AllRendered(memberSet)) else old(o.hideRender)
  {
    ghost var before := AllRendered(memberSet);
    outcome := ToggleRender(members, memberSet, before);
    assert forall o :: o in objects && o !in memberSet ==> o !in members;
  }

  /** Hides every listed object when all were visible, and shows them all otherwise; an
      empty list cancels. */
  method ToggleViewport(members: seq<BlendObject>, ghost memberSet: set<BlendObject>, ghost before: bool)
    returns (outcome: Outcome)
    requires forall o :: o in members <==> o in memberSet
    requires before == AllShown(memberSet)
    modifies members`hideViewport
    ensures outcome == Cancelled <==> memberSet == {}
    ensures forall o :: o in memberSet ==> o.hideViewport == before
  {
    if |members| == 0 {
      assert memberSet == {};
      return Cancelled;
    }
    assert members[0] in memberSet;
    var all := AllVisible(members);
    SetHideViewport(members, all);
    outcome := Finished;
  }

  /** Disables rendering of every listed object when all were enabled, and enables them
      all otherwise; an empty list cancels. */
  method ToggleRender(members: seq<BlendObject>, ghost memberSet: set<BlendObject>, ghost before: bool)
    returns (outcome: Outcome)
    requires forall o :: o in members <==> o in memberSet
    requires before == AllRendered(memberSet)
    modifies members`hideRender
    ensures outcome == Cancelled <==> memberSet == {}
    ensures forall o :: o in memberSet ==> o.hideRender == before
  {
    if |members| == 0 {
      assert memberSet == {};
      return Cancelled;
    }
    assert members[0] in memberSet;
    var all := AllRenderVisible(members);
    SetHideRender(members, all);
    outcome := Finished;
  }

  /** The number of objects `get_objects_in_view` returns for a View. */
  method CountView(view: View, objects: seq<BlendObject>) returns (n: int)
    ensures n == |ViewMembers(view, objects)|
  {
    var matching := GetObjectsInView(view, objects);
    n := |matching|;
  }

  /** The View with its cached count set to the number of objects in it. */
  function Counted(view: View, objects: seq<BlendObject>): View
    reads objects`tagSlot
  {
    view.(cachedCount := |ViewMembers(view, objects)|)
  }

  /** `len(get_objects_in_view(view, scene))` stored as the View's cached count. */
  method Recounted(view: View, objects: seq<BlendObject>) returns (r: View)
    ensures r == Counted(view, objects)
  {
    var count := CountView(view, objects);
    r := view.(cachedCount := count);
  }

  /** `add_tag` on each target in turn; adding twice to the same object changes nothing. */
  method TagAll(targets: seq<BlendObject>, tag: string)
    modifies targets`tagSlot
    ensures forall o :: o in targets ==> GetTags(o) == AppendIfAbsent(old(GetTags(o)), tag)
  {
    var i := 0;
    while i < |targets|
      invariant 0 <= i <= |targets|
      invariant forall o :: o in targets ==>
        GetTags(o) == if o in targets[..i] then AppendIfAbsent(old(GetTags(o)), tag) else old(GetTags(o))
    {
      var o := targets[i];
      AppendIfAbsentIdempotent(old(GetTags(o)), tag);
      AddTagToObject(o, tag);
      assert targets[..i + 1] == targets[..i] + [o];
      i := i + 1;
    }
    assert targets[..i] == targets;
  }

  /** `remove_tag` on each of a list of distinct targets. */
  method UntagAll(targets: seq<BlendObject>, tag: string)
    requires Distinct(targets)
    modifies targets`tagSlot
    ensures forall o :: o in targets ==> GetTags(o) == RemoveFirst(old(GetTags(o)), tag)
  {
    var i := 0;
    while i < |targets|
      invariant 0 <= i <= |targets|
      invariant forall o :: o in targets ==>
        GetTags(o) == if o in targets[..i] then RemoveFirst(old(GetTags(o)), tag) else old(GetTags(o))
    {
      var o := targets[i];
      DistinctNotBefore(targets, i);
      RemoveTagFromObject(o, tag);
      assert targets[..i + 1] == targets[..i] + [o];
      i := i + 1;
    }
    assert targets[..i] == targets;
  }

  /** The scan of `clear_view_membership`: the objects that carry the tag are counted, and
      each of them loses one occurrence of it (the others are left as they are). */
  method ClearTag(objects: seq<BlendObject>, tag: string) returns (count: nat)
    requires Distinct(objects)
    modifies objects`tagSlot
    ensures count == |old(Carriers(tag, objects))|
    ensures forall o :: o in objects ==> GetTags(o) == RemoveFirst(old(GetTags(o)), tag)
    ensures forall o :: o in objects && multiset(old(GetTags(o)))[tag] <= 1 ==> tag !in GetTags(o)
  {
    var carriers := CollectCarriers(tag, objects);
    count := |carriers|;
    UntagAll(objects, tag);
    forall o | o in objects && multiset(old(GetTags(o)))[tag] <= 1
      ensures tag !in GetTags(o)
    {
      RemoveUniqueTag(old(GetTags(o)), tag);
    }
  }

  /** `all(not obj.hide_viewport for obj in objects)`, stopping at the first hidden one. */
  method AllVisible(targets: seq<BlendObject>) returns (all: bool)
    ensures all <==> forall o :: o in targets ==> !o.hideViewport
  {
    var i := 0;
    while i < |targets|
      invariant 0 <= i <= |targets|
      invariant forall k :: 0 <= k < i ==> !targets[k].hideViewport
    {
      if targets[i].hideViewport {
        return false;
      }
      i := i + 1;
    }
    return true;
  }

  /** `all(not obj.hide_render for obj in objects)`, stopping at the first hidden one. */
  method AllRenderVisible(targets: seq<BlendObject>) returns (all: bool)
    ensures all <==> forall o :: o in targets ==> !o.hideRender
  {
    var i := 0;
    while i < |targets|
      invariant 0 <= i <= |targets|
      invariant forall k :: 0 <= k < i ==> !targets[k].hideRender
    {
      if targets[i].hideRender {
        return false;
      }
      i := i + 1;
    }
    return true;
  }

  /** `for obj in objects: obj.hide_viewport = value`. */
  method SetHideViewport(targets: seq<BlendObject>, value: bool)
    modifies targets`hideViewport
    ensures forall o :: o in targets ==> o.hideViewport == value
  {
    var i := 0;
    while i < |targets|
      invariant 0 <= i <= |targets|
      invariant forall k :: 0 <= k < i ==> targets[k].hideViewport == value
    {
      targets[i].hideViewport := value;
      i := i + 1;
    }
  }

  /** `for obj in objects: obj.hide_render = value`. */
  method SetHideRender(targets: seq<BlendObject>, value: bool)
    modifies targets`hideRender
    ensures forall o :: o in targets ==> o.hideRender == value
  {
    var i := 0;
    while i < |targets|
      invariant 0 <= i <= |targets|
      invariant forall k :: 0 <= k < i ==> targets[k].hideRender == value
    {
      targets[i].hideRender := value;
      i := i + 1;
    }
  }

  /** `for obj in objects: obj.hide_viewport = not obj.hide_viewport`, each object once. */
  method FlipHideViewport(targets: seq<BlendObject>)
    requires Distinct(targets)
    modifies targets`hideViewport
    ensures forall o :: o in targets ==> o.hideViewport == !old(o.hideViewport)
  {
    var i := 0;
    while i < |targets|
      invariant 0 <= i <= |targets|
      invariant forall k :: 0 <= k < i ==> targets[k].hideViewport == !old(targets[k].hideViewport)
      invariant forall k :: i <= k < |targets| ==> targets[k].hideViewport == old(targets[k].hideViewport)
    {
      targets[i].hideViewport := !targets[i].hideViewport;
      i := i + 1;
    }
  }
}

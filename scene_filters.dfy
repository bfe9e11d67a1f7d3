/** The scene scans of `virtual_groups/utils.py`: every tag in the scene, sorted; the objects
    carrying any or all of a list of tags; and the hybrid rule that resolves a View to the
    objects its query matches together with the objects explicitly added to it. */
module SceneFilters {
  import opened Text
  import opened Sequences
  import opened Ordering
  import opened TagStore
  import opened SceneScan
  import opened QueryParser

  // ----- `get_all_scene_tags` -----

  /** Every tag some scene object carries. */
  function SceneTags(objects: seq<BlendObject>): set<string>
    reads objects`tagSlot
  {
    set o, t | o in objects && t in GetTags(o) :: t
  }

  /** `get_all_scene_tags`: the union of the objects' tag sets, then `sorted`. */
  method GetAllSceneTags(objects: seq<BlendObject>) returns (r: seq<string>)
    ensures StrictlySorted(r)
    ensures forall t :: t in r <==> exists o :: o in objects && t in GetTags(o)
    ensures r == SortedOf(SceneTags(objects))
  {
    var all: set<string> := {};
    var i := 0;
    while i < |objects|
      invariant 0 <= i <= |objects|
      invariant all == SceneTags(objects[..i])
    {
      assert objects[..i + 1] == objects[..i] + [objects[i]];
      all := all + Elements(GetTags(objects[i]));
      i := i + 1;
    }
    assert objects[..i] == objects;
    r := SortSet(all);
  }

  /** One object tagged `zebra`, `apple`, `mouse` gives the list `apple`, `mouse`, `zebra`. */
  lemma SortedSceneTagsExample()
    ensures SortedOf({"zebra", "apple", "mouse"}) == ["apple", "mouse", "zebra"]
  {
    var xs := ["apple", "mouse", "zebra"];
    assert Less("apple", "mouse") && Less("mouse", "zebra") && Less("apple", "zebra");
    assert StrictlySorted(xs);
    SortedUnique(xs, SortedOf({"zebra", "apple", "mouse"}));
  }

  // ----- `get_objects_with_tags` -----

  /** Whether `get_objects_with_tags(scene, tags, mode)` keeps an object with these tags:
      never for an empty tag list; in `'OR'` mode when the object has one of the tags, in
      `'AND'` mode when it has all of them; and never for any other mode. */
  predicate FilterKeeps(objTags: seq<string>, tags: seq<string>, mode: string) {
    Elements(tags) != {} &&
    if mode == "OR" then Elements(objTags) * Elements(tags) != {}
    else if mode == "AND" then Elements(tags) <= Elements(objTags)
    else false
  }

  /** `FilterKeeps` as a test on an object's tag list. */
  function FilterTest(tags: seq<string>, mode: string): seq<string> -> bool {
    objTags => FilterKeeps(objTags, tags, mode)
  }

  /** What each mode means for one object, and that no tags select nothing. */
  lemma FilterKeepsMeaning(objTags: seq<string>, tags: seq<string>, mode: string)
    ensures tags == [] ==> !FilterKeeps(objTags, tags, mode)
    ensures mode == "OR" ==>
      (FilterKeeps(objTags, tags, mode) <==> exists t :: t in tags && t in objTags)
    ensures mode == "AND" ==>
      (FilterKeeps(objTags, tags, mode) <==> tags != [] && forall t :: t in tags ==> t in objTags)
    ensures mode != "OR" && mode != "AND" ==> !FilterKeeps(objTags, tags, mode)
  {
    if tags != [] {
      assert tags[0] in Elements(tags);
    }
    if mode == "OR" && exists t :: t in tags && t in objTags {
      var t :| t in tags && t in objTags;
      assert t in Elements(objTags) * Elements(tags);
    }
    if mode == "AND" {
      if forall t :: t in tags ==> t in objTags {
        assert forall t :: t in Elements(tags) ==> t in Elements(objTags);
      }
      if Elements(tags) <= Elements(objTags) {
        forall t | t in tags ensures t in objTags {
          assert t in Elements(tags);
        }
      }
    }
  }

  /** `get_objects_with_tags`: one pass over the scene, appending each object the filter
      keeps; an empty tag list returns at once. */
  method GetObjectsWithTags(objects: seq<BlendObject>, tags: seq<string>, mode: string)
    returns (matching: seq<BlendObject>)
    ensures tags == [] ==> matching == []
    ensures forall o :: o in matching <==> o in objects && FilterKeeps(GetTags(o), tags, mode)
    ensures IsSubsequence(matching, objects)
    ensures matching == ObjectsWhere(objects, FilterTest(tags, mode))
  {
    matching := [];
    var tagSet := Elements(tags);
    if tagSet == {} {
      ObjectsWhereNone(objects, FilterTest(tags, mode));
      ObjectsWhereSubsequence(objects, FilterTest(tags, mode));
      return;
    }
    var i := 0;
    while i < |objects|
      invariant 0 <= i <= |objects|
      invariant matching == ObjectsWhere(objects[..i], FilterTest(tags, mode))
    {
      assert objects[..i + 1][..i] == objects[..i];
      var objTags := Elements(GetTags(objects[i]));
      if mode == "OR" {
        if objTags * tagSet != {} {
          matching := matching + [objects[i]];
        }
      } else if mode == "AND" {
        if tagSet <= objTags {
          matching := matching + [objects[i]];
        }
      }
      i := i + 1;
    }
    assert objects[..i] == objects;
    ObjectsWhereMembers(objects, FilterTest(tags, mode));
    ObjectsWhereSubsequence(objects, FilterTest(tags, mode));
  }

  // ----- `get_objects_in_view` -----

  /** A View as the scene stores it (`VG_ViewProperty`): its name, the guid that names its
      membership tag, its query (possibly empty) and the count last computed for it. */
  datatype View = View(name: string, guid: string, query: string, cachedCount: int)

  /** The reserved tag `view-<guid>` that marks explicit membership of a View. */
  function MembershipTag(guid: string): (t: string)
    ensures StartsWith(t, "view-") && t[5..] == guid
  {
    "view-" + guid
  }

  /** The hybrid rule: an object belongs to a View when the View has a non-blank query that
      holds for it, or when it carries the View's membership tag. */
  predicate InView(view: View, o: BlendObject)
    reads o`tagSlot
  {
    (!IsBlank(view.query) && EvaluateQuery(view.query, o)) || MembershipTag(view.guid) in GetTags(o)
  }

  /** The objects carrying a membership tag. */
  function Carriers(tag: string, objects: seq<BlendObject>): set<BlendObject>
    reads objects`tagSlot
  {
    set o | o in objects && tag in GetTags(o)
  }

  /** The objects of a View: the union, not the intersection, of what its query selects
      (nothing when the query is blank) and what carries its membership tag. */
  function ViewMembers(view: View, objects: seq<BlendObject>): set<BlendObject>
    reads objects`tagSlot
  {
    (if IsBlank(view.query) then {} else Elements(QueryMatches(view.query, objects)))
    + Carriers(MembershipTag(view.guid), objects)
  }

  /** An object belongs to a View exactly when it is in the scene and the hybrid rule admits
      it; with a blank query only the membership tag admits objects. */
  lemma ViewMembersMeaning(view: View, objects: seq<BlendObject>)
    ensures forall o :: o in ViewMembers(view, objects) <==> o in objects && InView(view, o)
    ensures IsBlank(view.query) ==> ViewMembers(view, objects) == Carriers(MembershipTag(view.guid), objects)
  {
    ObjectsWhereMembers(objects, QueryTest(view.query));
  }

  /** `get_objects_in_view`: a set filled with the query matches (when the query is not
      blank) and then with every object carrying the membership tag, returned as a list, so
      each member appears once and the order is left open. */
  method GetObjectsInView(view: View, objects: seq<BlendObject>) returns (r: seq<BlendObject>)
    ensures Distinct(r)
    ensures forall o :: o in r <==> o in ViewMembers(view, objects)
    ensures |r| == |ViewMembers(view, objects)|
    ensures forall o :: o in r ==> o in objects
  {
    var members := CollectMembers(view, objects);
    r := ListOf(members);
  }

  /** The set `get_objects_in_view` fills: the query matches, then the carriers of the
      membership tag. */
  method CollectMembers(view: View, objects: seq<BlendObject>) returns (members: set<BlendObject>)
    ensures members == ViewMembers(view, objects)
    ensures forall o :: o in members ==> o in objects
  {
    var matched := CollectQueryMatches(view, objects);
    var carriers := CollectCarriers(MembershipTag(view.guid), objects);
    members := matched + carriers;
  }

  /** The query half of `get_objects_in_view`: nothing for a blank query, otherwise what
      `get_objects_matching_query` returns, as a set. */
  method CollectQueryMatches(view: View, objects: seq<BlendObject>) returns (matched: set<BlendObject>)
    ensures matched == if IsBlank(view.query) then {} else Elements(QueryMatches(view.query, objects))
    ensures forall o :: o in matched ==> o in objects
  {
    matched := {};
    if !IsBlank(view.query) {
      var queryMatches := GetObjectsMatchingQuery(view.query, objects);
      matched := Elements(queryMatches);
      assert forall i :: 0 <= i < |queryMatches| ==> queryMatches[i] in objects;
    }
  }

  /** The membership half of `get_objects_in_view`: one pass over the scene adding each
      object whose tags include `tag`. */
  method CollectCarriers(tag: string, objects: seq<BlendObject>) returns (carriers: set<BlendObject>)
    ensures carriers == Carriers(tag, objects)
    ensures forall o :: o in carriers <==> o in objects && tag in GetTags(o)
  {
    carriers := {};
    var i := 0;
    while i < |objects|
      invariant 0 <= i <= |objects|
      invariant carriers == Carriers(tag, objects[..i])
    {
      CarriersStep(tag, objects, i);
      if tag in GetTags(objects[i]) {
        carriers := carriers + {objects[i]};
      }
      i := i + 1;
    }
    assert objects[..i] == objects;
  }

  /** Helper: scanning one more object adds it to the carriers when it carries the tag. */
  lemma CarriersStep(tag: string, objects: seq<BlendObject>, i: int)
    requires 0 <= i < |objects|
    ensures Carriers(tag, objects[..i + 1]) ==
      Carriers(tag, objects[..i]) + (if tag in GetTags(objects[i]) then {objects[i]} else {})
  {
    assert objects[..i + 1] == objects[..i] + [objects[i]];
  }
}

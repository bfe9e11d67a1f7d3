/** The scan every scene filter of the add-on performs: walk `scene.objects` in order and
    keep each object whose tag list passes a test (`get_objects_matching_query` in
    `virtual_groups/query_parser.py`, `get_objects_with_tags` in `virtual_groups/utils.py`). */
module SceneScan {
  import opened TagStore
  import opened Sequences

  /** The objects whose tag list passes `test`, in their original order: the shape of each
      `for obj in scene.objects: if ...: result.append(obj)` scan over the scene. */
  function ObjectsWhere(objects: seq<BlendObject>, test: seq<string> -> bool): (r: seq<BlendObject>)
    reads objects`tagSlot
    ensures forall i :: 0 <= i < |r| ==> r[i] in objects && test(GetTags(r[i]))
    ensures |r| <= |objects|
    decreases |objects|
  {
    if objects == [] then []
    else
      var last := objects[|objects| - 1];
      ObjectsWhere(objects[..|objects| - 1], test) + (if test(GetTags(last)) then [last] else [])
  }

  /** Every object that passes the test is kept. */
  lemma {:induction false} ObjectsWhereComplete(objects: seq<BlendObject>, test: seq<string> -> bool, i: int)
    requires 0 <= i < |objects| && test(GetTags(objects[i]))
    ensures objects[i] in ObjectsWhere(objects, test)
    decreases |objects|
  {
    if i < |objects| - 1 {
      var init := objects[..|objects| - 1];
      assert init[i] == objects[i];
      ObjectsWhereComplete(init, test, i);
    }
  }

  /** The kept objects are an order-preserving subsequence of the scanned ones. */
  lemma {:induction false} ObjectsWhereSubsequence(objects: seq<BlendObject>, test: seq<string> -> bool)
    ensures IsSubsequence(ObjectsWhere(objects, test), objects)
    decreases |objects|
  {
    if objects != [] {
      var init := objects[..|objects| - 1];
      var last := objects[|objects| - 1];
      var r := ObjectsWhere(objects, test);
      ObjectsWhereSubsequence(init, test);
      if test(GetTags(last)) {
        assert r[..|r| - 1] == ObjectsWhere(init, test);
        assert r[|r| - 1] == last;
      } else {
        assert r == ObjectsWhere(init, test);
      }
    }
  }

  /** Nothing is kept when no object passes. */
  lemma {:induction false} ObjectsWhereNone(objects: seq<BlendObject>, test: seq<string> -> bool)
    requires forall i :: 0 <= i < |objects| ==> !test(GetTags(objects[i]))
    ensures ObjectsWhere(objects, test) == []
    decreases |objects|
  {
    if objects != [] {
      var init := objects[..|objects| - 1];
      assert forall i :: 0 <= i < |init| ==> init[i] == objects[i];
      ObjectsWhereNone(init, test);
    }
  }

  /** An object is kept exactly when it is one of the scanned objects and passes the test. */
  lemma ObjectsWhereMembers(objects: seq<BlendObject>, test: seq<string> -> bool)
    ensures forall o :: o in ObjectsWhere(objects, test) <==> o in objects && test(GetTags(o))
  {
    forall o | o in objects && test(GetTags(o)) ensures o in ObjectsWhere(objects, test) {
      var i :| 0 <= i < |objects| && objects[i] == o;
      ObjectsWhereComplete(objects, test, i);
    }
  }
}

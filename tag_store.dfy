/** The tag store of `virtual_groups/utils.py`: each host object keeps its tags as an ordered
    list of strings in its `"vg_tags"` custom property, read and written whole. */
module TagStore {
  import opened Wrappers
  import opened Text
  import opened Sequences

  /** What the `"vg_tags"` property slot can hold: the text `json.dumps` wrote for a list of
      strings, or text that `json.loads` rejects. */
  datatype Raw = Encoded(tags: seq<string>) | Unparseable(text: string)

  /** `json.loads` on the slot's text: the list back, or a decode error. */
  function Decode(raw: Raw): (r: Option<seq<string>>)
    ensures raw.Unparseable? ==> r == None
  {
    match raw
    case Encoded(tags) => Some(tags)
    case Unparseable(_) => None
  }

  /** `json.dumps` of a list of strings. */
  function Encode(tags: seq<string>): (raw: Raw)
    ensures Decode(raw) == Some(tags)
  {
    Encoded(tags)
  }

  /** A host scene object: the tag slot (absent until first written) and the two visibility
      flags the operators toggle. */
  class BlendObject {
    var tagSlot: Option<Raw>
    var hideViewport: bool
    var hideRender: bool

    constructor (tagSlot: Option<Raw>, hideViewport: bool, hideRender: bool)
      ensures this.tagSlot == tagSlot
      ensures this.hideViewport == hideViewport && this.hideRender == hideRender
    {
      this.tagSlot := tagSlot;
      this.hideViewport := hideViewport;
      this.hideRender := hideRender;
    }
  }

  /** `get_tags_on_object`: the stored list; a missing slot reads as the default text `"[]"`,
      and text that cannot be decoded reads as the empty list. */
  function GetTags(o: BlendObject): (r: seq<string>)
    reads o`tagSlot
    ensures o.tagSlot == None ==> r == []
    ensures o.tagSlot.Some? && Decode(o.tagSlot.value) == None ==> r == []
    ensures o.tagSlot.Some? && Decode(o.tagSlot.value).Some? ==> r == Decode(o.tagSlot.value).value
  {
    match Decode(o.tagSlot.GetOr(Encode([])))
    case Some(tags) => tags
    case None => []
  }

  /** `set(get_tags_on_object(obj))`, the tag set queries and filters test against. */
  function TagSetOf(o: BlendObject): set<string>
    reads o`tagSlot
  {
    Elements(GetTags(o))
  }

  /** `set_tags_on_object`: overwrites the slot; what is read back is the list as given. */
  method SetTagsOnObject(o: BlendObject, tags: seq<string>)
    modifies o`tagSlot
    ensures o.tagSlot == Some(Encode(tags))
    ensures GetTags(o) == tags
  {
    o.tagSlot := Some(Encode(tags));
  }

  /** `tags.append(tag)` guarded by `tag not in tags`. */
  function AppendIfAbsent(tags: seq<string>, tag: string): seq<string>
  {
    if tag in tags then tags else tags + [tag]
  }

  /** `tags.index(tag)`: the position of the first occurrence. */
  function IndexOf(tags: seq<string>, tag: string): (i: nat)
    requires tag in tags
    ensures i < |tags| && tags[i] == tag && tag !in tags[..i]
    decreases |tags|
  {
    if tags[0] == tag then 0
    else
      var i := IndexOf(tags[1..], tag);
      assert tags[..i + 1] == [tags[0]] + tags[1..][..i];
      i + 1
  }

  /** `tags.remove(tag)` guarded by `tag in tags`: the first occurrence is cut out. */
  function RemoveFirst(tags: seq<string>, tag: string): seq<string>
  {
    if tag in tags then tags[..IndexOf(tags, tag)] + tags[IndexOf(tags, tag) + 1..] else tags
  }

  /** `add_tag_to_object`: appends the tag when it is absent; when it is present nothing is
      written, so the slot keeps its exact old value. */
  method AddTagToObject(o: BlendObject, tag: string)
    modifies o`tagSlot
    ensures GetTags(o) == AppendIfAbsent(old(GetTags(o)), tag)
    ensures tag in old(GetTags(o)) ==> o.tagSlot == old(o.tagSlot)
  {
    var tags := GetTags(o);
    if tag !in tags {
      tags := tags + [tag];
      SetTagsOnObject(o, tags);
    }
  }

  /** `remove_tag_from_object`: cuts out the first occurrence; when the tag is absent nothing
      is written and no error is raised. */
  method RemoveTagFromObject(o: BlendObject, tag: string)
    modifies o`tagSlot
    ensures GetTags(o) == RemoveFirst(old(GetTags(o)), tag)
    ensures tag !in old(GetTags(o)) ==> o.tagSlot == old(o.tagSlot)
  {
    var tags := GetTags(o);
    if tag in tags {
      tags := RemoveFirst(tags, tag);
      SetTagsOnObject(o, tags);
    }
  }

  // Properties of the list operations behind add and remove.

  /** Adding keeps every old tag in place, and afterwards the tag is there. */
  lemma AppendIfAbsentMeaning(tags: seq<string>, tag: string)
    ensures tag in AppendIfAbsent(tags, tag)
    ensures AppendIfAbsent(tags, tag)[..|tags|] == tags
    ensures |AppendIfAbsent(tags, tag)| == |tags| + (if tag in tags then 0 else 1)
    ensures (set t | t in AppendIfAbsent(tags, tag)) == (set t | t in tags) + {tag}
  {
  }

  /** Adding twice is adding once. */
  lemma AppendIfAbsentIdempotent(tags: seq<string>, tag: string)
    ensures AppendIfAbsent(AppendIfAbsent(tags, tag), tag) == AppendIfAbsent(tags, tag)
  {
  }

  /** A tag that was absent occurs exactly once after adding, however often it is added. */
  lemma AddedOnce(tags: seq<string>, tag: string)
    requires tag !in tags
    ensures multiset(AppendIfAbsent(AppendIfAbsent(tags, tag), tag))[tag] == 1
  {
    assert multiset(tags)[tag] == 0;
  }

  /** Removal takes away exactly one copy of a present tag and keeps every other tag. */
  lemma RemoveFirstMeaning(tags: seq<string>, tag: string)
    ensures tag !in tags ==> RemoveFirst(tags, tag) == tags
    ensures tag in tags ==> |RemoveFirst(tags, tag)| == |tags| - 1
    ensures multiset(RemoveFirst(tags, tag)) == multiset(tags) - multiset{tag}
  {
    if tag in tags {
      var i := IndexOf(tags, tag);
      assert tags == tags[..i] + [tag] + tags[i + 1..];
      assert multiset(tags) == multiset(tags[..i]) + multiset{tag} + multiset(tags[i + 1..]);
    }
  }

  /** Removing a tag that occurs at most once leaves none, and a second removal changes
      nothing. */
  lemma RemoveUniqueTag(tags: seq<string>, tag: string)
    requires multiset(tags)[tag] <= 1
    ensures tag !in RemoveFirst(tags, tag)
    ensures RemoveFirst(RemoveFirst(tags, tag), tag) == RemoveFirst(tags, tag)
  {
    RemoveFirstMeaning(tags, tag);
    assert multiset(RemoveFirst(tags, tag))[tag] == 0;
  }

  /** Removing a tag just added to a list that lacked it restores the list. */
  lemma RemoveUndoesAdd(tags: seq<string>, tag: string)
    requires tag !in tags
    ensures RemoveFirst(AppendIfAbsent(tags, tag), tag) == tags
  {
    var added := tags + [tag];
    var i := IndexOf(added, tag);
    assert forall k :: 0 <= k < |tags| ==> added[k] == tags[k];
    assert added[..|tags|] == tags;
  }

  // Tag-name validation (`validate_tag_name`).

  const EmptyTagNameMessage := "Tag name cannot be empty"
  const BadTagNameMessage := "Tag name can only contain letters, numbers, underscores, and hyphens"

  /** `re.match(r'^[a-zA-Z0-9_-]+$', tag)` as Python runs it: `$` also matches just before
      a final newline, so one trailing `"\n"` is let through. */
  predicate WholeNameMatchAsWritten(tag: string) {
    IsTagName(tag) || (|tag| >= 2 && tag[|tag| - 1] == '\n' && IsTagName(tag[..|tag| - 1]))
  }

  /** `validate_tag_name` as written. */
  function ValidateTagNameAsWritten(tag: string): (r: (bool, string))
    ensures r.0 <==> r.1 == ""
    ensures tag == [] ==> r == (false, EmptyTagNameMessage)
    ensures r.0 <==> WholeNameMatchAsWritten(tag)
  {
    if tag == [] then (false, EmptyTagNameMessage)
    else if !WholeNameMatchAsWritten(tag) then (false, BadTagNameMessage)
    else (true, "")
  }

  /** The as-written check accepts a name followed by a newline, which is not a tag name. */
  lemma TrailingNewlineAccepted()
    ensures ValidateTagNameAsWritten("hero\n") == (true, "")
    ensures !IsTagName("hero\n")
  {
    assert "hero\n"[..4] == "hero";
    assert "hero\n"[4] == '\n';
  }

  /** `validate_tag_name` as its documentation states it: valid exactly for names made only
      of letters, digits, `_` and `-`. */
  function ValidateTagName(tag: string): (r: (bool, string))
    ensures r.0 <==> r.1 == ""
    ensures tag == [] ==> r == (false, EmptyTagNameMessage)
    ensures r.0 <==> IsTagName(tag)
    ensures (exists i :: 0 <= i < |tag| && !IsNameChar(tag[i])) ==> r == (false, BadTagNameMessage)
  {
    if tag == [] then (false, EmptyTagNameMessage)
    else if !IsTagName(tag) then (false, BadTagNameMessage)
    else (true, "")
  }
}

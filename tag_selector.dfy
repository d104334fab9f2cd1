/** The tag picker: a click on a tag removes it from the selected ids when it
    is selected and appends it otherwise, and hands the new list on. */
module TagSelector {
  import JsArray

  datatype Tag = Tag(id: int, name: string)

  /** `selectedIds.filter((tagId) => tagId !== id)`. */
  function Without(selectedIds: seq<int>, id: int): (r: seq<int>)
    ensures id !in r
    ensures forall x :: x != id ==> (x in r <==> x in selectedIds)
  {
    JsArray.Filter(selectedIds, (tagId: int) => tagId != id)
  }

  /** The list `toggleTag(id)` passes to `onChange`. */
  function ToggleTag(selectedIds: seq<int>, id: int): (r: seq<int>)
    ensures id in r <==> id !in selectedIds
    ensures forall x :: x != id ==> (x in r <==> x in selectedIds)
  {
    if id in selectedIds then Without(selectedIds, id) else selectedIds + [id]
  }

  /** `selectedIds.includes(tag.id)`. */
  predicate IsSelected(selectedIds: seq<int>, tag: Tag): (r: bool)
    ensures r <==> exists i :: 0 <= i < |selectedIds| && selectedIds[i] == tag.id
  {
    tag.id in selectedIds
  }

  /** Removing an id deletes every occurrence of it and nothing else. */
  lemma {:induction false} WithoutCounts(s: seq<int>, id: int)
    ensures multiset(Without(s, id)) == multiset(s)[id := 0]
  {
    if s == [] {
    } else {
      WithoutCounts(s[1..], id);
      assert s == [s[0]] + s[1..];
      assert Without(s, id) == (if s[0] != id then [s[0]] else []) + Without(s[1..], id);
    }
  }

  /** Toggling a selected id removes all its occurrences; toggling an
      unselected one appends it at the end. */
  lemma ToggleSelected(s: seq<int>, id: int)
    requires id in s
    ensures multiset(ToggleTag(s, id)) == multiset(s)[id := 0]
  {
    WithoutCounts(s, id);
  }

  lemma ToggleUnselected(s: seq<int>, id: int)
    requires id !in s
    ensures ToggleTag(s, id) == s + [id]
    ensures IsSelected(ToggleTag(s, id), Tag(id, ""))
  {
  }

  /** The other ids keep their relative order. */
  lemma ToggleKeepsOthersInOrder(s: seq<int>, id: int)
    ensures Without(ToggleTag(s, id), id) == Without(s, id)
  {
    if id in s {
      JsArray.FilterKeepsAll(Without(s, id), (tagId: int) => tagId != id);
    } else {
      JsArray.FilterConcat(s, [id], (tagId: int) => tagId != id);
      assert Without([id], id) == [] by {
        assert [id][1..] == [];
      }
    }
  }

  /** Toggling an unselected id twice gives back the original list. */
  lemma ToggleTwiceRestores(s: seq<int>, id: int)
    requires id !in s
    ensures ToggleTag(ToggleTag(s, id), id) == s
  {
    ToggleKeepsOthersInOrder(s, id);
    JsArray.FilterKeepsAll(s, (tagId: int) => tagId != id);
  }

  /** A click on a tag's button flips that tag's highlight and no other. */
  lemma ToggleFlipsSelection(s: seq<int>, tag: Tag, other: Tag)
    requires other.id != tag.id
    ensures IsSelected(ToggleTag(s, tag.id), tag) <==> !IsSelected(s, tag)
    ensures IsSelected(ToggleTag(s, tag.id), other) <==> IsSelected(s, other)
  {
  }
}

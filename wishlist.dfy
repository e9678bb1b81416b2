/**
 * The wishlist context: a list of saved courses kept in page state and
 * written to the browser's storage under the key "courseWishlist" after
 * every change.  The stored value is modelled as the list itself (the JSON
 * round trip is taken to be the identity).
 */
module Wishlist {
  import opened Seqs

  const StorageKey := "courseWishlist"

  /** A saved course; the list keeps the whole course object, of which the id is what is compared. */
  datatype SavedCourse = SavedCourse(id: nat, title: string)

  /** `[...prev, course]`: appended at the end, duplicates allowed. */
  function Added(items: seq<SavedCourse>, course: SavedCourse): (r: seq<SavedCourse>)
    ensures |r| == |items| + 1 && r[..|items|] == items && r[|items|] == course
  {
    items + [course]
  }

  /** `prev.filter(course => course.id !== courseId)`. */
  function Removed(items: seq<SavedCourse>, courseId: nat): (r: seq<SavedCourse>)
    ensures forall i :: 0 <= i < |r| ==> r[i].id != courseId && r[i] in items
    ensures forall i :: 0 <= i < |items| && items[i].id != courseId ==> items[i] in r
    ensures IsSubsequence(r, items)
  {
    Filter(items, (c: SavedCourse) => c.id != courseId)
  }

  /** `wishlist.some(course => course.id === courseId)`. */
  predicate Listed(items: seq<SavedCourse>, courseId: nat)
  {
    exists i :: 0 <= i < |items| && items[i].id == courseId
  }

  /** Removing drops exactly the entries with that id, however many there are. */
  lemma RemovedLength(items: seq<SavedCourse>, courseId: nat)
    ensures |Removed(items, courseId)| == |items| - Count(items, (c: SavedCourse) => c.id == courseId)
  {
    CountComplement(items, courseId);
  }

  lemma {:induction false} CountComplement(items: seq<SavedCourse>, courseId: nat)
    ensures Count(items, (c: SavedCourse) => c.id != courseId) + Count(items, (c: SavedCourse) => c.id == courseId) == |items|
  {
    if items != [] {
      CountComplement(items[..|items| - 1], courseId);
    }
  }

  /** Removing twice is removing once. */
  lemma RemovedIdempotent(items: seq<SavedCourse>, courseId: nat)
    ensures Removed(Removed(items, courseId), courseId) == Removed(items, courseId)
  {
    var r := Removed(items, courseId);
    FilterAll(r, (c: SavedCourse) => c.id != courseId);
  }

  /** Adding a course and then removing its id leaves what removing alone leaves. */
  lemma RemoveAfterAdd(items: seq<SavedCourse>, course: SavedCourse)
    ensures Removed(Added(items, course), course.id) == Removed(items, course.id)
  {
    var s := Added(items, course);
    assert s[..|s| - 1] == items;
  }

  /** Adding a course whose id is not yet listed and removing it again restores the list. */
  lemma AddThenRemoveRestores(items: seq<SavedCourse>, course: SavedCourse)
    requires !Listed(items, course.id)
    ensures Removed(Added(items, course), course.id) == items
  {
    RemoveAfterAdd(items, course);
    FilterAll(items, (c: SavedCourse) => c.id != course.id);
  }

  /** The provider's state and the stored copy of it. */
  class WishlistState {
    var items: seq<SavedCourse>
    /** The value under `StorageKey`, `None` while nothing is stored. */
    var stored: Option<seq<SavedCourse>>

    /** What the page shows is what a reload would read back. */
    predicate Mirrored()
      reads this
    {
      items == stored.GetOr([])
    }

    /** Mount: start empty, then take the stored list if there is one. */
    constructor (saved: Option<seq<SavedCourse>>)
      ensures stored == saved
      ensures saved.None? ==> items == []
      ensures saved.Some? ==> items == saved.value
      ensures Mirrored()
    {
      items := saved.GetOr([]);
      stored := saved;
    }

    /** `isInWishlist`: some entry carries the id. */
    predicate Contains(courseId: nat)
      reads this
    {
      Listed(items, courseId)
    }

    /** `addToWishlist`: append, then store the new list. */
    method Add(course: SavedCourse)
      modifies this
      ensures items == Added(old(items), course)
      ensures stored == Some(items)
      ensures Mirrored()
      ensures Contains(course.id)
    {
      items := Added(items, course);
      stored := Some(items);
      assert items[|items| - 1].id == course.id;
    }

    /** `removeFromWishlist`: drop every entry with the id, then store the new list. */
    method Remove(courseId: nat)
      modifies this
      ensures items == Removed(old(items), courseId)
      ensures stored == Some(items)
      ensures Mirrored()
      ensures !Contains(courseId)
    {
      items := Removed(items, courseId);
      stored := Some(items);
    }
  }
}

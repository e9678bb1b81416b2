/**
 * `LessonService`: lessons of a course, each with an order index that is
 * unique within its course.  Lessons can be added, changed, removed or
 * reordered only by the course's instructor and only while the course is not
 * published.  Each method is one transaction: on an error the lessons table
 * is unchanged.
 */
module LessonService {
  import opened Seqs
  import opened Entities
  import opened Persistence

  const OrderIndexTakenMessage := "A lesson with this order index already exists"
  const ReorderIncompleteMessage := "All lessons must be included in reorder operation"

  /** `findById`: the lesson with this id, or not-found. */
  function FindById(lessons: map<Id, Lesson>, id: Id): (r: Result<Lesson>)
    ensures r.Ok? <==> id in lessons
    ensures r.Ok? ==> r.value == lessons[id]
    ensures r.Err? ==> r.error == NotFound("Lesson")
  {
    if id in lessons then Ok(lessons[id]) else Err(NotFound("Lesson"))
  }

  /**
   * The guard every lesson-changing operation starts with: the course must
   * exist, belong to the caller, and not be published; the two messages
   * differ per operation.
   */
  function EditableCourse(courses: map<Id, Course>, courseId: Id, instructorId: Id,
                          notOwnerMessage: string, publishedMessage: string): (r: Result<Course>)
    ensures r.Ok? <==> courseId in courses && courses[courseId].instructorId == instructorId
                       && courses[courseId].status != Published
    ensures r.Ok? ==> r.value == courses[courseId]
    ensures courseId !in courses ==> r == Err(NotFound("Course"))
    ensures courseId in courses && courses[courseId].instructorId != instructorId ==>
      r == Err(BadRequest(notOwnerMessage))
    ensures (courseId in courses && courses[courseId].instructorId == instructorId
             && courses[courseId].status == Published) ==>
      r == Err(BadRequest(publishedMessage))
  {
    if courseId !in courses then Err(NotFound("Course"))
    else if courses[courseId].instructorId != instructorId then Err(BadRequest(notOwnerMessage))
    else if courses[courseId].status == Published then Err(BadRequest(publishedMessage))
    else Ok(courses[courseId])
  }

  /**
   * The index given to a lesson created without one: the course's largest
   * index plus one, or 1.  Indices are unbounded here; Java's `Integer`
   * wrap-around at 2147483647 is not modelled.
   */
  function NextOrderIndex(lessons: map<Id, Lesson>, courseId: Id): (k: int)
    ensures LessonsOf(lessons, courseId) == {} ==> k == 1
    ensures LessonsOf(lessons, courseId) != {} ==> OrderIndexTaken(lessons, courseId, k - 1)
    ensures forall id :: id in lessons && lessons[id].courseId == courseId ==> lessons[id].orderIndex < k
    ensures !OrderIndexTaken(lessons, courseId, k)
  {
    match FindMaxOrderIndex(lessons, courseId)
    case None => 1
    case Some(m) => m + 1
  }

  /** Adding a lesson whose index is free in its course keeps indices distinct. */
  lemma AddKeepsDistinct(lessons: map<Id, Lesson>, id: Id, lesson: Lesson)
    requires DistinctOrderIndices(lessons)
    requires id !in lessons
    requires !OrderIndexTaken(lessons, lesson.courseId, lesson.orderIndex)
    ensures DistinctOrderIndices(lessons[id := lesson])
  {
  }

  /**
   * `createLesson`: after the course guard, a missing index is chosen as
   * `NextOrderIndex`, and a given index already used in the course is
   * refused.
   */
  method CreateLesson(db: Store, courseId: Id, title: string, content: string, contentType: string,
                      contentUrl: string, orderIndex: Option<int>, instructorId: Id)
    returns (r: Result<Id>)
    requires db.Valid()
    modifies db`lessons, db`nextId
    ensures db.Valid()
    ensures var guard := EditableCourse(db.courses, courseId, instructorId,
                                        "You can only add lessons to your own courses",
                                        "Cannot add lessons to published courses");
            guard.Err? ==> r == Err(guard.error)
    ensures (EditableCourse(db.courses, courseId, instructorId, "", "").Ok? && orderIndex.Some?
             && OrderIndexTaken(old(db.lessons), courseId, orderIndex.value)) ==>
      r == Err(BadRequest(OrderIndexTakenMessage))
    ensures r.Ok? <==> EditableCourse(db.courses, courseId, instructorId, "", "").Ok?
                       && (orderIndex.None? || !OrderIndexTaken(old(db.lessons), courseId, orderIndex.value))
    ensures r.Err? ==> db.lessons == old(db.lessons) && db.nextId == old(db.nextId)
    ensures r.Ok? ==> r.value !in old(db.lessons)
    ensures r.Ok? ==> db.lessons == old(db.lessons)[r.value := Lesson(title, content, contentType, contentUrl,
      if orderIndex.Some? then orderIndex.value else NextOrderIndex(old(db.lessons), courseId), courseId)]
  {
    var guard := EditableCourse(db.courses, courseId, instructorId,
                                "You can only add lessons to your own courses",
                                "Cannot add lessons to published courses");
    if guard.Err? {
      return Err(guard.error);
    }
    var index: int;
    if orderIndex.None? {
      index := NextOrderIndex(db.lessons, courseId);
    } else {
      if OrderIndexTaken(db.lessons, courseId, orderIndex.value) {
        return Err(BadRequest(OrderIndexTakenMessage));
      }
      index := orderIndex.value;
    }
    var id := db.NewId();
    var lesson := Lesson(title, content, contentType, contentUrl, index, courseId);
    AddKeepsDistinct(db.lessons, id, lesson);
    db.lessons := db.lessons[id := lesson];
    r := Ok(id);
  }

  /**
   * `updateLesson`: after the course guard, an index conflict is checked
   * only when the index changes; then title, content, content type, URL and
   * index are replaced and the lesson stays in its course.
   */
  method UpdateLesson(db: Store, lessonId: Id, title: string, content: string, contentType: string,
                      contentUrl: string, orderIndex: int, instructorId: Id)
    returns (r: Result<Lesson>)
    requires db.Valid()
    modifies db`lessons
    ensures db.Valid()
    ensures lessonId !in old(db.lessons) ==> r == Err(NotFound("Lesson"))
    ensures lessonId in old(db.lessons) ==>
      var guard := EditableCourse(db.courses, old(db.lessons)[lessonId].courseId, instructorId,
                                  "You can only update lessons in your own courses",
                                  "Cannot update lessons in published courses");
      guard.Err? ==> r == Err(guard.error)
    ensures r.Ok? <==>
      (lessonId in old(db.lessons)
       && EditableCourse(db.courses, old(db.lessons)[lessonId].courseId, instructorId, "", "").Ok?
       && (orderIndex == old(db.lessons)[lessonId].orderIndex
           || !OrderIndexTaken(old(db.lessons), old(db.lessons)[lessonId].courseId, orderIndex)))
    ensures r.Err? ==> db.lessons == old(db.lessons)
    ensures r.Ok? ==> db.lessons == old(db.lessons)[lessonId := r.value]
    ensures r.Ok? ==> r.value == Lesson(title, content, contentType, contentUrl, orderIndex, old(db.lessons)[lessonId].courseId)
  {
    var found := FindById(db.lessons, lessonId);
    if found.Err? {
      return Err(found.error);
    }
    var lesson := found.value;
    var guard := EditableCourse(db.courses, lesson.courseId, instructorId,
                                "You can only update lessons in your own courses",
                                "Cannot update lessons in published courses");
    if guard.Err? {
      return Err(guard.error);
    }
    if lesson.orderIndex != orderIndex && OrderIndexTaken(db.lessons, lesson.courseId, orderIndex) {
      return Err(BadRequest(OrderIndexTakenMessage));
    }
    var updated := Lesson(title, content, contentType, contentUrl, orderIndex, lesson.courseId);
    db.lessons := db.lessons[lessonId := updated];
    r := Ok(updated);
  }

  /** Keeping a lesson's own index never conflicts, whatever the other lessons hold. */
  lemma KeepIndexKeepsDistinct(lessons: map<Id, Lesson>, id: Id, lesson: Lesson)
    requires DistinctOrderIndices(lessons)
    requires id in lessons && lesson.courseId == lessons[id].courseId && lesson.orderIndex == lessons[id].orderIndex
    ensures DistinctOrderIndices(lessons[id := lesson])
  {
  }

  /** `deleteLesson`: after the course guard, that one lesson is removed. */
  method DeleteLesson(db: Store, lessonId: Id, instructorId: Id) returns (r: Result<()>)
    requires db.Valid()
    modifies db`lessons
    ensures db.Valid()
    ensures lessonId !in old(db.lessons) ==> r == Err(NotFound("Lesson"))
    ensures lessonId in old(db.lessons) ==>
      var guard := EditableCourse(db.courses, old(db.lessons)[lessonId].courseId, instructorId,
                                  "You can only delete lessons from your own courses",
                                  "Cannot delete lessons from published courses");
      (guard.Err? ==> r == Err(guard.error)) && (guard.Ok? <==> r.Ok?)
    ensures r.Err? ==> db.lessons == old(db.lessons)
    ensures r.Ok? ==> db.lessons == old(db.lessons) - {lessonId}
  {
    var found := FindById(db.lessons, lessonId);
    if found.Err? {
      return Err(found.error);
    }
    var guard := EditableCourse(db.courses, found.value.courseId, instructorId,
                                "You can only delete lessons from your own courses",
                                "Cannot delete lessons from published courses");
    if guard.Err? {
      return Err(guard.error);
    }
    db.lessons := db.lessons - {lessonId};
    r := Ok(());
  }

  /** `ids` lists lessons in non-decreasing order of their index. */
  predicate SortedByOrder(lessons: map<Id, Lesson>, ids: seq<Id>)
    requires forall i :: 0 <= i < |ids| ==> ids[i] in lessons
  {
    forall i, j :: 0 <= i < j < |ids| ==> lessons[ids[i]].orderIndex <= lessons[ids[j]].orderIndex
  }

  /** Inserts `id` into a sorted listing, before the first lesson with a larger or equal index. */
  function InsertByOrder(lessons: map<Id, Lesson>, ids: seq<Id>, id: Id): (r: seq<Id>)
    requires id in lessons
    requires forall i :: 0 <= i < |ids| ==> ids[i] in lessons
    requires SortedByOrder(lessons, ids)
    ensures multiset(r) == multiset(ids) + multiset{id}
    ensures forall i :: 0 <= i < |r| ==> r[i] == id || r[i] in ids
    ensures forall i :: 0 <= i < |r| ==> r[i] in lessons
    ensures SortedByOrder(lessons, r)
  {
    if ids == [] then [id]
    else if lessons[id].orderIndex <= lessons[ids[0]].orderIndex then [id] + ids
    else
      var rest := InsertByOrder(lessons, ids[1..], id);
      InsertAfterHead(lessons, ids, id, rest);
      [ids[0]] + rest
  }

  lemma InsertAfterHead(lessons: map<Id, Lesson>, ids: seq<Id>, id: Id, rest: seq<Id>)
    requires ids != [] && id in lessons
    requires forall i :: 0 <= i < |ids| ==> ids[i] in lessons
    requires SortedByOrder(lessons, ids)
    requires lessons[ids[0]].orderIndex < lessons[id].orderIndex
    requires multiset(rest) == multiset(ids[1..]) + multiset{id}
    requires forall i :: 0 <= i < |rest| ==> rest[i] == id || rest[i] in ids[1..]
    requires forall i :: 0 <= i < |rest| ==> rest[i] in lessons
    requires SortedByOrder(lessons, rest)
    ensures multiset([ids[0]] + rest) == multiset(ids) + multiset{id}
    ensures forall i :: 0 <= i < |[ids[0]] + rest| ==> ([ids[0]] + rest)[i] == id || ([ids[0]] + rest)[i] in ids
    ensures SortedByOrder(lessons, [ids[0]] + rest)
  {
    assert ids == [ids[0]] + ids[1..];
    forall k | 0 <= k < |rest|
      ensures lessons[ids[0]].orderIndex <= lessons[rest[k]].orderIndex
    {
      if rest[k] != id {
        var j :| 0 <= j < |ids[1..]| && ids[1..][j] == rest[k];
        assert ids[j + 1] == rest[k];
      }
    }
    var r := [ids[0]] + rest;
    forall i, j | 0 <= i < j < |r|
      ensures lessons[r[i]].orderIndex <= lessons[r[j]].orderIndex
    {
      if i > 0 {
        assert r[i] == rest[i - 1] && r[j] == rest[j - 1];
      } else {
        assert r[j] == rest[j - 1];
      }
    }
  }

  /**
   * `getLessonsByCourse` (`findByCourseIdOrderByOrderIndexAsc`): every lesson
   * of the course exactly once, by ascending order index.
   */
  method GetLessonsByCourse(db: Store, courseId: Id) returns (ids: seq<Id>)
    ensures forall i :: 0 <= i < |ids| ==> ids[i] in db.lessons
    ensures forall id :: id in ids <==> id in LessonsOf(db.lessons, courseId)
    ensures NoDuplicates(ids)
    ensures SortedByOrder(db.lessons, ids)
  {
    var all := LessonsOf(db.lessons, courseId);
    var todo := all;
    ids := [];
    while todo != {}
      invariant todo <= all
      invariant forall i :: 0 <= i < |ids| ==> ids[i] in db.lessons
      invariant forall id :: id in ids <==> id in all && id !in todo
      invariant forall id :: id in multiset(ids) ==> multiset(ids)[id] == 1
      invariant SortedByOrder(db.lessons, ids)
      decreases |todo|
    {
      var id :| id in todo;
      var next := InsertByOrder(db.lessons, ids, id);
      assert forall x :: x in next <==> x in multiset(next);
      assert forall x :: x in ids <==> x in multiset(ids);
      ids := next;
      todo := todo - {id};
    }
    forall i, j | 0 <= i < j < |ids|
      ensures ids[i] != ids[j]
    {
      if ids[i] == ids[j] {
        MultisetTwice(ids, i, j);
      }
    }
  }

  /** An element found at two positions occurs at least twice. */
  lemma MultisetTwice<T>(s: seq<T>, i: nat, j: nat)
    requires i < j < |s| && s[i] == s[j]
    ensures multiset(s)[s[i]] >= 2
  {
    assert s == s[..j] + [s[j]] + s[j + 1..];
    assert s[i] in s[..j];
    assert multiset(s) == multiset(s[..j]) + multiset{s[j]} + multiset(s[j + 1..]);
  }

  /**
   * The loop of `reorderLessons`: the lesson at position `i` gets index
   * `i + 1`; a repeated id keeps the index of its last position.
   */
  function Renumbered(lessons: map<Id, Lesson>, ids: seq<Id>): (m: map<Id, Lesson>)
    requires forall i :: 0 <= i < |ids| ==> ids[i] in lessons
    ensures m.Keys == lessons.Keys
    ensures forall id :: id in lessons ==> m[id].(orderIndex := lessons[id].orderIndex) == lessons[id]
  {
    if ids == [] then lessons
    else
      var m := Renumbered(lessons, ids[..|ids| - 1]);
      var id := ids[|ids| - 1];
      m[id := m[id].(orderIndex := |ids|)]
  }

  /** With distinct ids, position `i` ends with index `i + 1` and unlisted lessons keep theirs. */
  lemma {:induction false} RenumberedAt(lessons: map<Id, Lesson>, ids: seq<Id>)
    requires forall i :: 0 <= i < |ids| ==> ids[i] in lessons
    requires NoDuplicates(ids)
    ensures forall i :: 0 <= i < |ids| ==> Renumbered(lessons, ids)[ids[i]].orderIndex == i + 1
    ensures forall id :: id in lessons && id !in ids ==> Renumbered(lessons, ids)[id] == lessons[id]
  {
    if ids != [] {
      var n := |ids| - 1;
      var front, last := ids[..n], ids[n];
      assert NoDuplicates(front) by {
        forall i, j | 0 <= i < j < |front|
          ensures front[i] != front[j]
        {
          assert front[i] == ids[i] && front[j] == ids[j];
        }
      }
      RenumberedAt(lessons, front);
      var prev := Renumbered(lessons, front);
      var m := Renumbered(lessons, ids);
      assert m == prev[last := prev[last].(orderIndex := |ids|)];
      forall i | 0 <= i < |ids|
        ensures m[ids[i]].orderIndex == i + 1
      {
        if i < n {
          assert front[i] == ids[i] && ids[i] != last;
        }
      }
      forall id | id in lessons && id !in ids
        ensures m[id] == lessons[id]
      {
        assert id !in front by {
          forall k | 0 <= k < n
            ensures front[k] != id
          {
            assert front[k] == ids[k];
          }
        }
      }
    }
  }

  /** One more position of the loop renumbers one more lesson. */
  lemma RenumberedStep(lessons: map<Id, Lesson>, ids: seq<Id>, i: nat)
    requires i < |ids| && forall k :: 0 <= k <= i ==> ids[k] in lessons
    ensures var m := Renumbered(lessons, ids[..i]);
            Renumbered(lessons, ids[..i + 1]) == m[ids[i] := m[ids[i]].(orderIndex := i + 1)]
  {
    assert ids[..i + 1][..i] == ids[..i];
  }

  /** The guard of `reorderLessons` as written: as many ids as the course has lessons. */
  predicate ReorderGuardAsWritten(lessons: map<Id, Lesson>, courseId: Id, ids: seq<Id>)
  {
    |ids| == |LessonsOf(lessons, courseId)|
  }

  /** The guard the reorder evidently intends: the ids list every lesson of the course once. */
  predicate ReorderGuard(lessons: map<Id, Lesson>, courseId: Id, ids: seq<Id>)
  {
    |ids| == |LessonsOf(lessons, courseId)| && NoDuplicates(ids)
  }

  /**
   * As written, a list naming one lesson twice passes the guard and every
   * lookup, and leaves two lessons of the course with the same index.
   */
  lemma ReorderAsWrittenDuplicatesIndex()
    ensures ReorderGuardAsWritten(TwoLessons(), 0, [1, 1])
    ensures forall i :: 0 <= i < |[1, 1]| ==> [1, 1][i] in LessonsOf(TwoLessons(), 0)
    ensures DistinctOrderIndices(TwoLessons())
    ensures !DistinctOrderIndices(Renumbered(TwoLessons(), [1, 1]))
  {
    TwoLessonsOfCourse();
    TwoLessonsDistinct();
    RenumberTwiceCollides();
  }

  /** Course 0 with lesson 1 at index 1 and lesson 2 at index 2. */
  function TwoLessons(): map<Id, Lesson>
  {
    map[1 := Lesson("a", "", "", "", 1, 0), 2 := Lesson("b", "", "", "", 2, 0)]
  }

  lemma TwoLessonsOfCourse()
    ensures LessonsOf(TwoLessons(), 0) == {1, 2}
  {
    assert 1 in LessonsOf(TwoLessons(), 0) && 2 in LessonsOf(TwoLessons(), 0);
  }

  lemma TwoLessonsDistinct()
    ensures DistinctOrderIndices(TwoLessons())
  {
  }

  lemma RenumberTwiceCollides()
    ensures var m := Renumbered(TwoLessons(), [1, 1]);
      m[1].orderIndex == m[2].orderIndex == 2 && m[1].courseId == m[2].courseId
  {
    var lessons := TwoLessons();
    assert [1, 1][..1] == [1] && [1][..0] == [];
    var once := Renumbered(lessons, [1]);
    assert once[1].orderIndex == 1 && once[2] == lessons[2];
  }

  /**
   * With the intended guard the reorder numbers the course's lessons
   * 1..n in list order, touches no other lesson, and keeps indices distinct.
   */
  lemma {:induction false} ReorderNumbersCourse(lessons: map<Id, Lesson>, courseId: Id, ids: seq<Id>)
    requires DistinctOrderIndices(lessons)
    requires forall i :: 0 <= i < |ids| ==> ids[i] in LessonsOf(lessons, courseId)
    requires ReorderGuard(lessons, courseId, ids)
    ensures forall id :: id in ids <==> id in LessonsOf(lessons, courseId)
    ensures forall i :: 0 <= i < |ids| ==> Renumbered(lessons, ids)[ids[i]].orderIndex == i + 1
    ensures forall id :: id in lessons && lessons[id].courseId != courseId ==> Renumbered(lessons, ids)[id] == lessons[id]
    ensures DistinctOrderIndices(Renumbered(lessons, ids))
  {
    var course := LessonsOf(lessons, courseId);
    var listed := set i | 0 <= i < |ids| :: ids[i];
    NoDuplicatesCard(ids);
    assert listed <= course;
    SubsetSameSize(listed, course);
    assert forall id :: id in ids <==> id in listed;
    RenumberedAt(lessons, ids);
    var m := Renumbered(lessons, ids);
    forall a, b | a in m && b in m && a != b && m[a].courseId == m[b].courseId
      ensures m[a].orderIndex != m[b].orderIndex
    {
      if a in course {
        assert b in course;
        var i :| 0 <= i < |ids| && ids[i] == a;
        var j :| 0 <= j < |ids| && ids[j] == b;
      }
    }
  }

  lemma SubsetSameSize<T>(a: set<T>, b: set<T>)
    requires a <= b && |a| == |b|
    ensures a == b
  {
    if a != b {
      var x :| x in b && x !in a;
      assert a <= b - {x};
      CardinalitySubset(a, b - {x});
    }
  }

  /**
   * The loop of `reorderLessons` on a working copy of the table: each listed
   * lesson is looked up among the course's lessons (not found ends the
   * loop) and given its position plus one.
   */
  method RenumberCourse(lessons: map<Id, Lesson>, course: set<Id>, ids: seq<Id>) returns (r: Result<map<Id, Lesson>>)
    requires course <= lessons.Keys
    ensures r.Ok? <==> forall i :: 0 <= i < |ids| ==> ids[i] in course
    ensures r.Err? ==> r.error == NotFound("Lesson")
    ensures r.Ok? ==> r.value == Renumbered(lessons, ids)
  {
    var m := lessons;
    for i := 0 to |ids|
      invariant forall k :: 0 <= k < i ==> ids[k] in course
      invariant m == Renumbered(lessons, ids[..i])
    {
      if ids[i] !in course {
        return Err(NotFound("Lesson"));
      }
      RenumberedStep(lessons, ids, i);
      m := m[ids[i] := m[ids[i]].(orderIndex := i + 1)];
    }
    assert ids[..|ids|] == ids;
    r := Ok(m);
  }

  /**
   * `reorderLessons`: after the course guard, a list that does not name
   * every lesson of the course exactly once is refused, an id outside the
   * course is not found, and otherwise the lesson at position `i` gets index
   * `i + 1`.  (As written the source checks only the length; the duplicate
   * check is the correction, see `ReorderAsWrittenDuplicatesIndex`.)
   */
  method ReorderLessons(db: Store, courseId: Id, ids: seq<Id>, instructorId: Id) returns (r: Result<()>)
    requires db.Valid()
    modifies db`lessons
    ensures db.Valid()
    ensures var guard := EditableCourse(db.courses, courseId, instructorId,
                                        "You can only reorder lessons in your own courses",
                                        "Cannot reorder lessons in published courses");
            guard.Err? ==> r == Err(guard.error)
    ensures (EditableCourse(db.courses, courseId, instructorId, "", "").Ok?
             && !ReorderGuard(old(db.lessons), courseId, ids)) ==>
      r == Err(BadRequest(ReorderIncompleteMessage))
    ensures (EditableCourse(db.courses, courseId, instructorId, "", "").Ok?
             && ReorderGuard(old(db.lessons), courseId, ids)
             && exists i :: 0 <= i < |ids| && ids[i] !in LessonsOf(old(db.lessons), courseId)) ==>
      r == Err(NotFound("Lesson"))
    ensures r.Ok? <==> EditableCourse(db.courses, courseId, instructorId, "", "").Ok?
                       && ReorderGuard(old(db.lessons), courseId, ids)
                       && forall i :: 0 <= i < |ids| ==> ids[i] in LessonsOf(old(db.lessons), courseId)
    ensures r.Err? ==> db.lessons == old(db.lessons)
    ensures r.Ok? ==> db.lessons == Renumbered(old(db.lessons), ids)
  {
    var guard := EditableCourse(db.courses, courseId, instructorId,
                                "You can only reorder lessons in your own courses",
                                "Cannot reorder lessons in published courses");
    if guard.Err? {
      return Err(guard.error);
    }
    var course := LessonsOf(db.lessons, courseId);
    if |course| != |ids| || !NoDuplicates(ids) {
      return Err(BadRequest(ReorderIncompleteMessage));
    }
    var renumbered := RenumberCourse(db.lessons, course, ids);
    if renumbered.Err? {
      return Err(renumbered.error);
    }
    ReorderNumbersCourse(db.lessons, courseId, ids);
    var m := renumbered.value;
    db.lessons := m;
    r := Ok(());
  }
}

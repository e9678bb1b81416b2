/**
 * The database behind the services: one map per table, keyed by the
 * generated id, and the repository queries the services call, stated over
 * those maps.  The unique constraints of the schema and the facts the
 * services keep are collected in `Store.Valid`.
 */
module Persistence {
  import opened Seqs
  import opened Entities

  /** `existsByUsername`: some user has this username. */
  predicate UsernameTaken(users: map<Id, User>, username: string)
  {
    exists id :: id in users && users[id].username == username
  }

  /** `existsByEmail`: some user has this email. */
  predicate EmailTaken(users: map<Id, User>, email: string)
  {
    exists id :: id in users && users[id].email == email
  }

  /** No two users share a username or an email. */
  predicate UniqueUserKeys(users: map<Id, User>)
  {
    forall a, b :: a in users && b in users && a != b ==>
      users[a].username != users[b].username && users[a].email != users[b].email
  }

  /** The `(student_id, course_id)` unique constraint of the enrollments table. */
  predicate UniqueEnrollmentPairs(enrollments: map<Id, Enrollment>)
  {
    forall a, b :: a in enrollments && b in enrollments && a != b ==> enrollments[a] != enrollments[b]
  }

  /** `existsByStudentAndCourse`. */
  predicate IsEnrolled(enrollments: map<Id, Enrollment>, studentId: Id, courseId: Id)
  {
    Enrollment(studentId, courseId) in enrollments.Values
  }

  /** The course has at least one enrollment (`!course.getEnrollments().isEmpty()`). */
  predicate HasEnrollments(enrollments: map<Id, Enrollment>, courseId: Id)
  {
    exists id :: id in enrollments && enrollments[id].courseId == courseId
  }

  /** The ids of the enrollments of a course (`course.getEnrollments()`). */
  function EnrollmentsOf(enrollments: map<Id, Enrollment>, courseId: Id): (ids: set<Id>)
    ensures ids <= enrollments.Keys
    ensures ids != {} <==> HasEnrollments(enrollments, courseId)
  {
    var ids := set id | id in enrollments && enrollments[id].courseId == courseId;
    assert forall id :: id in enrollments && enrollments[id].courseId == courseId ==> id in ids;
    ids
  }

  /** The ids of the lessons of a course (`course.getLessons()`, `findByCourseId…`). */
  function LessonsOf(lessons: map<Id, Lesson>, courseId: Id): (ids: set<Id>)
    ensures ids <= lessons.Keys
    ensures forall id :: id in ids <==> id in lessons && lessons[id].courseId == courseId
  {
    set id | id in lessons && lessons[id].courseId == courseId
  }

  /** `existsByCourseIdAndOrderIndex`. */
  predicate OrderIndexTaken(lessons: map<Id, Lesson>, courseId: Id, orderIndex: int)
  {
    exists id :: id in lessons && lessons[id].courseId == courseId && lessons[id].orderIndex == orderIndex
  }

  /** Within one course no two lessons share an order index. */
  predicate DistinctOrderIndices(lessons: map<Id, Lesson>)
  {
    forall a, b :: a in lessons && b in lessons && a != b && lessons[a].courseId == lessons[b].courseId ==>
      lessons[a].orderIndex != lessons[b].orderIndex
  }

  /** The largest order index among `ids`, which must be non-empty lesson ids. */
  function MaxOrderIndex(lessons: map<Id, Lesson>, ids: set<Id>): (m: int)
    requires ids != {} && ids <= lessons.Keys
    ensures exists id :: id in ids && lessons[id].orderIndex == m
    ensures forall id :: id in ids ==> lessons[id].orderIndex <= m
    decreases |ids|
  {
    var id :| id in ids;
    if ids == {id} then lessons[id].orderIndex
    else
      var rest := MaxOrderIndex(lessons, ids - {id});
      if lessons[id].orderIndex > rest then lessons[id].orderIndex else rest
  }

  /** `findMaxOrderIndexByCourseId`: `MAX(orderIndex)` over the course's lessons, null when it has none. */
  function FindMaxOrderIndex(lessons: map<Id, Lesson>, courseId: Id): (m: Option<int>)
    ensures m.None? <==> LessonsOf(lessons, courseId) == {}
    ensures m.Some? ==> OrderIndexTaken(lessons, courseId, m.value)
    ensures m.Some? ==> forall id :: id in lessons && lessons[id].courseId == courseId ==> lessons[id].orderIndex <= m.value
  {
    var ids := LessonsOf(lessons, courseId);
    if ids == {} then None else Some(MaxOrderIndex(lessons, ids))
  }

  /** Distinct keys hold distinct progress objects, so updating one record leaves the others. */
  predicate DistinctProgressObjects(progresses: map<Id, Progress>)
  {
    forall a, b :: a in progresses && b in progresses && a != b ==> progresses[a] != progresses[b]
  }

  /** The `(enrollment_id, lesson_id)` unique constraint of the progress table. */
  predicate UniqueProgressPairs(progresses: map<Id, Progress>)
  {
    forall a, b :: a in progresses && b in progresses && a != b ==>
      progresses[a].enrollmentId != progresses[b].enrollmentId || progresses[a].lessonId != progresses[b].lessonId
  }

  /** A progress row for this enrollment and lesson exists (`findByEnrollmentAndLesson`). */
  predicate HasProgress(progresses: map<Id, Progress>, enrollmentId: Id, lessonId: Id)
  {
    exists id :: id in progresses && progresses[id].enrollmentId == enrollmentId && progresses[id].lessonId == lessonId
  }

  /** A row survives when every old row is kept. */
  lemma HasProgressKept(prev: map<Id, Progress>, ps: map<Id, Progress>, enrollmentId: Id, lessonId: Id)
    requires forall pid :: pid in prev ==> pid in ps && ps[pid] == prev[pid]
    requires HasProgress(prev, enrollmentId, lessonId)
    ensures HasProgress(ps, enrollmentId, lessonId)
  {
    var w :| w in prev && prev[w].enrollmentId == enrollmentId && prev[w].lessonId == lessonId;
    assert ps[w] == prev[w];
  }

  /** The ids of an enrollment's progress rows (`enrollment.getProgresses()`). */
  function ProgressesOf(progresses: map<Id, Progress>, enrollmentId: Id): (ids: set<Id>)
    ensures ids <= progresses.Keys
    ensures forall id :: id in ids <==> id in progresses && progresses[id].enrollmentId == enrollmentId
  {
    set id | id in progresses && progresses[id].enrollmentId == enrollmentId
  }

  /** `Enrollment.getCompletedLessons`: the enrollment's progress rows marked completed. */
  function CompletedLessons(progresses: map<Id, Progress>, enrollmentId: Id): (n: nat)
    reads progresses.Values
    ensures n <= |ProgressesOf(progresses, enrollmentId)|
    ensures n == 0 <==> forall id :: id in ProgressesOf(progresses, enrollmentId) ==> !progresses[id].completed
  {
    var done := set id | id in progresses && progresses[id].enrollmentId == enrollmentId && progresses[id].completed;
    assert done <= ProgressesOf(progresses, enrollmentId);
    assert forall id :: id in ProgressesOf(progresses, enrollmentId) && progresses[id].completed ==> id in done;
    CardinalitySubset(done, ProgressesOf(progresses, enrollmentId));
    |done|
  }

  lemma CardinalitySubset<T>(a: set<T>, b: set<T>)
    requires a <= b
    ensures |a| <= |b|
  {
    assert b == a + (b - a);
  }

  /** The database, one map per table, and the next id the generator hands out. */
  class Store {
    var users: map<Id, User>
    var courses: map<Id, Course>
    var lessons: map<Id, Lesson>
    var enrollments: map<Id, Enrollment>
    var progresses: map<Id, Progress>
    var nextId: Id

    /** Every id in use was issued before `nextId`. */
    ghost predicate IdsIssued()
      reads this
    {
      (forall id :: id in users ==> id < nextId)
      && (forall id :: id in courses ==> id < nextId)
      && (forall id :: id in lessons ==> id < nextId)
      && (forall id :: id in enrollments ==> id < nextId)
      && (forall id :: id in progresses ==> id < nextId)
    }

    /** Every progress row belongs to an existing enrollment (the cascade from enrollments). */
    ghost predicate ProgressOwned()
      reads this
    {
      forall id :: id in progresses ==> progresses[id].enrollmentId in enrollments
    }

    ghost predicate ProgressConsistent()
      reads this, progresses.Values
    {
      forall id :: id in progresses ==> progresses[id].Consistent()
    }

    ghost predicate Valid()
      reads this, progresses.Values
    {
      IdsIssued()
      && UniqueUserKeys(users)
      && UniqueEnrollmentPairs(enrollments)
      && DistinctOrderIndices(lessons)
      && DistinctProgressObjects(progresses)
      && UniqueProgressPairs(progresses)
      && ProgressOwned()
      && ProgressConsistent()
    }

    /** An empty database. */
    constructor ()
      ensures Valid()
      ensures users == map[] && courses == map[] && lessons == map[]
      ensures enrollments == map[] && progresses == map[] && nextId == 0
    {
      users, courses, lessons, enrollments, progresses := map[], map[], map[], map[], map[];
      nextId := 0;
    }

    /**
     * `progressRepository.save(new Progress(enrollment, lesson))`: one new,
     * not yet completed row; the existing rows are untouched.
     */
    method AddProgress(enrollmentId: Id, lessonId: Id) returns (id: Id)
      requires Valid()
      requires enrollmentId in enrollments
      requires !HasProgress(progresses, enrollmentId, lessonId)
      modifies this`progresses, this`nextId
      ensures Valid()
      ensures id !in old(progresses) && progresses.Keys == old(progresses).Keys + {id}
      ensures forall pid :: pid in old(progresses) ==> progresses[pid] == old(progresses)[pid]
      ensures fresh(progresses[id])
      ensures progresses[id].enrollmentId == enrollmentId && progresses[id].lessonId == lessonId
      ensures !progresses[id].completed && progresses[id].completedAt == None
    {
      id := NewId();
      var p := new Progress(enrollmentId, lessonId);
      ghost var prev := progresses;
      progresses := progresses[id := p];
      forall a, b | a in progresses && b in progresses && a != b
        ensures progresses[a] != progresses[b]
        ensures progresses[a].enrollmentId != progresses[b].enrollmentId || progresses[a].lessonId != progresses[b].lessonId
      {
        if a != id && b != id {
          assert progresses[a] == prev[a] && progresses[b] == prev[b];
        }
      }
      forall q | q in progresses
        ensures progresses[q].Consistent() && progresses[q].enrollmentId in enrollments
      {
        if q != id {
          assert progresses[q] == prev[q];
        }
      }
    }

    /** `@GeneratedValue(strategy = IDENTITY)`: a key never used in any table. */
    method NewId() returns (id: Id)
      requires IdsIssued()
      modifies this`nextId
      ensures IdsIssued()
      ensures id == old(nextId) && nextId == id + 1
      ensures id !in users && id !in courses && id !in lessons && id !in enrollments && id !in progresses
    {
      id := nextId;
      nextId := nextId + 1;
    }
  }
}

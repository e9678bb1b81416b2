/**
 * `ProgressService`: looking up, completing and creating the per-lesson
 * progress rows of an enrollment.  Marking never creates a row; rows are made
 * at enrollment or by `createProgressForNewLesson`.  The clock is the `now`
 * parameter.
 */
module ProgressService {
  import opened Seqs
  import opened Entities
  import opened Persistence
  import LessonService
  import EnrollmentService

  const WrongCourseMessage := "Lesson does not belong to the specified course"
  const NoProgressMessage := "Progress not found for lesson"

  /**
   * The lookup shared by the three per-lesson operations: the student's
   * enrollment in the course, then the lesson, then (when `checkCourse`) that
   * the lesson belongs to the course, then the progress row of that
   * enrollment and lesson.
   */
  function FindProgress(users: map<Id, User>, courses: map<Id, Course>, enrollments: map<Id, Enrollment>,
                        lessons: map<Id, Lesson>, progresses: map<Id, Progress>,
                        studentId: Id, courseId: Id, lessonId: Id, checkCourse: bool): (r: Result<Id>)
    requires UniqueEnrollmentPairs(enrollments) && UniqueProgressPairs(progresses)
    ensures !(studentId in users && courseId in courses && IsEnrolled(enrollments, studentId, courseId)) ==>
      r == Err(EnrollmentService.GetEnrollmentByStudentAndCourse(users, courses, enrollments, studentId, courseId).error)
    ensures (IsEnrolled(enrollments, studentId, courseId) && studentId in users && courseId in courses
             && lessonId !in lessons) ==> r == Err(NotFound("Lesson"))
    ensures (IsEnrolled(enrollments, studentId, courseId) && studentId in users && courseId in courses
             && lessonId in lessons && checkCourse && lessons[lessonId].courseId != courseId) ==>
      r == Err(BadRequest(WrongCourseMessage))
    ensures r.Ok? <==> (studentId in users && courseId in courses && IsEnrolled(enrollments, studentId, courseId)
                        && lessonId in lessons && (checkCourse ==> lessons[lessonId].courseId == courseId)
                        && exists pid :: pid in progresses && progresses[pid].lessonId == lessonId
                                         && progresses[pid].enrollmentId in enrollments
                                         && enrollments[progresses[pid].enrollmentId] == Enrollment(studentId, courseId))
    ensures r.Ok? ==> r.value in progresses && progresses[r.value].lessonId == lessonId
                      && progresses[r.value].enrollmentId in enrollments
                      && enrollments[progresses[r.value].enrollmentId] == Enrollment(studentId, courseId)
    ensures r.Err? && (studentId in users && courseId in courses && IsEnrolled(enrollments, studentId, courseId)
                       && lessonId in lessons && (checkCourse ==> lessons[lessonId].courseId == courseId)) ==>
      r == Err(NotFound(NoProgressMessage))
  {
    match EnrollmentService.GetEnrollmentByStudentAndCourse(users, courses, enrollments, studentId, courseId)
    case Err(e) => Err(e)
    case Ok(eid) =>
      match LessonService.FindById(lessons, lessonId)
      case Err(e) => Err(e)
      case Ok(lesson) =>
        if checkCourse && lesson.courseId != courseId then Err(BadRequest(WrongCourseMessage))
        else if HasProgress(progresses, eid, lessonId) then
          var pid :| pid in progresses && progresses[pid].enrollmentId == eid && progresses[pid].lessonId == lessonId;
          Ok(pid)
        else Err(NotFound(NoProgressMessage))
  }

  /**
   * `getStudentProgressForLesson`: the progress row of the student's
   * enrollment in the course for the lesson.  Unlike marking, it does not
   * check that the lesson belongs to the course.
   */
  function GetStudentProgressForLesson(users: map<Id, User>, courses: map<Id, Course>,
                                       enrollments: map<Id, Enrollment>, lessons: map<Id, Lesson>,
                                       progresses: map<Id, Progress>, studentId: Id, courseId: Id, lessonId: Id)
    : (r: Result<Id>)
    requires UniqueEnrollmentPairs(enrollments) && UniqueProgressPairs(progresses)
    ensures r.Ok? <==> (studentId in users && courseId in courses && IsEnrolled(enrollments, studentId, courseId)
                        && lessonId in lessons
                        && exists pid :: pid in progresses && progresses[pid].lessonId == lessonId
                                         && progresses[pid].enrollmentId in enrollments
                                         && enrollments[progresses[pid].enrollmentId] == Enrollment(studentId, courseId))
    ensures r.Ok? ==> r.value in progresses && progresses[r.value].lessonId == lessonId
                      && progresses[r.value].enrollmentId in enrollments
                      && enrollments[progresses[r.value].enrollmentId] == Enrollment(studentId, courseId)
    ensures r != Err(BadRequest(WrongCourseMessage))
  {
    FindProgress(users, courses, enrollments, lessons, progresses, studentId, courseId, lessonId, false)
  }

  /**
   * The missing course check of `getStudentProgressForLesson`: a row whose
   * lesson lies in another course is still returned, where marking the same
   * lesson is refused.
   */
  lemma GetProgressSkipsCourseCheck(p: Progress)
    requires p.enrollmentId == 4 && p.lessonId == 5
    ensures var users := map[1 := User("s", "s@x", "h", "S", "T", Student, true)];
            var courses := map[2 := Course("A", "", "", 9, Published), 3 := Course("B", "", "", 9, Published)];
            var enrollments := map[4 := Enrollment(1, 2)];
            var lessons := map[5 := Lesson("L", "", "TEXT", "", 1, 3)];
            var progresses := map[6 := p];
            GetStudentProgressForLesson(users, courses, enrollments, lessons, progresses, 1, 2, 5) == Ok(6)
            && FindProgress(users, courses, enrollments, lessons, progresses, 1, 2, 5, true)
               == Err(BadRequest(WrongCourseMessage))
  {
    var users := map[1 := User("s", "s@x", "h", "S", "T", Student, true)];
    var courses := map[2 := Course("A", "", "", 9, Published), 3 := Course("B", "", "", 9, Published)];
    var enrollments := map[4 := Enrollment(1, 2)];
    var lessons := map[5 := Lesson("L", "", "TEXT", "", 1, 3)];
    var progresses := map[6 := p];
    assert enrollments[4] == Enrollment(1, 2);
    assert IsEnrolled(enrollments, 1, 2);
    assert 6 in progresses && progresses[6].enrollmentId == 4 && progresses[6].lessonId == 5;
  }

  /**
   * `markLessonComplete` / `markLessonIncomplete` with `c` true or false:
   * after the lookups, `setCompleted(c)` on that one row.  Nothing else
   * changes, no row is added, and repeating the call changes nothing.
   */
  method SetLessonCompletion(db: Store, studentId: Id, courseId: Id, lessonId: Id, c: bool, now: Timestamp)
    returns (r: Result<Id>)
    requires db.Valid()
    modifies db.progresses.Values
    ensures db.Valid()
    ensures r == FindProgress(db.users, db.courses, db.enrollments, db.lessons, db.progresses,
                              studentId, courseId, lessonId, true)
    ensures r.Ok? ==> db.progresses[r.value].completed == c
    ensures r.Ok? && c && old(db.progresses[r.value].completedAt).None? ==> db.progresses[r.value].completedAt == Some(now)
    ensures r.Ok? && c && old(db.progresses[r.value].completedAt).Some? ==>
      db.progresses[r.value].completedAt == old(db.progresses[r.value].completedAt)
    ensures r.Ok? && !c ==> db.progresses[r.value].completedAt == None
    ensures r.Ok? && old(db.progresses[r.value].completed) == c ==>
      db.progresses[r.value].completedAt == old(db.progresses[r.value].completedAt)
    ensures forall pid :: pid in db.progresses && (r.Err? || pid != r.value) ==>
      db.progresses[pid].completed == old(db.progresses[pid].completed)
      && db.progresses[pid].completedAt == old(db.progresses[pid].completedAt)
  {
    r := FindProgress(db.users, db.courses, db.enrollments, db.lessons, db.progresses, studentId, courseId, lessonId, true);
    if r.Ok? {
      var p := db.progresses[r.value];
      assert p.Consistent();
      p.SetCompleted(c, now);
      assert forall pid :: pid in db.progresses && pid != r.value ==> db.progresses[pid] != p;
    }
  }

  method MarkLessonComplete(db: Store, studentId: Id, courseId: Id, lessonId: Id, now: Timestamp)
    returns (r: Result<Id>)
    requires db.Valid()
    modifies db.progresses.Values
    ensures db.Valid()
    ensures r == FindProgress(db.users, db.courses, db.enrollments, db.lessons, db.progresses,
                              studentId, courseId, lessonId, true)
    ensures r.Ok? ==> db.progresses[r.value].completed
    ensures r.Ok? && old(db.progresses[r.value].completedAt).None? ==> db.progresses[r.value].completedAt == Some(now)
    ensures r.Ok? && old(db.progresses[r.value].completedAt).Some? ==>
      db.progresses[r.value].completedAt == old(db.progresses[r.value].completedAt)
    ensures forall pid :: pid in db.progresses && (r.Err? || pid != r.value) ==>
      db.progresses[pid].completed == old(db.progresses[pid].completed)
      && db.progresses[pid].completedAt == old(db.progresses[pid].completedAt)
  {
    r := SetLessonCompletion(db, studentId, courseId, lessonId, true, now);
  }

  /** `markLessonIncomplete`: clearing a completion reads no clock. */
  method MarkLessonIncomplete(db: Store, studentId: Id, courseId: Id, lessonId: Id)
    returns (r: Result<Id>)
    requires db.Valid()
    modifies db.progresses.Values
    ensures db.Valid()
    ensures r == FindProgress(db.users, db.courses, db.enrollments, db.lessons, db.progresses,
                              studentId, courseId, lessonId, true)
    ensures r.Ok? ==> !db.progresses[r.value].completed && db.progresses[r.value].completedAt == None
    ensures forall pid :: pid in db.progresses && (r.Err? || pid != r.value) ==>
      db.progresses[pid].completed == old(db.progresses[pid].completed)
      && db.progresses[pid].completedAt == old(db.progresses[pid].completedAt)
  {
    // `setCompleted(false)` never reads the time it is given.
    r := SetLessonCompletion(db, studentId, courseId, lessonId, false, 0);
  }

  /** Some enrollment of the course already has a row for the lesson (the unique constraint would reject the insert). */
  predicate RowExistsForCourse(enrollments: map<Id, Enrollment>, progresses: map<Id, Progress>, courseId: Id, lessonId: Id)
  {
    exists eid :: eid in EnrollmentsOf(enrollments, courseId) && HasProgress(progresses, eid, lessonId)
  }

  const ProgressUniqueConstraint := "progress(enrollment_id, lesson_id)"

  /**
   * `createProgressForNewLesson`: one new, not completed row for every
   * enrollment of the lesson's course.  If one of those enrollments already
   * has a row for the lesson the insert violates the unique constraint and
   * the transaction leaves the table as it was.
   */
  method CreateProgressForNewLesson(db: Store, lessonId: Id) returns (r: Result<()>)
    requires db.Valid()
    modifies db`progresses, db`nextId
    ensures db.Valid()
    ensures lessonId !in db.lessons ==> r == Err(NotFound("Lesson"))
    ensures (lessonId in db.lessons && RowExistsForCourse(db.enrollments, old(db.progresses), db.lessons[lessonId].courseId, lessonId))
      ==> r == Err(ConstraintViolation(ProgressUniqueConstraint))
    ensures r.Ok? <==> lessonId in db.lessons
                       && !RowExistsForCourse(db.enrollments, old(db.progresses), db.lessons[lessonId].courseId, lessonId)
    ensures r.Err? ==> db.progresses == old(db.progresses) && db.nextId == old(db.nextId)
    ensures forall pid :: pid in old(db.progresses) ==> pid in db.progresses && db.progresses[pid] == old(db.progresses)[pid]
    ensures r.Ok? ==> forall eid :: eid in EnrollmentsOf(db.enrollments, db.lessons[lessonId].courseId) ==>
                        HasProgress(db.progresses, eid, lessonId)
    ensures r.Ok? ==> forall pid :: pid in db.progresses && pid !in old(db.progresses) ==>
                        NewLessonRow(db.progresses[pid], lessonId, EnrollmentsOf(db.enrollments, db.lessons[lessonId].courseId))
  {
    var found := LessonService.FindById(db.lessons, lessonId);
    if found.Err? {
      return Err(found.error);
    }
    var enrollmentIds := EnrollmentsOf(db.enrollments, found.value.courseId);
    if RowExistsForCourse(db.enrollments, db.progresses, found.value.courseId, lessonId) {
      return Err(ConstraintViolation(ProgressUniqueConstraint));
    }
    AddLessonRows(db, lessonId, enrollmentIds);
    r := Ok(());
  }

  /** The loop of `createProgressForNewLesson`: one new row per enrollment in `ids`. */
  method AddLessonRows(db: Store, lessonId: Id, ids: set<Id>)
    requires db.Valid() && ids <= db.enrollments.Keys
    requires forall eid :: eid in ids ==> !HasProgress(db.progresses, eid, lessonId)
    modifies db`progresses, db`nextId
    ensures db.Valid()
    ensures LessonRowsFor(db.progresses, old(db.progresses), lessonId, ids)
  {
    var todo := ids;
    ghost var done: set<Id> := {};
    while todo != {}
      invariant db.Valid()
      invariant todo <= ids && done == ids - todo
      invariant LessonRowsFor(db.progresses, old(db.progresses), lessonId, done)
      decreases |todo|
    {
      var eid :| eid in todo;
      AddEnrollmentRow(db, old(db.progresses), lessonId, eid, done);
      todo := todo - {eid};
      done := done + {eid};
    }
  }

  /** A row created for the lesson and one of the enrollments in `done`, not yet completed. */
  ghost predicate NewLessonRow(p: Progress, lessonId: Id, done: set<Id>)
    reads p
  {
    p.lessonId == lessonId && p.enrollmentId in done && !p.completed && p.completedAt == None
  }

  /** `ps` extends `before` with exactly the rows of the lesson for the enrollments in `done`. */
  ghost predicate LessonRowsFor(ps: map<Id, Progress>, before: map<Id, Progress>, lessonId: Id, done: set<Id>)
    reads ps.Values
  {
    (forall pid :: pid in before ==> pid in ps && ps[pid] == before[pid])
    && (forall pid :: pid in ps && pid !in before ==> NewLessonRow(ps[pid], lessonId, done))
    && (forall eid :: eid in done ==> HasProgress(ps, eid, lessonId))
  }

  /** One step of `createProgressForNewLesson`: the row for enrollment `eid`. */
  method AddEnrollmentRow(db: Store, ghost before: map<Id, Progress>, lessonId: Id, eid: Id, ghost done: set<Id>)
    requires db.Valid() && eid in db.enrollments
    requires !HasProgress(before, eid, lessonId)
    requires LessonRowsFor(db.progresses, before, lessonId, done) && eid !in done
    modifies db`progresses, db`nextId
    ensures db.Valid()
    ensures LessonRowsFor(db.progresses, before, lessonId, done + {eid})
    ensures forall pid :: pid in old(db.progresses) ==> pid in db.progresses && db.progresses[pid] == old(db.progresses)[pid]
  {
    NoRowOutsideDone(db.progresses, before, lessonId, done, eid);
    ghost var prev := db.progresses;
    var pid := db.AddProgress(eid, lessonId);
    forall e | e in done + {eid}
      ensures HasProgress(db.progresses, e, lessonId)
    {
      if e == eid {
        assert db.progresses[pid].enrollmentId == eid && db.progresses[pid].lessonId == lessonId;
      } else {
        HasProgressKept(prev, db.progresses, e, lessonId);
      }
    }
    forall q | q in db.progresses && q !in before
      ensures NewLessonRow(db.progresses[q], lessonId, done + {eid})
    {
      if q != pid {
        assert q in prev && db.progresses[q] == prev[q];
      }
    }
  }

  /** An enrollment outside `done` that had no row before still has none. */
  lemma NoRowOutsideDone(ps: map<Id, Progress>, before: map<Id, Progress>, lessonId: Id, done: set<Id>, eid: Id)
    requires LessonRowsFor(ps, before, lessonId, done) && eid !in done && !HasProgress(before, eid, lessonId)
    ensures !HasProgress(ps, eid, lessonId)
  {
    forall pid | pid in ps && ps[pid].lessonId == lessonId
      ensures ps[pid].enrollmentId != eid
    {
      if pid in before {
        assert before[pid] == ps[pid];
      }
    }
  }
}

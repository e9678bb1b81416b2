/**
 * `EnrollmentService`: at most one enrollment per (student, course), and one
 * progress row per lesson of the course created with it.  Removing an
 * enrollment removes its progress rows (`CascadeType.ALL` on
 * `Enrollment.progresses`).  Each method is one transaction.
 */
module EnrollmentService {
  import opened Seqs
  import opened Entities
  import opened Persistence
  import UserService
  import CourseService

  /** `findById`: the enrollment with this id, or not-found. */
  function FindById(enrollments: map<Id, Enrollment>, id: Id): (r: Result<Enrollment>)
    ensures r.Ok? <==> id in enrollments
    ensures r.Ok? ==> r.value == enrollments[id]
    ensures r.Err? ==> r.error == NotFound("Enrollment")
  {
    if id in enrollments then Ok(enrollments[id]) else Err(NotFound("Enrollment"))
  }

  /**
   * The progress rows of enrollment `eid` are exactly one not-completed row
   * for each id in `lessonIds`.
   */
  ghost predicate OneNewRowPerLesson(progresses: map<Id, Progress>, eid: Id, lessonIds: set<Id>)
    reads progresses.Values
  {
    (forall lid :: lid in lessonIds <==> HasProgress(progresses, eid, lid))
    && (forall pid :: pid in progresses && progresses[pid].enrollmentId == eid ==>
          !progresses[pid].completed && progresses[pid].completedAt == None)
  }

  /**
   * `enrollStudent`: the student and the course must exist (in that order);
   * then only a STUDENT may enroll, only in a PUBLISHED course, and only
   * once.  The new enrollment gets one progress row per lesson of the course.
   */
  method EnrollStudent(db: Store, courseId: Id, studentId: Id) returns (r: Result<Id>)
    requires db.Valid()
    modifies db`enrollments, db`progresses, db`nextId
    ensures db.Valid()
    ensures studentId !in db.users ==> r == Err(NotFound("User"))
    ensures studentId in db.users && courseId !in db.courses ==> r == Err(NotFound("Course"))
    ensures (studentId in db.users && courseId in db.courses && db.users[studentId].role != Student) ==>
      r == Err(BadRequest("Only students can enroll in courses"))
    ensures (studentId in db.users && courseId in db.courses && db.users[studentId].role == Student
             && db.courses[courseId].status != Published) ==>
      r == Err(BadRequest("Can only enroll in published courses"))
    ensures (studentId in db.users && courseId in db.courses && db.users[studentId].role == Student
             && db.courses[courseId].status == Published && IsEnrolled(old(db.enrollments), studentId, courseId)) ==>
      r == Err(BadRequest("Student is already enrolled in this course"))
    ensures r.Ok? <==> studentId in db.users && courseId in db.courses && db.users[studentId].role == Student
                       && db.courses[courseId].status == Published && !IsEnrolled(old(db.enrollments), studentId, courseId)
    ensures r.Err? ==> db.enrollments == old(db.enrollments) && db.progresses == old(db.progresses)
                       && db.nextId == old(db.nextId)
    ensures r.Ok? ==> r.value !in old(db.enrollments)
    ensures r.Ok? ==> db.enrollments == old(db.enrollments)[r.value := Enrollment(studentId, courseId)]
    ensures r.Ok? ==> forall pid :: pid in old(db.progresses) ==> pid in db.progresses && db.progresses[pid] == old(db.progresses)[pid]
    ensures r.Ok? ==> forall pid :: pid in db.progresses && pid !in old(db.progresses) ==>
                        db.progresses[pid].enrollmentId == r.value
    ensures r.Ok? ==> OneNewRowPerLesson(db.progresses, r.value, LessonsOf(db.lessons, courseId))
  {
    var student := UserService.FindById(db.users, studentId);
    if student.Err? {
      return Err(student.error);
    }
    var course := CourseService.FindById(db.courses, courseId);
    if course.Err? {
      return Err(course.error);
    }
    if student.value.role != Student {
      return Err(BadRequest("Only students can enroll in courses"));
    }
    if course.value.status != Published {
      return Err(BadRequest("Can only enroll in published courses"));
    }
    if IsEnrolled(db.enrollments, studentId, courseId) {
      return Err(BadRequest("Student is already enrolled in this course"));
    }
    var eid := AddEnrollment(db, studentId, courseId);
    r := Ok(eid);
  }

  /** The successful end of `enrollStudent`: the enrollment and its initial progress rows. */
  method AddEnrollment(db: Store, studentId: Id, courseId: Id) returns (eid: Id)
    requires db.Valid() && !IsEnrolled(db.enrollments, studentId, courseId)
    modifies db`enrollments, db`progresses, db`nextId
    ensures db.Valid()
    ensures eid !in old(db.enrollments)
    ensures db.enrollments == old(db.enrollments)[eid := Enrollment(studentId, courseId)]
    ensures forall pid :: pid in old(db.progresses) ==> pid in db.progresses && db.progresses[pid] == old(db.progresses)[pid]
    ensures forall pid :: pid in db.progresses && pid !in old(db.progresses) ==> db.progresses[pid].enrollmentId == eid
    ensures OneNewRowPerLesson(db.progresses, eid, LessonsOf(db.lessons, courseId))
  {
    eid := db.NewId();
    db.enrollments := db.enrollments[eid := Enrollment(studentId, courseId)];
    assert forall pid :: pid in db.progresses ==> db.progresses[pid].enrollmentId != eid;
    CreateInitialProgress(db, eid, LessonsOf(db.lessons, courseId));
  }

  /** `createInitialProgress`: one new row for the enrollment per lesson. */
  method CreateInitialProgress(db: Store, eid: Id, lessonIds: set<Id>)
    requires db.Valid()
    requires eid in db.enrollments
    requires forall pid :: pid in db.progresses ==> db.progresses[pid].enrollmentId != eid
    modifies db`progresses, db`nextId
    ensures db.Valid()
    ensures forall pid :: pid in old(db.progresses) ==> pid in db.progresses && db.progresses[pid] == old(db.progresses)[pid]
    ensures forall pid :: pid in db.progresses && pid !in old(db.progresses) ==>
              db.progresses[pid].enrollmentId == eid
    ensures OneNewRowPerLesson(db.progresses, eid, lessonIds)
  {
    var todo := lessonIds;
    ghost var done: set<Id> := {};
    while todo != {}
      invariant db.Valid() && eid in db.enrollments
      invariant todo <= lessonIds && done == lessonIds - todo
      invariant RowsFor(db.progresses, old(db.progresses), eid, done)
      decreases |todo|
    {
      var lid :| lid in todo;
      AddLessonRow(db, old(db.progresses), eid, lid, done);
      todo := todo - {lid};
      done := done + {lid};
    }
    RowsForComplete(db.progresses, old(db.progresses), eid, lessonIds);
  }

  /** A row created for enrollment `eid` and one of the lessons in `done`, not yet completed. */
  ghost predicate NewRow(p: Progress, eid: Id, done: set<Id>)
    reads p
  {
    p.enrollmentId == eid && p.lessonId in done && !p.completed && p.completedAt == None
  }

  /**
   * `ps` extends `before` with exactly the rows of enrollment `eid` for the
   * lessons in `done`.
   */
  ghost predicate RowsFor(ps: map<Id, Progress>, before: map<Id, Progress>, eid: Id, done: set<Id>)
    reads ps.Values
  {
    (forall pid :: pid in before ==> pid in ps && ps[pid] == before[pid])
    && (forall pid :: pid in ps && pid !in before ==> NewRow(ps[pid], eid, done))
    && (forall lid :: lid in done ==> HasProgress(ps, eid, lid))
  }

  /** One step of `createInitialProgress`: the row for lesson `lid`. */
  method AddLessonRow(db: Store, ghost before: map<Id, Progress>, eid: Id, lid: Id, ghost done: set<Id>)
    requires db.Valid() && eid in db.enrollments
    requires forall pid :: pid in before ==> before[pid].enrollmentId != eid
    requires RowsFor(db.progresses, before, eid, done) && lid !in done
    modifies db`progresses, db`nextId
    ensures db.Valid() && eid in db.enrollments
    ensures RowsFor(db.progresses, before, eid, done + {lid})
    ensures forall pid :: pid in old(db.progresses) ==> pid in db.progresses && db.progresses[pid] == old(db.progresses)[pid]
  {
    NoRowOutsideDone(db.progresses, before, eid, done, lid);
    ghost var prev := db.progresses;
    var pid := db.AddProgress(eid, lid);
    forall l | l in done + {lid}
      ensures HasProgress(db.progresses, eid, l)
    {
      if l == lid {
        assert db.progresses[pid].enrollmentId == eid && db.progresses[pid].lessonId == lid;
      } else {
        HasProgressKept(prev, db.progresses, eid, l);
      }
    }
    forall q | q in db.progresses && q !in before
      ensures NewRow(db.progresses[q], eid, done + {lid})
    {
      if q != pid {
        assert q in prev && db.progresses[q] == prev[q];
      }
    }
  }

  /** A lesson outside `done` has no row of enrollment `eid` yet. */
  lemma NoRowOutsideDone(ps: map<Id, Progress>, before: map<Id, Progress>, eid: Id, done: set<Id>, lid: Id)
    requires forall pid :: pid in before ==> before[pid].enrollmentId != eid
    requires RowsFor(ps, before, eid, done) && lid !in done
    ensures !HasProgress(ps, eid, lid)
  {
    forall pid | pid in ps && ps[pid].enrollmentId == eid
      ensures ps[pid].lessonId != lid
    {
      assert pid !in before;
    }
  }

  lemma RowsForComplete(ps: map<Id, Progress>, before: map<Id, Progress>, eid: Id, lessonIds: set<Id>)
    requires forall pid :: pid in before ==> before[pid].enrollmentId != eid
    requires RowsFor(ps, before, eid, lessonIds)
    ensures OneNewRowPerLesson(ps, eid, lessonIds)
  {
    forall lid | HasProgress(ps, eid, lid)
      ensures lid in lessonIds
    {
      var w :| w in ps && ps[w].enrollmentId == eid && ps[w].lessonId == lid;
      assert w !in before;
    }
  }

  /** Removes an enrollment together with its progress rows. */
  method RemoveEnrollment(db: Store, eid: Id)
    requires db.Valid()
    requires eid in db.enrollments
    modifies db`enrollments, db`progresses
    ensures db.Valid()
    ensures db.enrollments == old(db.enrollments) - {eid}
    ensures db.progresses == map pid | pid in old(db.progresses) && old(db.progresses)[pid].enrollmentId != eid
                                    :: old(db.progresses)[pid]
  {
    db.progresses := map pid | pid in db.progresses && db.progresses[pid].enrollmentId != eid :: db.progresses[pid];
    db.enrollments := db.enrollments - {eid};
  }

  /** `unenrollStudent`: only the enrolled student may remove the enrollment. */
  method UnenrollStudent(db: Store, eid: Id, studentId: Id) returns (r: Result<()>)
    requires db.Valid()
    modifies db`enrollments, db`progresses
    ensures db.Valid()
    ensures eid !in old(db.enrollments) ==> r == Err(NotFound("Enrollment"))
    ensures eid in old(db.enrollments) && old(db.enrollments)[eid].studentId != studentId ==>
      r == Err(BadRequest("You can only unenroll from your own courses"))
    ensures r.Ok? <==> eid in old(db.enrollments) && old(db.enrollments)[eid].studentId == studentId
    ensures r.Err? ==> db.enrollments == old(db.enrollments) && db.progresses == old(db.progresses)
    ensures r.Ok? ==> db.enrollments == old(db.enrollments) - {eid}
    ensures r.Ok? ==> db.progresses == map pid | pid in old(db.progresses) && old(db.progresses)[pid].enrollmentId != eid
                                                :: old(db.progresses)[pid]
  {
    var found := FindById(db.enrollments, eid);
    if found.Err? {
      return Err(found.error);
    }
    if found.value.studentId != studentId {
      return Err(BadRequest("You can only unenroll from your own courses"));
    }
    RemoveEnrollment(db, eid);
    r := Ok(());
  }

  /** `adminUnenrollStudent`: any existing enrollment is removed. */
  method AdminUnenrollStudent(db: Store, eid: Id) returns (r: Result<()>)
    requires db.Valid()
    modifies db`enrollments, db`progresses
    ensures db.Valid()
    ensures r.Ok? <==> eid in old(db.enrollments)
    ensures r.Err? ==> r.error == NotFound("Enrollment")
    ensures r.Err? ==> db.enrollments == old(db.enrollments) && db.progresses == old(db.progresses)
    ensures r.Ok? ==> db.enrollments == old(db.enrollments) - {eid}
    ensures r.Ok? ==> db.progresses == map pid | pid in old(db.progresses) && old(db.progresses)[pid].enrollmentId != eid
                                                :: old(db.progresses)[pid]
  {
    var found := FindById(db.enrollments, eid);
    if found.Err? {
      return Err(found.error);
    }
    RemoveEnrollment(db, eid);
    r := Ok(());
  }

  /** `isStudentEnrolled`: after the student and course lookups, whether the pair is enrolled. */
  function IsStudentEnrolled(users: map<Id, User>, courses: map<Id, Course>, enrollments: map<Id, Enrollment>,
                             studentId: Id, courseId: Id): (r: Result<bool>)
    ensures studentId !in users ==> r == Err(NotFound("User"))
    ensures studentId in users && courseId !in courses ==> r == Err(NotFound("Course"))
    ensures r.Ok? <==> studentId in users && courseId in courses
    ensures r.Ok? ==> (r.value <==> exists id :: id in enrollments && enrollments[id] == Enrollment(studentId, courseId))
  {
    if studentId !in users then Err(NotFound("User"))
    else if courseId !in courses then Err(NotFound("Course"))
    else Ok(IsEnrolled(enrollments, studentId, courseId))
  }

  /**
   * `getEnrollmentByStudentAndCourse`: after the student and course lookups,
   * the one enrollment of the pair, or not-found.
   */
  function GetEnrollmentByStudentAndCourse(users: map<Id, User>, courses: map<Id, Course>,
                                           enrollments: map<Id, Enrollment>, studentId: Id, courseId: Id)
    : (r: Result<Id>)
    requires UniqueEnrollmentPairs(enrollments)
    ensures studentId !in users ==> r == Err(NotFound("User"))
    ensures studentId in users && courseId !in courses ==> r == Err(NotFound("Course"))
    ensures (studentId in users && courseId in courses && !IsEnrolled(enrollments, studentId, courseId)) ==>
      r == Err(NotFound("Enrollment not found for student and course"))
    ensures r.Ok? <==> studentId in users && courseId in courses && IsEnrolled(enrollments, studentId, courseId)
    ensures r.Ok? ==> r.value in enrollments && enrollments[r.value] == Enrollment(studentId, courseId)
    ensures r.Ok? ==> forall id :: id in enrollments && enrollments[id] == Enrollment(studentId, courseId) ==> id == r.value
  {
    match IsStudentEnrolled(users, courses, enrollments, studentId, courseId)
    case Err(e) => Err(e)
    case Ok(enrolled) =>
      if !enrolled then Err(NotFound("Enrollment not found for student and course"))
      else
        var id :| id in enrollments && enrollments[id] == Enrollment(studentId, courseId);
        Ok(id)
  }
}

/**
 * `CourseService`: the course-status lifecycle.  Statuses are DRAFT,
 * PENDING, PUBLISHED and REJECTED; every status the service writes is
 * PUBLISHED or REJECTED (new courses are published at once, and a submitted
 * draft is published rather than made pending).  Each method is one
 * transaction: on an error the courses table is unchanged.
 */
module CourseService {
  import opened Seqs
  import opened Entities
  import opened Persistence
  import Text
  import UserService

  /** `findById`: the course with this id, or not-found. */
  function FindById(courses: map<Id, Course>, id: Id): (r: Result<Course>)
    ensures r.Ok? <==> id in courses
    ensures r.Ok? ==> r.value == courses[id]
    ensures r.Err? ==> r.error == NotFound("Course")
  {
    if id in courses then Ok(courses[id]) else Err(NotFound("Course"))
  }

  /**
   * What the service may do to statuses: a course that is DRAFT or PENDING
   * afterwards already existed with that same status.
   */
  ghost predicate NoNewDraftOrPending(before: map<Id, Course>, after: map<Id, Course>)
  {
    forall id :: id in after && after[id].status in {Draft, Pending} ==>
      id in before && before[id].status == after[id].status
  }

  /** Steps that write only PUBLISHED or REJECTED compose into such a step. */
  lemma NoNewDraftOrPendingTransitive(a: map<Id, Course>, b: map<Id, Course>, c: map<Id, Course>)
    requires NoNewDraftOrPending(a, b) && NoNewDraftOrPending(b, c)
    ensures NoNewDraftOrPending(a, c)
  {
    forall id | id in c && c[id].status in {Draft, Pending}
      ensures id in a && a[id].status == c[id].status
    {
      assert id in b && b[id].status == c[id].status;
    }
  }

  /** So a store whose courses are never DRAFT or PENDING keeps it that way. */
  lemma NoDraftOrPendingStaysSo(before: map<Id, Course>, after: map<Id, Course>)
    requires NoNewDraftOrPending(before, after)
    requires forall id :: id in before ==> before[id].status !in {Draft, Pending}
    ensures forall id :: id in after ==> after[id].status !in {Draft, Pending}
  {
  }

  /** Shared by `createCourse` and `adminCreateCourse`, which differ only in the role message. */
  method CreatePublished(db: Store, title: string, description: string, thumbnailUrl: string,
                         instructorId: Id, notInstructorMessage: string)
    returns (r: Result<Id>)
    requires db.Valid()
    modifies db`courses, db`nextId
    ensures db.Valid()
    ensures instructorId !in db.users ==> r == Err(NotFound("User"))
    ensures instructorId in db.users && db.users[instructorId].role != Instructor ==>
      r == Err(BadRequest(notInstructorMessage))
    ensures r.Ok? <==> instructorId in db.users && db.users[instructorId].role == Instructor
    ensures r.Err? ==> db.courses == old(db.courses) && db.nextId == old(db.nextId)
    ensures r.Ok? ==> r.value !in old(db.courses)
    ensures r.Ok? ==> db.courses == old(db.courses)[r.value := Course(title, description, thumbnailUrl, instructorId, Published)]
    ensures NoNewDraftOrPending(old(db.courses), db.courses)
  {
    var user := UserService.FindById(db.users, instructorId);
    if user.Err? {
      return Err(user.error);
    }
    if user.value.role != Instructor {
      return Err(BadRequest(notInstructorMessage));
    }
    var id := db.NewId();
    db.courses := db.courses[id := Course(title, description, thumbnailUrl, instructorId, Published)];
    r := Ok(id);
  }

  /** `createCourse`: only an instructor may create; the course is published at once. */
  method CreateCourse(db: Store, title: string, description: string, thumbnailUrl: string, instructorId: Id)
    returns (r: Result<Id>)
    requires db.Valid()
    modifies db`courses, db`nextId
    ensures db.Valid()
    ensures instructorId !in db.users ==> r == Err(NotFound("User"))
    ensures instructorId in db.users && db.users[instructorId].role != Instructor ==>
      r == Err(BadRequest("Only instructors can create courses"))
    ensures r.Ok? <==> instructorId in db.users && db.users[instructorId].role == Instructor
    ensures r.Err? ==> db.courses == old(db.courses) && db.nextId == old(db.nextId)
    ensures r.Ok? ==> r.value !in old(db.courses)
    ensures r.Ok? ==> db.courses == old(db.courses)[r.value := Course(title, description, thumbnailUrl, instructorId, Published)]
    ensures NoNewDraftOrPending(old(db.courses), db.courses)
  {
    r := CreatePublished(db, title, description, thumbnailUrl, instructorId, "Only instructors can create courses");
  }

  /** `adminCreateCourse`: an admin creates a course on behalf of an instructor; also published at once. */
  method AdminCreateCourse(db: Store, title: string, description: string, thumbnailUrl: string, instructorId: Id)
    returns (r: Result<Id>)
    requires db.Valid()
    modifies db`courses, db`nextId
    ensures db.Valid()
    ensures instructorId !in db.users ==> r == Err(NotFound("User"))
    ensures instructorId in db.users && db.users[instructorId].role != Instructor ==>
      r == Err(BadRequest("Selected user must be an instructor"))
    ensures r.Ok? <==> instructorId in db.users && db.users[instructorId].role == Instructor
    ensures r.Err? ==> db.courses == old(db.courses) && db.nextId == old(db.nextId)
    ensures r.Ok? ==> r.value !in old(db.courses)
    ensures r.Ok? ==> db.courses == old(db.courses)[r.value := Course(title, description, thumbnailUrl, instructorId, Published)]
    ensures NoNewDraftOrPending(old(db.courses), db.courses)
  {
    r := CreatePublished(db, title, description, thumbnailUrl, instructorId, "Selected user must be an instructor");
  }

  /** A published course that already has students is frozen (for updates and deletes). */
  predicate FrozenByEnrollments(course: Course, enrollments: map<Id, Enrollment>, courseId: Id)
  {
    course.status == Published && HasEnrollments(enrollments, courseId)
  }

  /**
   * `updateCourse`: the owner may change title, description and thumbnail,
   * unless the course is published and has enrollments; status and
   * instructor never change.
   */
  method UpdateCourse(db: Store, courseId: Id, title: string, description: string, thumbnailUrl: string,
                      instructorId: Id)
    returns (r: Result<Course>)
    requires db.Valid()
    modifies db`courses
    ensures db.Valid()
    ensures courseId !in old(db.courses) ==> r == Err(NotFound("Course"))
    ensures courseId in old(db.courses) && old(db.courses)[courseId].instructorId != instructorId ==>
      r == Err(BadRequest("You can only update your own courses"))
    ensures (courseId in old(db.courses) && old(db.courses)[courseId].instructorId == instructorId
             && FrozenByEnrollments(old(db.courses)[courseId], db.enrollments, courseId)) ==>
      r == Err(BadRequest("Cannot update published courses with active enrollments"))
    ensures r.Ok? <==> courseId in old(db.courses) && old(db.courses)[courseId].instructorId == instructorId
                       && !FrozenByEnrollments(old(db.courses)[courseId], db.enrollments, courseId)
    ensures r.Err? ==> db.courses == old(db.courses)
    ensures r.Ok? ==> db.courses == old(db.courses)[courseId := r.value]
    ensures r.Ok? ==> r.value == old(db.courses)[courseId].(title := title, description := description, thumbnailUrl := thumbnailUrl)
    ensures r.Ok? ==> r.value.status == old(db.courses)[courseId].status && r.value.instructorId == instructorId
    ensures NoNewDraftOrPending(old(db.courses), db.courses)
  {
    var found := FindById(db.courses, courseId);
    if found.Err? {
      return Err(found.error);
    }
    var course := found.value;
    if course.instructorId != instructorId {
      return Err(BadRequest("You can only update your own courses"));
    }
    if FrozenByEnrollments(course, db.enrollments, courseId) {
      return Err(BadRequest("Cannot update published courses with active enrollments"));
    }
    var updated := course.(title := title, description := description, thumbnailUrl := thumbnailUrl);
    db.courses := db.courses[courseId := updated];
    r := Ok(updated);
  }

  /**
   * `findPublishedCoursesWithKeyword`: published courses whose lower-cased
   * title or description is `LIKE` the lower-cased `%keyword%`.  The keyword
   * is not escaped, so a `%` or `_` in it acts as a wildcard.
   */
  function PublishedWithKeyword(courses: map<Id, Course>, keyword: string): (ids: set<Id>)
    ensures forall id :: id in ids <==>
      (id in courses && courses[id].status == Published
       && (Text.ContainsPattern(courses[id].title, keyword) || Text.ContainsPattern(courses[id].description, keyword)))
  {
    set id | id in courses && courses[id].status == Published
      && (Text.ContainsPattern(courses[id].title, keyword) || Text.ContainsPattern(courses[id].description, keyword))
  }

  /** A keyword without `%` or `_` finds the published courses whose title or description contains it, ignoring case. */
  lemma LiteralKeywordIsSubstring(courses: map<Id, Course>, keyword: string)
    requires Text.Literal(keyword)
    ensures forall id :: id in PublishedWithKeyword(courses, keyword) <==>
      (id in courses && courses[id].status == Published
       && (Text.IncludesIgnoreCase(courses[id].title, keyword) || Text.IncludesIgnoreCase(courses[id].description, keyword)))
  {
    forall id | id in courses
      ensures Text.ContainsPattern(courses[id].title, keyword) <==> Text.IncludesIgnoreCase(courses[id].title, keyword)
      ensures Text.ContainsPattern(courses[id].description, keyword) <==> Text.IncludesIgnoreCase(courses[id].description, keyword)
    {
      Text.ContainsPatternLiteral(courses[id].title, keyword);
      Text.ContainsPatternLiteral(courses[id].description, keyword);
    }
  }

  /** The keyword `_` finds every published course whose title or description is not empty. */
  lemma UnderscoreKeywordMatchesAnyText(courses: map<Id, Course>)
    ensures forall id :: id in PublishedWithKeyword(courses, "_") <==>
      (id in courses && courses[id].status == Published && (courses[id].title != "" || courses[id].description != ""))
  {
    forall id | id in courses
      ensures Text.ContainsPattern(courses[id].title, "_") <==> courses[id].title != ""
      ensures Text.ContainsPattern(courses[id].description, "_") <==> courses[id].description != ""
    {
      Text.ContainsPatternUnderscore(courses[id].title);
      Text.ContainsPatternUnderscore(courses[id].description);
    }
  }

  /** `findByStatus(PUBLISHED)`. */
  function PublishedCourses(courses: map<Id, Course>): (ids: set<Id>)
    ensures forall id :: id in ids <==> id in courses && courses[id].status == Published
  {
    set id | id in courses && courses[id].status == Published
  }

  /**
   * `searchCourses`: a missing or blank keyword lists every published
   * course; otherwise the trimmed keyword is matched.
   */
  function SearchCourses(courses: map<Id, Course>, keyword: Option<string>): (ids: set<Id>)
    ensures ids <= PublishedCourses(courses)
    ensures keyword.None? || Text.JavaTrim(keyword.value) == "" ==> ids == PublishedCourses(courses)
    ensures keyword.Some? && Text.JavaTrim(keyword.value) != "" ==>
      ids == PublishedWithKeyword(courses, Text.JavaTrim(keyword.value))
  {
    if keyword.None? || Text.JavaTrim(keyword.value) == "" then PublishedCourses(courses)
    else PublishedWithKeyword(courses, Text.JavaTrim(keyword.value))
  }

  /** The blank-keyword listing equals a match on the empty string. */
  lemma SearchBlankIsEmptyKeyword(courses: map<Id, Course>)
    ensures PublishedCourses(courses) == PublishedWithKeyword(courses, "")
  {
    forall id | id in courses
      ensures Text.ContainsPattern(courses[id].title, "")
    {
      Text.ContainsPatternEmpty(courses[id].title);
    }
  }

  /**
   * `submitForApproval`: checked in order: owner, already published, not a
   * draft, no lessons.  A draft with lessons is published directly.
   */
  method SubmitForApproval(db: Store, courseId: Id, instructorId: Id) returns (r: Result<Course>)
    requires db.Valid()
    modifies db`courses
    ensures db.Valid()
    ensures r == SubmitOutcome(old(db.courses), db.lessons, courseId, instructorId)
    ensures r.Err? ==> db.courses == old(db.courses)
    ensures r.Ok? ==> db.courses == old(db.courses)[courseId := r.value]
    ensures NoNewDraftOrPending(old(db.courses), db.courses)
  {
    var found := FindById(db.courses, courseId);
    if found.Err? {
      return Err(found.error);
    }
    var course := found.value;
    if course.instructorId != instructorId {
      return Err(BadRequest("You can only submit your own courses for approval"));
    }
    if course.status == Published {
      return Err(BadRequest("Course is already published"));
    }
    if course.status != Draft {
      return Err(BadRequest("Only draft courses can be submitted for approval"));
    }
    if LessonsOf(db.lessons, courseId) == {} {
      return Err(BadRequest("Course must have at least one lesson before submission"));
    }
    var updated := course.(status := Published);
    db.courses := db.courses[courseId := updated];
    r := Ok(updated);
  }

  /** The outcome `submitForApproval` reports, in the order the checks are made. */
  function SubmitOutcome(courses: map<Id, Course>, lessons: map<Id, Lesson>, courseId: Id, instructorId: Id)
    : (r: Result<Course>)
    ensures r.Ok? <==> courseId in courses && courses[courseId].instructorId == instructorId
                       && courses[courseId].status == Draft && LessonsOf(lessons, courseId) != {}
    ensures r.Ok? ==> r.value == courses[courseId].(status := Published)
  {
    if courseId !in courses then Err(NotFound("Course"))
    else if courses[courseId].instructorId != instructorId then
      Err(BadRequest("You can only submit your own courses for approval"))
    else if courses[courseId].status == Published then Err(BadRequest("Course is already published"))
    else if courses[courseId].status != Draft then
      Err(BadRequest("Only draft courses can be submitted for approval"))
    else if LessonsOf(lessons, courseId) == {} then
      Err(BadRequest("Course must have at least one lesson before submission"))
    else Ok(courses[courseId].(status := Published))
  }

  /** A pending or rejected course of the owner is refused as "not a draft", not as "already published". */
  lemma SubmitNonDraftMessage(courses: map<Id, Course>, lessons: map<Id, Lesson>, courseId: Id, instructorId: Id)
    requires courseId in courses && courses[courseId].instructorId == instructorId
    requires courses[courseId].status in {Pending, Rejected}
    ensures SubmitOutcome(courses, lessons, courseId, instructorId)
            == Err(BadRequest("Only draft courses can be submitted for approval"))
  {
  }

  /** Shared by `approveCourse` and `rejectCourse`: only a PENDING course moves, to `target`. */
  method DecidePending(db: Store, courseId: Id, target: CourseStatus, notPendingMessage: string)
    returns (r: Result<Course>)
    requires db.Valid()
    requires target in {Published, Rejected}
    modifies db`courses
    ensures db.Valid()
    ensures courseId !in old(db.courses) ==> r == Err(NotFound("Course"))
    ensures courseId in old(db.courses) && old(db.courses)[courseId].status != Pending ==>
      r == Err(BadRequest(notPendingMessage))
    ensures r.Ok? <==> courseId in old(db.courses) && old(db.courses)[courseId].status == Pending
    ensures r.Err? ==> db.courses == old(db.courses)
    ensures r.Ok? ==> r.value == old(db.courses)[courseId].(status := target)
    ensures r.Ok? ==> db.courses == old(db.courses)[courseId := r.value]
    ensures NoNewDraftOrPending(old(db.courses), db.courses)
  {
    var found := FindById(db.courses, courseId);
    if found.Err? {
      return Err(found.error);
    }
    if found.value.status != Pending {
      return Err(BadRequest(notPendingMessage));
    }
    var updated := found.value.(status := target);
    db.courses := db.courses[courseId := updated];
    r := Ok(updated);
  }

  /** `approveCourse`: PENDING becomes PUBLISHED; any other status is refused. */
  method ApproveCourse(db: Store, courseId: Id) returns (r: Result<Course>)
    requires db.Valid()
    modifies db`courses
    ensures db.Valid()
    ensures courseId !in old(db.courses) ==> r == Err(NotFound("Course"))
    ensures courseId in old(db.courses) && old(db.courses)[courseId].status != Pending ==>
      r == Err(BadRequest("Only pending courses can be approved"))
    ensures r.Ok? <==> courseId in old(db.courses) && old(db.courses)[courseId].status == Pending
    ensures r.Err? ==> db.courses == old(db.courses)
    ensures r.Ok? ==> r.value == old(db.courses)[courseId].(status := Published)
    ensures r.Ok? ==> db.courses == old(db.courses)[courseId := r.value]
    ensures NoNewDraftOrPending(old(db.courses), db.courses)
  {
    r := DecidePending(db, courseId, Published, "Only pending courses can be approved");
  }

  /** `rejectCourse`: PENDING becomes REJECTED; any other status is refused. */
  method RejectCourse(db: Store, courseId: Id) returns (r: Result<Course>)
    requires db.Valid()
    modifies db`courses
    ensures db.Valid()
    ensures courseId !in old(db.courses) ==> r == Err(NotFound("Course"))
    ensures courseId in old(db.courses) && old(db.courses)[courseId].status != Pending ==>
      r == Err(BadRequest("Only pending courses can be rejected"))
    ensures r.Ok? <==> courseId in old(db.courses) && old(db.courses)[courseId].status == Pending
    ensures r.Err? ==> db.courses == old(db.courses)
    ensures r.Ok? ==> r.value == old(db.courses)[courseId].(status := Rejected)
    ensures r.Ok? ==> db.courses == old(db.courses)[courseId := r.value]
    ensures NoNewDraftOrPending(old(db.courses), db.courses)
  {
    r := DecidePending(db, courseId, Rejected, "Only pending courses can be rejected");
  }

  /** `deleteCourse`: the owner removes the course unless it is published and has enrollments. */
  method DeleteCourse(db: Store, courseId: Id, instructorId: Id) returns (r: Result<()>)
    requires db.Valid()
    modifies db`courses
    ensures db.Valid()
    ensures courseId !in old(db.courses) ==> r == Err(NotFound("Course"))
    ensures courseId in old(db.courses) && old(db.courses)[courseId].instructorId != instructorId ==>
      r == Err(BadRequest("You can only delete your own courses"))
    ensures (courseId in old(db.courses) && old(db.courses)[courseId].instructorId == instructorId
             && FrozenByEnrollments(old(db.courses)[courseId], db.enrollments, courseId)) ==>
      r == Err(BadRequest("Cannot delete published courses with enrollments"))
    ensures r.Ok? <==> courseId in old(db.courses) && old(db.courses)[courseId].instructorId == instructorId
                       && !FrozenByEnrollments(old(db.courses)[courseId], db.enrollments, courseId)
    ensures r.Err? ==> db.courses == old(db.courses)
    ensures r.Ok? ==> db.courses == old(db.courses) - {courseId}
    ensures NoNewDraftOrPending(old(db.courses), db.courses)
  {
    var found := FindById(db.courses, courseId);
    if found.Err? {
      return Err(found.error);
    }
    if found.value.instructorId != instructorId {
      return Err(BadRequest("You can only delete your own courses"));
    }
    if FrozenByEnrollments(found.value, db.enrollments, courseId) {
      return Err(BadRequest("Cannot delete published courses with enrollments"));
    }
    db.courses := db.courses - {courseId};
    r := Ok(());
  }

  /** `adminDeleteCourse`: any existing course is removed, whatever its status or enrollments. */
  method AdminDeleteCourse(db: Store, courseId: Id) returns (r: Result<()>)
    requires db.Valid()
    modifies db`courses
    ensures db.Valid()
    ensures r.Ok? <==> courseId in old(db.courses)
    ensures r.Err? ==> r.error == NotFound("Course") && db.courses == old(db.courses)
    ensures r.Ok? ==> db.courses == old(db.courses) - {courseId}
    ensures NoNewDraftOrPending(old(db.courses), db.courses)
  {
    var found := FindById(db.courses, courseId);
    if found.Err? {
      return Err(found.error);
    }
    db.courses := db.courses - {courseId};
    r := Ok(());
  }
}

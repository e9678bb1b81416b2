/**
 * The instructor's course list: which actions each course offers, decided
 * by its status and lesson count, and the status badge.  The lemmas relate
 * the offered buttons to what the course service accepts.
 */
module InstructorCourses {
  import opened Seqs
  import opened Entities
  import opened Persistence
  import CourseService

  datatype CourseAction = SubmitAction | EditAction | DeleteAction | AnalyticsAction

  /** The buttons rendered for a course with this status. */
  function Actions(status: string): (r: set<CourseAction>)
    ensures SubmitAction in r <==> status == "DRAFT"
    ensures EditAction in r <==> status == "DRAFT"
    ensures DeleteAction in r <==> status == "DRAFT" || status == "REJECTED"
    ensures AnalyticsAction in r <==> status == "PUBLISHED"
  {
    (if status == "DRAFT" then {SubmitAction, EditAction} else {})
    + (if status == "DRAFT" || status == "REJECTED" then {DeleteAction} else {})
    + (if status == "PUBLISHED" then {AnalyticsAction} else {})
  }

  /** A pending course offers nothing; every other status of the server offers something. */
  lemma PendingHasNoActions(st: CourseStatus)
    ensures Actions(StatusName(st)) == {} <==> st == Pending
  {
    if st != Pending {
      var r := Actions(StatusName(st));
      assert SubmitAction in r || DeleteAction in r || AnalyticsAction in r;
    }
  }

  /** The submit button is disabled for a course without lessons. */
  predicate SubmitEnabled(totalLessons: nat)
  {
    totalLessons != 0
  }

  /**
   * For the owner's course, an offered and enabled submit button is exactly
   * a submission the service accepts (the page's lesson count being the
   * course's lessons).
   */
  lemma SubmitButtonMatchesService(courses: map<Id, Course>, lessons: map<Id, Lesson>, courseId: Id, instructorId: Id)
    requires courseId in courses && courses[courseId].instructorId == instructorId
    ensures (SubmitAction in Actions(StatusName(courses[courseId].status))
             && SubmitEnabled(|LessonsOf(lessons, courseId)|))
            <==> CourseService.SubmitOutcome(courses, lessons, courseId, instructorId).Ok?
  {
  }

  /** A course that offers Delete is never one the service refuses to delete for its enrollments. */
  lemma DeleteButtonNeverFrozen(course: Course, enrollments: map<Id, Enrollment>, courseId: Id)
    requires DeleteAction in Actions(StatusName(course.status))
    ensures !CourseService.FrozenByEnrollments(course, enrollments, courseId)
  {
  }

  /** `getStatusBadge`: a class per known status; an unknown status has none. */
  function StatusBadge(status: string): (badge: Option<string>)
    ensures badge.Some? <==> status in {"DRAFT", "PENDING", "PUBLISHED", "REJECTED"}
  {
    if status == "DRAFT" then Some("bg-gray-100 text-gray-800")
    else if status == "PENDING" then Some("bg-yellow-100 text-yellow-800")
    else if status == "PUBLISHED" then Some("bg-green-100 text-green-800")
    else if status == "REJECTED" then Some("bg-red-100 text-red-800")
    else None
  }

  /** Each of the four statuses has its own badge. */
  lemma BadgesDistinct(s: CourseStatus, t: CourseStatus)
    requires s != t
    ensures StatusBadge(StatusName(s)).Some? && StatusBadge(StatusName(s)) != StatusBadge(StatusName(t))
  {
  }
}

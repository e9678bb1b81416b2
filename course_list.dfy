/**
 * The course catalogue a student browses: the published courses, the set of
 * courses the student is enrolled in, and per card either an "Enrolled"
 * badge or an "Enroll" button.  Server answers are parameters (`None` for
 * a failed request).
 */
module CourseList {
  import opened Seqs

  datatype ListedCourse = ListedCourse(id: nat, title: string, instructorName: string, totalLessons: nat)

  /** An enrollment as the student's enrollment listing returns it. */
  datatype EnrollmentRef = EnrollmentRef(id: nat, courseId: nat)

  /** `new Set(enrollments.map(e => e.courseId))`: exactly the enrolled course ids. */
  function EnrolledSet(enrollments: seq<EnrollmentRef>): (r: set<nat>)
    ensures forall id :: id in r <==> exists i :: 0 <= i < |enrollments| && enrollments[i].courseId == id
  {
    set i | 0 <= i < |enrollments| :: enrollments[i].courseId
  }

  /**
   * `loadCourses`: a loaded page (`Some(content)`) gives its content, or the
   * empty list when it has none; a failed request (`None`) also empties the
   * list.
   */
  function AfterLoadCourses(answer: Option<Option<seq<ListedCourse>>>): (r: seq<ListedCourse>)
    ensures answer.None? || answer.value.None? ==> r == []
    ensures answer.Some? && answer.value.Some? ==> r == answer.value.value
  {
    match answer
    case None => []
    case Some(content) => PageContent(content)
  }

  /** `loadEnrollments`: the loaded set replaces the old one; a failure keeps the old one. */
  function AfterLoadEnrollments(enrolled: set<nat>, answer: Option<seq<EnrollmentRef>>): (r: set<nat>)
    ensures answer.None? ==> r == enrolled
    ensures answer.Some? ==> r == EnrolledSet(answer.value)
  {
    match answer
    case None => enrolled
    case Some(es) => EnrolledSet(es)
  }

  /** `handleEnroll`: success adds the course to the set, failure leaves the set as it was. */
  function AfterEnroll(enrolled: set<nat>, courseId: nat, ok: bool): (r: set<nat>)
    ensures enrolled <= r
    ensures ok ==> r == enrolled + {courseId}
    ensures !ok ==> r == enrolled
  {
    if ok then enrolled + {courseId} else enrolled
  }

  datatype CardControl = EnrolledBadge | EnrollButton

  /** The card shows the badge exactly for enrolled courses and the button otherwise. */
  function CardControlFor(enrolled: set<nat>, courseId: nat): (c: CardControl)
    ensures c == EnrolledBadge <==> courseId in enrolled
  {
    if courseId in enrolled then EnrolledBadge else EnrollButton
  }

  /**
   * After a successful enroll, the course's card turns into the badge and
   * every other card keeps its control; after a failure no card changes.
   */
  lemma EnrollUpdatesOnlyThatCard(enrolled: set<nat>, courseId: nat, ok: bool, other: nat)
    ensures ok ==> CardControlFor(AfterEnroll(enrolled, courseId, ok), courseId) == EnrolledBadge
    ensures other != courseId ==>
              CardControlFor(AfterEnroll(enrolled, courseId, ok), other) == CardControlFor(enrolled, other)
    ensures !ok ==> CardControlFor(AfterEnroll(enrolled, courseId, ok), other) == CardControlFor(enrolled, other)
  {
  }

  /**
   * The set after a series of enroll attempts, each with its outcome.  It
   * only grows, so a course already enrolled keeps its badge.
   */
  function EnrollAll(enrolled: set<nat>, attempts: seq<(nat, bool)>): (r: set<nat>)
    ensures enrolled <= r
    ensures forall id :: id in r <==>
      id in enrolled || exists i :: 0 <= i < |attempts| && attempts[i].1 && attempts[i].0 == id
  {
    if attempts == [] then enrolled
    else
      var init, last := attempts[..|attempts| - 1], attempts[|attempts| - 1];
      assert forall i :: 0 <= i < |init| ==> init[i] == attempts[i];
      AfterEnroll(EnrollAll(enrolled, init), last.0, last.1)
  }
}

/**
 * The persistent entities of the back end (users, courses, lessons,
 * enrollments and per-lesson progress) and the service exceptions.
 *
 * Users, courses, lessons and enrollments are values kept in the store's
 * maps; the services replace a record wholesale when they call its setters.
 * Progress is a class because its one piece of logic, `setCompleted`,
 * updates two fields in place.
 */
module Entities {
  import opened Seqs
  import Numbers

  type Id = nat

  /** A point in time, as `LocalDateTime.now()` would supply it. */
  type Timestamp = nat

  datatype Role = Student | Instructor | Admin

  datatype CourseStatus = Draft | Pending | Published | Rejected

  /** The status as the JSON responses carry it: the enum constant's name. */
  function StatusName(s: CourseStatus): (n: string)
    ensures n in {"DRAFT", "PENDING", "PUBLISHED", "REJECTED"}
  {
    match s
    case Draft => "DRAFT"
    case Pending => "PENDING"
    case Published => "PUBLISHED"
    case Rejected => "REJECTED"
  }

  /** Distinct statuses have distinct names, so a page can tell them apart by name. */
  lemma StatusNameInjective(s: CourseStatus, t: CourseStatus)
    ensures StatusName(s) == StatusName(t) ==> s == t
  {
  }

  datatype User = User(
    username: string,
    email: string,
    password: string,  // always the encoder's output
    firstName: string,
    lastName: string,
    role: Role,
    active: bool)

  datatype Course = Course(
    title: string,
    description: string,
    thumbnailUrl: string,
    instructorId: Id,
    status: CourseStatus)

  datatype Lesson = Lesson(
    title: string,
    content: string,
    contentType: string,
    contentUrl: string,
    orderIndex: int,
    courseId: Id)

  datatype Enrollment = Enrollment(studentId: Id, courseId: Id)

  /** The two exceptions the services throw, plus a violated unique constraint of the schema. */
  datatype Error =
    | BadRequest(message: string)
    | NotFound(message: string)
    | ConstraintViolation(constraint: string)

  datatype Result<T> = Ok(value: T) | Err(error: Error)

  /** One student's completion state for one lesson of one enrollment. */
  class Progress {
    const enrollmentId: Id
    const lessonId: Id
    var completed: bool
    var completedAt: Option<Timestamp>

    /** A completion time is recorded exactly while the lesson is completed. */
    ghost predicate Consistent()
      reads this
    {
      completedAt.Some? <==> completed
    }

    /** `new Progress(enrollment, lesson)`: not completed, no completion time. */
    constructor (enrollmentId: Id, lessonId: Id)
      ensures this.enrollmentId == enrollmentId && this.lessonId == lessonId
      ensures !completed && completedAt == None
      ensures Consistent()
    {
      this.enrollmentId := enrollmentId;
      this.lessonId := lessonId;
      completed := false;
      completedAt := None;
    }

    /**
     * `setCompleted(c)`: the first completion stamps `now`, a repeated
     * completion keeps the original time, and clearing drops the time.
     */
    method SetCompleted(c: bool, now: Timestamp)
      modifies this
      ensures completed == c
      ensures c && old(completedAt).None? ==> completedAt == Some(now)
      ensures c && old(completedAt).Some? ==> completedAt == old(completedAt)
      ensures !c ==> completedAt == None
      ensures Consistent()
    {
      completed := c;
      if c && completedAt.None? {
        completedAt := Some(now);
      } else if !c {
        completedAt := None;
      }
    }

    /** `setCompletedAt(t)`: writes the time alone, so it can break `Consistent`. */
    method SetCompletedAt(t: Option<Timestamp>)
      modifies this
      ensures completedAt == t && completed == old(completed)
      ensures Consistent() <==> (t.Some? <==> completed)
    {
      completedAt := t;
    }
  }

  /**
   * `Enrollment.getProgressPercentage`: completed lessons over the course's
   * lesson count, times 100, and 0 for a course without lessons.
   */
  function ProgressPercentage(completed: nat, total: nat): (p: real)
    ensures total == 0 ==> p == 0.0
    ensures p >= 0.0
    ensures completed <= total ==> p <= 100.0
    ensures p == 100.0 <==> total > 0 && completed == total
  {
    if total == 0 then 0.0
    else
      var p := (completed as real / total as real) * 100.0;
      PercentageBounds(completed, total);
      p
  }

  lemma PercentageBounds(c: nat, t: nat)
    requires t > 0
    ensures (c as real / t as real) * 100.0 >= 0.0
    ensures c <= t ==> (c as real / t as real) * 100.0 <= 100.0
    ensures (c as real / t as real) * 100.0 == 100.0 <==> c == t
  {
    Numbers.QuotientFacts(c as real, t as real);
  }
}

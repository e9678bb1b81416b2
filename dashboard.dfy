/**
 * The dashboard: which role's data is loaded, the counters each role sees,
 * the recent-activity list built from the loaded page, and the greeting
 * chosen from the hour of the day (a parameter here).
 */
module Dashboard {
  import opened Seqs
  import opened Auth
  import Entities

  datatype DashboardKind = StudentDashboard | InstructorDashboard | AdminDashboard | NoDashboard

  /** `loadDashboardData`: the first role that matches, tried as student, instructor, admin. */
  function KindFor(s: AuthState): (k: DashboardKind)
    ensures k == StudentDashboard <==> IsStudent(s)
    ensures k == InstructorDashboard <==> !IsStudent(s) && IsInstructor(s)
    ensures k == AdminDashboard <==> !IsStudent(s) && !IsInstructor(s) && IsAdmin(s)
    ensures k == NoDashboard <==> !IsStudent(s) && !IsInstructor(s) && !IsAdmin(s)
  {
    if IsStudent(s) then StudentDashboard
    else if IsInstructor(s) then InstructorDashboard
    else if IsAdmin(s) then AdminDashboard
    else NoDashboard
  }

  /** Roles are exclusive, so the order of the tests never matters: each role gets its own loader. */
  lemma KindMatchesRole(s: AuthState)
    requires Coherent(s)
    ensures IsInstructor(s) ==> KindFor(s) == InstructorDashboard
    ensures IsAdmin(s) ==> KindFor(s) == AdminDashboard
    ensures !s.isAuthenticated ==> KindFor(s) == NoDashboard
  {
    RolesExclusive(s);
  }

  /** An enrollment on the student's first page, with the server's percentage. */
  datatype EnrollmentSummary = EnrollmentSummary(id: nat, courseTitle: string, progressPercentage: real, enrolledAt: string)

  datatype StudentStats = StudentStats(totalEnrollments: nat, completedCourses: nat, inProgressCourses: nat, availableCourses: nat)

  predicate IsFinished(e: EnrollmentSummary) { e.progressPercentage == 100.0 }

  predicate IsUnderway(e: EnrollmentSummary) { 0.0 < e.progressPercentage < 100.0 }

  /**
   * The student's counters: the enrollment total is the server's total,
   * while the completed and in-progress counts are over the loaded page only.
   */
  function StudentStatsOf(page: seq<EnrollmentSummary>, totalElements: nat, publishedTotal: nat): (r: StudentStats)
    ensures r.totalEnrollments == totalElements && r.availableCourses == publishedTotal
    ensures r.completedCourses == Count(page, IsFinished)
    ensures r.inProgressCourses == Count(page, IsUnderway)
    ensures r.completedCourses + r.inProgressCourses <= |page|
  {
    CountDisjoint(page, IsFinished, IsUnderway);
    StudentStats(totalElements, |Filter(page, IsFinished)|, |Filter(page, IsUnderway)|, publishedTotal)
  }

  /** With the server's percentage, "completed" on the dashboard means every lesson of the course is done. */
  lemma FinishedMeansAllLessons(completed: nat, total: nat, e: EnrollmentSummary)
    requires e.progressPercentage == Entities.ProgressPercentage(completed, total)
    ensures IsFinished(e) <==> total > 0 && completed == total
    ensures IsUnderway(e) ==> 0 < completed && completed != total
  {
    if completed == 0 && total > 0 {
      assert Entities.ProgressPercentage(completed, total) == (0.0 / total as real) * 100.0;
    }
  }

  /** A course on the instructor's first page. */
  datatype CourseSummary = CourseSummary(id: nat, title: string, status: string, enrollmentCount: nat, createdAt: string)

  datatype InstructorStats = InstructorStats(totalCourses: nat, publishedCourses: nat, pendingCourses: nat, totalStudents: nat)

  predicate IsPublished(c: CourseSummary) { c.status == "PUBLISHED" }

  predicate IsPending(c: CourseSummary) { c.status == "PENDING" }

  /** The instructor's counters, all over the loaded page except the student total. */
  function InstructorStatsOf(courses: seq<CourseSummary>, studentTotal: nat): (r: InstructorStats)
    ensures r.totalCourses == |courses| && r.totalStudents == studentTotal
    ensures r.publishedCourses == Count(courses, IsPublished)
    ensures r.pendingCourses == Count(courses, IsPending)
    ensures r.publishedCourses + r.pendingCourses <= r.totalCourses
  {
    CountDisjoint(courses, IsPublished, IsPending);
    InstructorStats(|courses|, |Filter(courses, IsPublished)|, |Filter(courses, IsPending)|, studentTotal)
  }

  datatype AdminStats = AdminStats(totalUsers: nat, totalCourses: nat, pendingApprovals: nat)

  /** The admin's counters are the three server totals. */
  function AdminStatsOf(activeUsersTotal: nat, coursesTotal: nat, pendingTotal: nat): (r: AdminStats)
    ensures r.totalUsers == activeUsersTotal && r.totalCourses == coursesTotal && r.pendingApprovals == pendingTotal
  {
    AdminStats(activeUsersTotal, coursesTotal, pendingTotal)
  }

  /** A pending course on the admin's page. */
  datatype PendingSummary = PendingSummary(id: nat, title: string, instructorName: string, createdAt: string)

  datatype Activity =
    | EnrollmentActivity(id: nat, title: string, progress: real, date: string)
    | CourseActivity(id: nat, title: string, status: string, enrollments: nat, date: string)
    | ApprovalActivity(id: nat, title: string, instructor: string, date: string)

  function EnrollmentEntry(e: EnrollmentSummary): Activity
  {
    EnrollmentActivity(e.id, e.courseTitle, e.progressPercentage, e.enrolledAt)
  }

  function CourseEntry(c: CourseSummary): Activity
  {
    CourseActivity(c.id, c.title, c.status, c.enrollmentCount, c.createdAt)
  }

  function ApprovalEntry(c: PendingSummary): Activity
  {
    ApprovalActivity(c.id, c.title, c.instructorName, c.createdAt)
  }

  /** The student's recent activity: one entry per loaded enrollment, in the same order. */
  function StudentActivity(page: seq<EnrollmentSummary>): (r: seq<Activity>)
    ensures |r| == |page|
    ensures forall i :: 0 <= i < |page| ==> r[i].EnrollmentActivity? && r[i].id == page[i].id
                                            && r[i].title == page[i].courseTitle && r[i].progress == page[i].progressPercentage
  {
    Map(page, EnrollmentEntry)
  }

  /** The instructor's recent activity: one entry per loaded course, in the same order. */
  function InstructorActivity(courses: seq<CourseSummary>): (r: seq<Activity>)
    ensures |r| == |courses|
    ensures forall i :: 0 <= i < |courses| ==> r[i].CourseActivity? && r[i].id == courses[i].id
                                               && r[i].status == courses[i].status && r[i].enrollments == courses[i].enrollmentCount
  {
    Map(courses, CourseEntry)
  }

  /** The admin's recent activity: one entry per pending course, in the same order. */
  function AdminActivity(pending: seq<PendingSummary>): (r: seq<Activity>)
    ensures |r| == |pending|
    ensures forall i :: 0 <= i < |pending| ==> r[i].ApprovalActivity? && r[i].id == pending[i].id
                                               && r[i].instructor == pending[i].instructorName
  {
    Map(pending, ApprovalEntry)
  }

  /** `getGreeting`: morning before noon, afternoon before six in the evening, evening after. */
  function Greeting(hour: nat): (g: string)
    requires hour < 24
    ensures g == "Good morning" <==> hour < 12
    ensures g == "Good afternoon" <==> 12 <= hour < 18
    ensures g == "Good evening" <==> 18 <= hour
  {
    if hour < 12 then "Good morning"
    else if hour < 18 then "Good afternoon"
    else "Good evening"
  }

  /** The greeting never goes back during a day. */
  lemma GreetingMonotone(h1: nat, h2: nat)
    requires h1 <= h2 < 24
    ensures Greeting(h1) == "Good evening" ==> Greeting(h2) == "Good evening"
    ensures Greeting(h2) == "Good morning" ==> Greeting(h1) == "Good morning"
  {
  }
}

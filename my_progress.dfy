/**
 * The student's progress overview: per-enrollment completion and the four
 * counters computed by one pass (`reduce`) over the enrollments.  Each
 * enrollment is read with the shape the page expects (its progress records
 * and the course's lesson count).
 */
module MyProgress {
  import opened Seqs
  import opened Numbers

  datatype LessonProgress = LessonProgress(lessonId: nat, completed: bool)

  datatype EnrollmentView = EnrollmentView(progress: seq<LessonProgress>, totalLessons: nat)

  datatype Stats = Stats(totalCourses: nat, completedCourses: nat, inProgress: nat, totalLessonsCompleted: nat)

  predicate IsDone(p: LessonProgress) { p.completed }

  /** `enrollment.progress.filter(p => p.completed).length`. */
  function CompletedLessons(e: EnrollmentView): (n: int)
    ensures 0 <= n <= |e.progress|
  {
    Count(e.progress, IsDone)
  }

  /** Completed means the completed count equals the lesson count, so a course without lessons is completed. */
  predicate IsCompletedCourse(e: EnrollmentView)
  {
    CompletedLessons(e) == e.totalLessons
  }

  predicate IsInProgress(e: EnrollmentView)
  {
    !IsCompletedCourse(e) && CompletedLessons(e) > 0
  }

  /** One step of the `reduce`. */
  function Step(acc: Stats, e: EnrollmentView): Stats
  {
    Stats(acc.totalCourses + 1,
          acc.completedCourses + (if IsCompletedCourse(e) then 1 else 0),
          acc.inProgress + (if IsInProgress(e) then 1 else 0),
          acc.totalLessonsCompleted + CompletedLessons(e))
  }

  /** `calculateStats`: the reduce from all-zero counters, left to right. */
  function CalculateStats(es: seq<EnrollmentView>): (r: Stats)
    ensures r.totalCourses == |es|
    ensures r.completedCourses == Count(es, IsCompletedCourse)
    ensures r.inProgress == Count(es, IsInProgress)
    ensures r.totalLessonsCompleted == Sum(es, CompletedLessons)
  {
    if es == [] then Stats(0, 0, 0, 0)
    else
      Step(CalculateStats(es[..|es| - 1]), es[|es| - 1])
  }

  /** Completed and in-progress courses are disjoint, so together they never exceed the total. */
  lemma CompletedAndInProgressDisjoint(es: seq<EnrollmentView>)
    ensures CalculateStats(es).completedCourses + CalculateStats(es).inProgress <= CalculateStats(es).totalCourses
  {
    CountDisjoint(es, IsCompletedCourse, IsInProgress);
  }

  /** Every in-progress course contributes at least one completed lesson. */
  lemma {:induction false} LessonsCoverInProgress(es: seq<EnrollmentView>)
    ensures CalculateStats(es).inProgress <= CalculateStats(es).totalLessonsCompleted
  {
    if es != [] {
      LessonsCoverInProgress(es[..|es| - 1]);
    }
  }

  /** An enrollment in a course without lessons counts as completed, never as in progress. */
  lemma EmptyCourseCountsCompleted(e: EnrollmentView)
    requires e.totalLessons == 0 && forall j :: 0 <= j < |e.progress| ==> !e.progress[j].completed
    ensures CalculateStats([e]) == Stats(1, 1, 0, 0)
  {
    assert [e][..0] == [];
  }

  /**
   * `calculateProgress`: `Math.round(completed / totalLessons * 100)`.  For a
   * course without lessons there is no percentage (`None`): JavaScript gives
   * `NaN` for 0/0, or `Infinity` when the course has no lessons but the
   * enrollment still has completed progress rows.
   */
  function CalculateProgress(e: EnrollmentView): (r: Option<nat>)
    ensures r.None? <==> e.totalLessons == 0
    ensures r.Some? ==> r.value == Percent(CompletedLessons(e), e.totalLessons)
    ensures r.Some? && CompletedLessons(e) <= e.totalLessons ==> r.value <= 100
    ensures r.Some? && IsCompletedCourse(e) ==> r.value == 100
  {
    if e.totalLessons == 0 then None
    else
      var c := CompletedLessons(e);
      var t := e.totalLessons;
      PercentIsMathRound(c, t);
      Some(MathRound(c as real / t as real * 100.0))
  }
}

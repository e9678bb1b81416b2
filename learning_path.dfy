/**
 * The learning-path view: stages of courses, each course shown as
 * "Continue" (enrolled), "Start Course" (first of its stage, or right after
 * an enrolled course of the same stage) or "Locked".  The row background,
 * the button style and the label are three separately written conditions.
 * `enrolled` is the set of course ids of the student's enrollments, built as
 * `CourseList.EnrolledSet` builds it.
 */
module LearningPath {
  import opened Seqs

  datatype PathCourse = PathCourse(id: nat, title: string)

  datatype Stage = Stage(title: string, courses: seq<PathCourse>)

  /** The row background, as written at the row. */
  function RowClass(courses: seq<PathCourse>, i: nat, enrolled: set<nat>): string
    requires i < |courses|
  {
    if courses[i].id in enrolled then "bg-green-50"
    else if i == 0 || courses[i - 1].id in enrolled then "bg-white"
    else "bg-gray-50"
  }

  /** The button style, as written at the link. */
  function ButtonClass(courses: seq<PathCourse>, i: nat, enrolled: set<nat>): string
    requires i < |courses|
  {
    if courses[i].id in enrolled then "btn-secondary"
    else if i == 0 || courses[i - 1].id in enrolled then "btn-primary"
    else "btn-disabled"
  }

  /** The button label, as written in the link's body. */
  function Label(courses: seq<PathCourse>, i: nat, enrolled: set<nat>): string
    requires i < |courses|
  {
    if courses[i].id in enrolled then "Continue"
    else if i == 0 || courses[i - 1].id in enrolled then "Start Course"
    else "Locked"
  }

  datatype Gate = Continue | Start | Locked

  /** The three-way decision behind the row, the button and the label. */
  function GateOf(courses: seq<PathCourse>, i: nat, enrolled: set<nat>): (g: Gate)
    requires i < |courses|
    ensures g == Continue <==> courses[i].id in enrolled
    ensures g == Start <==> courses[i].id !in enrolled && (i == 0 || courses[i - 1].id in enrolled)
    ensures g == Locked <==> courses[i].id !in enrolled && i > 0 && courses[i - 1].id !in enrolled
  {
    if courses[i].id in enrolled then Continue
    else if i == 0 || courses[i - 1].id in enrolled then Start
    else Locked
  }

  /** Row, button and label always show the same decision. */
  lemma RenderingAgrees(courses: seq<PathCourse>, i: nat, enrolled: set<nat>)
    requires i < |courses|
    ensures (Label(courses, i, enrolled) == "Continue") == (GateOf(courses, i, enrolled) == Continue)
                                                       == (RowClass(courses, i, enrolled) == "bg-green-50")
                                                       == (ButtonClass(courses, i, enrolled) == "btn-secondary")
    ensures (Label(courses, i, enrolled) == "Start Course") == (GateOf(courses, i, enrolled) == Start)
                                                           == (RowClass(courses, i, enrolled) == "bg-white")
                                                           == (ButtonClass(courses, i, enrolled) == "btn-primary")
    ensures (Label(courses, i, enrolled) == "Locked") == (GateOf(courses, i, enrolled) == Locked)
                                                     == (RowClass(courses, i, enrolled) == "bg-gray-50")
                                                     == (ButtonClass(courses, i, enrolled) == "btn-disabled")
  {
  }

  /** Gating never looks across stages: the first course of every stage can be started or continued. */
  lemma FirstOfEveryStageOpen(stages: seq<Stage>, enrolled: set<nat>)
    ensures forall s :: 0 <= s < |stages| && stages[s].courses != [] ==>
              GateOf(stages[s].courses, 0, enrolled) != Locked
  {
  }

  /** Enrolling in more courses never locks a course that was open. */
  lemma EnrollingNeverLocks(courses: seq<PathCourse>, i: nat, enrolled: set<nat>, more: set<nat>)
    requires i < |courses| && enrolled <= more
    ensures GateOf(courses, i, enrolled) != Locked ==> GateOf(courses, i, more) != Locked
    ensures GateOf(courses, i, enrolled) == Continue ==> GateOf(courses, i, more) == Continue
  {
  }

  /** The decision for every course of a stage, in order. */
  function Gates(courses: seq<PathCourse>, enrolled: set<nat>): (gs: seq<Gate>)
    ensures |gs| == |courses|
    ensures forall i :: 0 <= i < |courses| ==> gs[i] == GateOf(courses, i, enrolled)
  {
    seq(|courses|, i requires 0 <= i < |courses| => GateOf(courses, i, enrolled))
  }

  predicate IsStart(g: Gate) { g == Start }

  predicate IsContinue(g: Gate) { g == Continue }

  /**
   * Each "Start Course" after the first position follows a "Continue", so a
   * stage offers at most one more start than it has enrolled courses.
   */
  lemma StartsBoundedByEnrolled(courses: seq<PathCourse>, enrolled: set<nat>)
    ensures Count(Gates(courses, enrolled), IsStart) <= Count(Gates(courses, enrolled), IsContinue) + 1
  {
    GatesStartsFollowContinue(courses, enrolled);
    StartsBounded(Gates(courses, enrolled));
  }

  lemma GatesStartsFollowContinue(courses: seq<PathCourse>, enrolled: set<nat>)
    ensures StartsFollowContinue(Gates(courses, enrolled))
  {
    var gs := Gates(courses, enrolled);
    forall i, j | 0 <= i < |gs| && j == i + 1 && j < |gs| && gs[j] == Start
      ensures gs[i] == Continue
    {
      assert courses[i].id in enrolled;
    }
  }

  /** Every "Start Course" after the first position directly follows a "Continue". */
  predicate StartsFollowContinue(gs: seq<Gate>)
  {
    forall i, j :: 0 <= i < |gs| && j == i + 1 && j < |gs| && gs[j] == Start ==> gs[i] == Continue
  }

  lemma {:induction false} StartsBounded(gs: seq<Gate>)
    requires StartsFollowContinue(gs)
    ensures Count(gs, IsStart) <= Count(gs, IsContinue) + 1
    ensures gs != [] ==> Count(gs, IsStart) <= Count(gs[..|gs| - 1], IsContinue) + 1
  {
    if gs != [] {
      var init := gs[..|gs| - 1];
      assert StartsFollowContinue(init) by {
        forall i, j | 0 <= i < |init| && j == i + 1 && j < |init| && init[j] == Start
          ensures init[i] == Continue
        {
          assert init[j] == gs[j] && init[i] == gs[i];
        }
      }
      StartsBounded(init);
      if gs[|gs| - 1] == Start && init != [] {
        assert init[|init| - 1] == Continue;
      }
      if init == [] {
        assert init[..0] == [];
      }
    }
  }
}

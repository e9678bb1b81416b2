/**
 * The instructor's "My Students" page: the enrollment records of the
 * instructor's courses grouped into one entry per student, the name
 * fallbacks for older response shapes, the summary counters, the search and
 * course filters, and the sorted course names for the filter menu.
 *
 * A string field the response leaves out is the empty string here, since
 * JavaScript's `a || b` treats both alike.
 */
module InstructorStudents {
  import opened Seqs
  import opened Text
  import Numbers

  /** One enrollment record as the page receives it. */
  datatype Record = Record(
    studentId: nat,
    studentFirstName: string,
    studentLastName: string,
    studentName: string,
    studentUsername: string,
    studentEmail: string,
    courseId: nat,
    courseTitle: string,
    enrolledAt: string,
    progressPercentage: Option<real>,
    totalLessons: int,
    completedLessons: int)

  /** One course of a student, as listed under that student. */
  datatype CourseEntry = CourseEntry(
    courseId: nat,
    courseName: string,
    enrolledAt: string,
    progress: int,
    completed: bool,
    totalLessons: int,
    completedLessons: int)

  datatype Student = Student(
    id: nat,
    firstName: string,
    lastName: string,
    username: string,
    email: string,
    enrollments: seq<CourseEntry>)

  const UnknownFirstName := "Unknown"
  const UnknownLastName := "Student"

  /**
   * The displayed first and last name: the separate fields when both are
   * present, else the full name cut at its first space, else placeholders.
   */
  function ResolveName(first: string, last: string, full: string): (r: (string, string))
    ensures r.0 != "" && r.1 != ""
    ensures first != "" && last != "" ==> r == (first, last)
    ensures !(first != "" && last != "") && full == "" ==> r == (UnknownFirstName, UnknownLastName)
    ensures !(first != "" && last != "") && full != "" ==> ' ' !in r.0
  {
    if first != "" && last != "" then (first, last)
    else if full != "" then
      var parts := Split(full, ' ');
      var rest := Join(parts[1..], ' ');
      (if parts[0] != "" then parts[0] else UnknownFirstName, if rest != "" then rest else UnknownLastName)
    else (UnknownFirstName, UnknownLastName)
  }

  /** A full name with a space: what precedes the first space, and everything after it. */
  lemma ResolveNameAtFirstSpace(first: string, last: string, full: string, i: nat)
    requires !(first != "" && last != "")
    requires i < |full| && full[i] == ' ' && ' ' !in full[..i]
    ensures ResolveName(first, last, full)
            == (if i == 0 then UnknownFirstName else full[..i],
                if i + 1 == |full| then UnknownLastName else full[i + 1..])
  {
    SplitAtFirst(full, i, ' ');
  }

  /** A one-word full name is the first name; the last name is the placeholder. */
  lemma ResolveNameOneWord(first: string, last: string, full: string)
    requires !(first != "" && last != "") && full != "" && ' ' !in full
    ensures ResolveName(first, last, full) == (full, UnknownLastName)
  {
    SplitNoSeparator(full, ' ');
  }

  /** The identity part of a student, taken from one record; no courses yet. */
  function Identity(r: Record): (s: Student)
    ensures s.id == r.studentId && s.enrollments == []
    ensures (s.firstName, s.lastName) == ResolveName(r.studentFirstName, r.studentLastName, r.studentName)
    ensures s.username != "" && s.email != ""
    ensures r.studentUsername != "" ==> s.username == r.studentUsername
    ensures r.studentUsername == "" ==> s.username == "student" + NatToString(r.studentId)
    ensures r.studentEmail != "" ==> s.email == r.studentEmail
    ensures r.studentEmail == "" ==> s.email == "student" + NatToString(r.studentId) + "@example.com"
  {
    var name := ResolveName(r.studentFirstName, r.studentLastName, r.studentName);
    Student(r.studentId, name.0, name.1,
            if r.studentUsername != "" then r.studentUsername else "student" + NatToString(r.studentId),
            if r.studentEmail != "" then r.studentEmail else "student" + NatToString(r.studentId) + "@example.com",
            [])
  }

  /**
   * The course entry for one record: the percentage rounded to the nearest
   * integer (0 when absent), and completed when it is at least 100.
   */
  function Entry(r: Record): (e: CourseEntry)
    ensures e.courseId == r.courseId && e.courseName == r.courseTitle
    ensures r.progressPercentage.None? ==> e.progress == 0 && !e.completed
    ensures r.progressPercentage.Some? ==>
      e.progress as real - 0.5 <= r.progressPercentage.value < e.progress as real + 0.5
    ensures e.completed <==> r.progressPercentage.Some? && r.progressPercentage.value >= 100.0
    ensures e.completed ==> e.progress >= 100
  {
    CourseEntry(r.courseId, r.courseTitle, r.enrolledAt,
                Numbers.MathRound(r.progressPercentage.GetOr(0.0)),
                r.progressPercentage.Some? && r.progressPercentage.value >= 100.0,
                r.totalLessons, r.completedLessons)
  }

  /** A course just short of 100% is shown as 100 yet still counts as not completed. */
  lemma RoundedToHundredNotCompleted(r: Record)
    requires r.progressPercentage == Some(99.5)
    ensures Entry(r).progress == 100 && !Entry(r).completed
  {
    Numbers.MathRoundUnique(99.5, 100);
  }

  /** `studentMap.has` / `get`: the position of the student with this id. */
  function FindStudent(g: seq<Student>, id: nat): (k: Option<nat>)
    ensures k.None? <==> forall j :: 0 <= j < |g| ==> g[j].id != id
    ensures k.Some? ==> k.value < |g| && g[k.value].id == id
    ensures k.Some? ==> forall j :: 0 <= j < k.value ==> g[j].id != id
  {
    if g == [] then None
    else if g[0].id == id then Some(0)
    else
      match FindStudent(g[1..], id)
      case None => None
      case Some(k) => Some(k + 1)
  }

  /** One step of the grouping loop: append the record's course to its student, adding the student if new. */
  function AddRecord(g: seq<Student>, r: Record): (g': seq<Student>)
  {
    match FindStudent(g, r.studentId)
    case Some(k) => g[k := g[k].(enrollments := g[k].enrollments + [Entry(r)])]
    case None => g + [Identity(r).(enrollments := [Entry(r)])]
  }

  /** The students after the grouping loop has consumed `rs`, in `Map` insertion order. */
  function Grouped(rs: seq<Record>): (g: seq<Student>)
  {
    if rs == [] then [] else AddRecord(Grouped(rs[..|rs| - 1]), rs[|rs| - 1])
  }

  /** The grouping loop of `loadMyStudents`, with the map from student id to position. */
  method GroupByStudent(records: seq<Record>) returns (students: seq<Student>)
    ensures students == Grouped(records)
  {
    students := [];
    var index: map<nat, nat> := map[];
    var i := 0;
    while i < |records|
      invariant 0 <= i <= |records|
      invariant students == Grouped(records[..i])
      invariant IndexMatches(students, index)
    {
      assert records[..i + 1][..i] == records[..i];
      students, index := GroupRecord(students, index, records[i]);
      i := i + 1;
    }
    assert records[..|records|] == records;
  }

  /**
   * The body of the grouping loop: `studentMap.has`, then either a push onto
   * the known student's list or `studentMap.set` of a new student.
   */
  method GroupRecord(students: seq<Student>, index: map<nat, nat>, r: Record)
    returns (students': seq<Student>, index': map<nat, nat>)
    requires IndexMatches(students, index)
    ensures students' == AddRecord(students, r)
    ensures IndexMatches(students', index')
  {
    if r.studentId in index {
      var k := index[r.studentId];
      assert FindStudent(students, r.studentId) == Some(k);
      students' := students[k := students[k].(enrollments := students[k].enrollments + [Entry(r)])];
      IndexAfterUpdate(students, index, students');
      index' := index;
    } else {
      assert FindStudent(students, r.studentId) == None;
      students' := students + [Identity(r).(enrollments := [Entry(r)])];
      IndexAfterAppend(students, index, students'[|students|]);
      index' := index[r.studentId := |students|];
    }
  }

  /** The id-to-position map of the loop agrees with `FindStudent`. */
  ghost predicate IndexMatches(g: seq<Student>, index: map<nat, nat>)
  {
    forall id :: FindStudent(g, id) == if id in index then Some(index[id]) else None
  }

  lemma IndexAfterUpdate(g: seq<Student>, index: map<nat, nat>, h: seq<Student>)
    requires IndexMatches(g, index)
    requires |g| == |h| && forall j :: 0 <= j < |g| ==> g[j].id == h[j].id
    ensures IndexMatches(h, index)
  {
    forall id
      ensures FindStudent(h, id) == FindStudent(g, id)
    {
      FindStudentSameIds(g, h, id);
    }
  }

  lemma IndexAfterAppend(g: seq<Student>, index: map<nat, nat>, x: Student)
    requires IndexMatches(g, index) && x.id !in index
    ensures IndexMatches(g + [x], index[x.id := |g|])
  {
    forall id
      ensures FindStudent(g + [x], id) == if id in index[x.id := |g|] then Some(index[x.id := |g|][id]) else None
    {
      FindStudentAppend(g, x, id);
    }
  }

  lemma {:induction false} FindStudentSameIds(g: seq<Student>, h: seq<Student>, id: nat)
    requires |g| == |h| && forall j :: 0 <= j < |g| ==> g[j].id == h[j].id
    ensures FindStudent(g, id) == FindStudent(h, id)
  {
    if g != [] && g[0].id != id {
      FindStudentSameIds(g[1..], h[1..], id);
    }
  }

  lemma {:induction false} FindStudentAppend(g: seq<Student>, x: Student, id: nat)
    ensures FindStudent(g + [x], id)
            == if FindStudent(g, id).Some? then FindStudent(g, id)
               else if x.id == id then Some(|g|) else None
  {
    if g != [] {
      assert (g + [x])[1..] == g[1..] + [x];
      if g[0].id != id {
        FindStudentAppend(g[1..], x, id);
      }
    }
  }

  /** Some student in `g` has this id. */
  predicate Listed(g: seq<Student>, id: nat)
  {
    exists k :: 0 <= k < |g| && g[k].id == id
  }

  /** No two students share an id. */
  predicate DistinctIds(g: seq<Student>)
  {
    forall j, k :: 0 <= j < k < |g| ==> g[j].id != g[k].id
  }

  /** Some record belongs to student `id`. */
  predicate HasRecord(rs: seq<Record>, id: nat)
  {
    exists i :: 0 <= i < |rs| && rs[i].studentId == id
  }

  /** What one step of the loop does to the students' ids. */
  lemma AddRecordIds(g: seq<Student>, r: Record)
    ensures |g| <= |AddRecord(g, r)| <= |g| + 1
    ensures forall k :: 0 <= k < |g| ==> AddRecord(g, r)[k].id == g[k].id
    ensures forall k :: 0 <= k < |g| ==> AddRecord(g, r)[k].(enrollments := []) == g[k].(enrollments := [])
    ensures Listed(g, r.studentId) ==> |AddRecord(g, r)| == |g|
    ensures !Listed(g, r.studentId) ==> AddRecord(g, r) == g + [Identity(r).(enrollments := [Entry(r)])]
  {
  }

  /** Students never share an id. */
  lemma {:induction false} GroupedDistinct(rs: seq<Record>)
    ensures DistinctIds(Grouped(rs))
  {
    if rs != [] {
      var init, r := rs[..|rs| - 1], rs[|rs| - 1];
      GroupedDistinct(init);
      AddRecordIds(Grouped(init), r);
    }
  }

  /** Every record's student is listed. */
  lemma {:induction false} GroupedCovers(rs: seq<Record>)
    ensures forall i :: 0 <= i < |rs| ==> Listed(Grouped(rs), rs[i].studentId)
  {
    if rs != [] {
      var init, r := rs[..|rs| - 1], rs[|rs| - 1];
      GroupedCovers(init);
      var g, g' := Grouped(init), Grouped(rs);
      AddRecordIds(g, r);
      forall i | 0 <= i < |rs|
        ensures Listed(g', rs[i].studentId)
      {
        if i < |init| {
          assert rs[i] == init[i];
          var k :| 0 <= k < |g| && g[k].id == init[i].studentId;
          assert g'[k].id == rs[i].studentId;
        } else if Listed(g, r.studentId) {
          var k :| 0 <= k < |g| && g[k].id == r.studentId;
          assert g'[k].id == rs[i].studentId;
        } else {
          assert g'[|g|].id == rs[i].studentId;
        }
      }
    }
  }

  /** Every listed student has a record, and at least one course. */
  lemma {:induction false} GroupedFromRecords(rs: seq<Record>)
    ensures forall k :: 0 <= k < |Grouped(rs)| ==> HasRecord(rs, Grouped(rs)[k].id)
    ensures forall k :: 0 <= k < |Grouped(rs)| ==> Grouped(rs)[k].enrollments != []
  {
    if rs != [] {
      var init, r := rs[..|rs| - 1], rs[|rs| - 1];
      GroupedFromRecords(init);
      var g, g' := Grouped(init), Grouped(rs);
      AddRecordIds(g, r);
      forall k | 0 <= k < |g'|
        ensures HasRecord(rs, g'[k].id) && g'[k].enrollments != []
      {
        if k < |g| {
          var i :| 0 <= i < |init| && init[i].studentId == g[k].id;
          assert rs[i] == init[i];
          assert |g[k].enrollments| <= |g'[k].enrollments|;
        } else {
          assert rs[|rs| - 1].studentId == g'[k].id;
        }
      }
    }
  }

  /** The facts about the grouping the later lemmas lean on. */
  lemma GroupedIds(rs: seq<Record>)
    ensures DistinctIds(Grouped(rs))
    ensures forall k :: 0 <= k < |Grouped(rs)| ==> HasRecord(rs, Grouped(rs)[k].id)
    ensures forall i :: 0 <= i < |rs| ==> Listed(Grouped(rs), rs[i].studentId)
    ensures forall k :: 0 <= k < |Grouped(rs)| ==> Grouped(rs)[k].enrollments != []
  {
    GroupedDistinct(rs);
    GroupedCovers(rs);
    GroupedFromRecords(rs);
  }

  /** The courses of student `id`: one entry per record of that student, in record order. */
  function EntriesOf(rs: seq<Record>, id: nat): (es: seq<CourseEntry>)
    ensures |es| <= |rs|
    ensures !HasRecord(rs, id) ==> es == []
  {
    if rs == [] then []
    else
      var init := rs[..|rs| - 1];
      assert HasRecord(init, id) ==> HasRecord(rs, id) by {
        if HasRecord(init, id) {
          var i :| 0 <= i < |init| && init[i].studentId == id;
          assert rs[i] == init[i];
        }
      }
      EntriesOf(init, id) + if rs[|rs| - 1].studentId == id then [Entry(rs[|rs| - 1])] else []
  }

  /** Each student lists exactly its own records' courses, in input order. */
  lemma {:induction false} GroupedEntries(rs: seq<Record>)
    ensures forall k :: 0 <= k < |Grouped(rs)| ==> Grouped(rs)[k].enrollments == EntriesOf(rs, Grouped(rs)[k].id)
  {
    if rs != [] {
      var init, r := rs[..|rs| - 1], rs[|rs| - 1];
      GroupedEntries(init);
      GroupedDistinct(init);
      GroupedCovers(init);
      var g := Grouped(init);
      AddRecordIds(g, r);
      if !Listed(g, r.studentId) {
        assert !HasRecord(init, r.studentId);
      }
    }
  }

  /** Record `i` is the first of student `id`. */
  predicate FirstRecordOf(rs: seq<Record>, i: nat, id: nat)
  {
    i < |rs| && rs[i].studentId == id && forall j :: 0 <= j < i ==> rs[j].studentId != id
  }

  /** The position of student `id`'s first record. */
  function FirstIndex(rs: seq<Record>, id: nat): (i: nat)
    requires HasRecord(rs, id)
    ensures FirstRecordOf(rs, i, id)
  {
    if rs[0].studentId == id then 0
    else
      assert HasRecord(rs[1..], id) by {
        var w :| 0 <= w < |rs| && rs[w].studentId == id;
        assert rs[1..][w - 1] == rs[w];
      }
      1 + FirstIndex(rs[1..], id)
  }

  /** Appending a record does not move the first record of a student already present. */
  lemma FirstIndexAppend(rs: seq<Record>, r: Record, id: nat)
    requires HasRecord(rs + [r], id)
    ensures HasRecord(rs, id) ==> FirstIndex(rs + [r], id) == FirstIndex(rs, id)
    ensures !HasRecord(rs, id) ==> FirstIndex(rs + [r], id) == |rs|
  {
    var i := FirstIndex(rs + [r], id);
    if HasRecord(rs, id) {
      var j := FirstIndex(rs, id);
      assert (rs + [r])[j] == rs[j];
      assert forall t :: 0 <= t < |rs| ==> (rs + [r])[t] == rs[t];
    } else {
      assert forall t :: 0 <= t < |rs| ==> (rs + [r])[t] == rs[t];
    }
  }

  /** Each student takes its name, username and email from its first record only. */
  lemma {:induction false} GroupedIdentity(rs: seq<Record>)
    ensures forall k :: 0 <= k < |Grouped(rs)| ==>
              HasRecord(rs, Grouped(rs)[k].id)
              && Grouped(rs)[k].(enrollments := []) == Identity(rs[FirstIndex(rs, Grouped(rs)[k].id)])
  {
    GroupedFromRecords(rs);
    if rs != [] {
      var init, r := rs[..|rs| - 1], rs[|rs| - 1];
      assert rs == init + [r];
      GroupedIdentity(init);
      GroupedCovers(init);
      var g, g' := Grouped(init), Grouped(rs);
      AddRecordIds(g, r);
      forall k | 0 <= k < |g'|
        ensures g'[k].(enrollments := []) == Identity(rs[FirstIndex(rs, g'[k].id)])
      {
        FirstIndexAppend(init, r, g'[k].id);
        if k < |g| {
          assert rs[FirstIndex(init, g[k].id)] == init[FirstIndex(init, g[k].id)];
        } else {
          assert !HasRecord(init, r.studentId);
        }
      }
    }
  }

  /** Students appear in the order of their first records. */
  lemma {:induction false} GroupedOrder(rs: seq<Record>)
    ensures forall k :: 0 <= k < |Grouped(rs)| ==> HasRecord(rs, Grouped(rs)[k].id)
    ensures forall k, l :: 0 <= k < l < |Grouped(rs)| ==>
              FirstIndex(rs, Grouped(rs)[k].id) < FirstIndex(rs, Grouped(rs)[l].id)
  {
    GroupedFromRecords(rs);
    if rs != [] {
      var init, r := rs[..|rs| - 1], rs[|rs| - 1];
      assert rs == init + [r];
      GroupedOrder(init);
      GroupedCovers(init);
      var g, g' := Grouped(init), Grouped(rs);
      AddRecordIds(g, r);
      forall k, l | 0 <= k < l < |g'|
        ensures FirstIndex(rs, g'[k].id) < FirstIndex(rs, g'[l].id)
      {
        FirstIndexAppend(init, r, g'[k].id);
        FirstIndexAppend(init, r, g'[l].id);
        if l == |g| {
          assert !HasRecord(init, r.studentId);
        }
      }
    }
  }

  /** The counters of the page header. */
  datatype Stats = Stats(totalStudents: nat, totalEnrollments: nat, uniqueCourses: nat, activeStudents: nat)

  function EnrollmentCount(s: Student): int
  {
    |s.enrollments|
  }

  /** Every record lands in exactly one student's list, so the list lengths add up to the record count. */
  lemma {:induction false} GroupedTotal(rs: seq<Record>)
    ensures Sum(Grouped(rs), EnrollmentCount) == |rs|
  {
    if rs != [] {
      var init, r := rs[..|rs| - 1], rs[|rs| - 1];
      GroupedTotal(init);
      var g := Grouped(init);
      assert Grouped(rs) == AddRecord(g, r);
      match FindStudent(g, r.studentId)
      case Some(k) =>
        SumUpdate(g, k, g[k].(enrollments := g[k].enrollments + [Entry(r)]), EnrollmentCount);
      case None =>
        SumAppend(g, [Identity(r).(enrollments := [Entry(r)])], EnrollmentCount);
        assert Sum([Identity(r).(enrollments := [Entry(r)])], EnrollmentCount) == 1 by {
          assert [Identity(r).(enrollments := [Entry(r)])][..0] == [];
        }
    }
  }

  /** A student with at least one course not completed. */
  predicate IsActive(s: Student)
  {
    exists j :: 0 <= j < |s.enrollments| && !s.enrollments[j].completed
  }

  function StudentIdOf(r: Record): nat
  {
    r.studentId
  }

  function CourseIdOf(r: Record): nat
  {
    r.courseId
  }

  /**
   * The header counters: students, records, distinct courses, and students
   * with an unfinished course.
   */
  function ComputeStats(rs: seq<Record>): (st: Stats)
    ensures st.totalEnrollments == |rs|
    ensures st.activeStudents <= st.totalStudents <= st.totalEnrollments
    ensures st.uniqueCourses <= st.totalEnrollments
    ensures st.totalStudents == |Image(rs, StudentIdOf)|
    ensures st.uniqueCourses == |Image(rs, CourseIdOf)|
    ensures st.activeStudents == |UnfinishedIds(rs)|
  {
    var g := Grouped(rs);
    assert |g| <= |rs| by {
      GroupedTotal(rs);
      GroupedIds(rs);
      SumAtLeastLength(g, EnrollmentCount);
    }
    assert |Image(rs, CourseIdOf)| <= |rs| by {
      ImageCard(rs, CourseIdOf);
    }
    assert |g| == |Image(rs, StudentIdOf)| by {
      DistinctStudentsCount(rs);
    }
    assert Count(g, IsActive) == |UnfinishedIds(rs)| by {
      ActiveStudentsCount(rs);
    }
    Stats(|g|, |rs|, |Image(rs, CourseIdOf)|, Count(g, IsActive))
  }

  /** The ids of students with at least one record whose course is not completed. */
  function UnfinishedIds(rs: seq<Record>): set<nat>
  {
    set i | 0 <= i < |rs| && !Entry(rs[i]).completed :: rs[i].studentId
  }

  /** An unfinished course in a student's list comes from an unfinished record of that student. */
  lemma {:induction false} UnfinishedEntryHasRecord(rs: seq<Record>, id: nat, j: nat)
    requires j < |EntriesOf(rs, id)| && !EntriesOf(rs, id)[j].completed
    ensures id in UnfinishedIds(rs)
  {
    var init, r := rs[..|rs| - 1], rs[|rs| - 1];
    var es0 := EntriesOf(init, id);
    assert EntriesOf(rs, id) == es0 + if r.studentId == id then [Entry(r)] else [];
    if j < |es0| {
      assert EntriesOf(rs, id)[j] == es0[j];
      UnfinishedEntryHasRecord(init, id, j);
      var i :| 0 <= i < |init| && !Entry(init[i]).completed && init[i].studentId == id;
      assert init[i] == rs[i];
    } else {
      assert r.studentId == id && !Entry(r).completed;
      assert rs[|rs| - 1].studentId in UnfinishedIds(rs);
    }
  }

  /** An unfinished record of a student puts an unfinished course in its list. */
  lemma {:induction false} UnfinishedRecordHasEntry(rs: seq<Record>, i: nat)
    requires i < |rs| && !Entry(rs[i]).completed
    ensures exists j :: 0 <= j < |EntriesOf(rs, rs[i].studentId)| && !EntriesOf(rs, rs[i].studentId)[j].completed
  {
    var id := rs[i].studentId;
    var init, r := rs[..|rs| - 1], rs[|rs| - 1];
    var es0 := EntriesOf(init, id);
    assert EntriesOf(rs, id) == es0 + if r.studentId == id then [Entry(r)] else [];
    if i < |init| {
      assert init[i] == rs[i];
      UnfinishedRecordHasEntry(init, i);
      var j :| 0 <= j < |es0| && !es0[j].completed;
      assert EntriesOf(rs, id)[j] == es0[j];
    } else {
      assert EntriesOf(rs, id)[|es0|] == Entry(r);
    }
  }

  /** A student's course list holds an unfinished course exactly when one of its records does. */
  lemma EntriesOfUnfinished(rs: seq<Record>, id: nat)
    ensures (exists j :: 0 <= j < |EntriesOf(rs, id)| && !EntriesOf(rs, id)[j].completed)
        <==> id in UnfinishedIds(rs)
  {
    if exists j :: 0 <= j < |EntriesOf(rs, id)| && !EntriesOf(rs, id)[j].completed {
      var j :| 0 <= j < |EntriesOf(rs, id)| && !EntriesOf(rs, id)[j].completed;
      UnfinishedEntryHasRecord(rs, id, j);
    }
    if id in UnfinishedIds(rs) {
      var i :| 0 <= i < |rs| && !Entry(rs[i]).completed && rs[i].studentId == id;
      UnfinishedRecordHasEntry(rs, i);
    }
  }

  function StudentKey(s: Student): nat
  {
    s.id
  }

  /** A student holding its own records' courses is active exactly when one of them is unfinished. */
  lemma ActiveIffUnfinished(rs: seq<Record>, s: Student)
    requires s.enrollments == EntriesOf(rs, s.id)
    ensures IsActive(s) <==> s.id in UnfinishedIds(rs)
  {
    EntriesOfUnfinished(rs, s.id);
  }

  /** An id belongs to an active student exactly when one of its records is unfinished. */
  lemma ActiveKeysAgree(rs: seq<Record>, g: seq<Student>, x: nat)
    requires forall i :: 0 <= i < |rs| ==> Listed(g, rs[i].studentId)
    requires forall k :: 0 <= k < |g| ==> (IsActive(g[k]) <==> g[k].id in UnfinishedIds(rs))
    ensures x in KeysWhere(g, StudentKey, IsActive) <==> x in UnfinishedIds(rs)
  {
    if x in UnfinishedIds(rs) {
      var i :| 0 <= i < |rs| && !Entry(rs[i]).completed && rs[i].studentId == x;
      assert Listed(g, rs[i].studentId);
      var k :| 0 <= k < |g| && g[k].id == x;
      assert StudentKey(g[k]) == x;
    }
  }

  /** The active students are as many as the ids with an unfinished record. */
  lemma ActiveStudentsCount(rs: seq<Record>)
    ensures Count(Grouped(rs), IsActive) == |UnfinishedIds(rs)|
  {
    var g := Grouped(rs);
    GroupedIds(rs);
    forall k | 0 <= k < |g|
      ensures IsActive(g[k]) <==> g[k].id in UnfinishedIds(rs)
    {
      GroupedEntries(rs);
      ActiveIffUnfinished(rs, g[k]);
    }
    CountDistinctKeys(g, StudentKey, IsActive);
    forall x
      ensures x in KeysWhere(g, StudentKey, IsActive) <==> x in UnfinishedIds(rs)
    {
      ActiveKeysAgree(rs, g, x);
    }
    assert KeysWhere(g, StudentKey, IsActive) == UnfinishedIds(rs);
  }

  /** There are as many students as distinct student ids among the records. */
  lemma DistinctStudentsCount(rs: seq<Record>)
    ensures |Grouped(rs)| == |Image(rs, StudentIdOf)|
  {
    var g := Grouped(rs);
    GroupedIds(rs);
    var ids := Map(g, (s: Student) => s.id);
    assert NoDuplicates(ids);
    NoDuplicatesCard(ids);
    assert (set i | 0 <= i < |ids| :: ids[i]) == Image(rs, StudentIdOf) by {
      forall x | x in Image(rs, StudentIdOf)
        ensures x in (set i | 0 <= i < |ids| :: ids[i])
      {
        var i :| 0 <= i < |rs| && StudentIdOf(rs[i]) == x;
        var k := FindStudent(g, rs[i].studentId).value;
        assert ids[k] == x;
      }
      forall x | x in (set i | 0 <= i < |ids| :: ids[i])
        ensures x in Image(rs, StudentIdOf)
      {
        var k :| 0 <= k < |ids| && ids[k] == x;
        assert HasRecord(rs, g[k].id);
      }
    }
  }

  /** The search box: case-insensitive match on first name, last name, username or email. */
  predicate MatchesSearch(s: Student, term: string)
  {
    IncludesIgnoreCase(s.firstName, term) || IncludesIgnoreCase(s.lastName, term)
    || IncludesIgnoreCase(s.username, term) || IncludesIgnoreCase(s.email, term)
  }

  /** The course filter: empty, or some course name contains it, ignoring case. */
  predicate MatchesCourse(s: Student, courseFilter: string)
  {
    courseFilter == ""
    || exists j :: 0 <= j < |s.enrollments| && IncludesIgnoreCase(s.enrollments[j].courseName, courseFilter)
  }

  /** `filteredStudents`: the students passing both filters, in their original order. */
  function FilterStudents(students: seq<Student>, searchTerm: string, courseFilter: string): (r: seq<Student>)
    ensures IsSubsequence(r, students)
    ensures forall k :: 0 <= k < |r| ==> MatchesSearch(r[k], searchTerm) && MatchesCourse(r[k], courseFilter)
    ensures forall k :: (0 <= k < |students| && MatchesSearch(students[k], searchTerm)
                         && MatchesCourse(students[k], courseFilter)) ==> students[k] in r
    ensures searchTerm == "" && courseFilter == "" ==> r == students
  {
    var keep := (s: Student) => MatchesSearch(s, searchTerm) && MatchesCourse(s, courseFilter);
    if searchTerm == "" && courseFilter == "" then
      forall k | 0 <= k < |students|
        ensures keep(students[k])
      {
        IncludesIgnoreCaseEmpty(students[k].firstName);
      }
      FilterAll(students, keep);
      Filter(students, keep)
    else Filter(students, keep)
  }

  /** Some course of some student carries this name. */
  ghost predicate CourseNameListed(students: seq<Student>, k: nat, name: string)
  {
    exists kk, j :: 0 <= kk < k && kk < |students| && 0 <= j < |students[kk].enrollments|
                    && students[kk].enrollments[j].courseName == name
  }

  /** Strictly increasing in the default sort order, hence without duplicates. */
  predicate StrictlySorted(names: seq<string>)
  {
    forall i, j :: 0 <= i < j < |names| ==> LexLe(names[i], names[j]) && names[i] != names[j]
  }

  /**
   * `getAllCourses`: every course name of every student, each once, in the
   * default sort order.
   */
  method GetAllCourses(students: seq<Student>) returns (names: seq<string>)
    ensures forall n :: n in names <==> CourseNameListed(students, |students|, n)
    ensures StrictlySorted(names)
  {
    var all: set<string> := {};
    var k := 0;
    while k < |students|
      invariant 0 <= k <= |students|
      invariant forall n :: n in all <==> CourseNameListed(students, k, n)
    {
      var j := 0;
      while j < |students[k].enrollments|
        invariant 0 <= j <= |students[k].enrollments|
        invariant forall n :: n in all <==> CourseNameListed(students, k, n)
                                            || exists jj :: 0 <= jj < j && students[k].enrollments[jj].courseName == n
      {
        all := all + {students[k].enrollments[j].courseName};
        j := j + 1;
      }
      forall n | CourseNameListed(students, k + 1, n)
        ensures n in all
      {
        var kk, jj :| 0 <= kk < k + 1 && kk < |students| && 0 <= jj < |students[kk].enrollments|
                      && students[kk].enrollments[jj].courseName == n;
        if kk < k {
          assert CourseNameListed(students, k, n);
        }
      }
      k := k + 1;
    }
    names := SortNames(all);
  }

  /** `Array.from(set).sort()`: the set's strings in increasing order. */
  method SortNames(all: set<string>) returns (names: seq<string>)
    ensures forall n :: n in names <==> n in all
    ensures StrictlySorted(names)
  {
    names := [];
    var rest := all;
    while rest != {}
      invariant rest <= all
      invariant forall n :: n in names <==> n in all && n !in rest
      invariant StrictlySorted(names)
      invariant forall i, b :: 0 <= i < |names| && b in rest ==> LexLe(names[i], b) && names[i] != b
      decreases |rest|
    {
      LexMinExists(rest);
      var m :| m in rest && IsLexMin(m, rest);
      names := names + [m];
      rest := rest - {m};
    }
  }
}

/**
 * The admin's course table: page navigation, the title/instructor search,
 * the status colours and the create form's reset.
 */
module AdminCourses {
  import opened Seqs
  import opened Text

  /** "Previous": `Math.max(0, prev - 1)`. */
  function PrevPage(page: int): (r: int)
    ensures r >= 0
    ensures page >= 1 ==> r == page - 1
    ensures page <= 0 ==> r == 0
  {
    if page - 1 > 0 then page - 1 else 0
  }

  /** "Next": `Math.min(totalPages - 1, prev + 1)`. */
  function NextPage(page: int, totalPages: int): (r: int)
    ensures r <= totalPages - 1 && r <= page + 1
    ensures page + 1 <= totalPages - 1 ==> r == page + 1
  {
    if totalPages - 1 < page + 1 then totalPages - 1 else page + 1
  }

  /** The controls are rendered only when there is more than one page. */
  predicate ShowPagination(totalPages: int)
  {
    totalPages > 1
  }

  datatype Click = Previous | Next

  /** The page after a series of clicks on the rendered controls. */
  function Navigate(page: int, totalPages: int, clicks: seq<Click>): int
  {
    if clicks == [] then page
    else
      var before := Navigate(page, totalPages, clicks[..|clicks| - 1]);
      match clicks[|clicks| - 1]
      case Previous => PrevPage(before)
      case Next => NextPage(before, totalPages)
  }

  /** Starting from a valid page, any clicks keep the page within [0, totalPages - 1]. */
  lemma {:induction false} NavigationStaysInRange(page: int, totalPages: int, clicks: seq<Click>)
    requires ShowPagination(totalPages) && 0 <= page < totalPages
    ensures 0 <= Navigate(page, totalPages, clicks) < totalPages
  {
    if clicks != [] {
      NavigationStaysInRange(page, totalPages, clicks[..|clicks| - 1]);
    }
  }

  /** The disabled buttons would not move the page anyway. */
  lemma DisabledClicksAreNoOps(page: int, totalPages: int)
    ensures page == 0 ==> PrevPage(page) == page
    ensures page == totalPages - 1 ==> NextPage(page, totalPages) == page
  {
  }

  /** A course row; the username is absent for course responses, which carry no instructor object. */
  datatype AdminCourse = AdminCourse(id: nat, title: string, status: string, instructorUsername: Option<string>)

  /** Title contains the term, or the instructor's username does (`?.` gives no match when it is absent). */
  predicate MatchesAdminSearch(c: AdminCourse, term: string)
  {
    IncludesIgnoreCase(c.title, term)
    || (c.instructorUsername.Some? && IncludesIgnoreCase(c.instructorUsername.value, term))
  }

  predicate TitleMatches(c: AdminCourse, term: string)
  {
    IncludesIgnoreCase(c.title, term)
  }

  /** `filteredCourses`: the matching rows, in their loaded order. */
  function AdminFilter(courses: seq<AdminCourse>, term: string): (r: seq<AdminCourse>)
    ensures IsSubsequence(r, courses)
    ensures forall i :: 0 <= i < |r| ==> MatchesAdminSearch(r[i], term)
    ensures forall i :: 0 <= i < |courses| && MatchesAdminSearch(courses[i], term) ==> courses[i] in r
  {
    Filter(courses, (c: AdminCourse) => MatchesAdminSearch(c, term))
  }

  /** Rows without an instructor object are searched by title alone. */
  lemma SearchIsTitleOnly(courses: seq<AdminCourse>, term: string)
    requires forall i :: 0 <= i < |courses| ==> courses[i].instructorUsername.None?
    ensures AdminFilter(courses, term) == Filter(courses, (c: AdminCourse) => TitleMatches(c, term))
  {
    FilterCongruent(courses, (c: AdminCourse) => MatchesAdminSearch(c, term), (c: AdminCourse) => TitleMatches(c, term));
  }

  /** `getStatusColor`. */
  function StatusColor(status: string): (color: string)
    ensures status !in {"PUBLISHED", "PENDING", "REJECTED"} ==> color == "text-gray-600 bg-gray-100"
  {
    if status == "PUBLISHED" then "text-green-600 bg-green-100"
    else if status == "PENDING" then "text-yellow-600 bg-yellow-100"
    else if status == "REJECTED" then "text-red-600 bg-red-100"
    else "text-gray-600 bg-gray-100"
  }

  /** Published, pending and rejected get colours of their own; every other status is grey. */
  lemma StatusColorsDistinct(s: string, t: string)
    requires s in {"PUBLISHED", "PENDING", "REJECTED"} && s != t
    ensures StatusColor(s) != StatusColor(t)
  {
  }

  datatype CourseForm = CourseForm(title: string, description: string, thumbnailUrl: string, instructorId: string)

  const EmptyForm := CourseForm("", "", "", "")

  const CreateFailedMessage := "Failed to create course"

  /** The create modal: its fields, whether it is open, and the error line ("" for none). */
  datatype FormState = FormState(form: CourseForm, showCreateForm: bool, error: string)

  /** The answer to the create request; a failure carries the server's message ("" when it has none). */
  datatype CreateOutcome = Created | Failed(serverMessage: string)

  /**
   * `handleCreateCourse`: success clears the form and closes it; failure
   * keeps what was typed and shows the server's message or the fallback.
   */
  function AfterCreate(st: FormState, outcome: CreateOutcome): (r: FormState)
    ensures outcome.Created? ==> r.form == EmptyForm && !r.showCreateForm && r.error == ""
    ensures outcome.Failed? ==> r.form == st.form && r.showCreateForm == st.showCreateForm
    ensures outcome.Failed? ==> r.error != ""
    ensures outcome.Failed? && outcome.serverMessage != "" ==> r.error == outcome.serverMessage
  {
    match outcome
    case Created => FormState(EmptyForm, false, "")
    case Failed(m) => st.(error := if m != "" then m else CreateFailedMessage)
  }
}

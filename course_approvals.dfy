/**
 * The admin's approval queue: which listing the status filter loads, the
 * four status counters computed over the loaded list, the text search, the
 * status badge and the approve/reject buttons.
 */
module CourseApprovals {
  import opened Seqs
  import opened Text
  import Entities

  /** A course as the listing endpoints return it. */
  datatype ApprovalCourse = ApprovalCourse(id: nat, title: string, description: string, instructorName: string, status: string)

  datatype Listing = PendingListing | PublishedListing | AllListing

  /** The filter value picks the endpoint; anything unrecognised loads the pending listing. */
  function ListingFor(statusFilter: string): (l: Listing)
    ensures l == PublishedListing <==> statusFilter == "APPROVED"
    ensures l == AllListing <==> statusFilter == "ALL"
    ensures l == PendingListing <==> statusFilter != "APPROVED" && statusFilter != "ALL"
  {
    if statusFilter == "PENDING" then PendingListing
    else if statusFilter == "APPROVED" then PublishedListing
    else if statusFilter == "ALL" then AllListing
    else PendingListing
  }

  datatype StatusCounts = StatusCounts(pending: nat, approved: nat, rejected: nat, draft: nat)

  predicate IsPendingStatus(c: ApprovalCourse) { c.status == "PENDING" }

  predicate IsPublishedStatus(c: ApprovalCourse) { c.status == "PUBLISHED" }

  predicate IsRejectedStatus(c: ApprovalCourse) { c.status == "REJECTED" }

  predicate IsDraftStatus(c: ApprovalCourse) { c.status == "DRAFT" }

  predicate IsKnownStatus(c: ApprovalCourse)
  {
    IsPendingStatus(c) || IsPublishedStatus(c) || IsRejectedStatus(c) || IsDraftStatus(c)
  }

  /** One `switch` case: the counter of the course's status goes up by one. */
  function Tallied(st: StatusCounts, c: ApprovalCourse): StatusCounts
  {
    if IsPendingStatus(c) then st.(pending := st.pending + 1)
    else if IsPublishedStatus(c) then st.(approved := st.approved + 1)
    else if IsRejectedStatus(c) then st.(rejected := st.rejected + 1)
    else if IsDraftStatus(c) then st.(draft := st.draft + 1)
    else st
  }

  /** The counters after the `forEach` has visited `courses`. */
  function Tally(courses: seq<ApprovalCourse>): StatusCounts
  {
    if courses == [] then StatusCounts(0, 0, 0, 0)
    else Tallied(Tally(courses[..|courses| - 1]), courses[|courses| - 1])
  }

  /** Each counter of the tally counts the courses with its status. */
  lemma {:induction false} TallyCounts(courses: seq<ApprovalCourse>)
    ensures Tally(courses) == StatusCounts(Count(courses, IsPendingStatus), Count(courses, IsPublishedStatus),
                                           Count(courses, IsRejectedStatus), Count(courses, IsDraftStatus))
  {
    if courses != [] {
      TallyCounts(courses[..|courses| - 1]);
    }
  }

  /**
   * `loadCourses`: a loaded page (`Some(content)`) replaces the list with
   * `content || []` and the counters with its tally; a failed request
   * (`None`) keeps both the old list and the old counters.
   */
  function AfterLoad(courses: seq<ApprovalCourse>, stats: StatusCounts,
                     answer: Option<Option<seq<ApprovalCourse>>>): (r: (seq<ApprovalCourse>, StatusCounts))
    ensures answer.None? ==> r == (courses, stats)
    ensures answer.Some? && answer.value.None? ==> r == ([], StatusCounts(0, 0, 0, 0))
    ensures answer.Some? && answer.value.Some? ==> r.0 == answer.value.value
    ensures answer.Some? ==>
      r.1 == StatusCounts(Count(r.0, IsPendingStatus), Count(r.0, IsPublishedStatus),
                          Count(r.0, IsRejectedStatus), Count(r.0, IsDraftStatus))
  {
    match answer
    case None => (courses, stats)
    case Some(content) =>
      var list := PageContent(content);
      TallyCounts(list);
      (list, Tally(list))
  }

  /**
   * The `forEach`/`switch` over the loaded list: each counter counts the
   * courses with its status, and a course with any other status is skipped.
   */
  method CountStatuses(courses: seq<ApprovalCourse>) returns (stats: StatusCounts)
    ensures stats.pending == Count(courses, IsPendingStatus)
    ensures stats.approved == Count(courses, IsPublishedStatus)
    ensures stats.rejected == Count(courses, IsRejectedStatus)
    ensures stats.draft == Count(courses, IsDraftStatus)
  {
    stats := StatusCounts(0, 0, 0, 0);
    var i := 0;
    while i < |courses|
      invariant i <= |courses|
      invariant stats == Tally(courses[..i])
    {
      assert courses[..i + 1][..i] == courses[..i];
      var status := courses[i].status;
      if status == "PENDING" {
        stats := stats.(pending := stats.pending + 1);
      } else if status == "PUBLISHED" {
        stats := stats.(approved := stats.approved + 1);
      } else if status == "REJECTED" {
        stats := stats.(rejected := stats.rejected + 1);
      } else if status == "DRAFT" {
        stats := stats.(draft := stats.draft + 1);
      }
      i := i + 1;
    }
    assert courses[..i] == courses;
    TallyCounts(courses);
  }

  /** The four counters together count the courses with a known status. */
  lemma {:induction false} CountersAddUp(courses: seq<ApprovalCourse>)
    ensures Count(courses, IsPendingStatus) + Count(courses, IsPublishedStatus)
            + Count(courses, IsRejectedStatus) + Count(courses, IsDraftStatus) == Count(courses, IsKnownStatus)
  {
    if courses != [] {
      CountersAddUp(courses[..|courses| - 1]);
    }
  }

  /** The counters never exceed the list, and match it exactly when every status is one of the four. */
  lemma CountersWithinList(courses: seq<ApprovalCourse>)
    ensures Count(courses, IsPendingStatus) + Count(courses, IsPublishedStatus)
            + Count(courses, IsRejectedStatus) + Count(courses, IsDraftStatus) <= |courses|
    ensures (Count(courses, IsPendingStatus) + Count(courses, IsPublishedStatus)
             + Count(courses, IsRejectedStatus) + Count(courses, IsDraftStatus) == |courses|)
            <==> forall i :: 0 <= i < |courses| ==> IsKnownStatus(courses[i])
  {
    CountersAddUp(courses);
  }

  /** Statuses sent by the server are always one of the four, so for them the counters cover the list. */
  lemma ServerStatusesAreKnown(courses: seq<ApprovalCourse>, statuses: seq<Entities.CourseStatus>)
    requires |statuses| == |courses|
    requires forall i :: 0 <= i < |courses| ==> courses[i].status == Entities.StatusName(statuses[i])
    ensures Count(courses, IsPendingStatus) + Count(courses, IsPublishedStatus)
            + Count(courses, IsRejectedStatus) + Count(courses, IsDraftStatus) == |courses|
  {
    forall i | 0 <= i < |courses|
      ensures IsKnownStatus(courses[i])
    {
      var n := Entities.StatusName(statuses[i]);
      assert n == "DRAFT" || n == "PENDING" || n == "PUBLISHED" || n == "REJECTED";
    }
    CountersWithinList(courses);
  }

  /** The search: title, description or instructor name contains the term, ignoring case. */
  predicate MatchesSearch(c: ApprovalCourse, term: string)
  {
    IncludesIgnoreCase(c.title, term) || IncludesIgnoreCase(c.description, term) || IncludesIgnoreCase(c.instructorName, term)
  }

  /** `filteredCourses`: the matching courses, in their loaded order. */
  function SearchFilter(courses: seq<ApprovalCourse>, term: string): (r: seq<ApprovalCourse>)
    ensures IsSubsequence(r, courses)
    ensures forall i :: 0 <= i < |r| ==> MatchesSearch(r[i], term)
    ensures forall i :: 0 <= i < |courses| && MatchesSearch(courses[i], term) ==> courses[i] in r
  {
    Filter(courses, (c: ApprovalCourse) => MatchesSearch(c, term))
  }

  /** An empty search term shows the whole list. */
  lemma EmptySearchShowsAll(courses: seq<ApprovalCourse>)
    ensures SearchFilter(courses, "") == courses
  {
    forall i | 0 <= i < |courses|
      ensures MatchesSearch(courses[i], "")
    {
      IncludesIgnoreCaseEmpty(courses[i].title);
    }
    FilterAll(courses, (c: ApprovalCourse) => MatchesSearch(c, ""));
  }

  /** `getStatusBadge`. */
  function StatusBadge(status: string): (badge: string)
    ensures status !in {"PENDING", "PUBLISHED", "REJECTED"} ==> badge == "bg-gray-100 text-gray-800"
  {
    if status == "PENDING" then "bg-yellow-100 text-yellow-800"
    else if status == "PUBLISHED" then "bg-green-100 text-green-800"
    else if status == "REJECTED" then "bg-red-100 text-red-800"
    else if status == "DRAFT" then "bg-gray-100 text-gray-800"
    else "bg-gray-100 text-gray-800"
  }

  /** Pending, published and rejected courses get their own badges; drafts share the fallback grey. */
  lemma BadgesDistinguishDecisions(s: string, t: string)
    requires s in {"PENDING", "PUBLISHED", "REJECTED"} && s != t
    ensures StatusBadge(s) != StatusBadge(t)
  {
  }

  /** The approve and reject buttons are rendered for pending courses only. */
  predicate ShowsDecisionButtons(c: ApprovalCourse)
  {
    c.status == "PENDING"
  }

  /**
   * The buttons appear exactly for the courses the server would approve or
   * reject: those whose status is PENDING.
   */
  lemma DecisionButtonsMatchServer(c: ApprovalCourse, st: Entities.CourseStatus)
    requires c.status == Entities.StatusName(st)
    ensures ShowsDecisionButtons(c) <==> st == Entities.Pending
  {
  }
}

/**
 * The course page a student sees: the lesson list with per-lesson progress,
 * the completion percentage, the certificate gate, the reviews written in
 * this visit and the wishlist button.  Server responses are parameters of
 * the handlers (`None` for a request that failed).
 */
module CourseDetail {
  import opened Seqs
  import opened Numbers
  import Wishlist

  datatype LessonItem = LessonItem(id: nat, title: string, content: string)

  /** A progress record as the server sends it: the lesson it is for and whether it is done. */
  datatype ProgressItem = ProgressItem(lessonId: nat, completed: bool)

  datatype Review = Review(userName: string, rating: int, review: string)

  predicate IsDone(p: ProgressItem) { p.completed }

  /**
   * `calculateCompletionPercentage`: 0 without progress records or lessons,
   * otherwise `Math.round(completed records / lessons * 100)`.
   */
  function CompletionPercentage(progress: seq<ProgressItem>, lessons: seq<LessonItem>): (p: nat)
    ensures progress == [] || lessons == [] ==> p == 0
    ensures progress != [] && lessons != [] ==> p == Percent(Count(progress, IsDone), |lessons|)
    ensures Count(progress, IsDone) <= |lessons| ==> p <= 100
  {
    if progress == [] || lessons == [] then 0
    else
      var c := Count(progress, IsDone);
      var l := |lessons|;
      PercentIsMathRound(c, l);
      MathRound(c as real / l as real * 100.0)
  }

  /** The position of the first record for the lesson (`Array.prototype.find`). */
  function FirstRecord(progress: seq<ProgressItem>, lessonId: nat): (r: Option<nat>)
    ensures r.None? <==> forall j :: 0 <= j < |progress| ==> progress[j].lessonId != lessonId
    ensures r.Some? ==> r.value < |progress| && progress[r.value].lessonId == lessonId
    ensures r.Some? ==> forall j :: 0 <= j < r.value ==> progress[j].lessonId != lessonId
  {
    if progress == [] then None
    else if progress[0].lessonId == lessonId then Some(0)
    else
      match FirstRecord(progress[1..], lessonId)
      case None => None
      case Some(k) => Some(k + 1)
  }

  /** `getProgressForLesson`: the first record for the lesson, if any. */
  function ProgressForLesson(progress: seq<ProgressItem>, lessonId: nat): (r: Option<ProgressItem>)
    ensures r.Some? <==> exists j :: 0 <= j < |progress| && progress[j].lessonId == lessonId
    ensures r.Some? ==> r.value in progress && r.value.lessonId == lessonId
  {
    match FirstRecord(progress, lessonId)
    case None => None
    case Some(k) => Some(progress[k])
  }

  /** `lessonProgress?.completed || false`: a lesson without a record shows as not completed. */
  function LessonCompleted(progress: seq<ProgressItem>, lessonId: nat): (b: bool)
    ensures b <==> (ProgressForLesson(progress, lessonId).Some? && ProgressForLesson(progress, lessonId).value.completed)
    ensures (forall j :: 0 <= j < |progress| ==> progress[j].lessonId != lessonId) ==> !b
  {
    match ProgressForLesson(progress, lessonId)
    case None => false
    case Some(p) => p.completed
  }

  /** The certificate section is shown to an enrolled student at exactly 100%. */
  predicate ShowCertificate(isEnrolled: bool, progress: seq<ProgressItem>, lessons: seq<LessonItem>)
  {
    isEnrolled && CompletionPercentage(progress, lessons) == 100
  }

  /**
   * With one record per lesson and fewer than 200 lessons, the certificate
   * appears exactly when the enrolled student has completed every record.
   */
  lemma CertificateMeansAllDone(isEnrolled: bool, progress: seq<ProgressItem>, lessons: seq<LessonItem>)
    requires |progress| == |lessons| < 200
    ensures ShowCertificate(isEnrolled, progress, lessons) <==>
              isEnrolled && lessons != [] && forall j :: 0 <= j < |progress| ==> progress[j].completed
  {
    if lessons != [] {
      PercentHundredSmallTotal(Count(progress, IsDone), |lessons|);
    }
  }

  /**
   * Rounding lets the certificate appear before everything is done: with 200
   * lessons and 199 completed records the page shows 100%.
   */
  lemma CertificateAtRoundedHundred(progress: seq<ProgressItem>, lessons: seq<LessonItem>)
    requires |lessons| == 200 && |progress| == 199
    requires forall j :: 0 <= j < |progress| ==> progress[j].completed
    ensures ShowCertificate(true, progress, lessons)
  {
    assert Count(progress, IsDone) == 199;
  }

  /** The page's state. */
  class CourseDetailPage {
    var lessons: seq<LessonItem>
    var progress: seq<ProgressItem>
    var isEnrolled: bool
    var reviews: seq<Review>

    constructor ()
      ensures lessons == [] && progress == [] && !isEnrolled && reviews == []
    {
      lessons, progress, isEnrolled, reviews := [], [], false, [];
    }

    /**
     * `loadCourseData`.  When the course requests fail nothing changes.
     * Otherwise the lessons are taken; the enrollment check decides
     * `isEnrolled`, and a failure of the check or of the progress request
     * after it leaves the student shown as not enrolled.  The reviews
     * response is fetched but never stored, so `reviews` keeps its value.
     */
    method LoadCourseData(loaded: Option<seq<LessonItem>>, status: Option<bool>, progressResponse: Option<seq<ProgressItem>>)
      modifies this
      ensures loaded.None? ==> lessons == old(lessons) && progress == old(progress) && isEnrolled == old(isEnrolled)
      ensures loaded.Some? ==> lessons == loaded.value
      ensures loaded.Some? ==> (isEnrolled <==> status == Some(true) && progressResponse.Some?)
      ensures loaded.Some? && isEnrolled ==> progress == progressResponse.value
      ensures !isEnrolled ==> progress == old(progress)
      ensures reviews == old(reviews)
    {
      if loaded.Some? {
        lessons := loaded.value;
        match status {
          case None =>
            isEnrolled := false;
          case Some(enrolled) =>
            isEnrolled := enrolled;
            if enrolled {
              match progressResponse {
                case Some(p) => progress := p;
                case None => isEnrolled := false;
              }
            }
        }
      }
    }

    /**
     * `handleEnroll`: a successful request marks the student enrolled; a
     * failed one changes nothing.  The reload the page starts after a
     * successful enroll is a following `LoadCourseData` call.
     */
    method HandleEnroll(ok: bool)
      modifies this`isEnrolled
      ensures isEnrolled == (ok || old(isEnrolled))
    {
      if ok {
        isEnrolled := true;
      }
    }

    /**
     * The lesson button: it asks for the opposite of what the lesson shows,
     * and the progress is replaced by the refreshed list only when both the
     * update and the reload succeed.
     */
    method ToggleLesson(lessonId: nat, updateOk: bool, refreshed: Option<seq<ProgressItem>>) returns (markCompleted: bool)
      requires isEnrolled
      modifies this`progress
      ensures markCompleted == !LessonCompleted(old(progress), lessonId)
      ensures updateOk && refreshed.Some? ==> progress == refreshed.value
      ensures !(updateOk && refreshed.Some?) ==> progress == old(progress)
    {
      markCompleted := !LessonCompleted(progress, lessonId);
      if updateOk && refreshed.Some? {
        progress := refreshed.value;
      }
    }

    /** `onRatingSubmit`: the new review goes first, the others keep their order. */
    method SubmitReview(review: Review)
      requires isEnrolled
      modifies this`reviews
      ensures reviews == [review] + old(reviews)
      ensures |reviews| == |old(reviews)| + 1 && reviews[1..] == old(reviews)
    {
      reviews := [review] + reviews;
    }
  }

  /** The wishlist button: remove the course when it is listed, add it otherwise. */
  method WishlistButton(wishlist: Wishlist.WishlistState, course: Wishlist.SavedCourse)
    modifies wishlist
    ensures wishlist.Contains(course.id) == !old(wishlist.Contains(course.id))
    ensures wishlist.Mirrored()
  {
    if wishlist.Contains(course.id) {
      wishlist.Remove(course.id);
    } else {
      wishlist.Add(course);
    }
  }
}

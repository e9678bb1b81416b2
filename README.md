# Learning-management system: courses, lessons, enrollments and progress

This project models the core of a learning-management system. It has two halves.

**Back end.** Five Spring services and the two entities that carry logic:

- `CourseService` covers the course lifecycle. Statuses are DRAFT, PENDING, PUBLISHED and REJECTED.
- `LessonService` covers lessons and their per-course order index.
- `EnrollmentService` covers enrolling and unenrolling. Each enrollment gets one progress row per lesson.
- `ProgressService` covers marking lessons complete.
- `UserService` covers accounts.
- `Enrollment` computes the completion percentage.
- `Progress` keeps the completion time in step with the completion flag.

The database is one `Persistence.Store` object with a map per table. Each service method is a Dafny method that changes only the tables it names. Each method states its error cases in the order the source checks them. On every error the tables are left as they were, matching the transaction rollback.

**Front end.** The React pages and contexts whose logic goes beyond display:

- the catalogue and course pages;
- the student's progress overview and the dashboard;
- the admin's approval queue and course table;
- the instructor's course and student lists;
- the learning path, the discussion panel, the wishlist and authentication contexts, and the navigation frame.

Most of this is pure derivation (filters, counters, rounding), so it is modelled as functions. The wishlist and the authentication session write through to browser storage, so they are classes whose methods update both the page state and the stored copy. Server answers are parameters, with `None` or `false` standing for a failed request.

Where the code and its tests or the written description disagree, the model follows the code:

- Every course is created PUBLISHED, and `submitForApproval` publishes a draft directly. Nothing in the service ever writes PENDING (`CourseService.NoNewDraftOrPending`).
- The wishlist is a list that can hold a course twice, not a set.
- A wishlist value in storage that is not valid JSON makes the page's `JSON.parse` throw. The model does not include this case (see Left out).

Behaviour of the source that the model makes explicit:

- **Reads a row without checking its course.** `getStudentProgressForLesson` does not check that the lesson belongs to the course (`ProgressService.GetProgressSkipsCourseCheck`).
- **Never called.** `createProgressForNewLesson` is never called. A lesson added to a course with students gets no progress rows.
- **Certificate before all lessons are done.** The certificate on the course page appears at a rounded 100%. With 200 lessons, 199 completed are enough (`CourseDetail.CertificateAtRoundedHundred`).
- **Shown as 100 but not completed.** On the instructor's student list, 99.5% is shown as 100 but counted as not completed (`InstructorStudents.RoundedToHundredNotCompleted`).
- **Empty courses.** An enrollment in a course without lessons counts as completed on the progress page, and that page's percentage has no value for it (`MyProgress.EmptyCourseCountsCompleted`).
- **Reviews never stored.** The course page fetches the reviews but never stores them, so only reviews written during the visit are shown.
- **Instructor search never matches.** The admin course search also tests `course.instructor?.username`. A course response has no `instructor` object, so in practice the search is by title only (`AdminCourses.SearchIsTitleOnly`).

## Model

| member | source | states |
|---|---|---|
| Entities.StatusNameInjective | lms-backend/src/main/java/com/lms/dto/CourseResponse.java:29 | distinct statuses have distinct JSON names, so pages comparing names tell statuses apart |
| Entities.Progress.constructor | lms-backend/src/main/java/com/lms/entity/Progress.java:25-26 | a new progress row is not completed and has no completion time |
| Entities.Progress.SetCompleted | lms-backend/src/main/java/com/lms/entity/Progress.java:73-80 | the first completion stamps the time, a repeat keeps it, clearing drops it; the time is present exactly while completed |
| Entities.Progress.SetCompletedAt | lms-backend/src/main/java/com/lms/entity/Progress.java:102-104 | writes only the time; consistency survives exactly when the new time agrees with the flag |
| Entities.ProgressPercentage | lms-backend/src/main/java/com/lms/entity/Enrollment.java:97-101 | 0 without lessons, within 0..100 when completed ≤ total, and exactly 100 iff there are lessons and all are completed |
| Persistence.LessonsOf | lms-backend/src/main/java/com/lms/repository/LessonRepository.java:16 | exactly the ids of the course's lessons |
| Persistence.EnrollmentsOf | lms-backend/src/main/java/com/lms/repository/EnrollmentRepository.java:23 | the course's enrollments; non-empty iff the course has enrollments |
| Persistence.FindMaxOrderIndex | lms-backend/src/main/java/com/lms/repository/LessonRepository.java:18-19 | null iff the course has no lessons, else an index some lesson of the course has and none exceeds |
| Persistence.CompletedLessons | lms-backend/src/main/java/com/lms/entity/Enrollment.java:93-95 | at most the enrollment's row count, and 0 iff none of its rows is completed |
| Persistence.Store.AddProgress | lms-backend/src/main/java/com/lms/service/EnrollmentService.java:61-62 | one fresh, not completed row under a new key; existing rows untouched; store invariants kept |
| UserService.FindById | lms-backend/src/main/java/com/lms/service/UserService.java:53-56 | the user iff the id exists, else not-found |
| UserService.FindByUsername | lms-backend/src/main/java/com/lms/service/UserService.java:48-51 | succeeds iff the username is taken, and returns the one user with it |
| UserService.CreateUser | lms-backend/src/main/java/com/lms/service/UserService.java:27-46 | username taken, then email taken, are refused in that order; otherwise exactly one new active user with the encoded password; usernames and emails stay unique |
| UserService.UpdatedPassword | lms-backend/src/main/java/com/lms/service/UserService.java:92-94 | the encoded new password when one is given and non-empty, else the old one |
| UserService.UpdateUser | lms-backend/src/main/java/com/lms/service/UserService.java:73-98 | succeeds exactly when the user exists and neither a changed username nor a changed email is taken (uniqueness is checked only for a changed value), with the errors in source order; the record is replaced field by field, `active` kept; the others are untouched |
| UserService.SetActive | lms-backend/src/main/java/com/lms/service/UserService.java:100-110 | only that user's `active` flag changes; not-found otherwise |
| UserService.DeactivateUser | lms-backend/src/main/java/com/lms/service/UserService.java:100-104 | that user becomes inactive, nothing else changes |
| UserService.ActivateUser | lms-backend/src/main/java/com/lms/service/UserService.java:106-110 | that user becomes active, nothing else changes |
| UserService.DeleteUser | lms-backend/src/main/java/com/lms/service/UserService.java:112-115 | removes exactly that user; not-found otherwise |
| CourseService.FindById | lms-backend/src/main/java/com/lms/service/CourseService.java:88-91 | the course iff it exists, else not-found |
| CourseService.NoNewDraftOrPendingTransitive | lms-backend/src/main/java/com/lms/service/CourseService.java:42 | steps that create no DRAFT or PENDING course compose |
| CourseService.NoDraftOrPendingStaysSo | lms-backend/src/main/java/com/lms/service/CourseService.java:148-149 | a table without DRAFT or PENDING courses keeps that property under every service step |
| CourseService.CreatePublished | lms-backend/src/main/java/com/lms/service/CourseService.java:29-65 | missing user, then non-instructor, are refused; otherwise exactly one new PUBLISHED course under a fresh id |
| CourseService.CreateCourse | lms-backend/src/main/java/com/lms/service/CourseService.java:29-46 | only an instructor creates; the new course is PUBLISHED at once; nothing else changes |
| CourseService.AdminCreateCourse | lms-backend/src/main/java/com/lms/service/CourseService.java:48-65 | the chosen user must be an instructor; the new course is PUBLISHED at once |
| CourseService.UpdateCourse | lms-backend/src/main/java/com/lms/service/CourseService.java:67-86 | not found, not owner, published-with-enrollments refused in order; otherwise title, description, thumbnail replaced, status and owner kept |
| CourseService.PublishedWithKeyword | lms-backend/src/main/java/com/lms/repository/CourseRepository.java:21-24 | exactly the published courses whose lower-cased title or description is `LIKE` the lower-cased `%keyword%`, with `%` and `_` in the keyword acting as wildcards |
| CourseService.LiteralKeywordIsSubstring | lms-backend/src/main/java/com/lms/repository/CourseRepository.java:21-24 | a keyword without `%` or `_` finds exactly the published courses whose title or description contains it, ignoring case |
| CourseService.UnderscoreKeywordMatchesAnyText | lms-backend/src/main/java/com/lms/repository/CourseRepository.java:21-24 | the keyword `_` finds every published course whose title or description is not empty |
| Text.ContainsPatternLiteral | lms-backend/src/main/java/com/lms/repository/CourseRepository.java:22-23 | `LOWER(s) LIKE LOWER('%' + k + '%')` with a wildcard-free `k` is the case-insensitive substring test |
| Text.ContainsPatternUnderscore | lms-backend/src/main/java/com/lms/repository/CourseRepository.java:22-23 | the pattern built from `_` matches exactly the non-empty strings |
| Text.LikeLeadingPercent | lms-backend/src/main/java/com/lms/repository/CourseRepository.java:22-23 | a leading `%` lets the rest of the pattern match any suffix |
| Text.LikeLiteralPrefix | lms-backend/src/main/java/com/lms/repository/CourseRepository.java:22-23 | a wildcard-free pattern followed by `%` matches exactly the strings it starts |
| CourseService.PublishedCourses | lms-backend/src/main/java/com/lms/service/CourseService.java:103-106 | exactly the published courses |
| CourseService.SearchCourses | lms-backend/src/main/java/com/lms/service/CourseService.java:119-125 | only published courses; a missing or blank keyword lists them all, otherwise the trimmed keyword is matched as a `LIKE` pattern, wildcards included |
| CourseService.SearchBlankIsEmptyKeyword | lms-backend/src/main/java/com/lms/service/CourseService.java:119-124 | the blank-keyword listing is the same as matching the empty keyword (the pattern `%%`) |
| CourseService.SubmitForApproval | lms-backend/src/main/java/com/lms/service/CourseService.java:127-152 | the result is `SubmitOutcome`; on success only that course changes, to PUBLISHED |
| CourseService.SubmitOutcome | lms-backend/src/main/java/com/lms/service/CourseService.java:127-152 | succeeds iff the caller owns a DRAFT course with at least one lesson, and then the course is PUBLISHED |
| CourseService.SubmitNonDraftMessage | lms-backend/src/main/java/com/lms/service/CourseService.java:136-142 | a PENDING or REJECTED course gets the "only draft" message, not "already published" |
| CourseService.DecidePending | lms-backend/src/main/java/com/lms/service/CourseService.java:154-176 | only a PENDING course moves, to the target status; others refused and unchanged |
| CourseService.ApproveCourse | lms-backend/src/main/java/com/lms/service/CourseService.java:154-164 | PENDING becomes PUBLISHED; any other status refused |
| CourseService.RejectCourse | lms-backend/src/main/java/com/lms/service/CourseService.java:166-176 | PENDING becomes REJECTED; any other status refused |
| CourseService.DeleteCourse | lms-backend/src/main/java/com/lms/service/CourseService.java:178-190 | not found, not owner, published-with-enrollments refused in order; otherwise exactly that course removed |
| CourseService.AdminDeleteCourse | lms-backend/src/main/java/com/lms/service/CourseService.java:192-195 | any existing course is removed whatever its status or enrollments |
| LessonService.FindById | lms-backend/src/main/java/com/lms/service/LessonService.java:91-94 | the lesson iff it exists, else not-found |
| LessonService.EditableCourse | lms-backend/src/main/java/com/lms/service/LessonService.java:29-37 | passes iff the course exists, is the caller's and is not published, with the per-check error otherwise |
| LessonService.NextOrderIndex | lms-backend/src/main/java/com/lms/service/LessonService.java:39-42 | 1 for an empty course, else one past the largest index; never an index already taken |
| LessonService.AddKeepsDistinct | lms-backend/src/main/java/com/lms/service/LessonService.java:44-47 | a lesson with a free index keeps indices distinct within each course |
| LessonService.CreateLesson | lms-backend/src/main/java/com/lms/service/LessonService.java:28-61 | after the course guard, a given taken index is refused and a missing one is chosen free; exactly one lesson added; indices stay distinct |
| LessonService.UpdateLesson | lms-backend/src/main/java/com/lms/service/LessonService.java:63-89 | conflict checked only for a changed index; fields replaced, course kept; indices stay distinct |
| LessonService.KeepIndexKeepsDistinct | lms-backend/src/main/java/com/lms/service/LessonService.java:75-79 | keeping a lesson's own index never breaks distinctness |
| LessonService.DeleteLesson | lms-backend/src/main/java/com/lms/service/LessonService.java:108-121 | after the course guard, exactly that lesson is removed |
| LessonService.InsertByOrder | lms-backend/src/main/java/com/lms/repository/LessonRepository.java:16 | inserting into an ordered listing keeps it ordered and adds the id once |
| LessonService.GetLessonsByCourse | lms-backend/src/main/java/com/lms/service/LessonService.java:101-106 | every lesson of the course exactly once, in ascending order index |
| LessonService.Renumbered | lms-backend/src/main/java/com/lms/service/LessonService.java:139-148 | only order indices change; the set of lessons is the same |
| LessonService.RenumberedAt | lms-backend/src/main/java/com/lms/service/LessonService.java:146 | with distinct ids, position i gets index i+1 and unlisted lessons are untouched |
| LessonService.ReorderAsWrittenDuplicatesIndex | lms-backend/src/main/java/com/lms/service/LessonService.java:134-148 | a list naming one lesson twice passes the length check and leaves two lessons with the same index |
| LessonService.ReorderNumbersCourse | lms-backend/src/main/java/com/lms/service/LessonService.java:123-149 | with each lesson named once, the course's lessons are numbered 1..n in list order, other courses untouched, indices distinct |
| LessonService.RenumberCourse | lms-backend/src/main/java/com/lms/service/LessonService.java:139-148 | the loop fails iff some id is not a lesson of the course; otherwise it yields `Renumbered` |
| LessonService.ReorderLessons | lms-backend/src/main/java/com/lms/service/LessonService.java:123-149 | course guard, then a list that does not name every lesson once is refused, an unknown id is not found; otherwise the renumbering |
| EnrollmentService.FindById | lms-backend/src/main/java/com/lms/service/EnrollmentService.java:66-69 | the enrollment iff it exists, else not-found |
| EnrollmentService.EnrollStudent | lms-backend/src/main/java/com/lms/service/EnrollmentService.java:33-56 | lookups, then student-only, published-only and once-only in order; one new enrollment with exactly one new, not completed row per lesson |
| EnrollmentService.CreateInitialProgress | lms-backend/src/main/java/com/lms/service/EnrollmentService.java:58-64 | the loop leaves exactly one not completed row per lesson for the new enrollment, old rows untouched |
| EnrollmentService.AddLessonRow | lms-backend/src/main/java/com/lms/service/EnrollmentService.java:60-63 | one iteration adds the row for one more lesson and nothing else |
| EnrollmentService.RowsForComplete | lms-backend/src/main/java/com/lms/service/EnrollmentService.java:58-64 | the rows built by the loop are exactly one per lesson |
| EnrollmentService.RemoveEnrollment | lms-backend/src/main/java/com/lms/entity/Enrollment.java:34-35 | removing an enrollment removes its progress rows (cascade) and nothing else |
| EnrollmentService.UnenrollStudent | lms-backend/src/main/java/com/lms/service/EnrollmentService.java:98-106 | only the enrolled student may remove the enrollment |
| EnrollmentService.AdminUnenrollStudent | lms-backend/src/main/java/com/lms/service/EnrollmentService.java:108-111 | any existing enrollment is removed |
| EnrollmentService.IsStudentEnrolled | lms-backend/src/main/java/com/lms/service/EnrollmentService.java:113-117 | student and course must exist; then true iff the pair is enrolled |
| EnrollmentService.GetEnrollmentByStudentAndCourse | lms-backend/src/main/java/com/lms/service/EnrollmentService.java:119-124 | the unique enrollment of the pair, else the not-found errors in order |
| ProgressService.FindProgress | lms-backend/src/main/java/com/lms/service/ProgressService.java:28-37 | enrollment, lesson, course check, row, in that order; the row found is the one for that enrollment and lesson |
| ProgressService.GetStudentProgressForLesson | lms-backend/src/main/java/com/lms/service/ProgressService.java:62-68 | the row of that enrollment and lesson; never the wrong-course error |
| ProgressService.GetProgressSkipsCourseCheck | lms-backend/src/main/java/com/lms/service/ProgressService.java:62-68 | a lesson of another course is returned where marking it is refused |
| ProgressService.SetLessonCompletion | lms-backend/src/main/java/com/lms/service/ProgressService.java:28-56 | only the found row changes, via `setCompleted`; repeating the call changes nothing |
| ProgressService.MarkLessonComplete | lms-backend/src/main/java/com/lms/service/ProgressService.java:28-41 | the row becomes completed, first completion time kept |
| ProgressService.MarkLessonIncomplete | lms-backend/src/main/java/com/lms/service/ProgressService.java:43-56 | the row becomes not completed with no time |
| ProgressService.CreateProgressForNewLesson | lms-backend/src/main/java/com/lms/service/ProgressService.java:70-78 | one new row per enrollment of the lesson's course, or nothing if that would violate the unique pair |
| ProgressService.AddLessonRows | lms-backend/src/main/java/com/lms/service/ProgressService.java:74-77 | the loop adds one new, not completed row of the lesson for each listed enrollment and keeps every existing row |
| ProgressService.AddEnrollmentRow | lms-backend/src/main/java/com/lms/service/ProgressService.java:74-77 | one iteration adds the row for one more enrollment and nothing else |
| InstructorStudents.ResolveName | lms-frontend/src/pages/instructor/InstructorStudents.jsx:47-60 | both parts non-empty; separate fields win; a full name gives a first part without spaces; else the placeholders |
| InstructorStudents.ResolveNameAtFirstSpace | lms-frontend/src/pages/instructor/InstructorStudents.jsx:52-56 | a full name is cut at its first space, with placeholders for empty parts |
| InstructorStudents.ResolveNameOneWord | lms-frontend/src/pages/instructor/InstructorStudents.jsx:52-56 | a one-word full name is the first name, last name "Student" |
| InstructorStudents.Identity | lms-frontend/src/pages/instructor/InstructorStudents.jsx:62-69 | username and email fall back to `student<id>` forms and are never empty |
| InstructorStudents.Entry | lms-frontend/src/pages/instructor/InstructorStudents.jsx:71-79 | progress is the percentage rounded to nearest (0 when absent); completed iff the percentage is at least 100 |
| InstructorStudents.RoundedToHundredNotCompleted | lms-frontend/src/pages/instructor/InstructorStudents.jsx:75-76 | 99.5% is shown as 100 yet not completed |
| InstructorStudents.FindStudent | lms-frontend/src/pages/instructor/InstructorStudents.jsx:45 | the first position with that id, or none iff no student has it |
| InstructorStudents.GroupByStudent | lms-frontend/src/pages/instructor/InstructorStudents.jsx:42-82 | the loop with its id-to-position map computes `Grouped` |
| InstructorStudents.GroupRecord | lms-frontend/src/pages/instructor/InstructorStudents.jsx:44-79 | one loop step is `AddRecord`, and the map stays in agreement with the list |
| InstructorStudents.GroupedIds | lms-frontend/src/pages/instructor/InstructorStudents.jsx:42-82 | one student per distinct id, each with a record and at least one course; every record's student listed |
| InstructorStudents.GroupedEntries | lms-frontend/src/pages/instructor/InstructorStudents.jsx:71-79 | each student lists exactly its own records' courses, in record order |
| InstructorStudents.GroupedIdentity | lms-frontend/src/pages/instructor/InstructorStudents.jsx:45-70 | a student's names, username and email come from its first record only |
| InstructorStudents.GroupedOrder | lms-frontend/src/pages/instructor/InstructorStudents.jsx:82 | students appear in the order of their first records |
| InstructorStudents.GroupedTotal | lms-frontend/src/pages/instructor/InstructorStudents.jsx:71-90 | the course lists' lengths add up to the record count |
| InstructorStudents.ComputeStats | lms-frontend/src/pages/instructor/InstructorStudents.jsx:87-93 | students = distinct student ids, courses = distinct course ids, active = distinct ids of students with a record whose course is not completed, and active ≤ students ≤ enrollments |
| InstructorStudents.DistinctStudentsCount | lms-frontend/src/pages/instructor/InstructorStudents.jsx:82-89 | the grouped list has one entry per distinct student id |
| InstructorStudents.FilterStudents | lms-frontend/src/pages/instructor/InstructorStudents.jsx:104-117 | exactly the students matching both filters, in order; empty filters keep all |
| InstructorStudents.GetAllCourses | lms-frontend/src/pages/instructor/InstructorStudents.jsx:119-127 | every course name of every student exactly once, strictly sorted |
| InstructorStudents.SortNames | lms-frontend/src/pages/instructor/InstructorStudents.jsx:126 | the set's strings, strictly increasing |
| LearningPath.GateOf | lms-frontend/src/components/course/LearningPath.jsx:110-122 | Continue iff enrolled; Start iff not enrolled and first or after an enrolled course; Locked otherwise |
| LearningPath.RenderingAgrees | lms-frontend/src/components/course/LearningPath.jsx:80-122 | row colour, button style and label always show the same decision |
| LearningPath.FirstOfEveryStageOpen | lms-frontend/src/components/course/LearningPath.jsx:80-86 | the first course of each stage is never locked |
| LearningPath.EnrollingNeverLocks | lms-frontend/src/components/course/LearningPath.jsx:110-116 | more enrollments never lock an open course |
| LearningPath.Gates | lms-frontend/src/components/course/LearningPath.jsx:80-122 | one decision per course of a stage, in order |
| LearningPath.StartsBoundedByEnrolled | lms-frontend/src/components/course/LearningPath.jsx:118-122 | a stage offers at most one more "Start Course" than it has enrolled courses |
| LearningPath.StartsBounded | lms-frontend/src/components/course/LearningPath.jsx:113-122 | whenever every later "Start Course" follows a "Continue", starts number at most the continues before the last course plus one |
| Wishlist.Added | lms-frontend/src/contexts/WishlistContext.jsx:21 | appended at the end, earlier entries kept |
| Wishlist.Removed | lms-frontend/src/contexts/WishlistContext.jsx:29 | exactly the entries with other ids, in order |
| Wishlist.RemovedLength | lms-frontend/src/contexts/WishlistContext.jsx:29 | removes as many entries as carry the id |
| Wishlist.RemovedIdempotent | lms-frontend/src/contexts/WishlistContext.jsx:27-33 | removing twice is removing once |
| Wishlist.RemoveAfterAdd | lms-frontend/src/contexts/WishlistContext.jsx:19-33 | add then remove of an id equals remove alone |
| Wishlist.AddThenRemoveRestores | lms-frontend/src/contexts/WishlistContext.jsx:19-33 | adding an unlisted course and removing it restores the list |
| Wishlist.WishlistState.constructor | lms-frontend/src/contexts/WishlistContext.jsx:10-16 | starts from the stored list, or empty; page and storage agree |
| Wishlist.WishlistState.Add | lms-frontend/src/contexts/WishlistContext.jsx:19-25 | the course is then listed and the stored copy equals the list |
| Wishlist.WishlistState.Remove | lms-frontend/src/contexts/WishlistContext.jsx:27-33 | the id is then not listed and the stored copy equals the list |
| CourseDetail.CompletionPercentage | lms-frontend/src/pages/student/CourseDetail.jsx:123-127 | 0 without records or lessons, else completed records over lessons rounded half up, at most 100 |
| CourseDetail.FirstRecord | lms-frontend/src/pages/student/CourseDetail.jsx:108-110 | the first record for the lesson, none iff there is none |
| CourseDetail.ProgressForLesson | lms-frontend/src/pages/student/CourseDetail.jsx:108-110 | some record for the lesson iff one exists |
| CourseDetail.LessonCompleted | lms-frontend/src/pages/student/CourseDetail.jsx:364-365 | completed iff the first record says so; no record means not completed |
| CourseDetail.CertificateMeansAllDone | lms-frontend/src/pages/student/CourseDetail.jsx:260 | below 200 lessons, with a record per lesson, the certificate shows iff enrolled and every record completed |
| CourseDetail.CertificateAtRoundedHundred | lms-frontend/src/pages/student/CourseDetail.jsx:260 | 199 of 200 lessons already shows the certificate |
| CourseDetail.CourseDetailPage.LoadCourseData | lms-frontend/src/pages/student/CourseDetail.jsx:43-75 | a failed course load changes nothing; enrolled iff the check says so and progress loads; reviews untouched |
| CourseDetail.CourseDetailPage.HandleEnroll | lms-frontend/src/pages/student/CourseDetail.jsx:77-87 | success marks enrolled, failure changes nothing |
| CourseDetail.CourseDetailPage.ToggleLesson | lms-frontend/src/pages/student/CourseDetail.jsx:89-106 | asks for the opposite of what is shown; progress replaced only when update and reload succeed |
| CourseDetail.CourseDetailPage.SubmitReview | lms-frontend/src/pages/student/CourseDetail.jsx:319-321 | the new review goes first, the others keep their order |
| CourseDetail.WishlistButton | lms-frontend/src/pages/student/CourseDetail.jsx:212-214 | the button flips whether the course is listed; storage stays mirrored |
| MyProgress.CompletedLessons | lms-frontend/src/pages/student/MyProgress.jsx:44 | between 0 and the number of progress records |
| MyProgress.CalculateStats | lms-frontend/src/pages/student/MyProgress.jsx:40-59 | total, completed count, in-progress count and lesson sum over all enrollments |
| MyProgress.CompletedAndInProgressDisjoint | lms-frontend/src/pages/student/MyProgress.jsx:40-59 | completed plus in-progress never exceeds the total |
| MyProgress.LessonsCoverInProgress | lms-frontend/src/pages/student/MyProgress.jsx:40-59 | each in-progress course contributes at least one completed lesson |
| MyProgress.EmptyCourseCountsCompleted | lms-frontend/src/pages/student/MyProgress.jsx:46-50 | an enrollment in a lesson-less course counts as completed |
| MyProgress.CalculateProgress | lms-frontend/src/pages/student/MyProgress.jsx:61-64 | no number iff the course has no lessons; else the rounded percentage, 100 for a completed course |
| Auth.InitialState | lms-frontend/src/contexts/AuthContext.jsx:68-75 | signed out, with the stored token |
| Auth.Reduce | lms-frontend/src/contexts/AuthContext.jsx:8-66 | each action's new state; failures and logout drop user and token; unknown actions change nothing |
| Auth.ReducePreservesCoherent | lms-frontend/src/contexts/AuthContext.jsx:8-66 | every action keeps "authenticated iff a user is present" |
| Auth.ReachableCoherent | lms-frontend/src/contexts/AuthContext.jsx:8-75 | every state reachable from the initial one is coherent |
| Auth.RolesExclusive | lms-frontend/src/contexts/AuthContext.jsx:166-177 | at most one role helper holds, none when signed out |
| Auth.AuthSession.constructor | lms-frontend/src/contexts/AuthContext.jsx:68-75 | initial state from the stored token, storage untouched |
| Auth.MessageOr | lms-frontend/src/contexts/AuthContext.jsx:107 | a present, non-empty server message is shown; a missing or empty one gives the fallback |
| Auth.AuthSession.InterceptFailure | lms-frontend/src/services/api.js:28-38 | a 401 answer removes both storage entries; any other failure keeps them; the reducer state is untouched |
| Auth.AuthSession.Login | lms-frontend/src/contexts/AuthContext.jsx:90-114 | success stores token and user and signs in; failure records the message, or "Login failed" when it is missing or empty, so the error shown is never empty; a failure answered with 401 clears storage, any other failure keeps it |
| Auth.AuthSession.Register | lms-frontend/src/contexts/AuthContext.jsx:117-138 | a refused registration records the message, or "Registration failed" when it is missing or empty; otherwise the result is the login's: success stores token and user and signs in, a failed login shows its own message; a failed request answered with 401 clears storage, any other failure keeps it, and the error shown is never empty |
| Auth.AuthSession.LoadUser | lms-frontend/src/contexts/AuthContext.jsx:141-156 | success sets the user and keeps the token; failure clears both storage entries and signs out |
| Auth.AuthSession.Mount | lms-frontend/src/contexts/AuthContext.jsx:82-87 | the user is loaded only with a non-empty stored token and no user yet |
| Auth.AuthSession.Logout | lms-frontend/src/contexts/AuthContext.jsx:159-163 | both storage entries removed and the state signed out |
| Layout.NavigationItems | lms-frontend/src/components/Layout.jsx:28-61 | dashboard first; 3, 4 or 5 entries for student, instructor, admin; dashboard alone otherwise |
| Layout.SignedOutNavigation | lms-frontend/src/components/Layout.jsx:28-61 | signed out, only the dashboard entry |
| Layout.NavigationPerRole | lms-frontend/src/components/Layout.jsx:28-61 | each role sees its own entry count |
| Layout.ActiveBelowIsActiveAbove | lms-frontend/src/components/Layout.jsx:65-67 | a path below an item highlights every item above it |
| Layout.ActivePathSegments | lms-frontend/src/components/Layout.jsx:65-67 | for every item path: the path itself and every path one `/` below it are active, and a path that continues with any other character is not |
| Dashboard.KindFor | lms-frontend/src/pages/Dashboard.jsx:29-35 | the first matching role decides the loader, none when no role matches |
| Dashboard.KindMatchesRole | lms-frontend/src/pages/Dashboard.jsx:29-35 | each role gets its own loader; signed out gets none |
| Dashboard.StudentStatsOf | lms-frontend/src/pages/Dashboard.jsx:51-60 | totals from the server; completed and in-progress counted over the page, together at most its size |
| Dashboard.FinishedMeansAllLessons | lms-frontend/src/pages/Dashboard.jsx:56-57 | with the server's percentage, finished iff every lesson is done; underway means some but not all |
| Dashboard.InstructorStatsOf | lms-frontend/src/pages/Dashboard.jsx:84-89 | published and pending counted over the page, together at most its size |
| Dashboard.AdminStatsOf | lms-frontend/src/pages/Dashboard.jsx:112-124 | the three server totals |
| Dashboard.StudentActivity | lms-frontend/src/pages/Dashboard.jsx:62-68 | one enrollment entry per loaded enrollment, in order |
| Dashboard.InstructorActivity | lms-frontend/src/pages/Dashboard.jsx:91-98 | one course entry per loaded course, in order |
| Dashboard.AdminActivity | lms-frontend/src/pages/Dashboard.jsx:112-124 | one approval entry per pending course, in order |
| Dashboard.Greeting | lms-frontend/src/pages/Dashboard.jsx:130-135 | morning iff before 12, afternoon iff 12 to 17, evening iff 18 or later |
| Dashboard.GreetingMonotone | lms-frontend/src/pages/Dashboard.jsx:130-135 | the greeting never goes back during a day |
| CourseApprovals.ListingFor | lms-frontend/src/pages/admin/CourseApprovals.jsx:41-53 | "APPROVED" loads published, "ALL" loads all, anything else pending |
| CourseApprovals.CountStatuses | lms-frontend/src/pages/admin/CourseApprovals.jsx:59-81 | each counter is the number of courses with its status |
| CourseApprovals.TallyCounts | lms-frontend/src/pages/admin/CourseApprovals.jsx:59-81 | the counters tallied course by course equal the number of courses with each status |
| CourseApprovals.CountersAddUp | lms-frontend/src/pages/admin/CourseApprovals.jsx:59-81 | the four counters sum to the courses with a known status |
| CourseApprovals.CountersWithinList | lms-frontend/src/pages/admin/CourseApprovals.jsx:59-81 | the counters never exceed the list, and equal it iff every status is known |
| CourseApprovals.ServerStatusesAreKnown | lms-frontend/src/pages/admin/CourseApprovals.jsx:59-81 | for statuses the server sends, the counters cover the list |
| CourseApprovals.SearchFilter | lms-frontend/src/pages/admin/CourseApprovals.jsx:116-121 | exactly the courses whose title, description or instructor contains the term, in order |
| CourseApprovals.EmptySearchShowsAll | lms-frontend/src/pages/admin/CourseApprovals.jsx:116-121 | an empty term shows the whole list |
| CourseApprovals.StatusBadge | lms-frontend/src/pages/admin/CourseApprovals.jsx:123-136 | any status other than the three decisions gets the grey badge |
| CourseApprovals.BadgesDistinguishDecisions | lms-frontend/src/pages/admin/CourseApprovals.jsx:123-136 | pending, published and rejected each have their own badge |
| CourseApprovals.DecisionButtonsMatchServer | lms-frontend/src/pages/admin/CourseApprovals.jsx:269 | approve/reject shown iff the server would accept the decision (PENDING) |
| AdminCourses.PrevPage | lms-frontend/src/pages/admin/AdminCourses.jsx:294 | never below 0; one page back otherwise |
| AdminCourses.NextPage | lms-frontend/src/pages/admin/AdminCourses.jsx:304 | never past the last page; one page on otherwise |
| AdminCourses.NavigationStaysInRange | lms-frontend/src/pages/admin/AdminCourses.jsx:291-304 | any clicks from a valid page stay within 0..totalPages-1 |
| AdminCourses.DisabledClicksAreNoOps | lms-frontend/src/pages/admin/AdminCourses.jsx:291-304 | the disabled buttons would not move the page |
| AdminCourses.AdminFilter | lms-frontend/src/pages/admin/AdminCourses.jsx:113-116 | exactly the rows whose title or instructor username contains the term, in order |
| AdminCourses.SearchIsTitleOnly | lms-frontend/src/pages/admin/AdminCourses.jsx:113-116 | rows without an instructor object are searched by title alone |
| AdminCourses.StatusColor | lms-frontend/src/pages/admin/AdminCourses.jsx:95-102 | any other status is grey |
| AdminCourses.StatusColorsDistinct | lms-frontend/src/pages/admin/AdminCourses.jsx:95-102 | published, pending and rejected get distinct colours |
| AdminCourses.AfterCreate | lms-frontend/src/pages/admin/AdminCourses.jsx:67-77 | success clears and closes the form; failure keeps it and shows a non-empty message, the server's when present |
| InstructorCourses.Actions | lms-frontend/src/pages/instructor/InstructorCourses.jsx:118-149 | submit and edit iff DRAFT, delete iff DRAFT or REJECTED, analytics iff PUBLISHED |
| InstructorCourses.PendingHasNoActions | lms-frontend/src/pages/instructor/InstructorCourses.jsx:118-149 | no buttons exactly for PENDING |
| InstructorCourses.SubmitButtonMatchesService | lms-frontend/src/pages/instructor/InstructorCourses.jsx:118-123 | an offered, enabled submit button is exactly a submission the service accepts |
| InstructorCourses.DeleteButtonNeverFrozen | lms-frontend/src/pages/instructor/InstructorCourses.jsx:139 | a course offering delete is never refused for its enrollments |
| InstructorCourses.StatusBadge | lms-frontend/src/pages/instructor/InstructorCourses.jsx:52-58 | a badge iff the status is one of the four |
| InstructorCourses.BadgesDistinct | lms-frontend/src/pages/instructor/InstructorCourses.jsx:52-58 | each status has its own badge |
| Discussion.BlankIsAllWhitespace | lms-frontend/src/components/course/Discussion.jsx:34 | blank iff every character is white space |
| Discussion.AskQuestion | lms-frontend/src/components/course/Discussion.jsx:33-48 | blank or failed changes nothing; a posted question goes first and clears the box |
| Discussion.WithReply | lms-frontend/src/components/course/Discussion.jsx:55-62 | the reply is appended to matching threads only |
| Discussion.ReplyTo | lms-frontend/src/components/course/Discussion.jsx:50-71 | blank or failed changes nothing; otherwise the reply is added and the form reset |
| Discussion.ReplyAddsOne | lms-frontend/src/components/course/Discussion.jsx:55-62 | with distinct thread ids a reply adds exactly one reply overall |
| Discussion.ReplyToUnknownThread | lms-frontend/src/components/course/Discussion.jsx:55-62 | a reply to no thread changes nothing |
| Discussion.WithLike | lms-frontend/src/components/course/Discussion.jsx:73-97 | a thread like marks matching threads; a reply like marks matching replies and nothing else |
| Discussion.Like | lms-frontend/src/components/course/Discussion.jsx:73-97 | a failed like changes nothing |
| Discussion.ThreadLikeAddsOne | lms-frontend/src/components/course/Discussion.jsx:73-97 | with distinct ids a thread like adds exactly one like |
| Discussion.LikedItemsAreDisabled | lms-frontend/src/components/course/Discussion.jsx:173 | a liked item is marked, so its button is disabled |
| Seqs.PageContent | lms-frontend/src/pages/student/CourseList.jsx:25 | a page's content, or the empty list when it has none (JavaScript's or-default) |
| CourseList.AfterLoadCourses | lms-frontend/src/pages/student/CourseList.jsx:17-33 | a loaded page gives its content or the empty list; a failed request empties the list as well |
| CourseApprovals.AfterLoad | lms-frontend/src/pages/admin/CourseApprovals.jsx:36-90 | a loaded page replaces the list with its content (empty when it has none) and the counters with the per-status counts of that list; a failed request keeps the old list and counters |
| CourseList.EnrolledSet | lms-frontend/src/pages/student/CourseList.jsx:38-39 | exactly the course ids of the enrollments |
| CourseList.AfterLoadEnrollments | lms-frontend/src/pages/student/CourseList.jsx:35-43 | a load replaces the set, a failure keeps it |
| CourseList.AfterEnroll | lms-frontend/src/pages/student/CourseList.jsx:45-54 | success adds the id and keeps the others; failure changes nothing |
| CourseList.CardControlFor | lms-frontend/src/pages/student/CourseList.jsx:126-137 | badge iff the id is in the set, else the enroll button |
| CourseList.EnrollUpdatesOnlyThatCard | lms-frontend/src/pages/student/CourseList.jsx:45-54 | only the enrolled course's card changes |
| CourseList.EnrollAll | lms-frontend/src/pages/student/CourseList.jsx:49 | after a series of enroll attempts the enrolled set is the old one plus exactly the successfully enrolled ids, so an enrolled course keeps its badge |
| Numbers.RoundRatioIsMathRound | lms-frontend/src/pages/student/CourseDetail.jsx:126 | the integer formula equals `Math.round` of the ratio |
| Numbers.PercentIsHundred | lms-frontend/src/pages/student/CourseDetail.jsx:126 | the rounded percentage is 100 iff 199·total ≤ 200·completed < 201·total |
| Numbers.PercentHundredSmallTotal | lms-frontend/src/pages/student/CourseDetail.jsx:126 | below 200 lessons, 100 means all completed |
| Text.JoinSplit | lms-frontend/src/pages/instructor/InstructorStudents.jsx:54-56 | joining the split pieces restores the name |
| Text.LexMinExists | lms-frontend/src/pages/instructor/InstructorStudents.jsx:126 | every non-empty set of names has a least element in the default order |

## Left out

- Network, toasts, loading spinners, console output and navigation are left out. Server answers are parameters, and `None` or `false` stands for a failed request.
- Controllers, DTO copying, bean validation and Spring Security are left out. Role checks made only by `@PreAuthorize` are not preconditions of the service methods.
- The clock is left out. `LocalDateTime.now()` is the `now` parameter, and the dashboard's hour is the `hour` parameter.
- The password encoder is the `encode` parameter.
- `Course.java` and `User.java` are not part of this model, so their cascade settings are unknown.
  - CourseService.DeleteCourse: removes only the course row. It does not cascade to the course's lessons or enrollments.
  - CourseService.AdminDeleteCourse: the same.
  - UserService.DeleteUser: removes only the user row.
- UserService.CreateUser: a new user is modelled as active. `User.java`, which sets that default, is not part of this model.
- The list endpoints that only page and map (`getAllCourses`, `getCoursesByStatus`, `getStudentEnrollments`, `getProgressForCourse` and the like) are left out. Paging is not modelled.
- Strings are sequences of characters.
  - `toLowerCase` folds ASCII letters only.
  - SQL `LOWER` folds ASCII letters only too. `LIKE` is modelled without an escape character; a database whose `LIKE` treats `\` as an escape by default is not modelled.
  - `sort()` compares characters, not UTF-16 code units.
  - Java's `trim` and JavaScript's `trim` are modelled by their character classes.
- Floating point is exact here. Java doubles and JavaScript numbers are `real`, and `Math.round` is round half up on exact values.
- Browser storage holds the value itself. The JSON round trip is taken to be the identity.
  - Wishlist.WishlistState.constructor: a stored value that is not valid JSON makes the page throw. That case is not modelled.
- The course page keeps `reviews` as it is when loading, because the loaded reviews are never stored. The report button (`handleReport`) is left out.
- The discussion panel's `sortBy` state is left out. It is only sent to the server with the list request (lms-frontend/src/components/course/Discussion.jsx:14, :23). The admin users page is left out too.
- The form field `instructorId` is parsed with `parseInt` before the create request. The form keeps it as text, and the parsing is not modelled.
- LearningPath: the course list and the enrollment list are inputs. `coursesAPI` (lms-frontend/src/services/api.js:48-77) has neither `getLearningPath` nor `getMyEnrollments`; the latter exists only on `enrollmentsAPI` (:80). As shipped, the call inside the `try` (lms-frontend/src/components/course/LearningPath.jsx:19-22) throws, `pathData` stays null and the component renders nothing (:42). The model covers the path as if those methods existed.
- Auth.AuthSession.InterceptFailure: the interceptor's redirect to `/login` is a full page load; it is not modelled (navigation is left out), and after it the page starts again from `Auth.AuthSession.constructor` with the cleared storage. The interceptor runs on every request of the application; only the authentication requests model it, and the other pages' models do not show their own 401 answers clearing storage.
- Discussion: `api.js` defines none of the methods the panel calls (`getCourseDiscussions`, `createDiscussion`, `replyToDiscussion`, `likeDiscussion`). As shipped, each call throws inside its `try`, so every handler takes its failure branch and the list stays empty. The model takes the server's answer as a parameter and also covers the success branches, as if those methods existed.
- MyProgress reads each enrollment as the page expects: progress records plus a lesson count. That shape is not checked against the server's response.
- LessonService.NextOrderIndex: order indices are unbounded integers. Java's `maxOrder + 1` on an `Integer` (lms-backend/src/main/java/com/lms/service/LessonService.java:39-42) wraps from 2147483647 to -2147483648. So "the chosen index is free" holds in the source only while the course's largest index is below 2147483647. The wrap is not modelled because the model keeps distinct indices per course as a store invariant, and a wrapped index could break it.
- LessonService.CreateLesson: its branch for a missing index is not reachable through HTTP. `LessonRequest.orderIndex` is `@NotNull`, and the controller validates the request with `@Valid` (lms-backend/src/main/java/com/lms/controller/CourseController.java:147). The model keeps the branch, as the service itself does, and inherits the unbounded index above.
- LessonService.DeleteLesson: the deleted lesson's progress rows stay in the model. `Progress.lesson_id` is a non-null foreign key (lms-backend/src/main/java/com/lms/entity/Progress.java:21-23), and `Lesson.java`, whose cascade setting would decide what happens to them, is not part of this model. The difference cannot arise through the services. Enrolling requires a PUBLISHED course (lms-backend/src/main/java/com/lms/service/EnrollmentService.java:40-42), and every progress row belongs to an enrollment in its lesson's course. No service moves a course out of PUBLISHED (lms-backend/src/main/java/com/lms/service/CourseService.java:42, :61, :149, :161, :173), and deleting a lesson of a PUBLISHED course is refused (lms-backend/src/main/java/com/lms/service/LessonService.java:116-118).
- Concurrency is left out. Each handler's effect after its request returns is one sequential step.

## Findings

| source | as written | input that shows it | evidently intended | confidence | as-written member | corrected member |
|---|---|---|---|---|---|---|
| lms-backend/src/main/java/com/lms/service/LessonService.java:135-148 | `reorderLessons` only checks that the list has as many ids as the course has lessons | a course that is not PUBLISHED (the guard at lms-backend/src/main/java/com/lms/service/LessonService.java:130-132), with lessons 1 (index 1) and 2 (index 2), reordered with `[1, 1]`: lesson 1 ends with index 2, the same as lesson 2. The services create every course PUBLISHED and never move it out (lms-backend/src/main/java/com/lms/service/CourseService.java:42, :61), so only a DRAFT or REJECTED course already in the database shows it | every lesson of the course named exactly once, so the lessons are numbered 1..n with distinct indices | not executed | LessonService.ReorderAsWrittenDuplicatesIndex | LessonService.ReorderLessons |

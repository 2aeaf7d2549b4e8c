# EduPulse course marketplace — a Dafny model

EduPulse is an online-course marketplace. Instructors author courses made of ordered modules. Students browse, enroll and mark modules complete. Administrators manage users and course publication. This project models its core in Dafny and proves properties of the model:

- the server's enrollment and progress engine: enroll, list my enrollments, update module progress, and the stored completion percentage;
- the course and user routes: the published listing, create/update/delete authorization, the delete cascades, dashboard statistics, user listing and deletion;
- the client's pure logic: duration formatting, the YouTube embed-URL extractor, the module editor and thumbnail checks, the course viewer's lookup and navigation, the course page's enroll/unenroll handling, the browse and admin filters, route guarding and the toast queue.

The store is three immutable maps: users, courses and enrollments, keyed by opaque ids. Each server route is a pure function from a store and a request to either a failure (an HTTP status and a message, with the store unchanged) or a new store and the answered document. Fresh document ids and the current time are parameters. A query that sorts by a timestamp is a method that returns the matching ids, each once, newest first. Client pages are pure functions over the data a page holds.

Modules: `Common` (ids, roles, results), `Seqs` (filter, sums, de-duplication, sorting, ASCII lower-casing, substring search), `EnrollmentModel`, `Store`, `Enrollments`, `Courses`, `Users`, `Duration`, `Routing`, `YouTube`, `ModuleEditor`, `Listing` (the populated my-enrollments reply and the pages' search of it), `Viewer`, `CourseDetails`, `Browse`, `Admin`, `Toasts`.

The code deletes an instructor's courses without deleting the enrollments in them. So, unlike course deletion, deleting an instructor does not take the enrollments with their courses. The model follows the code here, and `Users.DeleteInstructorOrphansEnrollments` states the result. Such an orphaned enrollment populates with a null course. The course viewer and the course page both search the student's enrollments with a callback that reads the populated course's id. So when an orphaned enrollment comes before the student's enrollment in the course, the search throws. The error is caught, and the page treats the student as not enrolled: the viewer shows "Course not found", and the course page keeps its enrolled flag as it was (false on a fresh page). `Listing.SearchCourse` models the search with its throwing outcome. `Viewer.OrphanHidesCourse` and `CourseDetails.OrphanHidesEnrollment` state what the pages then show.

## Model

| member | source | states |
|---|---|---|
| EnrollmentModel.NewProgress | server/models/Enrollment.js:3-15 | a progress entry needs only its module id; `completed` defaults to false and `completedAt` is absent |
| EnrollmentModel.NewEnrollment | server/models/Enrollment.js:17-40 | an enrollment carries its required student and course; percentage defaults to 0, `enrolledAt` to the creation time, `completedAt` is absent |
| Store.ListNewestFirst | server/routes/courses.js:11-13 | a filtered query sorted by a descending timestamp returns exactly the matching ids, each once, with stamps non-increasing |
| Enrollments.Enroll | server/routes/enrollments.js:9-50 | 403 for a non-student before the course lookup, then 404 for a missing course, then 400 for an existing pair; success iff none applies; on success one incomplete entry per module in module order, the caller appended once to `enrolledStudents`, nothing else changed |
| Enrollments.EnrollKeepsWellFormed | server/routes/enrollments.js:20-38 | the duplicate pre-check alone keeps at most one enrollment per (student, course), and a fresh 0 % agrees with its list |
| Enrollments.EnrollTwiceRefused | server/routes/enrollments.js:20-27 | a second enroll of the same pair is refused with 400, so `enrolledStudents` grows by exactly one |
| Enrollments.MyEnrollments | server/routes/enrollments.js:53-67 | 403 for non-students; otherwise exactly the caller's enrollments, each once, most recently enrolled first |
| Enrollments.FindModule | server/routes/enrollments.js:82-84 | the first progress entry for the module, or none exactly when no entry has that id |
| Enrollments.SetEntry | server/routes/enrollments.js:90-93 | only the chosen entry changes; its flag takes the request's value, and its stamp is set on completion and kept on un-completion |
| Enrollments.UpdateProgress | server/routes/enrollments.js:70-106 | 404 missing enrollment, then 403 not the caller's, then 404 no entry for the module; success iff none applies; on success only that entry and the percentage change, and the percentage is the rounded share of completed entries over a non-empty list |
| Enrollments.UpdateProgressKeepsWellFormed | server/routes/enrollments.js:95-99 | after an update the stored percentage still agrees with the progress list and pairs stay unique |
| Enrollments.UpdateProgressIdempotent | server/routes/enrollments.js:90-99 | repeating an update gives the same flags and percentage; un-completing twice changes nothing at all |
| Enrollments.RoundPercent | server/routes/enrollments.js:97-99 | the result is within half a point of 100 × done / total, with halves rounded up |
| Enrollments.PercentBounds | server/routes/enrollments.js:96-99 | the percentage lies in 0..100, is 100 when all entries are complete and 0 when none are; the converses hold up to 199 and 200 entries |
| Enrollments.RoundingReachesBoundsEarly | server/routes/enrollments.js:97-99 | 200 of 201 complete already rounds to 100, and 1 of 201 rounds to 0 |
| Enrollments.ConsistentPercentInRange | server/models/Enrollment.js:36-39 | a stored percentage that agrees with its list is a valid percentage |
| Enrollments.SeedProgress | server/routes/enrollments.js:29-32 | one entry per course module, same order, ids copied, all incomplete |
| Enrollments.FindModuleStable | server/routes/enrollments.js:82-84 | changing an entry's flags does not move the first-entry lookup for its module |
| Enrollments.FilterMapsFlags | server/routes/enrollments.js:96 | the completed count depends only on the flags |
| Courses.ListPublished | server/routes/courses.js:9-18 | exactly the published courses, each once, newest first |
| Courses.GetCourse | server/routes/courses.js:21-34 | the stored course, or 404 exactly when the id is unknown |
| Courses.CreateCourse | server/routes/courses.js:37-55 | 403 unless instructor or admin; the stored course is the body with the caller as instructor, whatever the body says |
| Courses.UpdateCourse | server/routes/courses.js:58-80 | 404 before 403; success iff owner or admin; the body's fields replace the course's, and users and enrollments, progress lists included, are untouched |
| Courses.ApplyPatchFields | server/routes/courses.js:70-74 | each of the nine body fields (title, description, category, level, thumbnail, instructor, modules, enrolledStudents, isPublished) takes the body's value when given and keeps its own otherwise; the creation time is kept; an empty body changes nothing |
| Courses.DeleteCourse | server/routes/courses.js:83-102 | 404 before 403; success iff owner or admin; the course and exactly the enrollments in it are removed, nothing else |
| Courses.CourseRoutesKeepWellFormed | server/routes/courses.js:37-102 | create, update and delete keep pairs unique and percentages consistent |
| Courses.CourseRoutesKeepNoOrphans | server/routes/courses.js:37-102 | create, update and delete never leave an enrollment whose course is gone |
| Courses.DeletedCourseLeavesNoEnrollment | server/routes/courses.js:95-96 | after a course is deleted no student has an enrollment in it |
| Courses.MyCourses | server/routes/courses.js:105-119 | 403 unless instructor or admin; exactly the caller's own courses, newest first |
| Courses.AllCourses | server/routes/courses.js:122-136 | admin only; every course, published or not, newest first |
| Users.StudentDashboard | server/routes/users.js:14-32 | the student's enrollments each once; completed counts those at exactly 100 %; completed plus in-progress is the total |
| Users.InstructorDashboard | server/routes/users.js:33-43 | the instructor's courses each once; published never exceeds the total; the student total sums the `enrolledStudents` lengths |
| Users.DashboardStats | server/routes/users.js:10-62 | per-role statistics; an admin gets the store-wide counts of users, courses, enrollments, students and instructors |
| Users.TotalEnrolledOrderFree | server/routes/users.js:36 | the instructor's student total does not depend on the order of the courses |
| Users.ListUsers | server/routes/users.js:65-76 | admin only (403); every user once, newest first |
| Users.DeleteUser | server/routes/users.js:79-109 | 403 non-admin, then 404 missing, then 400 for an admin target; on success the user goes, an instructor's courses go, a student's enrollments go, and nothing else changes |
| Users.DeleteInstructorOrphansEnrollments | server/routes/users.js:95-97 | an enrollment in a deleted instructor's course survives while its course is gone, so the store then holds an orphaned enrollment |
| Users.DeleteStudentKeepsEnrolledStudents | server/routes/users.js:100-102 | a deleted student's id stays in every course's `enrolledStudents` |
| Users.DeleteUserKeepsWellFormed | server/routes/users.js:94-104 | user deletion keeps pairs unique and percentages consistent |
| Duration.TotalMinutesIsSum | client/src/lib/duration.ts:21-23 | the total is the sum of the module durations, 0 for no modules |
| Duration.TotalMinutesAppend | client/src/lib/duration.ts:21-23 | the total of a concatenation is the sum of the totals |
| Duration.TotalMinutesOrderFree | client/src/lib/duration.ts:21-23 | reordering the modules does not change the total |
| Duration.HoursMinutesSplit | client/src/lib/duration.ts:27-28 | hours × 60 + minutes is the total, minutes are under 60, and hours are positive iff the total is at least 60 |
| Duration.Format | client/src/lib/duration.ts:26-37 | "Hh Mm" when both parts are positive, "Hh" on whole hours, "Mm" under an hour, "0m" for zero |
| Duration.NumeralRoundTrip | client/src/lib/duration.ts:30-35 | the decimal rendering of a number reads back as that number |
| Duration.FormatRoundTrip | client/src/lib/duration.ts:26-37 | reading a formatted duration back gives the total it came from |
| Duration.FormatInjective | client/src/lib/duration.ts:26-37 | distinct totals format to distinct strings |
| Duration.CalculateIsFormatOfTotal | client/src/lib/duration.ts:6-18 | the course duration is the formatted module total, and reads back as that total |
| Routing.GuardOutcomes | src/App.tsx:18-37 | spinner iff loading; /login iff no user; /dashboard iff the role is not listed; the children otherwise |
| Routing.GuardedPagesAdmit | src/App.tsx:62-90 | the viewer admits only students, course creation and editing only instructors and admins, browse and details any signed-in user; signed-out users go to /login |
| Routing.PublicPagesAndDashboard | src/App.tsx:50-60 | /, /login and /register send a signed-in user to /dashboard, which shows exactly the dashboard of the user's role |
| YouTube.IdFrom | client/src/pages/CreateCourse.tsx:17 | a result is exactly eleven id characters taken from the URL |
| YouTube.FindEmbed | client/src/pages/CreateCourse.tsx:15-20 | a result exists iff some marker is followed by an id; it is the embed prefix plus the id after the leftmost such marker |
| YouTube.EmbedUrl | client/src/pages/CourseViewer.tsx:31-36 | null unless a marker is followed by eleven id characters; otherwise the embed prefix followed by the id after the leftmost marker that has one |
| YouTube.NoMarkerBefore | client/src/pages/CreateCourse.tsx:17 | no marker starts in a prefix without a 'y', so the optional scheme and "www." never hold one |
| YouTube.FindFirst | client/src/pages/CreateCourse.tsx:16-19 | the search returns the id at the first position that has one |
| YouTube.WatchUrl | client/src/pages/CreateCourse.tsx:15-20 | a canonical watch URL embeds its own id |
| YouTube.ShortUrl | client/src/pages/CourseViewer.tsx:31-36 | a youtu.be URL embeds its own id |
| ModuleEditor.BlankModule | client/src/pages/CreateCourse.tsx:109-118 | a new module has no id, empty title, description, content and video URL, duration 0, and the given order |
| ModuleEditor.InitialModules | client/src/pages/CreateCourse.tsx:34-41 | a new course starts with exactly one blank module at order 0 |
| ModuleEditor.Renumber | client/src/pages/CreateCourse.tsx:124-127 | every order becomes its position; nothing else changes |
| ModuleEditor.RenumberFixpoint | client/src/pages/EditCourse.tsx:182-188 | renumbering leaves a list alone iff it is already numbered, so it is idempotent |
| ModuleEditor.AddModule | client/src/pages/EditCourse.tsx:148-157 | exactly one blank module appended, with order the old length; the others unchanged; a numbered list stays numbered |
| ModuleEditor.RemoveModule | client/src/pages/CreateCourse.tsx:120-130 | no-op on a one-module list; otherwise exactly that position goes and the rest are renumbered in their old order, so the list is never empty |
| ModuleEditor.RemoveAfterAdd | client/src/pages/EditCourse.tsx:148-169 | removing the module just added gives back the numbered list |
| ModuleEditor.SetFieldOnly | client/src/pages/CreateCourse.tsx:102-107 | an edit sets its own field and keeps every other one, and repeating it changes nothing |
| ModuleEditor.ChangeModule | client/src/pages/EditCourse.tsx:141-146 | only the chosen position changes, by the edit; length and numbering are kept |
| ModuleEditor.SubmittedModules | client/src/pages/CreateCourse.tsx:143-150 | the sent modules are the edited ones with orders equal to their positions |
| ModuleEditor.LoadedModules | client/src/pages/EditCourse.tsx:63 | the loaded modules are the saved ones sorted by ascending order |
| ModuleEditor.LoadThenSubmit | client/src/pages/EditCourse.tsx:182-189 | loading and submitting unchanged sends every saved module, sorted, renumbered from 0 |
| ModuleEditor.PickThumbnail | client/src/pages/CreateCourse.tsx:43-67 | accepted iff the type starts with "image/" and the size is at most 5 MB; the type is checked first; a refusal leaves the state unchanged |
| ModuleEditor.RemoveThumbnail | client/src/pages/EditCourse.tsx:108-112 | removal clears the file, the preview and the stored path |
| ModuleEditor.SubmittedThumbnail | client/src/pages/EditCourse.tsx:114-115 | a new file sends the uploaded path; otherwise editing keeps the stored path and creation sends "" |
| ModuleEditor.RemovedThumbnailIsNotSent | client/src/pages/EditCourse.tsx:86-115 | after removal both pages send an empty path, and a refused pick does not change what is sent |
| Listing.Populate | server/routes/enrollments.js:59-61 | each listed enrollment with its populated course id, null exactly when the course is no longer stored |
| Listing.SearchCourse | client/src/pages/CourseViewer.tsx:56-58 | the search stops at the first listed enrollment that is not in another course: a match there, a TypeError there when its course is null, or no match when every enrollment is in another course |
| Listing.SearchWithoutOrphans | server/routes/enrollments.js:59-61 | over a store without orphaned enrollments the search never throws and matches iff a listed enrollment is in the course |
| Listing.OrphanBeforeMatchThrows | client/src/pages/CourseDetails.tsx:58 | a null course met before any match makes the search throw at that position |
| Viewer.FindEnrollment | client/src/pages/CourseViewer.tsx:56-60 | the first listed enrollment in the course, when the search reaches it; null when no enrollment is in the course or the search throws first |
| Viewer.FindEnrollmentWithoutOrphans | client/src/pages/CourseViewer.tsx:56-59 | without orphaned enrollments, an enrollment is found iff the student has one in the course |
| Viewer.IsModuleCompleted | client/src/pages/CourseViewer.tsx:84-88 | false without an enrollment or an entry; otherwise the first entry's flag |
| Viewer.CompletionReflectsUpdate | client/src/pages/CourseViewer.tsx:70-88 | after the server accepts an update, the page shows that module as requested and every other module as before |
| Viewer.ToggleRequest | client/src/pages/CourseViewer.tsx:188-191 | with an enrollment, the request asks for the negation of what is shown |
| Viewer.ToggleFlips | client/src/pages/CourseViewer.tsx:70-82 | an accepted toggle flips what the page shows for that module |
| Viewer.Next | client/src/pages/CourseViewer.tsx:90-94 | moves forward iff a later module exists |
| Viewer.Previous | client/src/pages/CourseViewer.tsx:96-100 | moves back iff an earlier module exists |
| Viewer.NavigationStaysInRange | client/src/pages/CourseViewer.tsx:90-100 | from a valid index both moves stay in range, and a step forward is undone by a step back |
| Viewer.SortedModules | client/src/pages/CourseViewer.tsx:119 | the modules in ascending order, a permutation of the course's |
| Viewer.Show | client/src/pages/CourseViewer.tsx:110-120 | not-found exactly without a course or an enrollment; otherwise the sorted module at the current index, and a rendering error exactly when there is no module there |
| Viewer.OrphanHidesCourse | client/src/pages/CourseViewer.tsx:56-63 | an orphaned enrollment ahead of any enrollment in the course leaves no enrollment and the not-found view |
| CourseDetails.EnrolledOnLoad | client/src/pages/CourseDetails.tsx:54-62 | non-students keep the previous flag; for a student, true when the search reaches an enrollment in the course, false when every enrollment is in another course, and the previous flag when the search throws |
| CourseDetails.EnrolledOnLoadMatchesStore | client/src/pages/CourseDetails.tsx:55-58 | with the server's listing from a store without orphaned enrollments, the flag is exactly whether the store holds such an enrollment |
| CourseDetails.EnrolledOnLoadIsSound | client/src/pages/CourseDetails.tsx:55-58 | from any store, a fresh page that shows enrolled is right: the student has an enrollment in the course |
| CourseDetails.OrphanHidesEnrollment | client/src/pages/CourseDetails.tsx:56-61 | an orphaned enrollment ahead of any enrollment in the course leaves the flag as it was |
| CourseDetails.EnrollClick | client/src/pages/CourseDetails.tsx:70-79 | /login without a user, an error for non-students, a request only for students |
| CourseDetails.AfterEnroll | client/src/pages/CourseDetails.tsx:83-85 | success sets the enrolled flag; failure leaves the page as it was |
| CourseDetails.EnrollAgreesWithServer | client/src/pages/CourseDetails.tsx:83-85 | when the server accepts the enroll, the store has the enrollment and the page shows enrolled |
| CourseDetails.UnenrollClick | client/src/pages/CourseDetails.tsx:103-110 | a request is sent iff there is a user, a course and a confirmation |
| CourseDetails.AfterUnenroll | client/src/pages/CourseDetails.tsx:114-126 | on success, not enrolled, every occurrence of the user's id gone, the other ids kept in order; on failure, unchanged |
| Browse.Shown | client/src/pages/BrowseCourses.tsx:56-76 | a card is shown iff it passes every non-empty filter |
| Browse.ShownIsOneFilter | client/src/pages/BrowseCourses.tsx:57-75 | the three successive filters equal one conjunctive filter: an order-preserving subsequence with each passing card kept as often as listed |
| Browse.EmptySearchMatchesAll | client/src/pages/BrowseCourses.tsx:59-65 | an empty term matches every card, so skipping the empty search changes nothing |
| Browse.Cleared | client/src/pages/BrowseCourses.tsx:133-137 | cleared filters admit every card |
| Browse.ClearedShowsAll | client/src/pages/BrowseCourses.tsx:133-137 | after clearing, the full catalogue is shown in order |
| Browse.Categories | client/src/pages/BrowseCourses.tsx:78 | each category of the catalogue once, in order of first appearance |
| Browse.OfferedCategoryIsNonEmpty | client/src/pages/BrowseCourses.tsx:78 | choosing an offered category alone shows at least one course |
| Admin.FilteredUsers | src/pages/AdminDashboard.tsx:126-131 | a row is shown iff the term occurs in name or email, ignoring case, and the role choice is "all" or the row's role |
| Admin.RoleTablesPartitionAll | src/pages/AdminDashboard.tsx:129 | the three single-role tables split the "all" table exactly |
| Admin.UnfilteredShowsAll | src/pages/AdminDashboard.tsx:127-129 | an empty term with "all" shows the whole table |
| Admin.FilteredCourses | src/pages/AdminDashboard.tsx:133-136 | a course is shown iff the term occurs in its title or instructor name; the role choice does not apply |
| Admin.UsersAfterDelete | src/pages/AdminDashboard.tsx:78-93 | after a deletion exactly the rows with that id go, the rest in order; cancelled or failed leaves the table |
| Admin.CoursesAfterDelete | src/pages/AdminDashboard.tsx:95-110 | the same for the course table |
| Admin.UserTableFollowsServer | src/pages/AdminDashboard.tsx:84-85 | a table listing the store's users still does so after a deletion the server accepted |
| Admin.CourseTableFollowsServer | src/pages/AdminDashboard.tsx:101-102 | a table listing the store's courses still does so after a deletion the server accepted |
| Admin.PublishPatch | src/pages/AdminDashboard.tsx:114 | the toggle sends only the publication flag |
| Admin.TogglePublish | src/pages/AdminDashboard.tsx:115-119 | only the target's rows get the negated flag; all other rows are unchanged |
| Admin.ToggleTwice | src/pages/AdminDashboard.tsx:112-124 | toggling back undoes a toggle |
| Admin.ToggleMatchesServer | src/pages/AdminDashboard.tsx:112-119 | the server flips the stored flag and nothing else, and the table shows the stored flag |
| Admin.DeleteControlMatchesServer | src/pages/AdminDashboard.tsx:432 | the delete control is shown exactly for users the server would delete; it refuses the others with 400 |
| Toasts.AddToast | client/src/contexts/ToastContext.tsx:38-50 | one toast appended, the rest unchanged; duration defaults to 5000; a removal is scheduled iff the duration is positive |
| Toasts.RemoveToast | client/src/contexts/ToastContext.tsx:52-54 | exactly the toasts with that id go, the rest keep their order |
| Toasts.Expire | client/src/contexts/ToastContext.tsx:45-49 | a fired timer removes its toast |
| Toasts.AddThenRemove | client/src/contexts/ToastContext.tsx:38-54 | with a fresh id, the scheduled removal gives back the queue from before the add |
| Toasts.RemoveIdempotent | client/src/contexts/ToastContext.tsx:52-54 | removing twice is removing once, and an unknown id is a no-op |
| Toasts.RemoveCommutes | client/src/contexts/ToastContext.tsx:52-54 | removals commute, so the order in which timers fire does not matter |
| Toasts.Notify | client/src/contexts/ToastContext.tsx:56-70 | each shorthand appends one toast of its own kind with the given id, title and message, the given duration or 5000, and a removal scheduled iff that duration is positive |

## Left out

- I/O and persistence: database calls (`populate` only as far as `Listing.Populate` gives each listed enrollment its course id or null), the 500 replies on exceptions, HTTP transport and JSON encoding. Routes are pure functions over maps.
- Authentication, tokens and passwords: the caller's id and role are an input.
- Fresh ids, `Date.now` and `Math.random`: document ids, toast ids and times are parameters; the routes require a fresh id to be unused.
- The course and user schemas (`Course.js`, `User.js`) are not part of this model; the course defaults `BlankCourse` assumes are listed there.
- Floating point: `Math.round(done / total * 100)` is exact integer rounding, half up. JavaScript doubles are assumed exact.
- Enrollments.PercentBounds: the "100 only when all are done" and "0 only when none are" directions are stated only for up to 199 and 200 modules, because rounding reaches the bounds one module early beyond that (`Enrollments.RoundingReachesBoundsEarly`).
- Unicode case folding: lower-casing is ASCII only.
- Timers: `setTimeout` is a returned `Timer` value; its firing is `Toasts.Expire`.
- FileReader previews and the multipart thumbnail upload: the uploaded path is a parameter.
- Concurrency: read-modify-write races between progress updates.
- There is no server route for unenrolling; the client's request and its success branch are modelled, not a server operation.
- Seqs.SortBy: proved sorted and a permutation; stability (the order of equal keys) is not proved.
- Users.StudentDashboard and Users.InstructorDashboard: the source does not sort these listings; the model lists them newest first but its contract states no order.
- Module durations are whole minutes (`nat`); negative or fractional durations are not modelled.
- Admin.FilteredUsers: the role selector is a datatype of its four options, not a free string.
- CourseDetails.EnrolledOnLoad: the course fetch that comes before the listing is taken to succeed; when it fails, the listing is not read and the flag keeps its value, as when the search throws.
- Rendering, styling, loading spinners inside pages, the admin ratio metrics, progress-bar widths and dashboards that only display data.

# Learning platform: course progression, in Dafny

This project models the decision logic of a role-based learning platform
(admin, mentor, student). At its centre is the course progression engine.
A student completes a course's chapters one at a time and in sequence
order. Each completion is appended to the student's progress record for
that course. A certificate may be produced only once the record is as long
as the course's chapter list.

Around the engine the model covers:

- the percentage shown on dashboards and in the course viewer;
- the viewer's lock and completion tests;
- course authoring and enrollment (create, assign, edit, read chapters);
- the account rules: login order, registration defaults, profile and
  password updates, and the admin's approve, toggle, create and delete;
- the admin's user list filter and status labels;
- the mentor's distinct-student count.

Modules, one per source file:

| module | file | models |
|---|---|---|
| `Collections` | collections.dfy | list helpers: `findIndex`, duplicate-freedom, distinct counts |
| `Records` | records.dfy | the stored records; lookups by email and id; the catalog's sort order |
| `Progression` | progression.dfy | `backend/controllers/progressController.js` |
| `Completion` | completion.dfy | the percentage rule and `backend/controllers/certificateController.js` |
| `Courses` | courses.dfy | `backend/controllers/courseController.js` |
| `Viewer` | viewer.dfy | `frontend/src/pages/CourseViewer.jsx` |
| `Auth` | auth.dfy | the pure rules of `backend/controllers/authController.js` |
| `Accounts` | accounts.dfy | the user collection changed by `authController.js` and `userController.js` |
| `UserManagement` | user_management.dfy | `frontend/src/components/admin/UserManagement.jsx` |
| `MentorStats` | mentor_stats.dfy | `frontend/src/components/mentor/MentorDashboardComponents.jsx` |

How state is modelled:

- The database is a set of values. Courses and chapters are maps from id to
  record. Users are a list, because the code searches them by email.
  Progress records are a map keyed by (student, course).
- Controllers that change records in place become classes:
  - `Progression.ProgressStore` holds the progress records;
  - `Courses.CourseStore` holds the courses and chapters;
  - `Accounts.UserStore` holds the users.
- Every mutating method states when it succeeds and what each error leaves
  unchanged. It gives its new state in terms of the old one: through a pure
  function where the rule has laws of its own (`Decide` and `Apply`,
  `Enroll`, `PatchChapter`, `NewAccount`, `UpdatedProfile`, `ToggledActive`,
  `ApprovalDefault`), and as a direct record update where the source sets a
  single field or removes a single entry.
- `CourseStore` keeps every course's student list free of duplicates, and
  `UserStore` keeps user ids distinct.
- The chapter list sorted by `sequenceOrder` is an input. `IsCatalogOrder`
  says it lists every chapter of the course exactly once, by ascending
  order. Equal orders are left in whatever order the database returns.

Behaviour of the code that the model keeps as written, although a reader
might expect otherwise:

- The percentage and the certificate gate count the raw length of the
  completed list. Chapters deleted from the catalog after completion still
  count.
- An existing progress record skips the enrollment check, so a student whose
  enrollment was revoked keeps completing chapters. See
  `EnrollmentOnlyGatesFirstRecord`.
- Equal `sequenceOrder` values have no tie-break. The chapter order is
  whatever the database returns.
- Completing a chapter is a read followed by a save, not an atomic
  compare-and-append.
- `approveMentor` does not check that the user is a mentor.
- `updateChapter` does not check that the chapter belongs to the course in
  the request.
- `toggleUserStatus`, `createUser` and `updatePassword` are modelled as the
  handlers are written. The user routes (backend/routes/userRoutes.js:3-16)
  mount only `getUsers`, `deleteUser`, `approveMentor` and `getAnalytics`,
  so those three are not reachable through them.

## Model

| member | source | states |
|---|---|---|
| `Collections.IndexOf` | backend/controllers/progressController.js:47 | `findIndex`: -1 exactly when the chapter is absent, otherwise the first position holding it |
| `Records.Fallback` | backend/controllers/courseController.js:62-63 | `given \|\| current` on strings: a truthy given value wins, an empty one keeps the stored value |
| `Records.FindByEmail` | backend/controllers/authController.js:15 | `findOne({ email })`: None exactly when no stored user has that email, otherwise a stored user with that email |
| `Records.PositionOfId` | backend/controllers/userController.js:17 | `findById`: -1 exactly when no user has the id, otherwise the first position with that id |
| `Records.CatalogOrderLength` | backend/controllers/progressController.js:42 | the sorted chapter list has exactly as many entries as the course has chapters |
| `Records.ChapterCount` | backend/controllers/courseController.js:205 | `countDocuments({ course })`: the number of stored chapters whose course is the given one |
| `Progression.CourseProgress` | backend/controllers/progressController.js:74-81 | `getCourseProgress`: the record's completed list, or the empty list (not an error) when no record exists |
| `Progression.Decide` | backend/controllers/progressController.js:8-61 | the checks in source order: unknown chapter gives NotFound. With no record, a missing course fails and a non-enrolled student gets NotEnrolled. An already completed chapter is a no-op. A chapter whose predecessor in sorted order is incomplete gets OutOfSequence. A completion is the old list plus the chapter, on a fresh record when none existed |
| `Progression.Apply` | backend/controllers/progressController.js:57-58 | only a completion is saved: it replaces that one record and leaves every other record as it was |
| `Progression.StepTargetsOwnRecord` | backend/controllers/progressController.js:16-32 | a lazily created or found record belongs to (student, chapter's course); the ledger stays keyed consistently; other records are untouched |
| `Progression.StepOnlyAppends` | backend/controllers/progressController.js:57-58 | every completed list only grows: the old list is a prefix of the new one, one entry longer after a completion, unchanged otherwise |
| `Progression.CompleteIsIdempotent` | backend/controllers/progressController.js:36-38 | completing the same chapter again answers AlreadyCompleted and leaves the ledger unchanged |
| `Progression.FirstChapterIsFree` | backend/controllers/progressController.js:50 | the first chapter in sequence order is completed without any predecessor requirement |
| `Progression.EnrollmentOnlyGatesFirstRecord` | backend/controllers/progressController.js:21-26 | once a record exists, the decision does not depend on the enrollment lists at all |
| `Progression.CompletePreservesInvariant` | backend/controllers/progressController.js:50-58 | a completion keeps the list duplicate-free, inside the catalog, and closed under predecessors |
| `Progression.CompletedIsCatalogPrefix` | backend/controllers/progressController.js:50-55 | a list that keeps that invariant holds exactly the first \|list\| chapters of the sorted catalog |
| `Progression.StrictOrderExample` | backend/controllers/progressController.js:8-61 | chapters 1,2,3: starting with 2 fails; 1 then 2 then 3 succeeds; skipping from 1 to 3 fails; a non-enrolled student is refused |
| `Progression.ProgressStore.CompleteChapter` | backend/controllers/progressController.js:8-61 | the imperative handler answers `Decide` and leaves the store as `Apply` says |
| `Completion.Percent` | backend/controllers/courseController.js:209 | 0 for an empty course; otherwise the integer nearest to 100·completed/total, a half rounding up |
| `Completion.PercentInRange` | backend/controllers/courseController.js:209 | with completed ≤ total the percentage is at most 100, and exactly 100 when all are completed |
| `Completion.PercentMonotone` | backend/controllers/courseController.js:242 | more completed chapters never give a smaller percentage |
| `Completion.PercentExamples` | backend/controllers/courseController.js:209 | 3 of 4 is 75, an empty course is 0, 1 of 8 rounds 12.5 up to 13, 199 of 200 is 100 |
| `Completion.HundredIsNotCompletion` | backend/controllers/certificateController.js:19 | 199 of 200 shows 100 percent yet fails the completion gate |
| `Completion.FindProgress` | backend/controllers/certificateController.js:16 | the student's record for the course exactly when one is stored |
| `Completion.GateUsesCountsOnly` | backend/controllers/certificateController.js:19 | the gate depends only on the list length and chapter count. A zero-chapter course and a missing record are never eligible |
| `Completion.IsComplete` | backend/controllers/certificateController.js:19 | the gate: a record exists, its list is as long as the chapter count, and that count is positive; passing it needs a record and a non-empty course |
| `Completion.GenerateCertificate` | backend/controllers/certificateController.js:13-23 | a missing course is 404 before any progress check. A certificate goes ahead exactly when the record exists, its length equals the chapter count and that count is positive. Otherwise it is 400 with nothing produced |
| `Completion.CompleteShowsHundred` | backend/controllers/certificateController.js:19 | a course that passes the gate shows 100 percent |
| `Completion.GateImpliesAllChaptersDone` | backend/controllers/certificateController.js:17-19 | for a record that keeps the progression invariant against the current catalog, passing the length-only gate means every chapter of the course is completed |
| `Completion.AllChaptersDoneImpliesGate` | backend/controllers/certificateController.js:17-19 | the converse: a record that keeps the progression invariant and holds every chapter of a non-empty course passes the gate |
| `Completion.FinishingEarnsCertificate` | backend/controllers/certificateController.js:13-23 | once the stored record holds every chapter of an existing, non-empty course (and keeps the invariant), the certificate goes ahead |
| `Courses.InitialStudents` | backend/controllers/courseController.js:15-21 | a new course starts with the one user found by a non-empty email when that user is a student, otherwise with no students |
| `Courses.Enroll` | backend/controllers/courseController.js:109-112 | the student ends up enrolled, nobody else is added, existing entries keep their places, and a duplicate-free list stays duplicate-free |
| `Courses.EnrollIsIdempotent` | backend/controllers/courseController.js:109-112 | re-assigning a student is a no-op |
| `Courses.OrderFallback` | backend/controllers/courseController.js:187 | for a numeric request order, a missing order and the order 0 keep the stored order and any other order replaces it |
| `Courses.PatchChapter` | backend/controllers/courseController.js:184-187 | a truthy title, description or URL and a non-zero order replace the stored one; a falsy one (empty string, missing, order 0) keeps it. The chapter stays in its course |
| `Courses.PatchChapterLaws` | backend/controllers/courseController.js:184-187 | an edit with nothing truthy (including order 0) leaves the chapter unchanged; repeating an edit has no further effect |
| `Courses.GetChapters` | backend/controllers/courseController.js:153-168 | 404 for a missing course. 403 exactly for a mentor who does not own it or a student not enrolled in it. The answer is Ok exactly for an admin, the owning mentor or an enrolled student, and then it is the course's chapters in ascending sequence order |
| `Courses.ProgressSummary` | backend/controllers/courseController.js:206-209 | total is the chapter count and completed is the list length (0 without a record). The percentage is 0 for an empty course and otherwise `Percent(completed, total)`. It is ≤ 100 while completed ≤ total and 100 when the gate passes |
| `Courses.EnrolledIds` | backend/controllers/courseController.js:203 | `Course.find({ students: id })`: the ids of the listed courses that enroll the student, in list order: an id is listed exactly when some listed course with that id enrolls the student |
| `Courses.StudentCourses` | backend/controllers/courseController.js:202-220 | exactly one row per course that enrolls the student, in list order (the i-th row is the i-th of `EnrolledIds`), each with that course's `ProgressSummary` figures |
| `Courses.Present` | backend/controllers/courseController.js:236-254 | the enrolled students whose user still exists, in list order |
| `Courses.StudentRows` | backend/controllers/courseController.js:236-254 | exactly one row per enrolled student whose user still exists, in list order (the i-th row is for the i-th of `Present`), each a stored user with that student's `ProgressSummary` figures |
| `Courses.StudentRowsCover` | backend/controllers/courseController.js:236-254 | every row is a stored user enrolled in the course with that student's figures, and every enrolled student whose user still exists has a row |
| `Courses.EnrolledStudents` | backend/controllers/courseController.js:225-258 | 404 for a missing course, 401 unless admin or the course's mentor. Ok exactly otherwise, with the `StudentRows` of the course's enrollment list |
| `Courses.CourseStore.CreateCourse` | backend/controllers/courseController.js:12-33 | the stored course has the actor as mentor, the placeholder image when none is given, and `InitialStudents` as its students. No course lists a student twice, before or after |
| `Courses.CourseStore.AssignCourse` | backend/controllers/courseController.js:94-118 | in order: 404 missing course, 401 not its mentor, 400 email not a student's, each leaving the courses unchanged. It succeeds exactly when all three checks pass. The course's list then becomes `Enroll` of it, so no course lists a student twice, and no other course changes |
| `Courses.CourseStore.UpdateCourse` | backend/controllers/courseController.js:54-70 | 404, then 401 unless admin or owner, each changing nothing. It succeeds exactly otherwise, and title and description take truthy new values |
| `Courses.CourseStore.UpdateChapter` | backend/controllers/courseController.js:173-197 | 404 course, 401 not its mentor, 404 chapter, each without change. It succeeds exactly when all three pass, and the chapter becomes `PatchChapter` of it. The chapter need not belong to the course in the request |
| `Viewer.SidebarPercent` | frontend/src/pages/CourseViewer.jsx:141 | 0 with no chapters, otherwise `Percent(completed, chapters)`. It is ≤ 100 while completed ≤ chapters, and 100 when the viewer shows the course completed |
| `Viewer.IsChapterCompleted` | frontend/src/pages/CourseViewer.jsx:112 | a chapter is completed when its id is in the completed list |
| `Viewer.IsChapterLocked` | frontend/src/pages/CourseViewer.jsx:115-119 | index 0 is never locked; a later chapter is locked while its predecessor in the list is not completed |
| `Viewer.IsCourseCompleted` | frontend/src/pages/CourseViewer.jsx:16 | at least one chapter and a completed list as long as the chapter list; a completed course has a non-empty list |
| `Viewer.LockMatchesServer` | frontend/src/pages/CourseViewer.jsx:115-119 | for a chapter not yet completed, the viewer's lock is the server's sequence test: unlocked exactly when `completeChapter` would record it, locked exactly when it answers OutOfSequence |
| `Viewer.NextChapterIsTheOnlyOpenOne` | frontend/src/pages/CourseViewer.jsx:115-119 | the first chapter is never locked; for a completed list built by `completeChapter` against the same catalog, a chapter not yet completed is open exactly when it is the next one after the completed prefix |
| `Viewer.ViewerCompletionMatchesGate` | frontend/src/pages/CourseViewer.jsx:16 | the viewer's completion test (at least one chapter, list as long as the chapters) agrees with the certificate gate |
| `Viewer.SidebarMatchesDashboard` | frontend/src/pages/CourseViewer.jsx:141 | the sidebar shows the same percentage as the dashboards' progress rows |
| `Viewer.YouTubeId` | frontend/src/pages/CourseViewer.jsx:123-128 | None for a missing or empty URL; any id returned is the pattern's capture and exactly 11 characters long |
| `Auth.Login` | backend/controllers/authController.js:11-39 | 401 for an unknown email or wrong password. Then 403 for an unapproved mentor, before 403 for a deactivated account. Otherwise the found user logs in, and that user is active and, if a mentor, approved |
| `Auth.LoginCheckOrder` | backend/controllers/authController.js:17-23 | an unapproved mentor hears about approval even when deactivated; an account whose `isActive` was never set logs in |
| `Auth.NewAccount` | backend/controllers/authController.js:59-71 | a missing role defaults to student; the account is unapproved exactly when its role is mentor |
| `Auth.RegistrationIssuesToken` | backend/controllers/authController.js:74-90 | the registration answer carries a token exactly when the account is not a mentor's |
| `Auth.UpdatedProfile` | backend/controllers/authController.js:107-111 | name and email take truthy new values, the password changes only when supplied, and nothing else changes |
| `Auth.RegistrationMatchesLogin` | backend/controllers/authController.js:73-90 | a freshly registered account with the right password logs in exactly when its registration answer carried a token, i.e. unless it is a mentor's |
| `Accounts.ToggledActive` | backend/controllers/userController.js:122 | the stored flag after a toggle is the negation of "counts as active"; an absent flag becomes false |
| `Accounts.ToggleTwice` | backend/controllers/userController.js:122 | toggling twice restores a stored flag; from an absent flag it ends at true |
| `Accounts.ApprovalDefault` | backend/controllers/userController.js:78 | an omitted approval defaults to true, a given one is kept |
| `Accounts.UserStore.Register` | backend/controllers/authController.js:44-98 | an email in use gives 400 and creates nothing. It succeeds exactly for an unused email. Then exactly the `NewAccount` user is appended, and the answer carries a token unless the account is a mentor's |
| `Accounts.UserStore.UpdateProfile` | backend/controllers/authController.js:103-125 | 404 without change for a missing user. It succeeds exactly for an existing one, which becomes `UpdatedProfile` of itself; nobody else changes |
| `Accounts.UserStore.DeleteUser` | backend/controllers/userController.js:16-25 | 404 without change for a missing id. It succeeds exactly for an existing one, and exactly that user is removed |
| `Accounts.UserStore.ApproveMentor` | backend/controllers/userController.js:30-40 | 404 without change for a missing id. It succeeds exactly for an existing one: only that user's `isApproved` becomes true, so approving an approved user changes nothing |
| `Accounts.UserStore.ToggleUserStatus` | backend/controllers/userController.js:118-128 | 404 without change for a missing id. It succeeds exactly for an existing one: only that user's flag becomes `ToggledActive` of it, and that flag is the answer |
| `Accounts.UserStore.CreateUser` | backend/controllers/userController.js:64-94 | an email in use gives 400 and creates nothing. It succeeds exactly for an unused email, appending the user with the given role and `ApprovalDefault` approval |
| `Accounts.UserStore.UpdatePassword` | backend/controllers/userController.js:99-113 | 404 for a missing user, 400 without a password, both without change. It succeeds exactly for an existing user with a truthy password, and only that user's password changes |
| `UserManagement.Lower` | frontend/src/components/admin/UserManagement.jsx:15 | lowercasing keeps the length, maps each ASCII capital to its small letter (code point + 32) and keeps every other character |
| `UserManagement.Includes` | frontend/src/components/admin/UserManagement.jsx:15-16 | `includes`: the needle occurs at some position; a prefix is included, and an included needle is no longer than the text |
| `UserManagement.Keeps` | frontend/src/components/admin/UserManagement.jsx:14-19 | the filter predicate: the lowercased term occurs in the lowercased name or email, and the selector is all or the user's role |
| `UserManagement.FilterUsers` | frontend/src/components/admin/UserManagement.jsx:14-19 | a user is kept iff the lowercased term occurs in the lowercased name or email and the role selector admits the role. The result is an order-preserving subsequence of the input |
| `UserManagement.FilterIsIdempotent` | frontend/src/components/admin/UserManagement.jsx:14-19 | filtering the filtered list again with the same criteria returns it unchanged |
| `UserManagement.EmptySearchKeepsAll` | frontend/src/components/admin/UserManagement.jsx:15-17 | an empty search with the "all" selector keeps every user |
| `UserManagement.StatusLabel` | frontend/src/components/admin/UserManagement.jsx:115-121 | Deactivated exactly when `isActive` is false, taking precedence. Otherwise Pending exactly for an unapproved mentor, else Active |
| `UserManagement.ApproveExactlyWhenPending` | frontend/src/components/admin/UserManagement.jsx:125-135 | the approve button appears exactly on rows labelled Pending, and those rows also offer the activate/deactivate toggle |
| `UserManagement.OffersToggle` | frontend/src/components/admin/UserManagement.jsx:125 | the activate/deactivate button is shown for every user but admins |
| `UserManagement.OffersApprove` | frontend/src/components/admin/UserManagement.jsx:135 | the approve button is shown for an unapproved mentor that is not deactivated |
| `MentorStats.AllStudents` | frontend/src/components/mentor/MentorDashboardComponents.jsx:5 | the flattened list holds exactly the students of some course, and its length is the sum of the list lengths |
| `MentorStats.MentorStats` | frontend/src/components/mentor/MentorDashboardComponents.jsx:3-6 | the course count is the number of courses. The student count is the number of distinct ids: at most the sum of the list lengths, at least any one course's distinct count, and 0 with no courses |
| `MentorStats.EachCourseCounted` | frontend/src/components/mentor/MentorDashboardComponents.jsx:5-6 | every course's distinct students, and a duplicate-free list's full length, fit within the distinct count |
| `MentorStats.SharedStudentCountedOnce` | frontend/src/components/mentor/MentorDashboardComponents.jsx:5-6 | a student enrolled in two courses is counted once |

## Left out

- PDF drawing in `generateCertificate`: only the gate and the 404 before it are modelled.
- Token signing and password hashing. `matchPassword` is a parameter of `Auth.Login`. Whether an answer carries a token is a boolean.
- Persistence: queries, `save` and `deleteOne` become reads and writes of maps and lists.
- New ObjectIds: they are parameters required to be unused.
- The User schema is not part of this model. Roles are the three the code names. `isApproved` is a boolean. `isActive` may be absent.
- Concurrency: the fan-out over courses and students is modelled sequentially.
- Two concurrent completions of one chapter could both append in the source. The model has one request at a time.
- Completion.Percent: it is exact integer round-half-up. It does not model the double-precision division before `Math.round`, which can differ from exact arithmetic right at a half.
- Viewer.YouTubeId: the regular expression is not modelled. Its capture group is a parameter, and only the null and 11-character contract is stated.
- UserManagement.Lower: lowercases ASCII letters only. JavaScript's `toLowerCase` also maps other Unicode letters.
- Progression.Decide: if the chapter's course was deleted, the source dereferences null and the request fails. The model answers CourseMissing and saves nothing.
- Courses.StudentCourses: `stored` is the course collection as a list in storage order. The model does not tie that list to the `CourseStore` map.
- Progression.CompletedIsCatalogPrefix: assumes the catalog does not change between completions. Chapters added, deleted or reordered later can break it. The source does not guard against that.
- Completion.GateImpliesAllChaptersDone: assumes the same unchanging catalog.
- Viewer.LockMatchesServer: assumes the viewer's chapter list (`getChapters`) and the server's list (re-queried by `completeChapter` on every call) are the same sequence. Both sort by `sequenceOrder` alone, and the database does not fix the order of equal keys. So with two chapters sharing an order, the viewer may show a chapter locked that the server would accept, or the reverse.
- Viewer.NextChapterIsTheOnlyOpenOne: rests on the same single-list assumption.
- Progression.CompletePreservesInvariant: rests on the same single-list assumption, across successive completions.
- Courses.OrderFallback: the request's `sequenceOrder` is modelled as a number. The chapter form sends the input's text, and the text "0" is truthy, so the source does store an order of 0 that arrives from the form.
- 500 responses from exceptions inside `User.create` and the "Invalid user data" branch are not modelled. That branch needs `create` to return nothing.
- Response texts and the `progress` payload beyond the saved record are not modelled.
- Plain queries outside the core: `getMyProgress`, `getMyCourses`, `getAllCourses`, `getUsers`, `getAnalytics`.
- `deleteCourse` and `addChapter`: authoring CRUD outside the core.
- React rendering, hooks, HTTP calls, dialogs, the confetti timer, local token storage and routing.

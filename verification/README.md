# RJMS reflection journal and quiz editors, modelled in Dafny

RJMS is a reflection-journal management system. Teachers create courses and
enrol students. Students write reflections against due dates and get
generated feedback, which the teacher decides whether to show. Sign-in uses a
Google identity token. A separate quiz client lets a user build a library of
multiple-choice questions.

This project models the request handlers of the Flask backend and the two
list editors of the quiz client:

- `models.dfy` (module `Models`): the five tables as maps from primary key
  to record. The unique constraints and foreign keys are invariants. The two
  delete cascades are functions.
- `store.dfy` (module `Store`): the database the handlers share. It is a
  class with one map field per table and the counter that hands out keys.
- `reflections.dfy`, `courses.dfy`, `students.dfy`, `auth.dfy`: one
  method per handler.
  - Each handler updates the `Db` in place.
  - Each handler states its status code as an if-and-only-if over the old
    state.
  - Each handler states its new state as one equation over the old tables.
  - The login and role guards of the decorators in
    `backend/app/utils/auth_utils.py` are preconditions.
  - The clock (`now`), the feedback generator's outcome, the verified token
    claims and parsed dates are parameters.
- `question_editor.dfy` (module `QuestionEditor`) and `home.dfy` (module
  `Home`): the React state of the question editor and of the library page.
  - Each is a class whose methods replace the state with a value computed by
    a list function.
  - Properties of those functions (idempotence, lookups after an edit, the
    "never fewer than two options" guard) are lemmas.
- `common.dfy` (module `Common`): string and sequence helpers that mirror
  the Python and JavaScript built-ins used:
  - `lower()`, `in` and `includes`;
  - `split('@')[0]`, `','.join` and `trim()`;
  - list comprehensions as an order-preserving `Filter`.

## Model

| member | source | states |
|---|---|---|
| Models.DeleteReflectionKeepsValid | backend/app/models/models.py:75 | Deleting a reflection with its submissions keeps every unique and foreign-key invariant. No submission of that reflection remains, and every other submission stays. |
| Models.DeleteReflectionNeedsCascade | backend/app/models/models.py:75 | Without the cascade, deleting a reflection that has a submission breaks the foreign-key invariant. |
| Models.DeleteCourseKeepsValid | backend/app/models/models.py:46-47 | Deleting a course with its enrollments, reflections and their submissions keeps the invariants, and no enrollment or reflection refers to the course afterwards. |
| Models.PutUser | backend/app/models/models.py:10-12 | Writing a user row whose email and Google id no other row has keeps `email` and `google_id` unique and every other invariant. |
| Models.PutEnrollment | backend/app/models/models.py:58 | Writing an enrollment for an existing student and course that no other row has keeps the (student, course) pair unique. |
| Models.PutSubmission | backend/app/models/models.py:92 | Writing a submission whose (reflection, student) pair no other row has keeps that pair unique. |
| Store.Db.Commit | backend/app/routes/students.py:114 | The commit of a session: every table and the key counter take the session's contents. |
| Reflections.ViewOf | backend/app/routes/reflections.py:77-83 | A student's view of their submission carries `ai_feedback` only when `display_feedback` is true and null otherwise. `submitted` is true exactly when `submitted_at` is set. |
| Reflections.FindSubmission | backend/app/routes/reflections.py:64-67 | The query for the student's submission finds a row for that (reflection, student) pair exactly when one exists. |
| Reflections.GetReflection | backend/app/routes/reflections.py:45-85 | 404 exactly when the reflection is missing. A student always gets a view of a row for the pair. The tables are unchanged when a row existed. Otherwise exactly one row with all defaults is added under a fresh key. A teacher gets no submission and changes nothing. |
| Reflections.FeedbackText | backend/app/routes/reflections.py:121-131 | The stored feedback is the generated text, or the fixed fallback text when generation fails. |
| Reflections.WithAnswer | backend/app/routes/reflections.py:114-131 | A submitted row gets the content, `submitted_at = now` and the feedback. Its keys, score and visibility flag stay. |
| Reflections.SubmitReflection | backend/app/routes/reflections.py:87-135 | 404 exactly when the reflection is missing. 403 exactly when it has a due date earlier than now. Otherwise the pair's existing row, or a new default row when there is none, is replaced by the submitted row. Nothing else changes, and the one-row-per-pair invariant holds. |
| Reflections.Patched | backend/app/routes/reflections.py:185-190 | An update sets score, `display_feedback` and `ai_feedback` only where the body has the key, and keeps the keys, content and time. |
| Reflections.EmptyPatchIsIdentity | backend/app/routes/reflections.py:185-190 | An update with none of the three keys leaves the submission as it was. |
| Reflections.PatchIdempotent | backend/app/routes/reflections.py:185-190 | Applying the same update twice equals applying it once. |
| Reflections.UpdateSubmission | backend/app/routes/reflections.py:172-194 | 404 exactly when the submission is missing. 403 exactly when the user does not teach its course. Both leave the tables unchanged. On 200 only that submission changes, to its patched form. |
| Reflections.ItemOf | backend/app/routes/reflections.py:222-229 | A dashboard line carries the reflection's id, name and due date, and its course's name and code. `is_overdue` holds exactly when the due date is set and before now. |
| Reflections.PrecedesTotal | backend/app/routes/reflections.py:232-235 | Either sort key order, by due date or by (course name, reflection name), relates any two lines one way or the other. |
| Reflections.PrecedesTransitive | backend/app/routes/reflections.py:232-235 | Both sort key orders are transitive. |
| Reflections.Insert | backend/app/routes/reflections.py:232-235 | Inserting a line into a sorted list gives a sorted list with that line added. |
| Reflections.SortItems | backend/app/routes/reflections.py:232-235 | The sort returns a sorted permutation of the lines. |
| Reflections.ListedPermutation | backend/app/routes/reflections.py:232-235 | Reordering the lines lists the same reflections, each as often, and introduces no new line. |
| Reflections.FoundSubmitted | backend/app/routes/reflections.py:213-218 | With one row per pair, the row the query finds is submitted exactly when the student has submitted the reflection. |
| Reflections.DashboardLine | backend/app/routes/reflections.py:212-229 | A reflection gets a line exactly when it has a due date of now or later and the student has not submitted it. The line is its dashboard line and is never overdue. |
| Reflections.OpenItems | backend/app/routes/reflections.py:208-229 | The loop yields one line for each listable reflection among those visited, and no other line. |
| Reflections.CourseReflections | backend/app/routes/reflections.py:203-206 | The reflections of the courses named by the student's enrollments, filtered as listable, are exactly the open reflections of the student's courses. |
| Reflections.StudentDashboard | backend/app/routes/reflections.py:196-237 | The dashboard lists every open reflection of the student's enrolled courses exactly once and nothing else. No line is overdue. Lines are sorted by due date when `sort_by` is absent or `'dates'`, and by (course name, reflection name) otherwise. |
| Courses.VisibleCourses | backend/app/routes/courses.py:14-19 | A teacher is shown exactly the courses they teach. A student is shown exactly the courses they are enrolled in, each once, with its stored row. |
| Courses.SearchCourses | backend/app/routes/courses.py:26-27 | The search keeps, in order, exactly the courses whose lower-cased name or course code contains the lower-cased query. Each kept element appears as often as in the input. |
| Courses.StatusCourses | backend/app/routes/courses.py:29-30 | The status filter keeps, in order, exactly the courses whose status equals the filter, unless the filter is absent, empty or `'all'`. Each kept element appears as often as in the input. |
| Courses.FilterCourses | backend/app/routes/courses.py:21-30 | Both filters together keep, in order, exactly the courses that pass both and add none. Each kept element appears as often as in the input. |
| Courses.NoFilterKeepsAll | backend/app/routes/courses.py:21-27 | An absent or empty search with no status filter keeps every course. |
| Courses.FilterCoursesEntries | backend/app/routes/courses.py:25-30 | The filtered list still lists stored courses only, each once. Its ids are those of the input that pass the filters. |
| Courses.GetCourses | backend/app/routes/courses.py:8-43 | The listing holds exactly the visible courses that pass the search and status filters, each once, with its stored row. |
| Courses.GetCourse | backend/app/routes/courses.py:45-76 | 404 exactly when the course is missing. 403 exactly when a teacher does not own it or a student is not enrolled in it. The course is returned exactly on 200. |
| Courses.NewCourse | backend/app/routes/courses.py:85-90 | A new course has status `'active'`, the session user as teacher, the name and code sent, and every other column null. |
| Courses.CreateCourse | backend/app/routes/courses.py:78-102 | With a name the course is added under a fresh key and 201 is returned. Without one the insert fails with 500 and nothing changes. |
| Courses.StoredDays | backend/app/routes/courses.py:125-126 | A list of days is stored joined with commas. Any other value is stored as sent. |
| Courses.StoredDaysRoundTrip | backend/app/routes/courses.py:126 | Splitting the stored form at the commas gives back a non-empty list of day names without commas. |
| Courses.Configure | backend/app/routes/courses.py:115-128 | Each of the seven fields whose key is present takes the value sent. Every absent one, and the name, code, teacher and status, stay. |
| Courses.EmptyConfigIsIdentity | backend/app/routes/courses.py:115-128 | A body with none of the keys leaves the course as it was. |
| Courses.ConfigureIdempotent | backend/app/routes/courses.py:115-128 | Applying the same configuration twice equals applying it once. |
| Courses.ApplyConfig | backend/app/routes/courses.py:115-128 | The update fails exactly when a start or end date is sent that does not parse. Otherwise the course is configured. |
| Courses.ConfigureCourse | backend/app/routes/courses.py:104-132 | 404 exactly when the course is missing. 403 exactly when the user does not own it. 500 exactly on an unparsable date. All three leave the tables unchanged. On 200 only that course changes, to its configured form. |
| Students.EnrolledStudents | backend/app/routes/students.py:16-17 | The roster lists exactly the students enrolled in the course, each once, with their stored user rows. |
| Students.CourseStudents | backend/app/routes/students.py:9-27 | 404 exactly when the course is missing. 403 exactly when the user does not own it. 200 with the enrolled students otherwise. |
| Students.FindStudent | backend/app/routes/students.py:46 | The lookup finds a user with that email exactly when one with role student exists, and never a teacher. |
| Students.FindEnrollment | backend/app/routes/students.py:60 | The lookup finds an enrollment for the (student, course) pair exactly when one exists. |
| Students.StudentKeyUnique | backend/app/models/models.py:10 | With unique emails there is at most one student with a given email. |
| Students.AlreadyEnrolledIff | backend/app/routes/students.py:59-62 | For the student found by email, "that email's student is enrolled" coincides with the enrollment lookup. |
| Students.Enroll | backend/app/routes/students.py:64-66 | One enrollment row for the pair is added under a fresh key, and the invariants hold. |
| Students.CreateAndEnroll | backend/app/routes/students.py:50-57 | A new student row and its enrollment are added under two fresh keys, and the invariants hold. |
| Students.AddStudent | backend/app/routes/students.py:29-75 | 404 on a missing course and 403 for a non-owner. 400 exactly when the email is missing or empty, or that email's student is already enrolled. 500 exactly when the new user would clash on a unique column. Each leaves the tables unchanged. On 201 exactly one enrollment is added, after creating the student when none has the email. The student is named by the name sent or the email's local part, with Google id `manual_<email>_<course>`. |
| Students.AddedIsEnrolled | backend/app/routes/students.py:64-66 | After the add the student is enrolled in the course, and the enrollment table has exactly one more row. |
| Students.EnrolledGrows | backend/app/routes/students.py:109-112 | Enrolling an existing student adds one enrollment for the course and keeps every user and enrollment. |
| Students.CreatedGrows | backend/app/routes/students.py:96-105 | Creating a student keeps every user and enrollment and adds that user under the fresh key. |
| Students.AddInfoGrows | backend/app/routes/students.py:91-112 | Handling one list element only adds rows, and `added` grows by the number of enrollments it creates, all for the course. |
| Students.AddInfoConsistent | backend/app/routes/students.py:91-112 | Handling one list element keeps the invariants, including one enrollment per pair. |
| Students.GrowsTransitive | backend/app/routes/students.py:89-112 | Growth of the session composes across the loop's iterations. |
| Students.BulkConsistent | backend/app/routes/students.py:89-112 | The whole loop keeps the invariants, so no existing enrollment is ever duplicated. |
| Students.BulkGrows | backend/app/routes/students.py:89-112 | The whole loop only adds rows. Every new enrollment is for the course, and `added` equals the number of enrollments created. |
| Students.BulkEnrollsEach | backend/app/routes/students.py:89-112 | After a successful bulk add, every element with an email has its student enrolled in the course. |
| Students.BulkSkipsBlank | backend/app/routes/students.py:91-93 | An element without an email is skipped: removing it from the list does not change the outcome. |
| Students.AddInfoOnce | backend/app/routes/students.py:91-112 | The loop body computes the specified handling of one element. |
| Students.RunBulk | backend/app/routes/students.py:89-112 | The loop computes the specified run over the whole list. |
| Students.BulkAddStudents | backend/app/routes/students.py:77-116 | 404 on a missing course and 403 for a non-owner. 500 exactly when some element's insert fails, and then nothing is committed. On 201 the committed tables and `added` are those of the specified run. |
| Students.DropUnenrolls | backend/app/routes/students.py:127-130 | Deleting the enrollment row leaves that student unenrolled from that course, with exactly one row fewer. |
| Students.RemoveStudent | backend/app/routes/students.py:118-132 | 404 when the course or the enrollment is missing, and 403 for a non-owner. Both leave the tables unchanged. On 200 exactly that enrollment is deleted and the student is no longer enrolled. |
| Auth.RoleNamed | backend/app/routes/auth.py:17 | Only the strings `'student'` and `'teacher'` name a role. |
| Auth.FindByEmail | backend/app/routes/auth.py:47 | The lookup finds a user with the email exactly when one exists. |
| Auth.ByEmailUnique | backend/app/routes/auth.py:47-66 | With unique emails, the user found by email decides the role check and the Google-id clash for any user with that email. |
| Auth.SignUp | backend/app/routes/auth.py:49-59 | A new user row is added under a fresh key, and the invariants hold. |
| Auth.SetGoogleId | backend/app/routes/auth.py:63-66 | Only that user's Google id changes. |
| Auth.GoogleAuth | backend/app/routes/auth.py:9-84 | 400 exactly when the token or the role is missing or the role is not one of the two. 500 exactly when no client id is configured. 401 exactly when the token is rejected, has another audience or lacks a claim, or the needed write violates a constraint. 403 exactly when the email belongs to a user of the other role. The four failures change nothing. On 200 an unknown email creates a user with the requested role, the name claim or the email's local part, and the picture. A known email has its Google id set to the token's subject. The session's role equals the stored user's role. |
| Auth.TooLargeIff | backend/app/routes/auth.py:159 | The fractional bound `2.7 * 1024 * 1024` refuses exactly the lengths above 2831155. |
| Auth.StoredImage | backend/app/routes/auth.py:150-165 | A non-empty image is stored as sent. An empty or null one clears the field. |
| Auth.Profiled | backend/app/routes/auth.py:131-165 | Name, department and area of interest change for anyone. Experience changes only for a teacher. Student id and year of joining change only for a student. Each changes only when its key is present, and email, Google id and role never change. |
| Auth.ProfiledIdempotent | backend/app/routes/auth.py:131-165 | Applying the same profile update twice equals applying it once. |
| Auth.CheckImage | backend/app/routes/auth.py:150-165 | The image is refused exactly when it is non-empty and either lacks the `data:image/` prefix or is too large. Otherwise the stored value is returned. |
| Auth.ApplyProfile | backend/app/routes/auth.py:131-172 | A bad image is refused first. A null name makes the write fail. Otherwise the updated row is returned. |
| Auth.UpdateProfile | backend/app/routes/auth.py:118-188 | 401 without a session user and 404 for an unknown one. 400 exactly for a bad image. 500 exactly for a null name. All of these leave the tables unchanged. On 200 only that user's row changes, to its updated form. |
| QuestionEditor.WithoutId | client/src/components/QuestionEditor.tsx:48 | Removing keeps, in order, exactly the options with another id. Each kept element appears as often as in the input. |
| QuestionEditor.RemoveKeepsTwo | client/src/components/QuestionEditor.tsx:46-50 | With distinct ids, removing from more than two options drops at most one and keeps at least two. |
| QuestionEditor.RemoveAbsentId | client/src/components/QuestionEditor.tsx:48 | Removing an id no option has changes nothing. |
| QuestionEditor.WithText | client/src/components/QuestionEditor.tsx:53 | Only the text of the options with the id changes. Length, order, ids and correctness stay. |
| QuestionEditor.MarkCorrect | client/src/components/QuestionEditor.tsx:57 | Exactly the options with the id are correct afterwards. Length, order, ids and texts stay. |
| QuestionEditor.MarkCorrectIdempotent | client/src/components/QuestionEditor.tsx:56-58 | Marking the same option twice equals marking it once. |
| QuestionEditor.CorrectAnswerId | client/src/components/QuestionEditor.tsx:68 | The selected id is that of the first correct option, or `''` when none is correct. |
| QuestionEditor.CorrectAfterMark | client/src/components/QuestionEditor.tsx:56-68 | After an option is marked correct the radio group shows its id, or `''` when no option has the id. |
| QuestionEditor.FirstWithId | client/src/components/QuestionEditor.tsx:68 | Given an option with the id, there is a first one. |
| QuestionEditor.Filled | client/src/components/QuestionEditor.tsx:64 | A save keeps, in order, exactly the options whose trimmed text is non-empty. Each kept element appears as often as in the input. |
| QuestionEditor.FilledIff | client/src/components/QuestionEditor.tsx:64 | An option is saved exactly when its text has a character that is not white space. |
| QuestionEditor.Editor.constructor | client/src/components/QuestionEditor.tsx:29-35 | The editor opens on the question's text and options. A new question gets two empty, non-correct options with ids `'1'` and `'2'`. |
| QuestionEditor.Editor.SetQuestionText | client/src/components/QuestionEditor.tsx:85 | Typing sets the question text. The options are unchanged. |
| QuestionEditor.Editor.AddAnswer | client/src/components/QuestionEditor.tsx:37-44 | One empty, non-correct option is appended and the earlier ones stay. A fresh id keeps the ids distinct. |
| QuestionEditor.Editor.RemoveAnswer | client/src/components/QuestionEditor.tsx:46-50 | Nothing changes with two or fewer options. Otherwise the options with the id are removed, and with distinct ids at least two remain. |
| QuestionEditor.Editor.UpdateAnswerText | client/src/components/QuestionEditor.tsx:52-54 | The options become their text-updated form. |
| QuestionEditor.Editor.SetCorrectAnswer | client/src/components/QuestionEditor.tsx:56-58 | The options become their marked form, and the radio group then shows that id. |
| QuestionEditor.Editor.Save | client/src/components/QuestionEditor.tsx:60-66 | The saved question carries the original id, the current text and only the non-blank options, in order. |
| Home.SearchQuestions | client/src/pages/Home.tsx:62-64 | The list keeps, in order, exactly the questions whose lower-cased text contains the lower-cased query. Each kept element appears as often as in the input. |
| Home.EmptyQueryShowsAll | client/src/pages/Home.tsx:62-64 | An empty query shows the whole library. |
| Home.FindById | client/src/pages/Home.tsx:101 | The selected question is the first library question with the selected id. There is none exactly when nothing is selected or no question has the id. |
| Home.ReplaceById | client/src/pages/Home.tsx:77 | An edit replaces every question with the edited id and keeps the length and every other question. |
| Home.ReplaceByIdFind | client/src/pages/Home.tsx:75-81 | After an edit, looking up the edited id finds the new question when it was present, and any other id finds what it found before. |
| Home.RemoveById | client/src/pages/Home.tsx:90 | A delete keeps, in order, exactly the questions with another id. Each kept element appears as often as in the input. |
| Home.RemovedIsGone | client/src/pages/Home.tsx:88-94 | After a delete no question has the deleted id. |
| Home.HomePage.constructor | client/src/pages/Home.tsx:24-30 | The page starts in the list view with an empty search, a closed dialog, no selection and the whole library listed. |
| Home.HomePage.OpenCreate | client/src/pages/Home.tsx:127 | The create button switches to the create view. The library, the selection, the search query and the dialog are unchanged. |
| Home.HomePage.SetSearchQuery | client/src/pages/Home.tsx:62-64 | The listed questions are exactly those matching the new query, and the library, the view, the selection and the dialog are unchanged. |
| Home.HomePage.HandleCreateQuestion | client/src/pages/Home.tsx:66-73 | The new question is prepended under the fresh id, so the length grows by one and the rest is unchanged. The list view returns. The selection, the search query and the dialog are unchanged. |
| Home.HomePage.HandleEditQuestion | client/src/pages/Home.tsx:75-81 | With a non-empty id the questions of that id are replaced. Otherwise the library is unchanged. The length is kept, the list view returns and the selection is cleared. The search query and the dialog are unchanged. |
| Home.HomePage.HandleDeleteQuestion | client/src/pages/Home.tsx:83-86 | The selection is recorded and the dialog opens. The library, the view and the search query are unchanged. |
| Home.HomePage.ConfirmDelete | client/src/pages/Home.tsx:88-94 | With a selection, its questions are removed and the selection is cleared. Without one the library is unchanged. The dialog closes either way. The view and the search query are unchanged. |
| Home.HomePage.StartEdit | client/src/pages/Home.tsx:96-99 | The selection and the edit view are set. The editor renders exactly when a question with that id exists. The library, the search query and the dialog are unchanged. |
| Home.HomePage.SetDeleteDialogOpen | client/src/pages/Home.tsx:191 | The dialog's own control opens or closes it. The library, the selection, the view and the search query are unchanged. |
| Home.HomePage.CancelCreate | client/src/pages/Home.tsx:170 | Cancelling a create returns to the list view. The library, the selection, the search query and the dialog are unchanged. |
| Home.HomePage.CancelEdit | client/src/pages/Home.tsx:180-183 | Cancelling an edit returns to the list view and clears the selection. The library, the search query and the dialog are unchanged. |

## Left out

- `get_course_reflections` and `get_reflection_submissions` (backend/app/routes/reflections.py:9-43, 137-170): teacher read-only listings with no rule beyond the feedback visibility that `Reflections.ViewOf` states. They are not modelled.
- `logout` and `get_current_user` (backend/app/routes/auth.py:86-116): they clear or read the session and change no table.
- backend/app/routes/teacher.py is not part of this model. It is a counting query.
- The feedback generator in backend/app/services/ai_feedback.py is not part of this model. Its outcome (a text, or a failure) is a parameter of `Reflections.SubmitReflection`.
- Google's token verification, the `GOOGLE_CLIENT_ID` environment variable, `datetime.utcnow()`, `datetime.fromisoformat` and `Date.now()`:
  - the verification result, the client id, the clock reading, the parsed dates (`None` when unparsable) and fresh client ids are parameters;
  - timestamps are integers;
  - `created_at`, `enrolled_at` and `updated_at` are not stored.
- The response bodies are not modelled beyond what each handler returns: status code, session, view, listing or counter. Nor are the log output and the rendering of the client pages.
- The mock library of client/src/pages/Home.tsx:29-60 is not modelled: the page's constructor takes the initial library as a parameter.
- Keys: one counter hands out the primary keys of all five tables, where the database keeps one sequence per table. Keys stay unique per table either way.
- Transactions: a failed commit (IntegrityError on a unique or NOT NULL column) is modelled as an unchanged database. This gives 500 in the student and profile handlers and 401 in `google_auth`, whose outer handler catches it. A missing JSON body is not represented: each request field is an `Option` parameter, so there is no body to be absent (in the source, `data.get` on `None` raises, giving 500, or 401 in `google_auth` through its outer handler). A session user that has been deleted is excluded by the preconditions (`userId in db.users`).
- `Reflections.StudentDashboard`: the ISO strings of due dates are sorted by the time they denote. The sort is proved sorted and a permutation, not stable. The order in which the query returns reflections is unspecified, so stability would constrain nothing.
- `Common.Lower`: only the ASCII letters are lower-cased. Python's `lower()` and JavaScript's `toLowerCase()` also fold other scripts.
- `Reflections.Patched`: `score` is a float column kept as an opaque `real`. No rounding is modelled.
- `Courses.VisibleCourses`: for a student, the courses come from the enrollment rows of that student, as a set of course ids. The order of the query result is not modelled, so the listing's order is the visiting order.
- `Students.AddStudent`: for a student created in the same request, the repeated check for an existing enrollment is not made. No enrollment can refer to a key that was just handed out.
- `Students.BulkAddStudents`: `student_info.get('name', ...)` falls back on the local part only when the key is absent. An empty name is kept and a null name makes the insert fail (500). The single add in `add_student_to_course` falls back on any empty name. Both are followed as written.
- `Reflections.Patched`: `display_feedback` is modelled as a boolean. A JSON `null` sent for it is stored as NULL by the source, which the model cannot represent. A null flag hides the feedback just as `false` does, so the student's view is unaffected.

/** The five tables of the backend schema as values: one record type per table,
    the tables as maps from primary key to record, the unique constraints and
    foreign keys as invariants, and the two delete cascades. */
module Models {
  import opened Common

  datatype Role = Student | Teacher

  /** A row of `users`; the key of the map is its `id`. */
  datatype User = User(
    email: string,
    name: string,
    googleId: string,
    role: Role,
    profileImage: Option<string>,
    department: Option<string>,
    experience: Option<string>,
    areaOfInterest: Option<string>,
    studentId: Option<string>,
    yearOfJoining: Option<string>)

  /** A row of `courses`. Dates are timestamps. */
  datatype Course = Course(
    name: string,
    courseCode: Option<string>,
    teacherId: nat,
    status: string,
    framework: Option<string>,
    startDate: Option<int>,
    endDate: Option<int>,
    reflectionDueDays: Option<int>,
    recurrenceDays: Option<int>,
    selectedDays: Option<string>,
    customStructure: Option<string>)

  /** A row of `enrollments`. */
  datatype Enrollment = Enrollment(studentId: nat, courseId: nat)

  /** A row of `reflections`. */
  datatype Reflection = Reflection(
    courseId: nat,
    name: string,
    number: Option<int>,
    description: Option<string>,
    startDate: Option<int>,
    dueDate: Option<int>,
    structure: Option<string>)

  /** A row of `reflection_submissions`; `score` is a float column, kept as data. */
  datatype Submission = Submission(
    reflectionId: nat,
    studentId: nat,
    content: Option<string>,
    aiFeedback: Option<string>,
    score: Option<real>,
    displayFeedback: bool,
    submittedAt: Option<int>)

  datatype Tables = Tables(
    users: map<nat, User>,
    courses: map<nat, Course>,
    enrollments: map<nat, Enrollment>,
    reflections: map<nat, Reflection>,
    submissions: map<nat, Submission>)

  /** Column default of `courses.status`. */
  const ActiveStatus: string := "active"

  /** A submission row as the ORM creates it: only the two keys set, every
      other column at its default (`display_feedback` false, the rest null). */
  function NewSubmission(reflectionId: nat, studentId: nat): Submission {
    Submission(reflectionId, studentId, None, None, None, false, None)
  }

  // ---------------------------------------------------------------------------
  // Lookups

  predicate EmailTaken(users: map<nat, User>, email: string) {
    exists k :: k in users && users[k].email == email
  }

  predicate GoogleIdTaken(users: map<nat, User>, googleId: string) {
    exists k :: k in users && users[k].googleId == googleId
  }

  predicate IsEnrolled(enrollments: map<nat, Enrollment>, studentId: nat, courseId: nat) {
    exists k :: k in enrollments && enrollments[k] == Enrollment(studentId, courseId)
  }

  predicate SubmissionFor(s: Submission, reflectionId: nat, studentId: nat) {
    s.reflectionId == reflectionId && s.studentId == studentId
  }

  predicate HasSubmission(submissions: map<nat, Submission>, reflectionId: nat, studentId: nat) {
    exists k :: k in submissions && SubmissionFor(submissions[k], reflectionId, studentId)
  }

  // ---------------------------------------------------------------------------
  // Invariants

  /** `users.email` and `users.google_id` are each unique. */
  predicate UniqueUsers(users: map<nat, User>) {
    && (forall a, b {:trigger users[a].email, users[b].email} ::
          a in users && b in users && users[a].email == users[b].email ==> a == b)
    && (forall a, b {:trigger users[a].googleId, users[b].googleId} ::
          a in users && b in users && users[a].googleId == users[b].googleId ==> a == b)
  }

  /** The `unique_enrollment` constraint on (student_id, course_id). */
  predicate UniqueEnrollments(enrollments: map<nat, Enrollment>) {
    forall a, b :: a in enrollments && b in enrollments && enrollments[a] == enrollments[b] ==> a == b
  }

  /** The `unique_submission` constraint on (reflection_id, student_id). */
  predicate UniqueSubmissions(submissions: map<nat, Submission>) {
    forall a, b ::
      a in submissions && b in submissions && SubmissionFor(submissions[b], submissions[a].reflectionId, submissions[a].studentId)
      ==> a == b
  }

  /** `courses.teacher_id` names a user. */
  predicate TeachersExist(courses: map<nat, Course>, users: set<nat>) {
    forall k :: k in courses ==> courses[k].teacherId in users
  }

  /** `enrollments.student_id` names a user and `course_id` a course. */
  predicate EnrolleesExist(enrollments: map<nat, Enrollment>, users: set<nat>, courses: set<nat>) {
    forall k :: k in enrollments ==> enrollments[k].studentId in users && enrollments[k].courseId in courses
  }

  /** `reflections.course_id` names a course. */
  predicate ReflectionCoursesExist(reflections: map<nat, Reflection>, courses: set<nat>) {
    forall k :: k in reflections ==> reflections[k].courseId in courses
  }

  /** `reflection_submissions.reflection_id` names a reflection and `student_id` a user. */
  predicate SubmittersExist(submissions: map<nat, Submission>, reflections: set<nat>, users: set<nat>) {
    forall k :: k in submissions ==> submissions[k].reflectionId in reflections && submissions[k].studentId in users
  }

  /** Every non-null foreign key names an existing row. */
  predicate ReferencesExist(t: Tables) {
    && TeachersExist(t.courses, t.users.Keys)
    && EnrolleesExist(t.enrollments, t.users.Keys, t.courses.Keys)
    && ReflectionCoursesExist(t.reflections, t.courses.Keys)
    && SubmittersExist(t.submissions, t.reflections.Keys, t.users.Keys)
  }

  predicate Valid(t: Tables) {
    UniqueUsers(t.users) && UniqueEnrollments(t.enrollments) && UniqueSubmissions(t.submissions) && ReferencesExist(t)
  }

  /** The primary keys in use, in all five tables. */
  function Keys(t: Tables): set<nat> {
    t.users.Keys + t.courses.Keys + t.enrollments.Keys + t.reflections.Keys + t.submissions.Keys
  }

  /** Every primary key in use is below `n`, the next key to hand out. */
  ghost predicate KeysBelow(t: Tables, n: nat) {
    forall k :: k in Keys(t) ==> k < n
  }

  /** The next key is free in every table, and once it is handed out the
      counter moves past it. */
  lemma FreshKey(t: Tables, n: nat)
    requires KeysBelow(t, n)
    ensures n !in t.users && n !in t.courses && n !in t.enrollments && n !in t.reflections && n !in t.submissions
    ensures KeysBelow(t, n + 1)
  {
    assert n !in Keys(t);
  }

  /** A write that uses no key besides those in use and `key` keeps every key
      below `n` when `key` is. */
  lemma KeysBelowAfter(t: Tables, r: Tables, n: nat, key: nat)
    requires KeysBelow(t, n) && key < n && Keys(r) <= Keys(t) + {key}
    ensures KeysBelow(r, n)
  {
  }

  // ---------------------------------------------------------------------------
  // Row writes that keep the invariants

  lemma UniqueUsersPut(users: map<nat, User>, key: nat, u: User)
    requires UniqueUsers(users)
    requires forall k :: k in users && k != key ==> users[k].email != u.email && users[k].googleId != u.googleId
    ensures UniqueUsers(users[key := u])
  {
  }

  lemma UniqueEnrollmentsPut(enrollments: map<nat, Enrollment>, key: nat, e: Enrollment)
    requires UniqueEnrollments(enrollments)
    requires forall k :: k in enrollments && k != key ==> enrollments[k] != e
    ensures UniqueEnrollments(enrollments[key := e])
  {
  }

  lemma UniqueSubmissionsPut(submissions: map<nat, Submission>, key: nat, s: Submission)
    requires UniqueSubmissions(submissions)
    requires forall k :: k in submissions && k != key ==> !SubmissionFor(submissions[k], s.reflectionId, s.studentId)
    ensures UniqueSubmissions(submissions[key := s])
  {
  }

  /** Writing a submission row whose keys exist and whose (reflection, student)
      pair no other row has. */
  lemma PutSubmission(t: Tables, n: nat, key: nat, s: Submission)
    requires Valid(t) && KeysBelow(t, n) && key < n
    requires s.reflectionId in t.reflections && s.studentId in t.users
    requires forall k :: k in t.submissions && k != key ==> !SubmissionFor(t.submissions[k], s.reflectionId, s.studentId)
    ensures Valid(t.(submissions := t.submissions[key := s]))
    ensures KeysBelow(t.(submissions := t.submissions[key := s]), n)
  {
    var r := t.(submissions := t.submissions[key := s]);
    UniqueSubmissionsPut(t.submissions, key, s);
    assert SubmittersExist(r.submissions, r.reflections.Keys, r.users.Keys);
    assert Keys(r) <= Keys(t) + {key};
    KeysBelowAfter(t, r, n, key);
  }

  /** Writing an enrollment row for an existing student and course that no
      other row has. */
  lemma PutEnrollment(t: Tables, n: nat, key: nat, e: Enrollment)
    requires Valid(t) && KeysBelow(t, n) && key < n
    requires e.studentId in t.users && e.courseId in t.courses
    requires forall k :: k in t.enrollments && k != key ==> t.enrollments[k] != e
    ensures Valid(t.(enrollments := t.enrollments[key := e]))
    ensures KeysBelow(t.(enrollments := t.enrollments[key := e]), n)
  {
    var r := t.(enrollments := t.enrollments[key := e]);
    UniqueEnrollmentsPut(t.enrollments, key, e);
    assert EnrolleesExist(r.enrollments, r.users.Keys, r.courses.Keys);
    assert Keys(r) <= Keys(t) + {key};
    KeysBelowAfter(t, r, n, key);
  }

  /** Removing any enrollment row. */
  lemma DropEnrollment(t: Tables, n: nat, key: nat)
    requires Valid(t) && KeysBelow(t, n)
    ensures Valid(t.(enrollments := t.enrollments - {key}))
    ensures KeysBelow(t.(enrollments := t.enrollments - {key}), n)
  {
    assert Keys(t.(enrollments := t.enrollments - {key})) <= Keys(t);
  }

  /** Writing a user row whose email and Google id no other row has. */
  lemma PutUser(t: Tables, n: nat, key: nat, u: User)
    requires Valid(t) && KeysBelow(t, n) && key < n
    requires forall k :: k in t.users && k != key ==> t.users[k].email != u.email && t.users[k].googleId != u.googleId
    ensures Valid(t.(users := t.users[key := u]))
    ensures KeysBelow(t.(users := t.users[key := u]), n)
  {
    var r := t.(users := t.users[key := u]);
    UniqueUsersPut(t.users, key, u);
    assert t.users.Keys <= r.users.Keys;
    assert Keys(r) <= Keys(t) + {key};
    KeysBelowAfter(t, r, n, key);
  }

  /** Writing a course row whose teacher exists. */
  lemma PutCourse(t: Tables, n: nat, key: nat, c: Course)
    requires Valid(t) && KeysBelow(t, n) && key < n
    requires c.teacherId in t.users
    ensures Valid(t.(courses := t.courses[key := c]))
    ensures KeysBelow(t.(courses := t.courses[key := c]), n)
  {
    var r := t.(courses := t.courses[key := c]);
    assert t.courses.Keys <= r.courses.Keys;
    assert TeachersExist(r.courses, r.users.Keys);
    assert Keys(r) <= Keys(t) + {key};
    KeysBelowAfter(t, r, n, key);
  }

  // ---------------------------------------------------------------------------
  // Delete cascades

  /** Deleting a reflection also deletes its submissions (`cascade='all, delete-orphan'`). */
  function DeleteReflection(t: Tables, reflectionId: nat): Tables {
    t.(reflections := t.reflections - {reflectionId},
       submissions := map k | k in t.submissions && t.submissions[k].reflectionId != reflectionId :: t.submissions[k])
  }

  /** A reflection of the course being deleted. */
  predicate InCourse(t: Tables, reflectionId: nat, courseId: nat) {
    reflectionId in t.reflections && t.reflections[reflectionId].courseId == courseId
  }

  /** Deleting a course also deletes its enrollments and its reflections, and
      with the reflections their submissions. */
  function DeleteCourse(t: Tables, courseId: nat): Tables {
    t.(courses := t.courses - {courseId},
       enrollments := map k | k in t.enrollments && t.enrollments[k].courseId != courseId :: t.enrollments[k],
       reflections := map k | k in t.reflections && t.reflections[k].courseId != courseId :: t.reflections[k],
       submissions := map k | k in t.submissions && !InCourse(t, t.submissions[k].reflectionId, courseId) :: t.submissions[k])
  }

  /** The reflection cascade keeps the schema's invariants and leaves no
      submission pointing at the deleted reflection; every other submission stays. */
  lemma DeleteReflectionKeepsValid(t: Tables, reflectionId: nat)
    requires Valid(t)
    ensures Valid(DeleteReflection(t, reflectionId))
    ensures !exists k :: k in DeleteReflection(t, reflectionId).submissions
                       && DeleteReflection(t, reflectionId).submissions[k].reflectionId == reflectionId
    ensures forall k :: k in t.submissions && t.submissions[k].reflectionId != reflectionId
                    ==> k in DeleteReflection(t, reflectionId).submissions
  {
  }

  /** Without the cascade, removing a reflection that has a submission leaves
      a dangling foreign key. */
  lemma DeleteReflectionNeedsCascade(t: Tables, reflectionId: nat, submissionId: nat)
    requires Valid(t)
    requires submissionId in t.submissions && t.submissions[submissionId].reflectionId == reflectionId
    ensures !Valid(t.(reflections := t.reflections - {reflectionId}))
  {
    var u := t.(reflections := t.reflections - {reflectionId});
    assert u.submissions[submissionId].reflectionId !in u.reflections;
  }

  /** The course cascade keeps the schema's invariants, and afterwards nothing
      refers to the deleted course. */
  lemma DeleteCourseKeepsValid(t: Tables, courseId: nat)
    requires Valid(t)
    ensures Valid(DeleteCourse(t, courseId))
    ensures forall k :: k in DeleteCourse(t, courseId).enrollments ==> DeleteCourse(t, courseId).enrollments[k].courseId != courseId
    ensures forall k :: k in DeleteCourse(t, courseId).reflections ==> DeleteCourse(t, courseId).reflections[k].courseId != courseId
  {
    var r := DeleteCourse(t, courseId);
    forall k | k in r.submissions
      ensures r.submissions[k].reflectionId in r.reflections
    {
      assert t.submissions[k].reflectionId in t.reflections;
    }
  }
}

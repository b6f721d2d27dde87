/** The enrollment endpoints a course's teacher uses: the roster, adding one
    student by email, adding a list of students, and removing a student. */
module Students {
  import opened Common
  import opened Models
  import opened Store

  /** The course exists and the signed-in teacher teaches it. */
  predicate Owns(t: Tables, userId: nat, courseId: nat) {
    courseId in t.courses && t.courses[courseId].teacherId == userId
  }

  // ---------------------------------------------------------------------------
  // Roster

  /** A student of the roster: the user's key and row. */
  datatype StudentEntry = StudentEntry(id: nat, user: User)

  /** The students of the enrollments among `keys` that are for the course. */
  function EnrolledAmong(t: Tables, courseId: nat, keys: set<nat>): set<nat> {
    set k | k in keys && k in t.enrollments && t.enrollments[k].courseId == courseId :: t.enrollments[k].studentId
  }

  /** Everyone enrolled in the course. */
  function EnrolledIds(t: Tables, courseId: nat): set<nat> {
    EnrolledAmong(t, courseId, t.enrollments.Keys)
  }

  function StudentIds(ss: seq<StudentEntry>): set<nat> {
    set i | 0 <= i < |ss| :: ss[i].id
  }

  /** Every entry is the user row stored under its key, and no student is
      listed twice. */
  predicate StudentsOf(t: Tables, ss: seq<StudentEntry>) {
    && (forall i :: 0 <= i < |ss| ==> ss[i].id in t.users && ss[i].user == t.users[ss[i].id])
    && (forall i, j :: 0 <= i < j < |ss| ==> ss[i].id != ss[j].id)
  }

  /** One more enrollment key considered: its student joins the set when the
      enrollment is for the course, and is new to it because enrollments are
      unique. */
  lemma EnrolledAmongAdd(t: Tables, courseId: nat, done: set<nat>, key: nat)
    requires UniqueEnrollments(t.enrollments) && key in t.enrollments && key !in done
    ensures t.enrollments[key].courseId == courseId ==>
      && EnrolledAmong(t, courseId, done + {key}) == EnrolledAmong(t, courseId, done) + {t.enrollments[key].studentId}
      && t.enrollments[key].studentId !in EnrolledAmong(t, courseId, done)
    ensures t.enrollments[key].courseId != courseId ==>
      EnrolledAmong(t, courseId, done + {key}) == EnrolledAmong(t, courseId, done)
  {
    var e := t.enrollments[key];
    forall k | k in done && k in t.enrollments ensures t.enrollments[k] != e {
      assert k != key;
    }
  }

  lemma StudentsOfAppend(t: Tables, ss: seq<StudentEntry>, id: nat)
    requires StudentsOf(t, ss) && id in t.users && id !in StudentIds(ss)
    ensures StudentsOf(t, ss + [StudentEntry(id, t.users[id])])
    ensures StudentIds(ss + [StudentEntry(id, t.users[id])]) == StudentIds(ss) + {id}
  {
    var r := ss + [StudentEntry(id, t.users[id])];
    assert forall i :: 0 <= i < |ss| ==> r[i] == ss[i];
    assert r[|ss|] == StudentEntry(id, t.users[id]);
    forall i | 0 <= i < |ss| ensures ss[i].id != id {
      assert ss[i].id in StudentIds(ss);
    }
  }

  /** The query for the roster: the student of each of the course's
      enrollments, once each. */
  method EnrolledStudents(t: Tables, courseId: nat) returns (ss: seq<StudentEntry>)
    requires Valid(t)
    ensures StudentsOf(t, ss)
    ensures StudentIds(ss) == EnrolledIds(t, courseId)
  {
    var pending := t.enrollments.Keys;
    ss := [];
    while pending != {}
      invariant pending <= t.enrollments.Keys
      invariant StudentsOf(t, ss)
      invariant StudentIds(ss) == EnrolledAmong(t, courseId, t.enrollments.Keys - pending)
      decreases pending
    {
      var key :| key in pending;
      ghost var done := t.enrollments.Keys - pending;
      EnrolledAmongAdd(t, courseId, done, key);
      assert t.enrollments.Keys - (pending - {key}) == done + {key};
      var e := t.enrollments[key];
      if e.courseId == courseId {
        StudentsOfAppend(t, ss, e.studentId);
        ss := ss + [StudentEntry(e.studentId, t.users[e.studentId])];
      }
      pending := pending - {key};
    }
  }

  /** GET of a course's roster by its teacher. */
  method CourseStudents(db: Db, userId: nat, courseId: nat) returns (status: int, students: seq<StudentEntry>)
    requires db.Valid()
    ensures status in {200, 403, 404}
    ensures status == 404 <==> courseId !in db.courses
    ensures status == 403 <==> courseId in db.courses && !Owns(db.Snapshot(), userId, courseId)
    ensures status == 200 ==> StudentsOf(db.Snapshot(), students) && StudentIds(students) == EnrolledIds(db.Snapshot(), courseId)
    ensures status != 200 ==> students == []
  {
    if courseId !in db.courses {
      return 404, [];
    }
    if db.courses[courseId].teacherId != userId {
      return 403, [];
    }
    students := EnrolledStudents(db.Snapshot(), courseId);
    status := 200;
  }

  // ---------------------------------------------------------------------------
  // Lookups shared by the two ways of adding students

  /** `k` is a user with role student and this email. */
  predicate IsStudentWith(users: map<nat, User>, k: nat, email: string) {
    k in users && users[k].email == email && users[k].role == Student
  }

  predicate StudentExists(users: map<nat, User>, email: string) {
    exists k :: k in users && IsStudentWith(users, k, email)
  }

  /** The lookup of an existing student: only users with role student match. */
  method FindStudent(users: map<nat, User>, email: string) returns (found: Option<nat>)
    ensures found.None? <==> !StudentExists(users, email)
    ensures found.Some? ==> IsStudentWith(users, found.value, email)
  {
    if exists k :: k in users && users[k].email == email && users[k].role == Student {
      var k :| k in users && users[k].email == email && users[k].role == Student;
      found := Some(k);
    } else {
      found := None;
    }
  }

  method FindEnrollment(enrollments: map<nat, Enrollment>, studentId: nat, courseId: nat) returns (found: Option<nat>)
    ensures found.None? <==> !IsEnrolled(enrollments, studentId, courseId)
    ensures found.Some? ==> found.value in enrollments && enrollments[found.value] == Enrollment(studentId, courseId)
  {
    if exists k :: k in enrollments && enrollments[k] == Enrollment(studentId, courseId) {
      var k :| k in enrollments && enrollments[k] == Enrollment(studentId, courseId);
      found := Some(k);
    } else {
      found := None;
    }
  }

  /** A student account created by a teacher; every optional column is unset. */
  function ManualStudent(email: string, name: string, googleId: string): User {
    User(email, name, googleId, Student, None, None, None, None, None, None)
  }

  /** Inserting `u` fails on one of the two unique columns. */
  predicate UserClash(users: map<nat, User>, u: User) {
    EmailTaken(users, u.email) || GoogleIdTaken(users, u.googleId)
  }

  /** The row stored under `key` is the enrollment of `studentId` in `courseId`. */
  function WithEnrollment(t: Tables, key: nat, studentId: nat, courseId: nat): Tables {
    t.(enrollments := t.enrollments[key := Enrollment(studentId, courseId)])
  }

  function WithUser(t: Tables, key: nat, u: User): Tables {
    t.(users := t.users[key := u])
  }

  /** Enrolling an existing user who is not yet enrolled, under the next key. */
  lemma EnrollKeepsValid(t: Tables, n: nat, studentId: nat, courseId: nat)
    requires Valid(t) && KeysBelow(t, n)
    requires studentId in t.users && courseId in t.courses && !IsEnrolled(t.enrollments, studentId, courseId)
    ensures n !in t.enrollments
    ensures Valid(WithEnrollment(t, n, studentId, courseId)) && KeysBelow(WithEnrollment(t, n, studentId, courseId), n + 1)
  {
    FreshKey(t, n);
    PutEnrollment(t, n + 1, n, Enrollment(studentId, courseId));
  }

  /** Creating a user that clashes with no other under the next key, then
      enrolling it under the key after. */
  lemma CreateAndEnrollKeepsValid(t: Tables, n: nat, u: User, courseId: nat)
    requires Valid(t) && KeysBelow(t, n) && courseId in t.courses && !UserClash(t.users, u)
    ensures n !in t.users && n + 1 !in t.enrollments
    ensures Valid(WithEnrollment(WithUser(t, n, u), n + 1, n, courseId))
    ensures KeysBelow(WithEnrollment(WithUser(t, n, u), n + 1, n, courseId), n + 2)
  {
    FreshKey(t, n);
    PutUser(t, n + 1, n, u);
    var t1 := WithUser(t, n, u);
    forall k | k in t1.enrollments ensures t1.enrollments[k] != Enrollment(n, courseId) {
      assert t.enrollments[k].studentId in t.users;
    }
    EnrollKeepsValid(t1, n + 1, n, courseId);
  }

  // ---------------------------------------------------------------------------
  // Adding one student

  /** The student with this email, when there is one. */
  ghost function StudentKey(users: map<nat, User>, email: string): (k: nat)
    requires StudentExists(users, email)
    ensures IsStudentWith(users, k, email)
  {
    var k :| k in users && IsStudentWith(users, k, email); k
  }

  /** Emails are unique, so a student with the email is the one the lookup finds. */
  lemma StudentKeyUnique(users: map<nat, User>, email: string, k: nat)
    requires UniqueUsers(users) && IsStudentWith(users, k, email)
    ensures StudentExists(users, email) && StudentKey(users, email) == k
  {
    var j := StudentKey(users, email);
    assert users[j].email == users[k].email;
  }

  /** The student with this email, if there is one, is already enrolled. */
  predicate AlreadyEnrolled(t: Tables, email: string, courseId: nat) {
    exists k :: k in t.users && IsStudentWith(t.users, k, email) && IsEnrolled(t.enrollments, k, courseId)
  }

  /** With unique emails, the student with the email is already enrolled
      exactly when the student the lookup found is. */
  lemma AlreadyEnrolledIff(t: Tables, email: string, courseId: nat, k: nat)
    requires UniqueUsers(t.users) && IsStudentWith(t.users, k, email)
    ensures AlreadyEnrolled(t, email, courseId) <==> IsEnrolled(t.enrollments, k, courseId)
  {
    forall j | IsStudentWith(t.users, j, email) ensures j == k {
      assert t.users[j].email == t.users[k].email;
    }
  }

  /** The name of a student created by the single add: the name sent when it
      is non-empty, otherwise the part of the email before the first `@`. */
  function NameOrLocalPart(name: Option<string>, email: string): string {
    if name.Some? && name.value != [] then name.value else LocalPart(email)
  }

  /** The student the single add creates: its Google id is made of the email
      and the course id. */
  function AddedStudent(email: string, name: Option<string>, courseId: nat): User {
    ManualStudent(email, NameOrLocalPart(name, email), "manual_" + email + "_" + DecimalString(courseId))
  }

  /** Stores the enrollment of an existing user under the next key. */
  method Enroll(db: Db, studentId: nat, courseId: nat)
    requires db.Valid() && studentId in db.users && courseId in db.courses
    requires !IsEnrolled(db.enrollments, studentId, courseId)
    modifies db
    ensures db.Valid()
    ensures db.nextId == old(db.nextId) + 1
    ensures db.Snapshot() == WithEnrollment(old(db.Snapshot()), old(db.nextId), studentId, courseId)
  {
    ghost var t := db.Snapshot();
    var key := db.nextId;
    EnrollKeepsValid(t, key, studentId, courseId);
    db.enrollments := db.enrollments[key := Enrollment(studentId, courseId)];
    db.nextId := key + 1;
  }

  /** Stores a new user under the next key (the flush that gives it its id),
      then its enrollment under the key after. */
  method CreateAndEnroll(db: Db, u: User, courseId: nat) returns (studentId: nat)
    requires db.Valid() && courseId in db.courses && !UserClash(db.users, u)
    modifies db
    ensures db.Valid()
    ensures studentId == old(db.nextId) && db.nextId == studentId + 2
    ensures db.Snapshot() == WithEnrollment(WithUser(old(db.Snapshot()), studentId, u), studentId + 1, studentId, courseId)
  {
    ghost var t := db.Snapshot();
    studentId := db.nextId;
    CreateAndEnrollKeepsValid(t, studentId, u, courseId);
    db.users := db.users[studentId := u];
    db.enrollments := db.enrollments[studentId + 1 := Enrollment(studentId, courseId)];
    db.nextId := studentId + 2;
  }

  /** POST of one student to a course by its teacher. The email is required;
      an existing student is looked up by it, otherwise one is created; an
      enrollment that exists already is refused. A new user that clashes on
      the email (a teacher's) or the Google id fails the insert, and nothing
      is committed. */
  method AddStudent(db: Db, userId: nat, courseId: nat, email: Option<string>, name: Option<string>)
    returns (status: int, ghost studentId: nat, ghost created: bool)
    requires db.Valid() && userId in db.users && db.users[userId].role == Teacher
    modifies db
    ensures db.Valid()
    ensures status in {201, 400, 403, 404, 500}
    ensures status == 404 <==> courseId !in old(db.courses)
    ensures status == 403 <==> courseId in old(db.courses) && old(db.courses[courseId].teacherId) != userId
    ensures status == 400 <==> old(Owns(db.Snapshot(), userId, courseId))
                               && (Blank(email) || old(AlreadyEnrolled(db.Snapshot(), email.value, courseId)))
    ensures status == 500 <==> old(Owns(db.Snapshot(), userId, courseId)) && !Blank(email)
                               && !old(StudentExists(db.users, email.value))
                               && old(UserClash(db.users, AddedStudent(email.value, name, courseId)))
    ensures status != 201 ==> unchanged(db)
    ensures status == 201 && created ==>
      && !Blank(email) && !old(StudentExists(db.users, email.value))
      && studentId == old(db.nextId) && db.nextId == studentId + 2
      && db.Snapshot() == WithEnrollment(WithUser(old(db.Snapshot()), studentId, AddedStudent(email.value, name, courseId)),
                                         studentId + 1, studentId, courseId)
    ensures status == 201 && !created ==>
      && !Blank(email) && old(IsStudentWith(db.users, studentId, email.value))
      && !old(IsEnrolled(db.enrollments, studentId, courseId))
      && db.nextId == old(db.nextId) + 1
      && db.Snapshot() == WithEnrollment(old(db.Snapshot()), old(db.nextId), studentId, courseId)
  {
    if courseId !in db.courses {
      return 404, 0, false;
    }
    if db.courses[courseId].teacherId != userId {
      return 403, 0, false;
    }
    if email.None? || email.value == [] {
      return 400, 0, false;
    }
    var address := email.value;
    var found := FindStudent(db.users, address);
    if found.Some? {
      var sid := found.value;
      AlreadyEnrolledIff(db.Snapshot(), address, courseId, sid);
      var existing := FindEnrollment(db.enrollments, sid, courseId);
      if existing.Some? {
        return 400, sid, false;
      }
      Enroll(db, sid, courseId);
      return 201, sid, false;
    }
    // A student created here has no enrollment yet, so the check for an
    // existing one cannot succeed and is not repeated.
    var u := AddedStudent(address, name, courseId);
    if UserClash(db.users, u) {
      return 500, 0, false;
    }
    var sid := CreateAndEnroll(db, u, courseId);
    return 201, sid, true;
  }

  /** After a successful add the student is enrolled in the course, and
      exactly one enrollment row is new. */
  lemma AddedIsEnrolled(t: Tables, n: nat, studentId: nat, courseId: nat)
    requires KeysBelow(t, n)
    ensures IsEnrolled(WithEnrollment(t, n, studentId, courseId).enrollments, studentId, courseId)
    ensures |WithEnrollment(t, n, studentId, courseId).enrollments| == |t.enrollments| + 1
  {
    FreshKey(t, n);
    var r := WithEnrollment(t, n, studentId, courseId);
    assert r.enrollments[n] == Enrollment(studentId, courseId);
    assert r.enrollments.Keys == t.enrollments.Keys + {n};
  }

  // ---------------------------------------------------------------------------
  // Adding a list of students

  /** One element of the uploaded list; `name` is `None` when the key is
      absent and `Some(None)` when it is null. */
  datatype StudentInfo = StudentInfo(email: Option<string>, name: Option<Option<string>>)

  /** The session while the list is processed: the tables as the queries see
      them (pending rows are flushed before each query), the next key, and
      the number of enrollments added so far. */
  datatype Pending = Pending(t: Tables, next: nat, added: nat)

  /** The name of a student created by the bulk add: the name sent, even an
      empty one, and the email's local part only when the key is absent. */
  function BulkName(info: StudentInfo, email: string): Option<string> {
    if info.name.Some? then info.name.value else Some(LocalPart(email))
  }

  /** The student the bulk add creates; its Google id is made of the email alone. */
  function BulkStudent(email: string, name: string): User {
    ManualStudent(email, name, "manual_" + email)
  }

  /** The session after enrolling user `k` under the next key. */
  function Enrolled(p: Pending, k: nat, courseId: nat): Pending {
    Pending(WithEnrollment(p.t, p.next, k, courseId), p.next + 1, p.added + 1)
  }

  /** The session after creating `u` under the next key. */
  function Created(p: Pending, u: User): Pending {
    Pending(WithUser(p.t, p.next, u), p.next + 1, p.added)
  }

  /** The session after creating `u` under the next key and enrolling it
      under the key after. */
  function CreatedEnrolled(p: Pending, u: User, courseId: nat): Pending {
    Enrolled(Created(p, u), p.next, courseId)
  }

  /** One element of the list processed: skipped without an email, enrolled
      when not yet enrolled, created first when no student has the email.
      `None` is a failed insert (a null name, or a clash on a unique column),
      which aborts the request. */
  ghost function AddInfo(p: Pending, courseId: nat, info: StudentInfo): Option<Pending> {
    if Blank(info.email) then Some(p)
    else
      var email := info.email.value;
      if StudentExists(p.t.users, email) then
        var k := StudentKey(p.t.users, email);
        if IsEnrolled(p.t.enrollments, k, courseId) then Some(p) else Some(Enrolled(p, k, courseId))
      else
        var name := BulkName(info, email);
        if name.None? || UserClash(p.t.users, BulkStudent(email, name.value)) then None
        else Some(CreatedEnrolled(p, BulkStudent(email, name.value), courseId))
  }

  /** The whole list processed in order; `None` if any element aborts. */
  ghost function BulkRun(p: Pending, courseId: nat, infos: seq<StudentInfo>): Option<Pending>
    decreases |infos|
  {
    if infos == [] then Some(p)
    else
      match AddInfo(p, courseId, infos[0])
      case None => None
      case Some(q) => BulkRun(q, courseId, infos[1..])
  }

  /** The session is consistent: the schema's invariants hold, the keys are
      below the counter, and the course exists. */
  ghost predicate Consistent(p: Pending, courseId: nat) {
    Valid(p.t) && KeysBelow(p.t, p.next) && courseId in p.t.courses
  }

  /** Rows are only added: every user and enrollment of `p` is in `q`
      unchanged, each new enrollment is for the course, and the counter grew
      by the number of new enrollments. */
  ghost predicate Grows(p: Pending, q: Pending, courseId: nat) {
    && (forall k :: k in p.t.users ==> k in q.t.users && q.t.users[k] == p.t.users[k])
    && (forall k :: k in p.t.enrollments ==> k in q.t.enrollments && q.t.enrollments[k] == p.t.enrollments[k])
    && (forall k :: k in q.t.enrollments && k !in p.t.enrollments ==> q.t.enrollments[k].courseId == courseId)
    && |q.t.enrollments| == |p.t.enrollments| + (q.added - p.added)
    && p.added <= q.added
  }

  lemma EnrolledGrows(p: Pending, k: nat, courseId: nat)
    requires KeysBelow(p.t, p.next)
    ensures KeysBelow(Enrolled(p, k, courseId).t, p.next + 1)
    ensures Grows(p, Enrolled(p, k, courseId), courseId)
    ensures IsEnrolled(Enrolled(p, k, courseId).t.enrollments, k, courseId)
  {
    FreshKey(p.t, p.next);
    var q := Enrolled(p, k, courseId);
    AddedIsEnrolled(p.t, p.next, k, courseId);
    assert Keys(q.t) <= Keys(p.t) + {p.next};
    KeysBelowAfter(p.t, q.t, p.next + 1, p.next);
  }

  lemma CreatedGrows(p: Pending, u: User, courseId: nat)
    requires KeysBelow(p.t, p.next)
    ensures KeysBelow(Created(p, u).t, p.next + 1)
    ensures Grows(p, Created(p, u), courseId)
    ensures p.next in Created(p, u).t.users && Created(p, u).t.users[p.next] == u
  {
    FreshKey(p.t, p.next);
    var q := Created(p, u);
    assert Keys(q.t) <= Keys(p.t) + {p.next};
    KeysBelowAfter(p.t, q.t, p.next + 1, p.next);
  }

  /** One element keeps the keys below the counter, only adds rows, counts
      each enrollment it adds, and leaves the student with the element's
      email enrolled. */
  lemma AddInfoGrows(p: Pending, courseId: nat, info: StudentInfo)
    requires KeysBelow(p.t, p.next)
    ensures AddInfo(p, courseId, info).Some? ==>
      && KeysBelow(AddInfo(p, courseId, info).value.t, AddInfo(p, courseId, info).value.next)
      && Grows(p, AddInfo(p, courseId, info).value, courseId)
      && (!Blank(info.email) ==> AlreadyEnrolled(AddInfo(p, courseId, info).value.t, info.email.value, courseId))
  {
    if !Blank(info.email) && AddInfo(p, courseId, info).Some? {
      var email := info.email.value;
      if StudentExists(p.t.users, email) {
        var k := StudentKey(p.t.users, email);
        if !IsEnrolled(p.t.enrollments, k, courseId) {
          EnrolledGrows(p, k, courseId);
          assert IsStudentWith(Enrolled(p, k, courseId).t.users, k, email);
        }
      } else {
        var u := BulkStudent(email, BulkName(info, email).value);
        CreatedGrows(p, u, courseId);
        EnrolledGrows(Created(p, u), p.next, courseId);
        GrowsTransitive(p, Created(p, u), CreatedEnrolled(p, u, courseId), courseId);
        assert IsStudentWith(CreatedEnrolled(p, u, courseId).t.users, p.next, email);
      }
    }
  }

  lemma EnrolledConsistent(p: Pending, k: nat, courseId: nat)
    requires Consistent(p, courseId) && k in p.t.users && !IsEnrolled(p.t.enrollments, k, courseId)
    ensures Consistent(Enrolled(p, k, courseId), courseId)
  {
    EnrollKeepsValid(p.t, p.next, k, courseId);
  }

  lemma CreatedEnrolledConsistent(p: Pending, u: User, courseId: nat)
    requires Consistent(p, courseId) && !UserClash(p.t.users, u)
    ensures Consistent(CreatedEnrolled(p, u, courseId), courseId)
  {
    CreateAndEnrollKeepsValid(p.t, p.next, u, courseId);
    var q := CreatedEnrolled(p, u, courseId);
    assert q.t == WithEnrollment(WithUser(p.t, p.next, u), p.next + 1, p.next, courseId);
    assert q.next == p.next + 2;
  }

  /** One element keeps the session consistent. */
  lemma AddInfoConsistent(p: Pending, courseId: nat, info: StudentInfo)
    requires Consistent(p, courseId)
    ensures AddInfo(p, courseId, info).Some? ==> Consistent(AddInfo(p, courseId, info).value, courseId)
  {
    if !Blank(info.email) && AddInfo(p, courseId, info).Some? {
      var email := info.email.value;
      if StudentExists(p.t.users, email) {
        var k := StudentKey(p.t.users, email);
        if !IsEnrolled(p.t.enrollments, k, courseId) {
          EnrolledConsistent(p, k, courseId);
        }
      } else {
        CreatedEnrolledConsistent(p, BulkStudent(email, BulkName(info, email).value), courseId);
      }
    }
  }

  lemma GrowsTransitive(p: Pending, q: Pending, r: Pending, courseId: nat)
    requires Grows(p, q, courseId) && Grows(q, r, courseId)
    ensures Grows(p, r, courseId)
  {
  }

  /** Rows that only grow keep a student enrolled. */
  lemma GrowsKeepsEnrolled(p: Pending, q: Pending, courseId: nat, email: string)
    requires Grows(p, q, courseId) && AlreadyEnrolled(p.t, email, courseId)
    ensures AlreadyEnrolled(q.t, email, courseId)
  {
    var k :| k in p.t.users && IsStudentWith(p.t.users, k, email) && IsEnrolled(p.t.enrollments, k, courseId);
    var e :| e in p.t.enrollments && p.t.enrollments[e] == Enrollment(k, courseId);
    assert q.t.enrollments[e] == Enrollment(k, courseId);
    assert q.t.users[k] == p.t.users[k];
    assert IsStudentWith(q.t.users, k, email);
  }

  /** A bulk add that succeeds keeps the database consistent; since the
      result is valid, no enrollment is duplicated. */
  lemma {:induction false} BulkConsistent(p: Pending, courseId: nat, infos: seq<StudentInfo>)
    requires Consistent(p, courseId)
    ensures BulkRun(p, courseId, infos).Some? ==> Consistent(BulkRun(p, courseId, infos).value, courseId)
    decreases |infos|
  {
    if infos != [] && AddInfo(p, courseId, infos[0]).Some? {
      AddInfoConsistent(p, courseId, infos[0]);
      BulkConsistent(AddInfo(p, courseId, infos[0]).value, courseId, infos[1..]);
    }
  }

  /** A bulk add that succeeds only adds rows, and `added` is exactly the
      number of enrollments it created, all for the course. */
  lemma {:induction false} BulkGrows(p: Pending, courseId: nat, infos: seq<StudentInfo>)
    requires KeysBelow(p.t, p.next)
    ensures BulkRun(p, courseId, infos).Some? ==>
      KeysBelow(BulkRun(p, courseId, infos).value.t, BulkRun(p, courseId, infos).value.next)
      && Grows(p, BulkRun(p, courseId, infos).value, courseId)
    decreases |infos|
  {
    if infos != [] && AddInfo(p, courseId, infos[0]).Some? {
      var q := AddInfo(p, courseId, infos[0]).value;
      AddInfoGrows(p, courseId, infos[0]);
      BulkGrows(q, courseId, infos[1..]);
      if BulkRun(q, courseId, infos[1..]).Some? {
        GrowsTransitive(p, q, BulkRun(q, courseId, infos[1..]).value, courseId);
      }
    }
  }

  /** After a bulk add that succeeds, every element with an email has its
      student enrolled in the course. */
  lemma {:induction false} BulkEnrollsEach(p: Pending, courseId: nat, infos: seq<StudentInfo>)
    requires KeysBelow(p.t, p.next)
    ensures BulkRun(p, courseId, infos).Some? ==>
      forall i :: 0 <= i < |infos| && !Blank(infos[i].email) ==>
        AlreadyEnrolled(BulkRun(p, courseId, infos).value.t, infos[i].email.value, courseId)
    decreases |infos|
  {
    if infos != [] && BulkRun(p, courseId, infos).Some? {
      var q := AddInfo(p, courseId, infos[0]).value;
      var r := BulkRun(p, courseId, infos).value;
      AddInfoGrows(p, courseId, infos[0]);
      BulkEnrollsEach(q, courseId, infos[1..]);
      BulkGrows(q, courseId, infos[1..]);
      forall i | 0 <= i < |infos| && !Blank(infos[i].email)
        ensures AlreadyEnrolled(r.t, infos[i].email.value, courseId)
      {
        if i == 0 {
          GrowsKeepsEnrolled(q, r, courseId, infos[0].email.value);
        } else {
          assert infos[i] == infos[1..][i - 1];
        }
      }
    }
  }

  /** Elements without an email are skipped: removing one does not change the
      outcome. */
  lemma {:induction false} BulkSkipsBlank(p: Pending, courseId: nat, infos: seq<StudentInfo>, i: nat)
    requires i < |infos| && Blank(infos[i].email)
    ensures BulkRun(p, courseId, infos) == BulkRun(p, courseId, infos[..i] + infos[i + 1..])
    decreases i
  {
    var rest := infos[..i] + infos[i + 1..];
    if i == 0 {
      assert rest == infos[1..];
    } else {
      assert rest[0] == infos[0];
      assert rest[1..] == infos[1..][..i - 1] + infos[1..][i..];
      match AddInfo(p, courseId, infos[0]) {
        case None =>
        case Some(q) => BulkSkipsBlank(q, courseId, infos[1..], i - 1);
      }
    }
  }

  /** One element of the list, processed against the session as the handler
      does it. */
  method AddInfoOnce(p: Pending, courseId: nat, info: StudentInfo) returns (r: Option<Pending>)
    requires UniqueUsers(p.t.users)
    ensures r == AddInfo(p, courseId, info)
  {
    if info.email.None? || info.email.value == [] {
      return Some(p);
    }
    var email := info.email.value;
    var found := FindStudent(p.t.users, email);
    if found.Some? {
      var sid := found.value;
      StudentKeyUnique(p.t.users, email, sid);
      var existing := FindEnrollment(p.t.enrollments, sid, courseId);
      if existing.Some? {
        return Some(p);
      }
      return Some(Enrolled(p, sid, courseId));
    }
    var name := BulkName(info, email);
    if name.None? {
      return None;
    }
    var u := BulkStudent(email, name.value);
    if UserClash(p.t.users, u) {
      return None;
    }
    return Some(CreatedEnrolled(p, u, courseId));
  }

  /** The loop over the uploaded list, against the session. */
  method RunBulk(p: Pending, courseId: nat, infos: seq<StudentInfo>) returns (r: Option<Pending>)
    requires Consistent(p, courseId)
    ensures r == BulkRun(p, courseId, infos)
  {
    var q := p;
    var i := 0;
    while i < |infos|
      invariant 0 <= i <= |infos|
      invariant Consistent(q, courseId)
      invariant BulkRun(p, courseId, infos) == BulkRun(q, courseId, infos[i..])
    {
      assert infos[i..][1..] == infos[i + 1..];
      AddInfoConsistent(q, courseId, infos[i]);
      var next := AddInfoOnce(q, courseId, infos[i]);
      if next.None? {
        return None;
      }
      q := next.value;
      i := i + 1;
    }
    return Some(q);
  }

  /** POST of a list of students to a course by its teacher. The rows are
      committed together at the end; a failed insert on any element aborts
      the request with nothing stored. */
  method BulkAddStudents(db: Db, userId: nat, courseId: nat, infos: seq<StudentInfo>) returns (status: int, added: nat)
    requires db.Valid() && userId in db.users && db.users[userId].role == Teacher
    modifies db
    ensures db.Valid()
    ensures status in {201, 403, 404, 500}
    ensures status == 404 <==> courseId !in old(db.courses)
    ensures status == 403 <==> courseId in old(db.courses) && old(db.courses[courseId].teacherId) != userId
    ensures status == 500 <==> old(Owns(db.Snapshot(), userId, courseId))
                               && BulkRun(Pending(old(db.Snapshot()), old(db.nextId), 0), courseId, infos).None?
    ensures status != 201 ==> unchanged(db)
    ensures status == 201 ==>
      BulkRun(Pending(old(db.Snapshot()), old(db.nextId), 0), courseId, infos) == Some(Pending(db.Snapshot(), db.nextId, added))
  {
    if courseId !in db.courses {
      return 404, 0;
    }
    if db.courses[courseId].teacherId != userId {
      return 403, 0;
    }
    var p := Pending(db.Snapshot(), db.nextId, 0);
    var r := RunBulk(p, courseId, infos);
    if r.None? {
      return 500, 0;
    }
    BulkConsistent(p, courseId, infos);
    db.Commit(r.value.t, r.value.next);
    status, added := 201, r.value.added;
  }

  // ---------------------------------------------------------------------------
  // Removing a student

  /** Deleting an enrollment row leaves that student unenrolled from that
      course, and every other row in place. */
  lemma DropUnenrolls(t: Tables, key: nat)
    requires Valid(t) && key in t.enrollments
    ensures !IsEnrolled(t.enrollments - {key}, t.enrollments[key].studentId, t.enrollments[key].courseId)
    ensures |t.enrollments - {key}| == |t.enrollments| - 1
  {
    var e := t.enrollments[key];
    forall k | k in t.enrollments - {key} ensures t.enrollments[k] != e {
      assert k != key;
    }
  }

  /** DELETE of a student's enrollment by the course's teacher: 404 when the
      course or the enrollment does not exist. */
  method RemoveStudent(db: Db, userId: nat, studentId: nat, courseId: nat) returns (status: int, ghost key: nat)
    requires db.Valid() && userId in db.users && db.users[userId].role == Teacher
    modifies db
    ensures db.Valid()
    ensures status in {200, 403, 404}
    ensures status == 403 <==> courseId in old(db.courses) && old(db.courses[courseId].teacherId) != userId
    ensures status == 404 <==> courseId !in old(db.courses)
                               || (old(Owns(db.Snapshot(), userId, courseId)) && !old(IsEnrolled(db.enrollments, studentId, courseId)))
    ensures status != 200 ==> unchanged(db)
    ensures status == 200 ==>
      && key in old(db.enrollments) && old(db.enrollments[key]) == Enrollment(studentId, courseId)
      && db.nextId == old(db.nextId)
      && db.Snapshot() == old(db.Snapshot()).(enrollments := old(db.enrollments) - {key})
      && !IsEnrolled(db.enrollments, studentId, courseId)
  {
    if courseId !in db.courses {
      return 404, 0;
    }
    if db.courses[courseId].teacherId != userId {
      return 403, 0;
    }
    var found := FindEnrollment(db.enrollments, studentId, courseId);
    if found.None? {
      return 404, 0;
    }
    var k := found.value;
    ghost var t := db.Snapshot();
    DropEnrollment(t, db.nextId, k);
    DropUnenrolls(t, k);
    db.enrollments := db.enrollments - {k};
    key := k;
    status := 200;
  }
}

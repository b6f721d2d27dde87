/** The reflection endpoints: viewing a reflection (which creates the
    student's submission on first view), submitting with the deadline check
    and the feedback fallback, the teacher's partial update of a submission,
    and the student dashboard of open reflections. */
module Reflections {
  import opened Common
  import opened Models
  import opened Store

  /** The feedback stored when the feedback generator fails. */
  const FallbackFeedback: string := "Thank you for your thoughtful reflection. Keep up the great work!"

  /** A submission is refused once the reflection has a due date earlier than now. */
  predicate PastDue(dueDate: Option<int>, now: int) {
    dueDate.Some? && dueDate.value < now
  }

  /** What a student is shown of their own submission. */
  datatype SubmissionView = SubmissionView(
    id: nat,
    content: Option<string>,
    submitted: bool,
    submittedAt: Option<int>,
    feedback: Option<string>)

  /** The student's view of a submission: the feedback is withheld until the
      teacher sets `display_feedback`. */
  function ViewOf(id: nat, s: Submission): (v: SubmissionView)
    ensures v.id == id && v.content == s.content && v.submittedAt == s.submittedAt
    ensures v.submitted <==> s.submittedAt.Some?
    ensures v.feedback.Some? ==> s.displayFeedback
    ensures s.displayFeedback ==> v.feedback == s.aiFeedback
  {
    SubmissionView(id, s.content, s.submittedAt.Some?, s.submittedAt, if s.displayFeedback then s.aiFeedback else None)
  }

  /** The query for the student's submission row for a reflection: the key of
      a matching row when there is one. */
  method FindSubmission(submissions: map<nat, Submission>, reflectionId: nat, studentId: nat) returns (found: Option<nat>)
    ensures found.None? <==> !HasSubmission(submissions, reflectionId, studentId)
    ensures found.Some? ==> found.value in submissions && SubmissionFor(submissions[found.value], reflectionId, studentId)
  {
    if exists k :: k in submissions && SubmissionFor(submissions[k], reflectionId, studentId) {
      var key :| key in submissions && SubmissionFor(submissions[key], reflectionId, studentId);
      found := Some(key);
    } else {
      found := None;
    }
  }

  /** GET of one reflection. A student who has no submission row for it gets
      one created (all columns at their defaults); a teacher sees no submission. */
  method GetReflection(db: Db, userId: nat, reflectionId: nat) returns (status: int, view: Option<SubmissionView>)
    requires db.Valid() && userId in db.users
    modifies db
    ensures db.Valid()
    ensures status == (if reflectionId in old(db.reflections) then 200 else 404)
    ensures view.Some? <==> status == 200 && old(db.users[userId].role) == Student
    ensures view.None? || old(HasSubmission(db.submissions, reflectionId, userId)) ==> unchanged(db)
    ensures view.Some? ==>
      && view.value.id in db.submissions
      && SubmissionFor(db.submissions[view.value.id], reflectionId, userId)
      && view.value == ViewOf(view.value.id, db.submissions[view.value.id])
    ensures view.Some? && !old(HasSubmission(db.submissions, reflectionId, userId)) ==>
      && view.value.id !in old(db.submissions)
      && db.Snapshot() == old(db.Snapshot()).(submissions := old(db.submissions)[view.value.id := NewSubmission(reflectionId, userId)])
  {
    if reflectionId !in db.reflections {
      return 404, None;
    }
    status := 200;
    if db.users[userId].role != Student {
      return 200, None;
    }
    var id: nat;
    var found := FindSubmission(db.submissions, reflectionId, userId);
    if found.Some? {
      id := found.value;
    } else {
      ghost var t := db.Snapshot();
      id := db.nextId;
      FreshKey(t, id);
      PutSubmission(t, id + 1, id, NewSubmission(reflectionId, userId));
      db.submissions := db.submissions[id := NewSubmission(reflectionId, userId)];
      db.nextId := db.nextId + 1;
    }
    view := Some(ViewOf(id, db.submissions[id]));
  }

  /** The feedback stored with a submission: the generated text, or the
      fixed fallback when generation failed. */
  function FeedbackText(generated: Option<string>): (r: string)
    ensures generated.Some? ==> r == generated.value
    ensures generated.None? ==> r == FallbackFeedback
  {
    generated.GetOr(FallbackFeedback)
  }

  /** A submission row after the student submits: content, time and feedback
      are set; the keys, the score and the visibility flag stay. */
  function WithAnswer(s: Submission, content: Option<string>, now: int, generated: Option<string>): (r: Submission)
    ensures r.reflectionId == s.reflectionId && r.studentId == s.studentId
    ensures r.score == s.score && r.displayFeedback == s.displayFeedback
    ensures r.content == content && r.submittedAt == Some(now)
    ensures r.aiFeedback == Some(FeedbackText(generated))
  {
    s.(content := content, submittedAt := Some(now), aiFeedback := Some(FeedbackText(generated)))
  }

  /** POST of a submission by the signed-in student. `generated` is the
      outcome of the feedback generator: its text, or `None` when it failed.
      The row written is the student's existing one, or a new one under a
      fresh key. */
  method SubmitReflection(db: Db, userId: nat, reflectionId: nat, content: Option<string>, now: int,
                          generated: Option<string>)
    returns (status: int, ghost id: nat, ghost before: Submission)
    requires db.Valid() && userId in db.users && db.users[userId].role == Student
    modifies db
    ensures db.Valid()
    ensures status in {200, 403, 404}
    ensures status == 404 <==> reflectionId !in old(db.reflections)
    ensures status == 403 <==> reflectionId in old(db.reflections) && PastDue(old(db.reflections[reflectionId].dueDate), now)
    ensures status != 200 ==> unchanged(db)
    ensures status == 200 ==>
      && SubmissionFor(before, reflectionId, userId)
      && (id in old(db.submissions) ==> before == old(db.submissions[id]))
      && (id !in old(db.submissions) ==> before == NewSubmission(reflectionId, userId) && !old(HasSubmission(db.submissions, reflectionId, userId)))
      && db.Snapshot() == old(db.Snapshot()).(submissions := old(db.submissions)[id := WithAnswer(before, content, now, generated)])
  {
    if reflectionId !in db.reflections {
      return 404, 0, NewSubmission(reflectionId, userId);
    }
    var reflection := db.reflections[reflectionId];
    if reflection.dueDate.Some? && reflection.dueDate.value < now {
      return 403, 0, NewSubmission(reflectionId, userId);
    }
    ghost var t := db.Snapshot();
    var key: nat;
    var submission: Submission;
    var found := FindSubmission(db.submissions, reflectionId, userId);
    if found.Some? {
      key := found.value;
      assert key in Keys(t);
      submission := db.submissions[key];
    } else {
      key := db.nextId;
      FreshKey(t, key);
      db.nextId := db.nextId + 1;
      submission := NewSubmission(reflectionId, userId);
    }
    before := submission;
    var feedback := if generated.Some? then generated.value else FallbackFeedback;
    submission := submission.(content := content, submittedAt := Some(now), aiFeedback := Some(feedback));
    PutSubmission(t, db.nextId, key, submission);
    db.submissions := db.submissions[key := submission];
    status, id := 200, key;
  }

  /** The request body of a teacher's update: each field is `None` when its key
      is absent, and otherwise carries the value sent. */
  datatype SubmissionPatch = SubmissionPatch(
    score: Option<Option<real>>,
    displayFeedback: Option<bool>,
    aiFeedback: Option<Option<string>>)

  /** The teacher of the course a submission belongs to. */
  function OwnerOf(t: Tables, submissionId: nat): nat
    requires Models.Valid(t) && submissionId in t.submissions
  {
    t.courses[t.reflections[t.submissions[submissionId].reflectionId].courseId].teacherId
  }

  /** A submission after a teacher's update: the fields the body names take
      the values sent, everything else, the keys included, stays. */
  function Patched(s: Submission, patch: SubmissionPatch): (r: Submission)
    ensures r.reflectionId == s.reflectionId && r.studentId == s.studentId
    ensures r.content == s.content && r.submittedAt == s.submittedAt
    ensures r.score == (if patch.score.Some? then patch.score.value else s.score)
    ensures r.displayFeedback == (if patch.displayFeedback.Some? then patch.displayFeedback.value else s.displayFeedback)
    ensures r.aiFeedback == (if patch.aiFeedback.Some? then patch.aiFeedback.value else s.aiFeedback)
  {
    s.(score := patch.score.GetOr(s.score),
       displayFeedback := patch.displayFeedback.GetOr(s.displayFeedback),
       aiFeedback := patch.aiFeedback.GetOr(s.aiFeedback))
  }

  /** An update with an empty body changes nothing. */
  lemma EmptyPatchIsIdentity(s: Submission)
    ensures Patched(s, SubmissionPatch(None, None, None)) == s
  {
  }

  /** Applying the same update twice is the same as applying it once. */
  lemma PatchIdempotent(s: Submission, patch: SubmissionPatch)
    ensures Patched(Patched(s, patch), patch) == Patched(s, patch)
  {
  }

  /** PUT of a submission's score, feedback visibility and feedback text by the
      teacher who owns the course. */
  method UpdateSubmission(db: Db, userId: nat, submissionId: nat, patch: SubmissionPatch) returns (status: int)
    requires db.Valid() && userId in db.users && db.users[userId].role == Teacher
    modifies db
    ensures db.Valid()
    ensures status in {200, 403, 404}
    ensures status == 404 <==> submissionId !in old(db.submissions)
    ensures status == 403 <==> submissionId in old(db.submissions) && OwnerOf(old(db.Snapshot()), submissionId) != userId
    ensures status != 200 ==> unchanged(db)
    ensures status == 200 ==>
      && db.nextId == old(db.nextId)
      && db.Snapshot() == old(db.Snapshot()).(submissions := old(db.submissions)[submissionId := Patched(old(db.submissions[submissionId]), patch)])
  {
    if submissionId !in db.submissions {
      return 404;
    }
    var submission := db.submissions[submissionId];
    var reflection := db.reflections[submission.reflectionId];
    var course := db.courses[reflection.courseId];
    if course.teacherId != userId {
      return 403;
    }
    ghost var t := db.Snapshot();
    if patch.score.Some? {
      submission := submission.(score := patch.score.value);
    }
    if patch.displayFeedback.Some? {
      submission := submission.(displayFeedback := patch.displayFeedback.value);
    }
    if patch.aiFeedback.Some? {
      submission := submission.(aiFeedback := patch.aiFeedback.value);
    }
    assert submission == Patched(t.submissions[submissionId], patch);
    assert submissionId in Keys(t);
    PutSubmission(t, db.nextId, submissionId, submission);
    db.submissions := db.submissions[submissionId := submission];
    status := 200;
  }

  // ---------------------------------------------------------------------------
  // Student dashboard

  /** One line of the dashboard. */
  datatype DashboardItem = DashboardItem(
    reflectionId: nat,
    reflectionName: string,
    courseName: string,
    courseCode: Option<string>,
    dueDate: Option<int>,
    isOverdue: bool)

  /** The student has a submission for the reflection that has been submitted. */
  predicate Submitted(submissions: map<nat, Submission>, reflectionId: nat, studentId: nat) {
    exists k :: k in submissions && SubmissionFor(submissions[k], reflectionId, studentId) && submissions[k].submittedAt.Some?
  }

  /** A reflection the dashboard lists once its course is one of the student's:
      it has a due date, that date is now or later, and the student has not
      submitted. */
  predicate Listable(t: Tables, studentId: nat, now: int, reflectionId: nat) {
    && reflectionId in t.reflections
    && t.reflections[reflectionId].dueDate.Some?
    && t.reflections[reflectionId].dueDate.value >= now
    && !Submitted(t.submissions, reflectionId, studentId)
  }

  /** A reflection the dashboard lists: listable, in one of the student's courses. */
  predicate Open(t: Tables, studentId: nat, now: int, reflectionId: nat) {
    && Listable(t, studentId, now, reflectionId)
    && IsEnrolled(t.enrollments, studentId, t.reflections[reflectionId].courseId)
  }

  function OpenReflections(t: Tables, studentId: nat, now: int): set<nat> {
    set k | k in t.reflections && Open(t, studentId, now, k)
  }

  /** The dashboard line of a reflection. */
  function ItemOf(t: Tables, reflectionId: nat, now: int): (item: DashboardItem)
    requires reflectionId in t.reflections && t.reflections[reflectionId].courseId in t.courses
    ensures item.reflectionId == reflectionId && item.dueDate == t.reflections[reflectionId].dueDate
    ensures item.isOverdue <==> item.dueDate.Some? && item.dueDate.value < now
    ensures item.reflectionName == t.reflections[reflectionId].name
    ensures item.courseName == t.courses[t.reflections[reflectionId].courseId].name
    ensures item.courseCode == t.courses[t.reflections[reflectionId].courseId].courseCode
  {
    var r := t.reflections[reflectionId];
    var c := t.courses[r.courseId];
    DashboardItem(reflectionId, r.name, c.name, c.courseCode, r.dueDate, r.dueDate.Some? && r.dueDate.value < now)
  }

  function ListedIds(items: seq<DashboardItem>): set<nat> {
    set i | 0 <= i < |items| :: items[i].reflectionId
  }

  /** `sort_by` absent or `'dates'` sorts by due date; any other value by course. */
  predicate ByDates(sortBy: Option<string>) {
    sortBy.None? || sortBy.value == "dates"
  }

  /** The sort key order: the due date (a missing one sorts first, as its key
      is the empty string), or the pair (course name, reflection name). */
  predicate Precedes(a: DashboardItem, b: DashboardItem, byDates: bool) {
    if byDates then a.dueDate.None? || (b.dueDate.Some? && a.dueDate.value <= b.dueDate.value)
    else StrLe(a.courseName, b.courseName) && (a.courseName == b.courseName ==> StrLe(a.reflectionName, b.reflectionName))
  }

  lemma PrecedesTotal(a: DashboardItem, b: DashboardItem, byDates: bool)
    ensures Precedes(a, b, byDates) || Precedes(b, a, byDates)
  {
    StrLeTotal(a.courseName, b.courseName);
    StrLeTotal(a.reflectionName, b.reflectionName);
  }

  lemma PrecedesTransitive(a: DashboardItem, b: DashboardItem, c: DashboardItem, byDates: bool)
    requires Precedes(a, b, byDates) && Precedes(b, c, byDates)
    ensures Precedes(a, c, byDates)
  {
    if !byDates {
      StrLeTransitive(a.courseName, b.courseName, c.courseName);
      if a.courseName == c.courseName {
        StrLeAntisymmetric(a.courseName, b.courseName);
        StrLeTransitive(a.reflectionName, b.reflectionName, c.reflectionName);
      }
    }
  }

  predicate SortedBy(items: seq<DashboardItem>, byDates: bool) {
    forall i, j :: 0 <= i < j < |items| ==> Precedes(items[i], items[j], byDates)
  }

  /** Putting in front an item that precedes every element keeps a sequence sorted. */
  lemma SortedCons(y: DashboardItem, s: seq<DashboardItem>, byDates: bool)
    requires SortedBy(s, byDates)
    requires forall z :: z in s ==> Precedes(y, z, byDates)
    ensures SortedBy([y] + s, byDates)
  {
    var r := [y] + s;
    forall i, j | 0 <= i < j < |r| ensures Precedes(r[i], r[j], byDates) {
      if i == 0 {
        assert r[j] == s[j - 1];
      } else {
        assert r[i] == s[i - 1] && r[j] == s[j - 1];
      }
    }
  }

  /** The head of a sorted sequence precedes every element, and so does
      anything that precedes the head. */
  lemma PrecedesSorted(y: DashboardItem, s: seq<DashboardItem>, byDates: bool)
    requires SortedBy(s, byDates) && s != [] && Precedes(y, s[0], byDates)
    ensures forall z :: z in s ==> Precedes(y, z, byDates)
  {
    forall z | z in s ensures Precedes(y, z, byDates) {
      var j :| 0 <= j < |s| && s[j] == z;
      if j > 0 {
        PrecedesTransitive(y, s[0], s[j], byDates);
      }
    }
  }

  /** Insertion into a sorted sequence. */
  function Insert(x: DashboardItem, s: seq<DashboardItem>, byDates: bool): (r: seq<DashboardItem>)
    requires SortedBy(s, byDates)
    ensures SortedBy(r, byDates)
    ensures multiset(r) == multiset(s) + multiset{x}
  {
    if s == [] then [x]
    else if Precedes(x, s[0], byDates) then
      PrecedesSorted(x, s, byDates);
      SortedCons(x, s, byDates);
      [x] + s
    else
      PrecedesTotal(x, s[0], byDates);
      assert s == [s[0]] + s[1..];
      var rest := Insert(x, s[1..], byDates);
      assert forall z :: z in rest ==> z == x || z in s[1..] by {
        forall z | z in rest ensures z == x || z in s[1..] {
          assert z in multiset(rest);
        }
      }
      assert forall z :: z in s[1..] ==> Precedes(s[0], z, byDates) by {
        forall z | z in s[1..] ensures Precedes(s[0], z, byDates) {
          var j :| 0 <= j < |s[1..]| && s[1..][j] == z;
          assert s[j + 1] == z;
        }
      }
      SortedCons(s[0], rest, byDates);
      [s[0]] + rest
  }

  /** `dashboard_data.sort(key=...)`: a sorted permutation of the lines. */
  function SortItems(items: seq<DashboardItem>, byDates: bool): (r: seq<DashboardItem>)
    ensures SortedBy(r, byDates)
    ensures multiset(r) == multiset(items)
  {
    if items == [] then []
    else
      assert items == [items[0]] + items[1..];
      Insert(items[0], SortItems(items[1..], byDates), byDates)
  }

  /** Appending a line lists its reflection too; a line for a reflection not
      yet listed keeps every reflection listed once. */
  lemma ListedIdsAppend(items: seq<DashboardItem>, item: DashboardItem)
    ensures ListedIds(items + [item]) == ListedIds(items) + {item.reflectionId}
    ensures |items| == |ListedIds(items)| && item.reflectionId !in ListedIds(items)
            ==> |items + [item]| == |ListedIds(items + [item])|
  {
    assert forall i :: 0 <= i < |items| ==> (items + [item])[i] == items[i];
    assert (items + [item])[|items|] == item;
  }

  /** Reordering the lines lists the same reflections, as often. */
  lemma {:induction false} ListedPermutation(a: seq<DashboardItem>, b: seq<DashboardItem>)
    requires multiset(a) == multiset(b)
    ensures ListedIds(a) == ListedIds(b)
    ensures |a| == |b|
    ensures forall i :: 0 <= i < |b| ==> b[i] in a
  {
    assert |a| == |multiset(a)| == |b|;
    forall id | id in ListedIds(a) ensures id in ListedIds(b) {
      var i :| 0 <= i < |a| && a[i].reflectionId == id;
      assert a[i] in multiset(b);
      var j :| 0 <= j < |b| && b[j] == a[i];
    }
    forall id | id in ListedIds(b) ensures id in ListedIds(a) {
      var j :| 0 <= j < |b| && b[j].reflectionId == id;
      assert b[j] in multiset(a);
      var i :| 0 <= i < |a| && a[i] == b[j];
    }
    forall i | 0 <= i < |b| ensures b[i] in a {
      assert b[i] in multiset(a);
    }
  }

  /** Every line is the dashboard line of one of `ids`. */
  predicate LinesOf(t: Tables, now: int, ids: set<nat>, items: seq<DashboardItem>)
    requires forall k :: k in ids ==> k in t.reflections && t.reflections[k].courseId in t.courses
  {
    forall i :: 0 <= i < |items| ==> items[i].reflectionId in ids && items[i] == ItemOf(t, items[i].reflectionId, now)
  }

  lemma LinesOfAppend(t: Tables, now: int, ids: set<nat>, items: seq<DashboardItem>, id: nat)
    requires forall k :: k in ids ==> k in t.reflections && t.reflections[k].courseId in t.courses
    requires LinesOf(t, now, ids, items) && id in ids
    ensures LinesOf(t, now, ids, items + [ItemOf(t, id, now)])
  {
  }

  /** The reflections of `ids` that the dashboard lists. */
  function ListableIn(t: Tables, studentId: nat, now: int, ids: set<nat>): set<nat> {
    set k | k in ids && Listable(t, studentId, now, k)
  }

  /** Visiting one more reflection adds it exactly when it is listable. */
  lemma ListableInStep(t: Tables, studentId: nat, now: int, ids: set<nat>, id: nat)
    ensures ListableIn(t, studentId, now, ids + {id})
         == ListableIn(t, studentId, now, ids) + (if Listable(t, studentId, now, id) then {id} else {})
  {
  }

  /** With one row per (reflection, student), the row the query finds is
      submitted exactly when the student has submitted. */
  lemma FoundSubmitted(submissions: map<nat, Submission>, reflectionId: nat, studentId: nat, found: Option<nat>)
    requires UniqueSubmissions(submissions)
    requires found.None? <==> !HasSubmission(submissions, reflectionId, studentId)
    requires found.Some? ==> found.value in submissions && SubmissionFor(submissions[found.value], reflectionId, studentId)
    ensures (found.Some? && submissions[found.value].submittedAt.Some?) <==> Submitted(submissions, reflectionId, studentId)
  {
    if Submitted(submissions, reflectionId, studentId) {
      var k :| k in submissions && SubmissionFor(submissions[k], reflectionId, studentId) && submissions[k].submittedAt.Some?;
      assert SubmissionFor(submissions[found.value], submissions[k].reflectionId, submissions[k].studentId);
    }
  }

  /** The body of the dashboard loop for one reflection: a line when it is
      due now or later and the student's submission, if any, is not
      submitted. */
  method DashboardLine(t: Tables, studentId: nat, now: int, id: nat) returns (line: Option<DashboardItem>)
    requires UniqueSubmissions(t.submissions)
    requires id in t.reflections && t.reflections[id].courseId in t.courses
    ensures line.Some? <==> Listable(t, studentId, now, id)
    ensures line.Some? ==> line.value == ItemOf(t, id, now) && !line.value.isOverdue
  {
    var reflection := t.reflections[id];
    line := None;
    if reflection.dueDate.Some? && reflection.dueDate.value >= now {
      var submission := FindSubmission(t.submissions, id, studentId);
      var isSubmitted := submission.Some? && t.submissions[submission.value].submittedAt.Some?;
      FoundSubmitted(t.submissions, id, studentId, submission);
      if !isSubmitted || reflection.dueDate.value < now {
        var course := t.courses[reflection.courseId];
        line := Some(DashboardItem(id, reflection.name, course.name, course.courseCode,
                                   reflection.dueDate, reflection.dueDate.Some? && reflection.dueDate.value < now));
      }
    }
  }

  /** The loop over the reflections of the student's courses: one line for
      each that is listable, in the order visited. */
  method OpenItems(t: Tables, studentId: nat, now: int, reflections: set<nat>) returns (data: seq<DashboardItem>)
    requires UniqueSubmissions(t.submissions)
    requires forall k :: k in reflections ==> k in t.reflections && t.reflections[k].courseId in t.courses
    ensures ListedIds(data) == ListableIn(t, studentId, now, reflections)
    ensures |data| == |ListedIds(data)|
    ensures LinesOf(t, now, reflections, data)
  {
    var pending := reflections;
    data := [];
    while pending != {}
      invariant pending <= reflections
      invariant LinesOf(t, now, reflections, data)
      invariant ListedIds(data) == ListableIn(t, studentId, now, reflections - pending)
      invariant |data| == |ListedIds(data)|
      decreases pending
    {
      var id :| id in pending;
      var line := DashboardLine(t, studentId, now, id);
      ListableInStep(t, studentId, now, reflections - pending, id);
      assert reflections - (pending - {id}) == (reflections - pending) + {id};
      if line.Some? {
        assert id !in ListedIds(data);
        ListedIdsAppend(data, line.value);
        LinesOfAppend(t, now, reflections, data, id);
        data := data + [line.value];
      }
      pending := pending - {id};
    }
  }

  /** The reflections of the courses the student's enrollments name are
      those whose course the student is enrolled in; the listable ones among
      them are the open ones. */
  lemma CourseReflections(t: Tables, studentId: nat, now: int, courseIds: set<nat>, reflections: set<nat>)
    requires courseIds == set k | k in t.enrollments && t.enrollments[k].studentId == studentId :: t.enrollments[k].courseId
    requires reflections == set k | k in t.reflections && t.reflections[k].courseId in courseIds
    ensures ListableIn(t, studentId, now, reflections) == OpenReflections(t, studentId, now)
  {
    forall k | k in t.reflections && IsEnrolled(t.enrollments, studentId, t.reflections[k].courseId)
      ensures k in reflections
    {
      var e :| e in t.enrollments && t.enrollments[e] == Enrollment(studentId, t.reflections[k].courseId);
      assert t.enrollments[e].courseId in courseIds;
    }
    forall k | k in reflections
      ensures IsEnrolled(t.enrollments, studentId, t.reflections[k].courseId)
    {
      var e :| e in t.enrollments && t.enrollments[e].studentId == studentId && t.enrollments[e].courseId == t.reflections[k].courseId;
      assert t.enrollments[e] == Enrollment(studentId, t.reflections[k].courseId);
    }
  }

  /** GET of the student's dashboard: a line for every open reflection of the
      student's courses, each once, none overdue, sorted as `sort_by` asks. */
  method StudentDashboard(db: Db, userId: nat, now: int, sortBy: Option<string>) returns (items: seq<DashboardItem>)
    requires db.Valid() && userId in db.users && db.users[userId].role == Student
    ensures ListedIds(items) == OpenReflections(db.Snapshot(), userId, now)
    ensures |items| == |ListedIds(items)|
    ensures forall i :: 0 <= i < |items| ==>
      && Open(db.Snapshot(), userId, now, items[i].reflectionId)
      && items[i] == ItemOf(db.Snapshot(), items[i].reflectionId, now)
      && !items[i].isOverdue
    ensures SortedBy(items, ByDates(sortBy))
  {
    var t := db.Snapshot();
    var courseIds := set k | k in t.enrollments && t.enrollments[k].studentId == userId :: t.enrollments[k].courseId;
    var reflections := set k | k in t.reflections && t.reflections[k].courseId in courseIds;
    var data := OpenItems(t, userId, now, reflections);
    CourseReflections(t, userId, now, courseIds, reflections);
    items := SortItems(data, ByDates(sortBy));
    ListedPermutation(data, items);
    forall i | 0 <= i < |items|
      ensures Open(t, userId, now, items[i].reflectionId)
      ensures items[i] == ItemOf(t, items[i].reflectionId, now) && !items[i].isOverdue
    {
      var j :| 0 <= j < |data| && data[j] == items[i];
      assert items[i].reflectionId in ListedIds(data);
    }
  }
}

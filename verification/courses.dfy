/** The course endpoints: the role-dependent course list with its search and
    status filters, the access check on one course, course creation with its
    defaults, and the partial update of a course's configuration. */
module Courses {
  import opened Common
  import opened Models
  import opened Store

  // ---------------------------------------------------------------------------
  // Listing

  /** A course as the list returns it: its key and its row. */
  datatype CourseEntry = CourseEntry(id: nat, course: Course)

  /** Teachers see the courses they teach; students the courses they are
      enrolled in. */
  predicate Visible(t: Tables, userId: nat, role: Role, courseId: nat)
    requires courseId in t.courses
  {
    match role
    case Teacher => t.courses[courseId].teacherId == userId
    case Student => IsEnrolled(t.enrollments, userId, courseId)
  }

  function VisibleIds(t: Tables, userId: nat, role: Role): set<nat> {
    set k | k in t.courses && Visible(t, userId, role, k)
  }

  function EntryIds(cs: seq<CourseEntry>): set<nat> {
    set i | 0 <= i < |cs| :: cs[i].id
  }

  /** Every entry is the row stored under its key, and no key is listed twice. */
  predicate EntriesOf(t: Tables, cs: seq<CourseEntry>) {
    && (forall i :: 0 <= i < |cs| ==> cs[i].id in t.courses && cs[i].course == t.courses[cs[i].id])
    && (forall i, j :: 0 <= i < j < |cs| ==> cs[i].id != cs[j].id)
  }

  /** Appending the entry of a key not yet listed keeps the entries well formed. */
  lemma EntriesOfAppend(t: Tables, cs: seq<CourseEntry>, id: nat)
    requires EntriesOf(t, cs) && id in t.courses && id !in EntryIds(cs)
    ensures EntriesOf(t, cs + [CourseEntry(id, t.courses[id])])
    ensures EntryIds(cs + [CourseEntry(id, t.courses[id])]) == EntryIds(cs) + {id}
  {
    var r := cs + [CourseEntry(id, t.courses[id])];
    assert forall i :: 0 <= i < |cs| ==> r[i] == cs[i];
    assert r[|cs|] == CourseEntry(id, t.courses[id]);
    forall i | 0 <= i < |cs| ensures cs[i].id != id {
      assert cs[i].id in EntryIds(cs);
    }
  }

  /** The query for the user's courses: one entry per visible course. */
  method VisibleCourses(t: Tables, userId: nat, role: Role) returns (cs: seq<CourseEntry>)
    ensures EntriesOf(t, cs)
    ensures EntryIds(cs) == VisibleIds(t, userId, role)
  {
    var pending := t.courses.Keys;
    cs := [];
    while pending != {}
      invariant pending <= t.courses.Keys
      invariant EntriesOf(t, cs)
      invariant EntryIds(cs) == VisibleIds(t, userId, role) - pending
      decreases pending
    {
      var id :| id in pending;
      if Visible(t, userId, role, id) {
        EntriesOfAppend(t, cs, id);
        cs := cs + [CourseEntry(id, t.courses[id])];
      }
      pending := pending - {id};
    }
  }

  /** The search condition for a lower-cased, non-empty query: it occurs in
      the lower-cased name, or in the lower-cased course code when the code
      is set and non-empty. */
  predicate MatchesSearch(c: Course, query: string) {
    || IsSubstring(query, Lower(c.name))
    || (c.courseCode.Some? && c.courseCode.value != [] && IsSubstring(query, Lower(c.courseCode.value)))
  }

  /** The status condition: no filter, an empty one and `'all'` keep every course. */
  predicate MatchesStatus(c: Course, status: Option<string>) {
    status.None? || status.value == [] || status.value == "all" || c.status == status.value
  }

  /** Both conditions of the list; the query defaults to the empty string,
      which keeps every course. */
  predicate Kept(c: Course, search: Option<string>, status: Option<string>) {
    var query := Lower(search.GetOr([]));
    (query == [] || MatchesSearch(c, query)) && MatchesStatus(c, status)
  }

  function SearchCourses(cs: seq<CourseEntry>, query: string): (r: seq<CourseEntry>)
    ensures IsSubsequence(r, cs)
    ensures forall e :: e in r <==> e in cs && MatchesSearch(e.course, query)
    ensures forall e :: multiset(r)[e] == (if MatchesSearch(e.course, query) then multiset(cs)[e] else 0)
  {
    Filter(cs, (e: CourseEntry) => MatchesSearch(e.course, query))
  }

  function StatusCourses(cs: seq<CourseEntry>, status: Option<string>): (r: seq<CourseEntry>)
    ensures IsSubsequence(r, cs)
    ensures forall e :: e in r <==> e in cs && MatchesStatus(e.course, status)
    ensures forall e :: multiset(r)[e] == (if MatchesStatus(e.course, status) then multiset(cs)[e] else 0)
  {
    Filter(cs, (e: CourseEntry) => MatchesStatus(e.course, status))
  }

  /** The two filters of the course list, applied in turn: the search only
      for a non-empty query, the status only when given and not `'all'`.
      The result keeps the list's order and adds nothing. */
  function FilterCourses(cs: seq<CourseEntry>, search: Option<string>, status: Option<string>): (r: seq<CourseEntry>)
    ensures IsSubsequence(r, cs)
    ensures forall e :: e in r <==> e in cs && Kept(e.course, search, status)
    ensures forall e :: multiset(r)[e] == (if Kept(e.course, search, status) then multiset(cs)[e] else 0)
  {
    var query := Lower(search.GetOr([]));
    SubsequenceReflexive(cs);
    var searched := if query != [] then SearchCourses(cs, query) else cs;
    if status.Some? && status.value != [] && status.value != "all" then
      var r := StatusCourses(searched, status);
      SubsequenceTransitive(r, searched, cs);
      r
    else
      searched
  }

  /** Without a query and without a status filter the list is returned whole. */
  lemma NoFilterKeepsAll(cs: seq<CourseEntry>, status: Option<string>)
    requires status.None? || status == Some("all")
    ensures FilterCourses(cs, None, status) == cs
    ensures FilterCourses(cs, Some([]), status) == cs
  {
  }

  /** A duplicate-free list drawn from well-formed entries is well formed. */
  lemma EntriesOfDrawn(t: Tables, cs: seq<CourseEntry>, r: seq<CourseEntry>)
    requires EntriesOf(t, cs) && Distinct(r) && forall e :: e in r ==> e in cs
    ensures EntriesOf(t, r)
  {
    forall i | 0 <= i < |r| ensures r[i].id in t.courses && r[i].course == t.courses[r[i].id] {
      assert r[i] in cs;
    }
    forall i, j | 0 <= i < j < |r| ensures r[i].id != r[j].id {
      assert r[i] in cs && r[j] in cs;
      assert r[i] != r[j];
    }
  }

  /** Filtering a list without repetitions gives one without repetitions. */
  lemma FilterCoursesDistinct(cs: seq<CourseEntry>, search: Option<string>, status: Option<string>)
    requires Distinct(cs)
    ensures Distinct(FilterCourses(cs, search, status))
  {
    var query := Lower(search.GetOr([]));
    var searched := if query != [] then SearchCourses(cs, query) else cs;
    if query != [] {
      FilterDistinct(cs, (e: CourseEntry) => MatchesSearch(e.course, query));
    }
    if status.Some? && status.value != [] && status.value != "all" {
      FilterDistinct(searched, (e: CourseEntry) => MatchesStatus(e.course, status));
    }
  }

  /** The filtered list of well-formed entries is well formed. */
  lemma FilterCoursesEntries(t: Tables, cs: seq<CourseEntry>, search: Option<string>, status: Option<string>)
    requires EntriesOf(t, cs)
    ensures EntriesOf(t, FilterCourses(cs, search, status))
    ensures EntryIds(FilterCourses(cs, search, status)) == set k | k in EntryIds(cs) && Kept(t.courses[k], search, status)
  {
    var r := FilterCourses(cs, search, status);
    assert Distinct(cs);
    FilterCoursesDistinct(cs, search, status);
    EntriesOfDrawn(t, cs, r);
    forall k | k in EntryIds(cs) && Kept(t.courses[k], search, status) ensures k in EntryIds(r) {
      var i :| 0 <= i < |cs| && cs[i].id == k;
      assert cs[i] in r;
    }
    forall k | k in EntryIds(r) ensures k in EntryIds(cs) && Kept(t.courses[k], search, status) {
      var i :| 0 <= i < |r| && r[i].id == k;
      assert r[i] in cs;
    }
  }

  /** GET of the course list for the signed-in user: each course the user may
      see and the filters keep, once. */
  method GetCourses(db: Db, userId: nat, search: Option<string>, status: Option<string>) returns (courses: seq<CourseEntry>)
    requires userId in db.users
    ensures EntriesOf(db.Snapshot(), courses)
    ensures EntryIds(courses) == set k | k in VisibleIds(db.Snapshot(), userId, db.users[userId].role)
                                       && Kept(db.courses[k], search, status)
  {
    var t := db.Snapshot();
    var user := db.users[userId];
    var visible := VisibleCourses(t, userId, user.role);
    courses := FilterCourses(visible, search, status);
    FilterCoursesEntries(t, visible, search, status);
  }

  // ---------------------------------------------------------------------------
  // One course

  /** GET of one course: 404 when it does not exist, 403 for a teacher who
      does not teach it and for a student not enrolled in it. */
  method GetCourse(db: Db, userId: nat, courseId: nat) returns (status: int, course: Option<Course>)
    requires userId in db.users
    ensures status in {200, 403, 404}
    ensures status == 404 <==> courseId !in db.courses
    ensures status == 403 <==> courseId in db.courses && !Visible(db.Snapshot(), userId, db.users[userId].role, courseId)
    ensures course.Some? <==> status == 200
    ensures course.Some? ==> course.value == db.courses[courseId]
  {
    if courseId !in db.courses {
      return 404, None;
    }
    var c := db.courses[courseId];
    var user := db.users[userId];
    if user.role == Teacher && c.teacherId != userId {
      return 403, None;
    }
    if user.role == Student {
      var enrolled := exists k :: k in db.enrollments && db.enrollments[k] == Enrollment(userId, courseId);
      if !enrolled {
        return 403, None;
      }
    }
    return 200, Some(c);
  }

  /** A course row as creation makes it: the name and code sent, the creating
      teacher, status `'active'`, everything else unset. */
  function NewCourse(name: string, courseCode: Option<string>, teacherId: nat): (c: Course)
    ensures c.status == ActiveStatus && c.teacherId == teacherId
    ensures c.name == name && c.courseCode == courseCode
    ensures c.startDate.None? && c.endDate.None? && c.framework.None?
    ensures c.reflectionDueDays.None? && c.recurrenceDays.None? && c.selectedDays.None? && c.customStructure.None?
  {
    Course(name, courseCode, teacherId, ActiveStatus, None, None, None, None, None, None, None)
  }

  /** POST of a new course by a teacher. `name` is `None` when the body has
      no name or a null one; the insert then fails and nothing is stored. */
  method CreateCourse(db: Db, userId: nat, name: Option<string>, courseCode: Option<string>) returns (status: int, ghost id: nat)
    requires db.Valid() && userId in db.users && db.users[userId].role == Teacher
    modifies db
    ensures db.Valid()
    ensures status == (if name.Some? then 201 else 500)
    ensures status == 500 ==> unchanged(db)
    ensures status == 201 ==>
      && id == old(db.nextId) && id !in old(db.courses)
      && db.Snapshot() == old(db.Snapshot()).(courses := old(db.courses)[id := NewCourse(name.value, courseCode, userId)])
  {
    if name.None? {
      return 500, 0;
    }
    ghost var t := db.Snapshot();
    var key := db.nextId;
    FreshKey(t, key);
    var course := NewCourse(name.value, courseCode, userId);
    PutCourse(t, key + 1, key, course);
    db.courses := db.courses[key := course];
    db.nextId := key + 1;
    status, id := 201, key;
  }

  // ---------------------------------------------------------------------------
  // Configuration

  /** The value sent for `selected_days`: a list of day names, or anything
      else (a string or null), which is stored as it is. */
  datatype DaysValue = DayList(days: seq<string>) | DayValue(value: Option<string>)

  /** The stored `selected_days`: a list joined with commas, anything else as sent. */
  function StoredDays(v: DaysValue): (r: Option<string>)
    ensures v.DayValue? ==> r == v.value
    ensures v.DayList? ==> r.Some? && r.value == Join(v.days, ',')
  {
    match v
    case DayList(days) => Some(Join(days, ','))
    case DayValue(value) => value
  }

  /** A non-empty list of day names without commas is recovered from its
      stored form by splitting at the commas. */
  lemma StoredDaysRoundTrip(days: seq<string>)
    requires |days| >= 1 && forall i :: 0 <= i < |days| ==> ',' !in days[i]
    ensures StoredDays(DayList(days)).Some?
    ensures Split(StoredDays(DayList(days)).value, ',') == days
  {
    SplitJoin(days, ',');
  }

  /** The body of a configuration update: `None` for an absent key, otherwise
      the value sent. A date is `Some(None)` when it is null or does not parse. */
  datatype CourseConfig = CourseConfig(
    framework: Option<Option<string>>,
    startDate: Option<Option<int>>,
    endDate: Option<Option<int>>,
    reflectionDueDays: Option<Option<int>>,
    recurrenceDays: Option<Option<int>>,
    selectedDays: Option<DaysValue>,
    customStructure: Option<Option<string>>)

  /** A date that is sent and cannot be parsed aborts the update. */
  predicate BadDate(d: Option<Option<int>>) {
    d.Some? && d.value.None?
  }

  /** The course after an update that parses: each field whose key is present
      takes the value sent; the name, code, teacher and status stay. */
  function Configure(c: Course, cfg: CourseConfig): (r: Course)
    requires !BadDate(cfg.startDate) && !BadDate(cfg.endDate)
    ensures r.name == c.name && r.courseCode == c.courseCode && r.teacherId == c.teacherId && r.status == c.status
    ensures r.framework == (if cfg.framework.Some? then cfg.framework.value else c.framework)
    ensures r.startDate == (if cfg.startDate.Some? then cfg.startDate.value else c.startDate)
    ensures r.endDate == (if cfg.endDate.Some? then cfg.endDate.value else c.endDate)
    ensures r.reflectionDueDays == (if cfg.reflectionDueDays.Some? then cfg.reflectionDueDays.value else c.reflectionDueDays)
    ensures r.recurrenceDays == (if cfg.recurrenceDays.Some? then cfg.recurrenceDays.value else c.recurrenceDays)
    ensures r.selectedDays == (if cfg.selectedDays.Some? then StoredDays(cfg.selectedDays.value) else c.selectedDays)
    ensures r.customStructure == (if cfg.customStructure.Some? then cfg.customStructure.value else c.customStructure)
  {
    c.(framework := cfg.framework.GetOr(c.framework),
       startDate := cfg.startDate.GetOr(c.startDate),
       endDate := cfg.endDate.GetOr(c.endDate),
       reflectionDueDays := cfg.reflectionDueDays.GetOr(c.reflectionDueDays),
       recurrenceDays := cfg.recurrenceDays.GetOr(c.recurrenceDays),
       selectedDays := if cfg.selectedDays.Some? then StoredDays(cfg.selectedDays.value) else c.selectedDays,
       customStructure := cfg.customStructure.GetOr(c.customStructure))
  }

  /** An update with an empty body leaves the course as it is. */
  lemma EmptyConfigIsIdentity(c: Course)
    ensures Configure(c, CourseConfig(None, None, None, None, None, None, None)) == c
  {
  }

  /** Sending the same configuration twice stores what sending it once does. */
  lemma ConfigureIdempotent(c: Course, cfg: CourseConfig)
    requires !BadDate(cfg.startDate) && !BadDate(cfg.endDate)
    ensures Configure(Configure(c, cfg), cfg) == Configure(c, cfg)
  {
  }

  /** The fields of the request applied one by one to the loaded row, as the
      handler does; `None` when a date does not parse. */
  method ApplyConfig(c: Course, cfg: CourseConfig) returns (r: Option<Course>)
    ensures r.None? <==> BadDate(cfg.startDate) || BadDate(cfg.endDate)
    ensures r.Some? ==> r.value == Configure(c, cfg)
  {
    var course := c;
    if cfg.framework.Some? {
      course := course.(framework := cfg.framework.value);
    }
    if cfg.startDate.Some? {
      if cfg.startDate.value.None? {
        return None;
      }
      course := course.(startDate := cfg.startDate.value);
    }
    if cfg.endDate.Some? {
      if cfg.endDate.value.None? {
        return None;
      }
      course := course.(endDate := cfg.endDate.value);
    }
    if cfg.reflectionDueDays.Some? {
      course := course.(reflectionDueDays := cfg.reflectionDueDays.value);
    }
    if cfg.recurrenceDays.Some? {
      course := course.(recurrenceDays := cfg.recurrenceDays.value);
    }
    if cfg.selectedDays.Some? {
      match cfg.selectedDays.value {
        case DayList(days) => course := course.(selectedDays := Some(Join(days, ',')));
        case DayValue(value) => course := course.(selectedDays := value);
      }
    }
    if cfg.customStructure.Some? {
      course := course.(customStructure := cfg.customStructure.value);
    }
    return Some(course);
  }

  /** PUT of a course's configuration by its teacher. An unparsable date
      raises before the commit, so nothing is stored. */
  method ConfigureCourse(db: Db, userId: nat, courseId: nat, cfg: CourseConfig) returns (status: int)
    requires db.Valid() && userId in db.users && db.users[userId].role == Teacher
    modifies db
    ensures db.Valid()
    ensures status in {200, 403, 404, 500}
    ensures status == 404 <==> courseId !in old(db.courses)
    ensures status == 403 <==> courseId in old(db.courses) && old(db.courses[courseId].teacherId) != userId
    ensures status == 500 <==> courseId in old(db.courses) && old(db.courses[courseId].teacherId) == userId
                               && (BadDate(cfg.startDate) || BadDate(cfg.endDate))
    ensures status != 200 ==> unchanged(db)
    ensures status == 200 ==>
      && db.nextId == old(db.nextId)
      && db.Snapshot() == old(db.Snapshot()).(courses := old(db.courses)[courseId := Configure(old(db.courses[courseId]), cfg)])
  {
    if courseId !in db.courses {
      return 404;
    }
    if db.courses[courseId].teacherId != userId {
      return 403;
    }
    var updated := ApplyConfig(db.courses[courseId], cfg);
    if updated.None? {
      return 500;
    }
    ghost var t := db.Snapshot();
    assert courseId in Keys(t);
    PutCourse(t, db.nextId, courseId, updated.value);
    db.courses := db.courses[courseId := updated.value];
    status := 200;
  }
}

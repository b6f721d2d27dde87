/** Sign-in with a Google identity token and the profile update. The token's
    verification by Google's library is an input: either it is rejected, or
    it yields the claims the handler reads. */
module Auth {
  import opened Common
  import opened Models
  import opened Store

  // ---------------------------------------------------------------------------
  // Sign-in

  /** The claims of a verified token; `None` for a claim that is absent, and
      for `name` and `picture` `Some(None)` when the claim is null. */
  datatype Claims = Claims(
    aud: Option<string>,
    sub: Option<string>,
    email: Option<string>,
    name: Option<Option<string>>,
    picture: Option<Option<string>>)

  /** What Google's verification of the token returned. */
  datatype Verification = Rejected | Verified(claims: Claims)

  /** The session cookie set on success. */
  datatype Session = Session(userId: nat, role: Role)

  /** The role named in the request, when it is one of the two roles. */
  function RoleNamed(s: string): (r: Option<Role>)
    ensures r == Some(Student) <==> s == "student"
    ensures r == Some(Teacher) <==> s == "teacher"
  {
    if s == "student" then Some(Student)
    else if s == "teacher" then Some(Teacher)
    else None
  }

  /** The request is refused before the token is looked at. */
  predicate BadRequest(token: Option<string>, role: Option<string>) {
    Blank(token) || role.None? || RoleNamed(role.value).None?
  }

  /** The token verified, was issued for this client, and carries the subject
      and the email. */
  predicate Accepted(check: Verification, clientId: string) {
    && check.Verified?
    && check.claims.aud == Some(clientId)
    && check.claims.sub.Some?
    && check.claims.email.Some?
  }

  /** The name of a new account: the `name` claim, or the email's local part
      when the claim is absent; a null claim stays null. */
  function AccountName(c: Claims): Option<string>
    requires c.email.Some?
  {
    c.name.GetOr(Some(LocalPart(c.email.value)))
  }

  /** The account created at first sign-in, with the requested role and the
      `picture` claim (empty when absent) as its image. */
  function NewAccount(c: Claims, name: string, role: Role): User
    requires c.sub.Some? && c.email.Some?
  {
    User(c.email.value, name, c.sub.value, role, c.picture.GetOr(Some("")), None, None, None, None, None)
  }

  /** Some user with this email has another role. */
  predicate RoleMismatch(users: map<nat, User>, email: string, role: Role) {
    exists k :: k in users && users[k].email == email && users[k].role != role
  }

  /** A user other than `id` already has this Google id. */
  predicate GoogleIdTakenByOther(users: map<nat, User>, id: nat, googleId: string) {
    exists k :: k in users && k != id && users[k].googleId == googleId
  }

  /** The write that signing in needs fails on a constraint: a new account
      with a null name or a Google id already in use, or an existing account
      whose new Google id another user has. Such a failure is caught and
      answered with 401. */
  predicate WriteFails(users: map<nat, User>, c: Claims, role: Role)
    requires c.sub.Some? && c.email.Some?
  {
    if EmailTaken(users, c.email.value) then
      exists k :: k in users && users[k].email == c.email.value && GoogleIdTakenByOther(users, k, c.sub.value)
    else
      AccountName(c).None? || GoogleIdTaken(users, c.sub.value)
  }

  method FindByEmail(users: map<nat, User>, email: string) returns (found: Option<nat>)
    ensures found.None? <==> !EmailTaken(users, email)
    ensures found.Some? ==> found.value in users && users[found.value].email == email
  {
    if exists k :: k in users && users[k].email == email {
      var k :| k in users && users[k].email == email;
      found := Some(k);
    } else {
      found := None;
    }
  }

  /** With unique emails, the user the lookup found is the only one with the
      email, so the conditions over "some user with this email" are about it. */
  lemma ByEmailUnique(users: map<nat, User>, email: string, k: nat, role: Role, googleId: string)
    requires UniqueUsers(users) && k in users && users[k].email == email
    ensures RoleMismatch(users, email, role) <==> users[k].role != role
    ensures (exists j :: j in users && users[j].email == email && GoogleIdTakenByOther(users, j, googleId))
            <==> GoogleIdTakenByOther(users, k, googleId)
  {
    forall j | j in users && users[j].email == email ensures j == k {
      assert users[j].email == users[k].email;
    }
  }

  /** Inserts a new account under the next key. */
  method SignUp(db: Db, u: User) returns (id: nat)
    requires db.Valid() && !EmailTaken(db.users, u.email) && !GoogleIdTaken(db.users, u.googleId)
    modifies db
    ensures db.Valid()
    ensures id == old(db.nextId) && db.nextId == id + 1
    ensures db.Snapshot() == old(db.Snapshot()).(users := old(db.users)[id := u])
  {
    ghost var t := db.Snapshot();
    id := db.nextId;
    FreshKey(t, id);
    PutUser(t, id + 1, id, u);
    db.users := db.users[id := u];
    db.nextId := id + 1;
  }

  /** Stores a user's new Google id. */
  method SetGoogleId(db: Db, id: nat, googleId: string)
    requires db.Valid() && id in db.users && !GoogleIdTakenByOther(db.users, id, googleId)
    modifies db
    ensures db.Valid()
    ensures db.nextId == old(db.nextId)
    ensures db.Snapshot() == old(db.Snapshot()).(users := old(db.users)[id := old(db.users[id]).(googleId := googleId)])
  {
    ghost var t := db.Snapshot();
    assert id in Keys(t);
    PutUser(t, db.nextId, id, t.users[id].(googleId := googleId));
    db.users := db.users[id := db.users[id].(googleId := googleId)];
  }

  /** POST of a Google sign-in. The request needs a token and one of the two
      roles (400); the client id must be configured (500); the token must
      verify for that client id and carry the subject and email (401). An
      unknown email creates an account with the requested role; a known
      email registered with the other role is refused (403); otherwise the
      stored Google id is set to the token's subject. A failed write is
      answered with 401. On success the session holds the stored user and
      its role. */
  method GoogleAuth(db: Db, token: Option<string>, role: Option<string>, clientId: Option<string>, check: Verification)
    returns (status: int, session: Option<Session>)
    requires db.Valid()
    modifies db
    ensures db.Valid()
    ensures status in {200, 400, 401, 403, 500}
    ensures status == 400 <==> BadRequest(token, role)
    ensures status == 500 <==> !BadRequest(token, role) && Blank(clientId)
    ensures status == 403 <==>
      && !BadRequest(token, role) && !Blank(clientId) && Accepted(check, clientId.value)
      && old(RoleMismatch(db.users, check.claims.email.value, RoleNamed(role.value).value))
    ensures status == 401 <==>
      && !BadRequest(token, role) && !Blank(clientId)
      && (!Accepted(check, clientId.value)
          || (!old(RoleMismatch(db.users, check.claims.email.value, RoleNamed(role.value).value))
              && old(WriteFails(db.users, check.claims, RoleNamed(role.value).value))))
    ensures session.Some? <==> status == 200
    ensures status != 200 ==> unchanged(db)
    ensures status == 200 ==>
      && session.value.userId in db.users
      && session.value.role == db.users[session.value.userId].role == RoleNamed(role.value).value
      && db.users[session.value.userId].email == check.claims.email.value
      && db.users[session.value.userId].googleId == check.claims.sub.value
    ensures status == 200 && !old(EmailTaken(db.users, check.claims.email.value)) ==>
      && session.value.userId == old(db.nextId) && db.nextId == old(db.nextId) + 1
      && db.Snapshot() == old(db.Snapshot()).(users := old(db.users)[session.value.userId :=
           NewAccount(check.claims, AccountName(check.claims).value, RoleNamed(role.value).value)])
    ensures status == 200 && old(EmailTaken(db.users, check.claims.email.value)) ==>
      && session.value.userId in old(db.users)
      && old(db.users[session.value.userId].email) == check.claims.email.value
      && db.nextId == old(db.nextId)
      && db.Snapshot() == old(db.Snapshot()).(users := old(db.users)[session.value.userId :=
           old(db.users[session.value.userId]).(googleId := check.claims.sub.value)])
  {
    if token.None? || token.value == [] || role.None? || RoleNamed(role.value).None? {
      return 400, None;
    }
    var requested := RoleNamed(role.value).value;
    if clientId.None? || clientId.value == [] {
      return 500, None;
    }
    if check.Rejected? || check.claims.aud != Some(clientId.value) {
      return 401, None;
    }
    var claims := check.claims;
    if claims.sub.None? || claims.email.None? {
      // A missing claim raises a KeyError, caught by the handler.
      return 401, None;
    }
    var googleId, email := claims.sub.value, claims.email.value;
    var found := FindByEmail(db.users, email);
    if found.None? {
      var name := AccountName(claims);
      if name.None? || GoogleIdTaken(db.users, googleId) {
        return 401, None;
      }
      var id := SignUp(db, NewAccount(claims, name.value, requested));
      return 200, Some(Session(id, requested));
    }
    var id := found.value;
    ByEmailUnique(db.users, email, id, requested, googleId);
    if db.users[id].role != requested {
      return 403, None;
    }
    if GoogleIdTakenByOther(db.users, id, googleId) {
      return 401, None;
    }
    if db.users[id].googleId != googleId {
      SetGoogleId(db, id, googleId);
    }
    return 200, Some(Session(id, requested));
  }

  // ---------------------------------------------------------------------------
  // Profile

  /** The body of a profile update: `None` for an absent key, otherwise the
      value sent, `Some(None)` for null. */
  datatype ProfilePatch = ProfilePatch(
    name: Option<Option<string>>,
    department: Option<Option<string>>,
    areaOfInterest: Option<Option<string>>,
    experience: Option<Option<string>>,
    studentId: Option<Option<string>>,
    yearOfJoining: Option<Option<string>>,
    profileImage: Option<Option<string>>)

  /** The largest image accepted, in characters of its data URL: the source's
      bound is `2.7 * 1024 * 1024`, a fraction, compared with a length. */
  const MaxImageChars: nat := 2831155

  const ImagePrefix: string := "data:image/"

  /** The source's size test, on the length as a float. */
  predicate TooLarge(length: nat) {
    length as real > 27.0 / 10.0 * 1024.0 * 1024.0
  }

  /** The fractional bound and the integer one refuse the same lengths. */
  lemma TooLargeIff(length: nat)
    ensures TooLarge(length) <==> length > MaxImageChars
  {
    if length <= MaxImageChars {
      assert length as real <= MaxImageChars as real;
    } else {
      assert length as real >= (MaxImageChars + 1) as real;
    }
  }

  /** A non-empty image that is not a data URL of an image, or is too large. */
  predicate ImageRejected(image: Option<Option<string>>) {
    && image.Some? && !Blank(image.value)
    && (!StartsWith(image.value.value, ImagePrefix) || TooLarge(|image.value.value|))
  }

  /** The image stored: a non-empty one as sent, an empty or null one clears it. */
  function StoredImage(image: Option<string>): (r: Option<string>)
    ensures r.None? <==> Blank(image)
    ensures r.Some? ==> r == image
  {
    if Blank(image) then None else image
  }

  /** The user row after an update that is stored: name, department and area
      of interest for anyone, experience only for a teacher, student id and
      year of joining only for a student, and the image; nothing else changes. */
  function Profiled(u: User, patch: ProfilePatch): (r: User)
    requires patch.name != Some(None)
    ensures r.email == u.email && r.googleId == u.googleId && r.role == u.role
    ensures r.name == (if patch.name.Some? then patch.name.value.value else u.name)
    ensures r.department == patch.department.GetOr(u.department)
    ensures r.areaOfInterest == patch.areaOfInterest.GetOr(u.areaOfInterest)
    ensures r.experience == (if u.role == Teacher && patch.experience.Some? then patch.experience.value else u.experience)
    ensures r.studentId == (if u.role == Student && patch.studentId.Some? then patch.studentId.value else u.studentId)
    ensures r.yearOfJoining == (if u.role == Student && patch.yearOfJoining.Some? then patch.yearOfJoining.value else u.yearOfJoining)
    ensures r.profileImage == (if patch.profileImage.Some? then StoredImage(patch.profileImage.value) else u.profileImage)
  {
    var teacher := u.role == Teacher;
    var student := u.role == Student;
    u.(name := if patch.name.Some? then patch.name.value.value else u.name,
       department := patch.department.GetOr(u.department),
       areaOfInterest := patch.areaOfInterest.GetOr(u.areaOfInterest),
       experience := if teacher then patch.experience.GetOr(u.experience) else u.experience,
       studentId := if student then patch.studentId.GetOr(u.studentId) else u.studentId,
       yearOfJoining := if student then patch.yearOfJoining.GetOr(u.yearOfJoining) else u.yearOfJoining,
       profileImage := if patch.profileImage.Some? then StoredImage(patch.profileImage.value) else u.profileImage)
  }

  /** Sending the same update twice stores what sending it once does. */
  lemma ProfiledIdempotent(u: User, patch: ProfilePatch)
    requires patch.name != Some(None)
    ensures Profiled(Profiled(u, patch), patch) == Profiled(u, patch)
  {
  }

  /** The image check: `None` when a non-empty image is refused, otherwise
      the value to store. */
  method CheckImage(image: Option<string>) returns (stored: Option<Option<string>>)
    ensures stored.None? <==> ImageRejected(Some(image))
    ensures stored.Some? ==> stored.value == StoredImage(image)
  {
    if image.Some? && image.value != [] {
      if !StartsWith(image.value, ImagePrefix) {
        return None;
      }
      if TooLarge(|image.value|) {
        return None;
      }
      return Some(image);
    }
    return Some(None);
  }

  /** How an update ends before its commit. */
  datatype ProfileOutcome = BadImage | NullName | Updated(user: User)

  /** The fields of the request assigned one by one to the loaded user, as
      the handler does: the image check can stop it with 400, and a null
      name fails only at the commit, after every assignment. */
  method ApplyProfile(u: User, patch: ProfilePatch) returns (r: ProfileOutcome)
    ensures r.BadImage? <==> ImageRejected(patch.profileImage)
    ensures r.NullName? <==> !ImageRejected(patch.profileImage) && patch.name == Some(None)
    ensures r.Updated? ==> r.user == Profiled(u, patch)
  {
    var user := u;
    var nullName := false;
    if patch.name.Some? {
      if patch.name.value.None? {
        nullName := true;
      } else {
        user := user.(name := patch.name.value.value);
      }
    }
    if patch.department.Some? {
      user := user.(department := patch.department.value);
    }
    if patch.areaOfInterest.Some? {
      user := user.(areaOfInterest := patch.areaOfInterest.value);
    }
    if user.role == Teacher && patch.experience.Some? {
      user := user.(experience := patch.experience.value);
    }
    if user.role == Student {
      if patch.studentId.Some? {
        user := user.(studentId := patch.studentId.value);
      }
      if patch.yearOfJoining.Some? {
        user := user.(yearOfJoining := patch.yearOfJoining.value);
      }
    }
    if patch.profileImage.Some? {
      var stored := CheckImage(patch.profileImage.value);
      if stored.None? {
        return BadImage;
      }
      user := user.(profileImage := stored.value);
    }
    if nullName {
      return NullName;
    }
    return Updated(user);
  }

  /** PUT of the signed-in user's profile: 401 without a session, 404 when
      the user no longer exists, 400 for a rejected image, 500 when the
      commit fails on a null name; otherwise the row is updated. */
  method UpdateProfile(db: Db, sessionUser: Option<nat>, patch: ProfilePatch) returns (status: int, user: Option<User>)
    requires db.Valid()
    modifies db
    ensures db.Valid()
    ensures status in {200, 400, 401, 404, 500}
    ensures status == 401 <==> sessionUser.None?
    ensures status == 404 <==> sessionUser.Some? && sessionUser.value !in old(db.users)
    ensures status == 400 <==> sessionUser.Some? && sessionUser.value in old(db.users) && ImageRejected(patch.profileImage)
    ensures status == 500 <==> sessionUser.Some? && sessionUser.value in old(db.users) && !ImageRejected(patch.profileImage)
                               && patch.name == Some(None)
    ensures user.Some? <==> status == 200
    ensures status != 200 ==> unchanged(db)
    ensures status == 200 ==>
      && user.value == Profiled(old(db.users[sessionUser.value]), patch)
      && db.nextId == old(db.nextId)
      && db.Snapshot() == old(db.Snapshot()).(users := old(db.users)[sessionUser.value := user.value])
  {
    if sessionUser.None? {
      return 401, None;
    }
    var id := sessionUser.value;
    if id !in db.users {
      return 404, None;
    }
    var outcome := ApplyProfile(db.users[id], patch);
    match outcome {
      case BadImage => return 400, None;
      case NullName => return 500, None;
      case Updated(u) =>
        ghost var t := db.Snapshot();
        assert id in Keys(t);
        PutUser(t, db.nextId, id, u);
        db.users := db.users[id := u];
        return 200, Some(u);
    }
  }
}

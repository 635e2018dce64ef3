/**
  Identity and role decisions (app/auth.py): resolving a login id to a
  registered user, resolving the subject of a decoded access token to a
  user, and the instructor and admin predicates.
*/
module Auth {
  import opened Query
  import opened Models

  /** The claims of an access token that has already been decoded and checked. */
  datatype Payload = Payload(sub: Option<int>)

  /** The login row with this login id, if any. */
  function LoginByLoginId(db: Db, loginId: string): Option<Login>
  {
    FirstWith(db.logins, LoginName, loginId)
  }

  /**
    Resolves a login id to its user, provided that user is registered.
    An unknown login id and an unregistered user both give `Ok(None)`;
    a login whose user row is missing makes the source read a field of
    nothing, which is `Fault`.
  */
  function VerifyUser(db: Db, loginId: string): (r: Checked<Option<User>>)
    ensures (forall l :: l in db.logins ==> l.loginId != loginId) ==> r == Ok(None)
    ensures r.Fault? ==> exists l :: l in db.logins && l.loginId == loginId && !HasUser(db, l.userId)
    ensures r.Ok? && r.value.Some? ==>
              && r.value.value in db.users
              && r.value.value.userState == "registered"
              && exists l :: l in db.logins && l.loginId == loginId && l.userId == r.value.value.userId
  {
    match LoginByLoginId(db, loginId)
    case None => Ok(None)
    case Some(login) =>
      match UserById(db, login.userId)
      case None => Fault
      case Some(user) => if user.userState == "registered" then Ok(Some(user)) else Ok(None)
  }

  /** Under the schema's keys, a login id resolves to exactly the registered user it is linked to. */
  lemma VerifyUserAccepts(db: Db, loginId: string, u: User)
    requires WellFormed(db)
    ensures VerifyUser(db, loginId) == Ok(Some(u)) <==>
              && u in db.users
              && u.userState == "registered"
              && exists l :: l in db.logins && l.loginId == loginId && l.userId == u.userId
  {
    if u in db.users && u.userState == "registered" &&
       exists l :: l in db.logins && l.loginId == loginId && l.userId == u.userId {
      var l :| l in db.logins && l.loginId == loginId && l.userId == u.userId;
      FirstWithUnique(db.logins, LoginName, l);
      FirstWithUnique(db.users, UserKey, u);
    }
  }

  /** A login whose user exists but is not registered is turned away. */
  lemma VerifyUserRejectsUnregistered(db: Db, l: Login, u: User)
    requires WellFormed(db)
    requires l in db.logins && u in db.users && u.userId == l.userId
    requires u.userState != "registered"
    ensures VerifyUser(db, l.loginId) == Ok(None)
  {
    FirstWithUnique(db.logins, LoginName, l);
    FirstWithUnique(db.users, UserKey, u);
  }

  /** With intact foreign keys verification never faults. */
  lemma VerifyUserNeverFaults(db: Db, loginId: string)
    requires ForeignKeysHold(db)
    ensures VerifyUser(db, loginId).Ok?
  {
    match LoginByLoginId(db, loginId)
    case None =>
    case Some(login) =>
      assert HasUser(db, login.userId);
  }

  /**
    The user named by the `sub` claim of an already decoded token; `None`
    when decoding failed, when the claim is missing, or when no user has
    that id.
  */
  function GetCurrentUser(db: Db, decoded: Option<Payload>): (r: Option<User>)
    ensures decoded.None? || decoded.value.sub.None? ==> r.None?
    ensures r.Some? ==> r.value in db.users && decoded == Some(Payload(Some(r.value.userId)))
    ensures decoded.Some? && decoded.value.sub.Some? && HasUser(db, decoded.value.sub.value) ==> r.Some?
  {
    match decoded
    case None => None
    case Some(payload) =>
      match payload.sub
      case None => None
      case Some(userId) => UserById(db, userId)
  }

  /** Under the schema's keys, the subject resolves to the one user with that id. */
  lemma GetCurrentUserFinds(db: Db, userId: int, u: User)
    requires WellFormed(db)
    ensures GetCurrentUser(db, Some(Payload(Some(userId)))) == Some(u) <==> u in db.users && u.userId == userId
  {
    if u in db.users && u.userId == userId {
      FirstWithUnique(db.users, UserKey, u);
    }
  }

  function EnrollmentRole(e: Enrollment): (int, string) { (e.userId, e.enrollmentType) }

  /**
    A user is an instructor when some enrollment row gives them type
    "teacher", whatever that row's state and course.
  */
  function IsInstructor(db: Db, u: User): (r: bool)
    ensures r <==> exists e :: e in db.enrollments && e.userId == u.userId && e.enrollmentType == "teacher"
  {
    var found := FirstWith(db.enrollments, EnrollmentRole, (u.userId, "teacher"));
    assert found.None? ==> forall e :: e in db.enrollments ==> EnrollmentRole(e) != (u.userId, "teacher");
    found.Some?
  }

  /**
    A user is the admin when their login id is exactly "admin". A user with
    no login row makes the source read a field of nothing: `Fault`.
  */
  function IsAdmin(db: Db, u: User): (r: Checked<bool>)
    ensures r.Fault? <==> forall l :: l in db.logins ==> l.userId != u.userId
    ensures r == Ok(true) ==> exists l :: l in db.logins && l.userId == u.userId && l.loginId == "admin"
  {
    match LoginOfUser(db, u.userId)
    case None => Fault
    case Some(login) => Ok(login.loginId == "admin")
  }

  /** Under the schema's keys, a user is the admin exactly when their login row says "admin". */
  lemma IsAdminExactly(db: Db, u: User)
    requires WellFormed(db)
    ensures IsAdmin(db, u) == Ok(true) <==>
              exists l :: l in db.logins && l.userId == u.userId && l.loginId == "admin"
  {
    if exists l :: l in db.logins && l.userId == u.userId && l.loginId == "admin" {
      var l :| l in db.logins && l.userId == u.userId && l.loginId == "admin";
      FirstWithUnique(db.logins, LoginUser, l);
    }
  }

  /** Login ids are unique, so at most one user id is the admin. */
  lemma AtMostOneAdmin(db: Db, u1: User, u2: User)
    requires WellFormed(db)
    requires IsAdmin(db, u1) == Ok(true) && IsAdmin(db, u2) == Ok(true)
    ensures u1.userId == u2.userId
  {
    var l1 :| l1 in db.logins && l1.userId == u1.userId && l1.loginId == "admin";
    var l2 :| l2 in db.logins && l2.userId == u2.userId && l2.loginId == "admin";
    FirstWithUnique(db.logins, LoginName, l1);
    FirstWithUnique(db.logins, LoginName, l2);
  }
}

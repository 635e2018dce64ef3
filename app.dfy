/**
  The decisions of the web pages (app/main.py): whether a login is
  accepted, who the dashboard is for and what it lists, and whether the
  course analytics page is shown. Rendering, cookies as transport and token
  signing are outside the model: a request carries an optional cookie
  value, and token decoding is a parameter.
*/
module App {
  import opened Query
  import opened Models
  import opened Auth

  // ----------------------------------------------------------------- login

  /** What the login handler answers. */
  datatype LoginResponse =
    | LoginForm(error: string)               // the login page again, with an error
    | RedirectToDashboard(tokenSubject: int) // a token for this user id is set
    | LoginServerError                       // verification raised

  const InvalidCredentials := "Invalid credentials"

  /**
    A login id is accepted when it resolves to a registered user; the token
    then names that user's id.
  */
  function HandleLogin(db: Db, loginId: string): (r: LoginResponse)
    ensures (forall l :: l in db.logins ==> l.loginId != loginId) ==> r == LoginForm(InvalidCredentials)
    ensures r.LoginForm? ==> r.error == InvalidCredentials
    ensures r.RedirectToDashboard? ==>
              exists u, l :: && u in db.users && u.userState == "registered" && u.userId == r.tokenSubject
                             && l in db.logins && l.loginId == loginId && l.userId == u.userId
    ensures r.LoginServerError? ==> exists l :: l in db.logins && l.loginId == loginId && !HasUser(db, l.userId)
  {
    match VerifyUser(db, loginId)
    case Fault => LoginServerError
    case Ok(None) => LoginForm(InvalidCredentials)
    case Ok(Some(user)) => RedirectToDashboard(user.userId)
  }

  /** Under the schema's keys, a login succeeds exactly for a registered user linked to that login id. */
  lemma LoginAccepts(db: Db, loginId: string, userId: int)
    requires WellFormed(db)
    ensures HandleLogin(db, loginId) == RedirectToDashboard(userId) <==>
              exists u, l :: && u in db.users && u.userState == "registered" && u.userId == userId
                             && l in db.logins && l.loginId == loginId && l.userId == userId
  {
    if exists u, l :: && u in db.users && u.userState == "registered" && u.userId == userId
                      && l in db.logins && l.loginId == loginId && l.userId == userId {
      var u, l :| && u in db.users && u.userState == "registered" && u.userId == userId
                  && l in db.logins && l.loginId == loginId && l.userId == userId;
      VerifyUserAccepts(db, loginId, u);
    }
  }

  /** Under the schema's keys, a known login id whose user is not registered gets the form again. */
  lemma LoginRejectsUnregistered(db: Db, l: Login, u: User)
    requires WellFormed(db)
    requires l in db.logins && u in db.users && u.userId == l.userId && u.userState != "registered"
    ensures HandleLogin(db, l.loginId) == LoginForm(InvalidCredentials)
  {
    VerifyUserRejectsUnregistered(db, l, u);
  }

  // ---------------------------------------------------- current user

  /**
    The user a request is for: none without a cookie or with an empty one,
    otherwise the user named by the decoded token (`decode` stands for the
    signature and expiry check, `None` when it fails).
  */
  function CurrentUser(db: Db, cookie: Option<string>, decode: string -> Option<Payload>): (r: Option<User>)
    ensures cookie.None? || cookie == Some("") ==> r.None?
    ensures r.Some? ==> r.value in db.users && cookie.Some? && decode(cookie.value) == Some(Payload(Some(r.value.userId)))
  {
    if cookie.None? || cookie.value == "" then None
    else GetCurrentUser(db, decode(cookie.value))
  }

  // ------------------------------------------------------------ dashboard

  predicate CourseHasEnrollment(c: Course, e: Enrollment) { c.courseId == e.courseId }
  function RowCourse(row: (Course, Enrollment)): Course { row.0 }

  /** The user's active enrollments joined to their course. */
  function EnrolledCourseRows(db: Db, user: User): seq<(Course, Enrollment)>
  {
    Filter(Join(db.courses, db.enrollments, CourseHasEnrollment),
           (row: (Course, Enrollment)) => row.1.userId == user.userId && row.1.enrollmentState == "active")
  }

  /**
    The courses the dashboard lists: every course for the admin; for anyone
    else, the courses joined to one of the user's active enrollments, of
    any type. The query asks for whole `Course` entities, so the ORM merges
    the rows of one course into the first.
  */
  function AccessibleCourses(db: Db, user: User, isAdmin: bool): (r: seq<Course>)
    ensures isAdmin ==> r == db.courses
  {
    if isAdmin then db.courses
    else UniqueFirst(Project(EnrolledCourseRows(db, user), RowCourse), CourseKey)
  }

  /**
    A non-admin sees only courses where they hold an active enrollment, each
    once; under the schema's course key every such course is listed.
  */
  lemma {:induction false} AccessibleCoursesExactly(db: Db, user: User, c: Course)
    ensures c in AccessibleCourses(db, user, false) ==>
              && c in db.courses
              && exists e :: && e in db.enrollments && e.courseId == c.courseId
                             && e.userId == user.userId && e.enrollmentState == "active"
    ensures UniqueBy(db.courses, CourseKey) ==>
              (&& c in db.courses
               && (exists e :: && e in db.enrollments && e.courseId == c.courseId
                              && e.userId == user.userId && e.enrollmentState == "active")
               ==> c in AccessibleCourses(db, user, false))
    ensures UniqueBy(AccessibleCourses(db, user, false), CourseKey)
  {
    var rows := EnrolledCourseRows(db, user);
    var courses := Project(rows, RowCourse);
    ProjectMembership(rows, RowCourse, c);
    if c in db.courses && exists e :: && e in db.enrollments && e.courseId == c.courseId
                                      && e.userId == user.userId && e.enrollmentState == "active" {
      var e :| && e in db.enrollments && e.courseId == c.courseId
               && e.userId == user.userId && e.enrollmentState == "active";
      assert (c, e) in rows;
      if UniqueBy(db.courses, CourseKey) {
        forall a, b | a in courses && b in courses && CourseKey(a) == CourseKey(b) ensures a == b {
          ProjectMembership(rows, RowCourse, a);
          ProjectMembership(rows, RowCourse, b);
          UniqueBySameRow(db.courses, CourseKey, a, b);
        }
        UniqueFirstMembers(courses, CourseKey, c);
      }
    }
  }

  predicate TopicRowInCourse(row: (Entry, Topic), c: Course) { row.1.courseId == c.courseId }
  predicate RecentRowActive(row: ((Entry, Topic), Course)) { row.0.0.entryState == "active" }
  function RecentRowEntry(row: ((Entry, Topic), Course)): Entry { row.0.0 }
  function NegCreatedAt(e: Entry): int { -e.createdAt }

  const RecentLimit := 10

  /** Active entries joined to their topic and that topic's course. */
  function RecentRows(db: Db): seq<((Entry, Topic), Course)>
  {
    Filter(Join(Join(db.entries, db.topics, EntryOfTopic), db.courses, TopicRowInCourse),
           RecentRowActive)
  }

  /** The entries of those rows, newest first (ties in join order). */
  function RecentCandidates(db: Db): (r: seq<Entry>)
    ensures SortedBy(r, NegCreatedAt)
  {
    SortBy(Project(RecentRows(db), RecentRowEntry), NegCreatedAt)
  }

  lemma {:induction false} RecentCandidateOfRow(db: Db, e: Entry)
    ensures e in RecentCandidates(db) <==> exists row :: row in RecentRows(db) && RecentRowEntry(row) == e
  {
    var entries := Project(RecentRows(db), RecentRowEntry);
    assert e in RecentCandidates(db) <==> e in multiset(RecentCandidates(db));
    assert e in entries <==> e in multiset(entries);
    ProjectMembership(RecentRows(db), RecentRowEntry, e);
  }

  lemma {:induction false} RecentRowEligible(db: Db, row: ((Entry, Topic), Course))
    requires row in RecentRows(db)
    ensures row.0.0 in db.entries && row.0.0.entryState == "active"
    ensures row.0.1 in db.topics && row.1 in db.courses
    ensures row.0.1.topicId == row.0.0.topicId && row.1.courseId == row.0.1.courseId
  {
    assert row.0 in Join(db.entries, db.topics, EntryOfTopic);
  }

  lemma {:induction false} EligibleRecentRow(db: Db, e: Entry, t: Topic, c: Course)
    requires e in db.entries && e.entryState == "active"
    requires t in db.topics && c in db.courses && t.topicId == e.topicId && c.courseId == t.courseId
    ensures ((e, t), c) in RecentRows(db)
  {
    assert (e, t) in Join(db.entries, db.topics, EntryOfTopic);
  }

  /** A candidate is an active entry whose topic and course both exist. */
  lemma {:induction false} RecentCandidatesExactly(db: Db, e: Entry)
    ensures e in RecentCandidates(db) <==>
              && e in db.entries && e.entryState == "active"
              && exists t, c :: t in db.topics && c in db.courses && t.topicId == e.topicId && c.courseId == t.courseId
  {
    RecentCandidateOfRow(db, e);
    if && e in db.entries && e.entryState == "active"
       && exists t, c :: t in db.topics && c in db.courses && t.topicId == e.topicId && c.courseId == t.courseId {
      var t, c :| t in db.topics && c in db.courses && t.topicId == e.topicId && c.courseId == t.courseId;
      EligibleRecentRow(db, e, t, c);
      assert RecentRowEntry(((e, t), c)) == e;
    }
    if e in RecentCandidates(db) {
      var row :| row in RecentRows(db) && RecentRowEntry(row) == e;
      RecentRowEligible(db, row);
    }
  }

  /** The recent-activity list: the ten newest candidates, the same for every user. */
  function RecentEntries(db: Db): (r: seq<Entry>)
    ensures |r| <= RecentLimit
    ensures |r| == RecentLimit || |r| == |RecentCandidates(db)|
    ensures forall i, j :: 0 <= i < j < |r| ==> r[i].createdAt >= r[j].createdAt
  {
    var r := Take(RecentCandidates(db), RecentLimit);
    TakeSorted(RecentCandidates(db), RecentLimit, NegCreatedAt);
    NewestFirst(r);
    r
  }

  lemma {:induction false} NewestFirst(r: seq<Entry>)
    requires SortedBy(r, NegCreatedAt)
    ensures forall i, j :: 0 <= i < j < |r| ==> r[i].createdAt >= r[j].createdAt
  {
    forall i, j | 0 <= i < j < |r| ensures r[i].createdAt >= r[j].createdAt {
      assert NegCreatedAt(r[i]) <= NegCreatedAt(r[j]);
    }
  }

  /**
    Every listed entry is an active entry whose topic and course exist, and
    no candidate left out is newer than any listed entry.
  */
  lemma RecentEntriesAreNewest(db: Db, e: Entry)
    requires && e in db.entries && e.entryState == "active"
             && exists t, c :: t in db.topics && c in db.courses && t.topicId == e.topicId && c.courseId == t.courseId
    requires e !in RecentEntries(db)
    ensures forall x :: x in RecentEntries(db) ==> x.createdAt >= e.createdAt
  {
    var all := RecentCandidates(db);
    var r := RecentEntries(db);
    RecentCandidatesExactly(db, e);
    var j :| 0 <= j < |all| && all[j] == e;
    assert j >= |r|;
    forall x | x in r ensures x.createdAt >= e.createdAt {
      var i :| 0 <= i < |r| && r[i] == x;
      assert x == all[i];
      assert NegCreatedAt(all[i]) <= NegCreatedAt(all[j]);
    }
  }

  /** Listed entries are active entries whose topic and course exist. */
  lemma RecentEntriesEligible(db: Db, x: Entry)
    requires x in RecentEntries(db)
    ensures && x in db.entries && x.entryState == "active"
            && exists t, c :: t in db.topics && c in db.courses && t.topicId == x.topicId && c.courseId == t.courseId
  {
    var r := RecentEntries(db);
    var i :| 0 <= i < |r| && r[i] == x;
    assert x in RecentCandidates(db);
    RecentCandidatesExactly(db, x);
  }

  /** What the dashboard handler answers. */
  datatype DashboardView =
    | ToLoginPage
    | DashboardPage(user: User, courses: seq<Course>, recentEntries: seq<Entry>, isAdmin: bool, isInstructor: bool)
    | DashboardServerError  // the admin check read the login of a user without one

  /**
    Without a resolvable user the dashboard sends the request to the login
    page and computes nothing; otherwise it lists the courses the user may
    see and the recent activity.
  */
  function Dashboard(db: Db, cookie: Option<string>, decode: string -> Option<Payload>): (r: DashboardView)
    ensures CurrentUser(db, cookie, decode).None? <==> r == ToLoginPage
    ensures r.DashboardServerError? <==>
              CurrentUser(db, cookie, decode).Some?
              && forall l :: l in db.logins ==> l.userId != CurrentUser(db, cookie, decode).value.userId
    ensures r.DashboardPage? ==>
              && Some(r.user) == CurrentUser(db, cookie, decode)
              && r.user in db.users
              && (r.isAdmin <==> IsAdmin(db, r.user) == Ok(true))
              && (r.isInstructor <==> exists e :: e in db.enrollments && e.userId == r.user.userId && e.enrollmentType == "teacher")
              && (r.isAdmin ==> r.courses == db.courses)
              && (!r.isAdmin ==> forall c :: c in r.courses ==>
                    c in db.courses && exists e :: && e in db.enrollments && e.courseId == c.courseId
                                                   && e.userId == r.user.userId && e.enrollmentState == "active")
              && r.courses == AccessibleCourses(db, r.user, r.isAdmin)
              && r.recentEntries == RecentEntries(db)
  {
    match CurrentUser(db, cookie, decode)
    case None => ToLoginPage
    case Some(user) =>
      match IsAdmin(db, user)
      case Fault => DashboardServerError
      case Ok(admin) =>
        var courses := AccessibleCourses(db, user, admin);
        assert !admin ==> forall c :: c in courses ==>
                 c in db.courses && exists e :: && e in db.enrollments && e.courseId == c.courseId
                                                && e.userId == user.userId && e.enrollmentState == "active" by {
          if !admin {
            forall c | c in courses
              ensures c in db.courses && exists e :: && e in db.enrollments && e.courseId == c.courseId
                                                     && e.userId == user.userId && e.enrollmentState == "active"
            {
              AccessibleCoursesExactly(db, user, c);
            }
          }
        }
        DashboardPage(user, courses, RecentEntries(db), admin, IsInstructor(db, user))
  }

  // ---------------------------------------------------- course analytics

  /** What the course analytics handler answers. */
  datatype AnalyticsView =
    | AnalyticsToLogin
    | CourseNotFound  // 404
    | AnalyticsPage(user: User, course: Course, courseId: int)

  /** Authentication comes first; only then is the course looked up. */
  function CourseAnalytics(db: Db, cookie: Option<string>, decode: string -> Option<Payload>, courseId: int): (r: AnalyticsView)
    ensures CurrentUser(db, cookie, decode).None? <==> r == AnalyticsToLogin
    ensures r.CourseNotFound? <==>
              CurrentUser(db, cookie, decode).Some? && forall c :: c in db.courses ==> c.courseId != courseId
    ensures r.AnalyticsPage? ==>
              && Some(r.user) == CurrentUser(db, cookie, decode)
              && r.course in db.courses && r.course.courseId == courseId && r.courseId == courseId
  {
    match CurrentUser(db, cookie, decode)
    case None => AnalyticsToLogin
    case Some(user) =>
      match FirstWith(db.courses, CourseKey, courseId)
      case None => CourseNotFound
      case Some(course) => AnalyticsPage(user, course, courseId)
  }

  /** Under the schema's keys, an authenticated request for an existing course shows that course. */
  lemma CourseAnalyticsShows(db: Db, cookie: Option<string>, decode: string -> Option<Payload>, c: Course)
    requires WellFormed(db) && c in db.courses
    requires CurrentUser(db, cookie, decode).Some?
    ensures CourseAnalytics(db, cookie, decode, c.courseId)
         == AnalyticsPage(CurrentUser(db, cookie, decode).value, c, c.courseId)
  {
    FirstWithUnique(db.courses, CourseKey, c);
  }
}

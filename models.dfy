/**
  The six tables of the discussion store (app/models.py) as immutable
  records, a snapshot holding one sequence of rows per table, and the two
  kinds of integrity a snapshot can have: the key constraints the schema
  declares (primary keys and the UNIQUE login id), and the foreign-key
  links between tables. The reports never rely on the second.
*/
module Models {
  import opened Query

  /** Seconds since the epoch (the store's naive datetimes, read as UTC). */
  type Timestamp = int

  /**
    The result of code that can raise: `Fault` stands for an unhandled
    exception, which the web layer turns into a server error. In this core
    the only such exception is reading an attribute through a relationship
    whose related row is missing.
  */
  datatype Checked<T> = Ok(value: T) | Fault

  datatype User = User(
    userId: int,
    userName: string,
    createdAt: Timestamp,
    deletedAt: Option<Timestamp>,
    userState: string)

  datatype Course = Course(
    courseId: int,
    semester: string,
    courseCode: string,
    courseName: string,
    createdAt: Timestamp)

  /** `id` is a surrogate key: nothing makes (userId, courseId) unique. */
  datatype Enrollment = Enrollment(
    id: int,
    userId: int,
    courseId: int,
    enrollmentType: string,   // "student" or "teacher"
    enrollmentState: string)  // "active" or "deleted"

  datatype Topic = Topic(
    topicId: int,
    title: string,
    content: string,
    createdAt: Timestamp,
    deletedAt: Option<Timestamp>,
    topicState: string,
    courseId: int,
    postedBy: int)

  /** `parentId` names another entry, of any topic, or none for a root post. */
  datatype Entry = Entry(
    entryId: int,
    content: string,
    createdAt: Timestamp,
    deletedAt: Option<Timestamp>,
    entryState: string,
    parentId: Option<int>,
    postedBy: int,
    topicId: int)

  /** Keyed by `userId`; `loginId` is UNIQUE. */
  datatype Login = Login(userId: int, loginId: string)

  /** One consistent read of the six tables. */
  datatype Db = Db(
    users: seq<User>,
    courses: seq<Course>,
    enrollments: seq<Enrollment>,
    topics: seq<Topic>,
    entries: seq<Entry>,
    logins: seq<Login>)

  // Key columns, as functions so that the generic lookups can use them.
  function UserKey(u: User): int { u.userId }
  function CourseKey(c: Course): int { c.courseId }
  function EnrollmentKey(e: Enrollment): int { e.id }
  function TopicKey(t: Topic): int { t.topicId }
  function EntryKey(e: Entry): int { e.entryId }
  function LoginUser(l: Login): int { l.userId }
  function LoginName(l: Login): string { l.loginId }

  /** The join condition of an entry and its topic (`Entry.topic_id == Topic.topic_id`). */
  predicate EntryOfTopic(e: Entry, t: Topic) { e.topicId == t.topicId }

  /**
    The user row with this id: a lookup by primary key, and also the
    `user` relationship of a login and the `author` relationship of an entry.
  */
  function UserById(db: Db, userId: int): Option<User>
  {
    FirstWith(db.users, UserKey, userId)
  }

  /** The `login` relationship of a user: the login row keyed by the user's id. */
  function LoginOfUser(db: Db, userId: int): Option<Login>
  {
    FirstWith(db.logins, LoginUser, userId)
  }

  /**
    The constraints the schema declares: every primary key is unique within
    its table, a login is keyed by its user (so a user has at most one), and
    login ids are UNIQUE.
  */
  ghost predicate WellFormed(db: Db)
  {
    && UniqueBy(db.users, UserKey)
    && UniqueBy(db.courses, CourseKey)
    && UniqueBy(db.enrollments, EnrollmentKey)
    && UniqueBy(db.topics, TopicKey)
    && UniqueBy(db.entries, EntryKey)
    && UniqueBy(db.logins, LoginUser)
    && UniqueBy(db.logins, LoginName)
  }

  ghost predicate HasUser(db: Db, id: int) { exists u :: u in db.users && u.userId == id }
  ghost predicate HasCourse(db: Db, id: int) { exists c :: c in db.courses && c.courseId == id }
  ghost predicate HasTopic(db: Db, id: int) { exists t :: t in db.topics && t.topicId == id }
  ghost predicate HasEntry(db: Db, id: int) { exists e :: e in db.entries && e.entryId == id }

  /**
    Every foreign key names an existing row. Nothing in the core checks
    this; it is what the ingestion is expected to produce.
  */
  ghost predicate ForeignKeysHold(db: Db)
  {
    && (forall e :: e in db.enrollments ==> HasUser(db, e.userId) && HasCourse(db, e.courseId))
    && (forall t :: t in db.topics ==> HasCourse(db, t.courseId) && HasUser(db, t.postedBy))
    && (forall e :: e in db.entries ==> HasUser(db, e.postedBy) && HasTopic(db, e.topicId))
    && (forall e :: e in db.entries && e.parentId.Some? ==> HasEntry(db, e.parentId.value))
    && (forall l :: l in db.logins ==> HasUser(db, l.userId))
  }

  // ---------------------------------------------------------- examples

  const Alice := User(1, "Alice", 0, None, "registered")
  const Algebra := Course(10, "S1", "MATH101", "Algebra", 0)

  /**
    The schema lets one user hold several enrollment rows for the same
    course, even with the same type and state: only the surrogate id is a key.
  */
  lemma DuplicateEnrollmentsAllowed()
    ensures var db := Db([Alice], [Algebra],
                         [Enrollment(1, 1, 10, "student", "active"),
                          Enrollment(2, 1, 10, "student", "active")],
                         [], [], []);
            WellFormed(db) && ForeignKeysHold(db)
  {
    var db := Db([Alice], [Algebra],
                  [Enrollment(1, 1, 10, "student", "active"),
                   Enrollment(2, 1, 10, "student", "active")],
                  [], [], []);
    assert HasUser(db, 1) by { assert db.users[0] == Alice; }
    assert HasCourse(db, 10) by { assert db.courses[0] == Algebra; }
  }

  /**
    An entry's parent may sit in another topic: integrity only asks the
    parent to exist.
  */
  lemma CrossTopicParentAllowed()
    ensures var db := Db([Alice], [Algebra], [],
                         [Topic(100, "a", "", 0, None, "active", 10, 1),
                          Topic(200, "b", "", 0, None, "active", 10, 1)],
                         [Entry(1000, "root", 5, None, "active", None, 1, 100),
                          Entry(1001, "reply", 6, None, "active", Some(1000), 1, 200)],
                         []);
            WellFormed(db) && ForeignKeysHold(db)
            && db.entries[1].topicId != db.entries[0].topicId
            && db.entries[1].parentId == Some(db.entries[0].entryId)
  {
    var db := Db([Alice], [Algebra], [],
                 [Topic(100, "a", "", 0, None, "active", 10, 1),
                  Topic(200, "b", "", 0, None, "active", 10, 1)],
                 [Entry(1000, "root", 5, None, "active", None, 1, 100),
                  Entry(1001, "reply", 6, None, "active", Some(1000), 1, 200)],
                 []);
    assert HasUser(db, 1) by { assert db.users[0] == Alice; }
    assert HasCourse(db, 10) by { assert db.courses[0] == Algebra; }
    assert HasTopic(db, 100) by { assert db.topics[0].topicId == 100; }
    assert HasTopic(db, 200) by { assert db.topics[1].topicId == 200; }
    assert HasEntry(db, 1000) by { assert db.entries[0].entryId == 1000; }
  }
}

/**
  The four read-only reports of app/routes/analytics.py, each computed from
  one snapshot of the store:

  - course statistics: per course NAME, active topics, active entries and
    distinct registered authors, plus the number of course rows;
  - the discussion timeline: active entries per calendar day, ascending;
  - the student engagement ranking of one course;
  - the structure of one thread (topic).

  Each SQL query is written as the Filter/Join/Group of its clauses, with
  its join conditions and filters named below.
*/
module Analytics {
  import opened Query
  import opened Models

  // =================================================== course statistics

  type CourseTopic = (Course, Topic)
  type CourseTopicEntry = (CourseTopic, Entry)
  type CourseTopicEntryUser = (CourseTopicEntry, User)

  // ON clauses
  predicate TopicInCourse(c: Course, t: Topic) { c.courseId == t.courseId }
  predicate EntryInTopic(ct: CourseTopic, e: Entry) { ct.1.topicId == e.topicId }
  predicate PostedBy(cte: CourseTopicEntry, u: User) { cte.1.postedBy == u.userId }

  // WHERE clauses
  predicate TopicRowActive(r: CourseTopic) { r.1.topicState == "active" }
  predicate EntryRowActive(r: CourseTopicEntry) { r.1.entryState == "active" }
  predicate ParticipationRowKept(r: CourseTopicEntryUser)
  {
    r.0.1.entryState == "active" && r.1.userState == "registered"
  }

  // GROUP BY keys and counted columns
  function TopicRowName(r: CourseTopic): string { r.0.courseName }
  function EntryRowName(r: CourseTopicEntry): string { r.0.0.courseName }
  function EntryRowAuthor(r: CourseTopicEntry): int { r.1.postedBy }
  function ParticipationRowName(r: CourseTopicEntryUser): string { r.0.0.0.courseName }
  function ParticipationRowAuthor(r: CourseTopicEntryUser): int { r.0.1.postedBy }

  /** `Course JOIN Topic ON course_id`. */
  function CourseTopics(db: Db): seq<CourseTopic>
  {
    Join(db.courses, db.topics, TopicInCourse)
  }

  /** `Course JOIN Topic ON course_id JOIN Entry ON topic_id`. */
  function CourseTopicEntries(db: Db): seq<CourseTopicEntry>
  {
    Join(CourseTopics(db), db.entries, EntryInTopic)
  }

  /** Rows of the topic query: `WHERE topic_state = 'active'`. */
  function TopicStatsRows(db: Db): seq<CourseTopic>
  {
    Filter(CourseTopics(db), TopicRowActive)
  }

  /** Rows of the activity query: `WHERE entry_state = 'active'` (the topic's state is not looked at). */
  function ActivityRows(db: Db): seq<CourseTopicEntry>
  {
    Filter(CourseTopicEntries(db), EntryRowActive)
  }

  /** Rows of the participation query: joined to the author, active entries of registered users. */
  function ParticipationRows(db: Db): seq<CourseTopicEntryUser>
  {
    Filter(Join(CourseTopicEntries(db), db.users, PostedBy), ParticipationRowKept)
  }

  /** The course-stats payload; each breakdown maps a course name to its count. */
  datatype CourseStats = CourseStats(
    totalCourses: nat,
    topicStats: map<string, nat>,
    activityStats: map<string, nat>,
    participationStats: map<string, nat>)

  /** Active topics per course name. */
  function TopicStats(db: Db): map<string, nat>
  {
    GroupCount(TopicStatsRows(db), TopicRowName)
  }

  /** Active entries per course name. */
  function ActivityStats(db: Db): map<string, nat>
  {
    GroupCount(ActivityRows(db), EntryRowName)
  }

  /** Distinct registered authors of active entries per course name. */
  function ParticipationStats(db: Db): map<string, nat>
  {
    GroupDistinct(ParticipationRows(db), ParticipationRowName, ParticipationRowAuthor)
  }

  /**
    Course statistics. Every course row is counted in the total; a name
    appears in a breakdown only when its group has at least one row.
  */
  function GetCourseStats(db: Db): (r: CourseStats)
    ensures r.totalCourses == |db.courses|
    ensures forall name :: name in r.topicStats ==> r.topicStats[name] >= 1
    ensures forall name :: name in r.activityStats ==> r.activityStats[name] >= 1
    ensures forall name :: name in r.participationStats ==>
              name in r.activityStats && 1 <= r.participationStats[name] <= r.activityStats[name]
  {
    var r := CourseStats(|db.courses|, TopicStats(db), ActivityStats(db), ParticipationStats(db));
    assert forall name :: name in r.participationStats ==>
             name in r.activityStats && r.participationStats[name] <= r.activityStats[name] by {
      forall name | name in r.participationStats
        ensures name in r.activityStats && r.participationStats[name] <= r.activityStats[name]
      {
        ParticipationAtMostActivity(db, name);
      }
    }
    r
  }

  /**
    A name has a topic row exactly when some course with that name has an
    active topic.
  */
  lemma {:induction false} TopicStatsGroups(db: Db, name: string)
    ensures name in GetCourseStats(db).topicStats <==>
              exists c, t :: c in db.courses && t in db.topics && c.courseId == t.courseId
                             && t.topicState == "active" && c.courseName == name
  {
    if name in TopicStats(db) {
      var row :| row in TopicStatsRows(db) && TopicRowName(row) == name;
      TopicStatsRowJoined(db, row);
    }
    if exists c, t :: c in db.courses && t in db.topics && c.courseId == t.courseId
                      && t.topicState == "active" && c.courseName == name {
      var c, t :| c in db.courses && t in db.topics && c.courseId == t.courseId
                  && t.topicState == "active" && c.courseName == name;
      JoinedTopicStatsRow(db, c, t);
    }
  }

  lemma {:induction false} TopicStatsRowJoined(db: Db, row: CourseTopic)
    requires row in TopicStatsRows(db)
    ensures row.0 in db.courses && row.1 in db.topics && row.0.courseId == row.1.courseId
    ensures row.1.topicState == "active"
  {
  }

  lemma {:induction false} JoinedTopicStatsRow(db: Db, c: Course, t: Topic)
    requires c in db.courses && t in db.topics && c.courseId == t.courseId && t.topicState == "active"
    ensures (c, t) in TopicStatsRows(db) && c.courseName in TopicStats(db)
  {
    assert (c, t) in CourseTopics(db);
    assert TopicRowName((c, t)) == c.courseName;
  }

  /** The number of active topics whose course id is `courseId`. */
  function ActiveTopicsOf(topics: seq<Topic>, courseId: int): nat
  {
    if topics == [] then 0
    else (if topics[0].courseId == courseId && topics[0].topicState == "active" then 1 else 0)
         + ActiveTopicsOf(topics[1..], courseId)
  }

  /** The sum, over the course rows named `name`, of their active topic counts. */
  function ActiveTopicsNamed(courses: seq<Course>, topics: seq<Topic>, name: string): nat
  {
    if courses == [] then 0
    else (if courses[0].courseName == name then ActiveTopicsOf(topics, courses[0].courseId) else 0)
         + ActiveTopicsNamed(courses[1..], topics, name)
  }

  lemma {:induction false} MatchesTopicCount(c: Course, topics: seq<Topic>, name: string)
    ensures CountKey(Filter(Matches(c, topics, TopicInCourse), TopicRowActive), TopicRowName, name)
         == if c.courseName == name then ActiveTopicsOf(topics, c.courseId) else 0
  {
    if topics != [] {
      var head := if TopicInCourse(c, topics[0]) then [(c, topics[0])] else [];
      var tail := Matches(c, topics[1..], TopicInCourse);
      assert Matches(c, topics, TopicInCourse) == head + tail;
      FilterConcat(head, tail, TopicRowActive);
      CountKeyConcat(Filter(head, TopicRowActive), Filter(tail, TopicRowActive), TopicRowName, name);
      MatchesTopicCount(c, topics[1..], name);
    }
  }

  lemma {:induction false} TopicCountByCourse(courses: seq<Course>, topics: seq<Topic>, name: string)
    ensures CountKey(Filter(Join(courses, topics, TopicInCourse), TopicRowActive), TopicRowName, name)
         == ActiveTopicsNamed(courses, topics, name)
  {
    if courses != [] {
      var first := Matches(courses[0], topics, TopicInCourse);
      var rest := Join(courses[1..], topics, TopicInCourse);
      FilterConcat(first, rest, TopicRowActive);
      CountKeyConcat(Filter(first, TopicRowActive), Filter(rest, TopicRowActive), TopicRowName, name);
      MatchesTopicCount(courses[0], topics, name);
      TopicCountByCourse(courses[1..], topics, name);
    }
  }

  /**
    Topic counts are grouped by course name, so courses sharing a name
    give one row whose count is the sum of their active topic counts; a
    name absent from the breakdown has a sum of zero.
  */
  lemma TopicStatsSumsSameNamedCourses(db: Db, name: string)
    ensures (if name in GetCourseStats(db).topicStats then GetCourseStats(db).topicStats[name] else 0)
         == ActiveTopicsNamed(db.courses, db.topics, name)
  {
    TopicCountByCourse(db.courses, db.topics, name);
  }

  /** A course with no active topic (and no namesake that has one) is left out of the topic breakdown, yet counted in the total. */
  lemma CourseWithoutActiveTopics(db: Db, c: Course)
    requires c in db.courses
    requires forall c', t :: (c' in db.courses && t in db.topics && c'.courseName == c.courseName
                              && c'.courseId == t.courseId) ==> t.topicState != "active"
    ensures c.courseName !in GetCourseStats(db).topicStats
    ensures GetCourseStats(db).totalCourses == |db.courses| >= 1
  {
    TopicStatsGroups(db, c.courseName);
  }

  /** The number of active entries whose topic id is `topicId`. */
  function ActiveEntriesOf(entries: seq<Entry>, topicId: int): nat
  {
    if entries == [] then 0
    else (if entries[0].topicId == topicId && entries[0].entryState == "active" then 1 else 0)
         + ActiveEntriesOf(entries[1..], topicId)
  }

  /** The sum, over the topics of the course (in any state), of their active entry counts. */
  function ActiveEntriesOfCourse(topics: seq<Topic>, entries: seq<Entry>, courseId: int): nat
  {
    if topics == [] then 0
    else (if topics[0].courseId == courseId then ActiveEntriesOf(entries, topics[0].topicId) else 0)
         + ActiveEntriesOfCourse(topics[1..], entries, courseId)
  }

  /** The sum, over the course rows named `name`, of their active entry counts. */
  function ActiveEntriesNamed(courses: seq<Course>, topics: seq<Topic>, entries: seq<Entry>, name: string): nat
  {
    if courses == [] then 0
    else (if courses[0].courseName == name then ActiveEntriesOfCourse(topics, entries, courses[0].courseId) else 0)
         + ActiveEntriesNamed(courses[1..], topics, entries, name)
  }

  lemma {:induction false} MatchesEntryCount(ct: CourseTopic, entries: seq<Entry>, name: string)
    ensures CountKey(Filter(Matches(ct, entries, EntryInTopic), EntryRowActive), EntryRowName, name)
         == if ct.0.courseName == name then ActiveEntriesOf(entries, ct.1.topicId) else 0
  {
    if entries != [] {
      var head := if EntryInTopic(ct, entries[0]) then [(ct, entries[0])] else [];
      var tail := Matches(ct, entries[1..], EntryInTopic);
      assert Matches(ct, entries, EntryInTopic) == head + tail;
      FilterConcat(head, tail, EntryRowActive);
      CountKeyConcat(Filter(head, EntryRowActive), Filter(tail, EntryRowActive), EntryRowName, name);
      MatchesEntryCount(ct, entries[1..], name);
    }
  }

  lemma HeadEntryCount(c: Course, t: Topic, entries: seq<Entry>, name: string)
    ensures CountKey(Filter(Join(if TopicInCourse(c, t) then [(c, t)] else [], entries, EntryInTopic),
                            EntryRowActive), EntryRowName, name)
         == if c.courseId == t.courseId && c.courseName == name then ActiveEntriesOf(entries, t.topicId) else 0
  {
    if TopicInCourse(c, t) {
      JoinSingle((c, t), entries, EntryInTopic);
      MatchesEntryCount((c, t), entries, name);
    }
  }

  lemma {:induction false} CourseEntryCount(c: Course, topics: seq<Topic>, entries: seq<Entry>, name: string)
    ensures CountKey(Filter(Join(Matches(c, topics, TopicInCourse), entries, EntryInTopic), EntryRowActive), EntryRowName, name)
         == if c.courseName == name then ActiveEntriesOfCourse(topics, entries, c.courseId) else 0
  {
    if topics != [] {
      var head := if TopicInCourse(c, topics[0]) then [(c, topics[0])] else [];
      var tail := Matches(c, topics[1..], TopicInCourse);
      assert Matches(c, topics, TopicInCourse) == head + tail;
      JoinConcat(head, tail, entries, EntryInTopic);
      var jh, jt := Join(head, entries, EntryInTopic), Join(tail, entries, EntryInTopic);
      FilterConcat(jh, jt, EntryRowActive);
      CountKeyConcat(Filter(jh, EntryRowActive), Filter(jt, EntryRowActive), EntryRowName, name);
      CourseEntryCount(c, topics[1..], entries, name);
      HeadEntryCount(c, topics[0], entries, name);
    }
  }

  lemma {:induction false} EntryCountByCourse(courses: seq<Course>, topics: seq<Topic>, entries: seq<Entry>, name: string)
    ensures CountKey(Filter(Join(Join(courses, topics, TopicInCourse), entries, EntryInTopic), EntryRowActive), EntryRowName, name)
         == ActiveEntriesNamed(courses, topics, entries, name)
  {
    if courses != [] {
      var first := Matches(courses[0], topics, TopicInCourse);
      var rest := Join(courses[1..], topics, TopicInCourse);
      JoinConcat(first, rest, entries, EntryInTopic);
      var jf, jr := Join(first, entries, EntryInTopic), Join(rest, entries, EntryInTopic);
      FilterConcat(jf, jr, EntryRowActive);
      CountKeyConcat(Filter(jf, EntryRowActive), Filter(jr, EntryRowActive), EntryRowName, name);
      CourseEntryCount(courses[0], topics, entries, name);
      EntryCountByCourse(courses[1..], topics, entries, name);
    }
  }

  /**
    Entry counts are grouped by course name and count every active entry of
    every topic of those courses, whatever the topic's own state.
  */
  lemma ActivityStatsSumsSameNamedCourses(db: Db, name: string)
    ensures (if name in GetCourseStats(db).activityStats then GetCourseStats(db).activityStats[name] else 0)
         == ActiveEntriesNamed(db.courses, db.topics, db.entries, name)
  {
    EntryCountByCourse(db.courses, db.topics, db.entries, name);
  }

  /** Every participation row extends a row of the activity query. */
  lemma ParticipationRowIsActivityRow(db: Db, x: CourseTopicEntryUser)
    requires x in ParticipationRows(db)
    ensures x.0 in ActivityRows(db) && EntryRowName(x.0) == ParticipationRowName(x)
    ensures EntryRowAuthor(x.0) == ParticipationRowAuthor(x)
  {
    assert x in Join(CourseTopicEntries(db), db.users, PostedBy);
    assert x.0 in CourseTopicEntries(db);
  }

  /**
    Participation counts distinct authors, and only authors of rows the
    activity query also counts, so it never exceeds the activity count.
  */
  lemma {:induction false} ParticipationAtMostActivity(db: Db, name: string)
    ensures var m := GroupDistinct(ParticipationRows(db), ParticipationRowName, ParticipationRowAuthor);
            var a := GroupCount(ActivityRows(db), EntryRowName);
            name in m ==> name in a && m[name] <= a[name]
  {
    var P, A := ParticipationRows(db), ActivityRows(db);
    var m := GroupDistinct(P, ParticipationRowName, ParticipationRowAuthor);
    var a := GroupCount(A, EntryRowName);
    if name in m {
      var x :| x in P && ParticipationRowName(x) == name;
      ParticipationRowIsActivityRow(db, x);
      var dp := DistinctValues(P, ParticipationRowName, ParticipationRowAuthor, name);
      var da := DistinctValues(A, EntryRowName, EntryRowAuthor, name);
      forall v | v in dp ensures v in da {
        var y :| y in P && ParticipationRowName(y) == name && ParticipationRowAuthor(y) == v;
        ParticipationRowIsActivityRow(db, y);
      }
      LemmaSubsetSize(dp, da);
      DistinctValuesAtMostCount(A, EntryRowName, EntryRowAuthor, name);
    }
  }

  /** Names a participation row: its course, topic, entry and author. */
  ghost predicate ParticipationWitness(db: Db, name: string, c: Course, t: Topic, e: Entry, u: User)
  {
    && c in db.courses && t in db.topics && e in db.entries && u in db.users
    && c.courseId == t.courseId && t.topicId == e.topicId && e.postedBy == u.userId
    && e.entryState == "active" && u.userState == "registered" && c.courseName == name
  }

  lemma ParticipationWitnessRow(db: Db, name: string, c: Course, t: Topic, e: Entry, u: User)
    requires ParticipationWitness(db, name, c, t, e, u)
    ensures (((c, t), e), u) in ParticipationRows(db)
  {
    assert (c, t) in CourseTopics(db);
    assert ((c, t), e) in CourseTopicEntries(db);
    assert (((c, t), e), u) in Join(CourseTopicEntries(db), db.users, PostedBy);
  }

  lemma ParticipationRowWitness(db: Db, x: CourseTopicEntryUser)
    requires x in ParticipationRows(db)
    ensures ParticipationWitness(db, ParticipationRowName(x), x.0.0.0, x.0.0.1, x.0.1, x.1)
  {
    assert x in Join(CourseTopicEntries(db), db.users, PostedBy);
    assert x.0 in CourseTopicEntries(db);
    assert x.0.0 in CourseTopics(db);
  }

  lemma ParticipationNameWitnessed(db: Db, name: string)
    requires name in ParticipationStats(db)
    ensures exists c, t, e, u :: ParticipationWitness(db, name, c, t, e, u)
  {
    var x :| x in ParticipationRows(db) && ParticipationRowName(x) == name;
    ParticipationRowWitness(db, x);
  }

  lemma ParticipationWitnessNamed(db: Db, name: string, c: Course, t: Topic, e: Entry, u: User)
    requires ParticipationWitness(db, name, c, t, e, u)
    ensures name in ParticipationStats(db)
  {
    ParticipationWitnessRow(db, name, c, t, e, u);
    assert ParticipationRowName((((c, t), e), u)) == name;
  }

  /**
    A name appears in the participation breakdown exactly when some course
    with that name has an active entry by a registered user.
  */
  lemma ParticipationGroups(db: Db, name: string)
    ensures name in GetCourseStats(db).participationStats <==>
              exists c, t, e, u :: ParticipationWitness(db, name, c, t, e, u)
  {
    if name in ParticipationStats(db) {
      ParticipationNameWitnessed(db, name);
    }
    if exists c, t, e, u :: ParticipationWitness(db, name, c, t, e, u) {
      var c, t, e, u :| ParticipationWitness(db, name, c, t, e, u);
      ParticipationWitnessNamed(db, name, c, t, e, u);
    }
  }

  /** The ids of registered users with an active entry in a topic of a course named `name`. */
  ghost function ParticipantsNamed(db: Db, name: string): set<int>
  {
    set c, t, e, u | c in db.courses && t in db.topics && e in db.entries && u in db.users
                     && ParticipationWitness(db, name, c, t, e, u) :: e.postedBy
  }

  lemma ParticipantsFromRows(db: Db, name: string, a: int)
    requires a in DistinctValues(ParticipationRows(db), ParticipationRowName, ParticipationRowAuthor, name)
    ensures a in ParticipantsNamed(db, name)
  {
    var x :| x in ParticipationRows(db) && ParticipationRowName(x) == name && ParticipationRowAuthor(x) == a;
    ParticipationRowWitness(db, x);
  }

  lemma ParticipantsToRows(db: Db, name: string, a: int)
    requires a in ParticipantsNamed(db, name)
    ensures a in DistinctValues(ParticipationRows(db), ParticipationRowName, ParticipationRowAuthor, name)
  {
    var c, t, e, u :| && c in db.courses && t in db.topics && e in db.entries && u in db.users
                      && ParticipationWitness(db, name, c, t, e, u) && e.postedBy == a;
    ParticipationWitnessRow(db, name, c, t, e, u);
    assert ParticipationRowAuthor((((c, t), e), u)) == a;
  }

  lemma ParticipantsAreDistinctAuthors(db: Db, name: string)
    ensures DistinctValues(ParticipationRows(db), ParticipationRowName, ParticipationRowAuthor, name)
         == ParticipantsNamed(db, name)
  {
    var authors := DistinctValues(ParticipationRows(db), ParticipationRowName, ParticipationRowAuthor, name);
    forall a | a in authors ensures a in ParticipantsNamed(db, name) {
      ParticipantsFromRows(db, name, a);
    }
    forall a | a in ParticipantsNamed(db, name) ensures a in authors {
      ParticipantsToRows(db, name, a);
    }
  }

  /** The participation value of a name is the number of such distinct users. */
  lemma ParticipationCountsAuthors(db: Db, name: string)
    requires name in GetCourseStats(db).participationStats
    ensures GetCourseStats(db).participationStats[name] == |ParticipantsNamed(db, name)|
  {
    ParticipantsAreDistinctAuthors(db, name);
  }

  // ================================================= discussion timeline

  const SecondsPerDay := 86400

  /** The calendar day of a timestamp (days since the epoch, UTC). */
  function DayOf(t: Timestamp): int
  {
    t / SecondsPerDay
  }

  /** Truncating to the day keeps the order of timestamps. */
  lemma DayOfMonotone(a: Timestamp, b: Timestamp)
    requires a <= b
    ensures DayOf(a) <= DayOf(b)
  {
  }

  function EntryDay(e: Entry): int { DayOf(e.createdAt) }
  predicate EntryIsActive(e: Entry) { e.entryState == "active" }
  function RowEntry(r: (Entry, Topic)): Entry { r.0 }

  /** `if course_id:` is false for an absent id and for 0. */
  predicate CourseFilterApplies(courseId: Option<int>) { courseId.Some? && courseId.value != 0 }

  /** The course-filtered timeline's WHERE over entry-topic rows. */
  function TimelineRowFilter(courseId: int): ((Entry, Topic)) -> bool
  {
    (r: (Entry, Topic)) => r.1.courseId == courseId && r.0.entryState == "active"
  }

  /**
    The entries the timeline counts: the active ones, and, when the course
    filter applies, only those joined to a topic of that course.
  */
  function TimelineScope(db: Db, courseId: Option<int>): (r: seq<Entry>)
    ensures forall e :: e in r <==>
              && e in db.entries && e.entryState == "active"
              && (CourseFilterApplies(courseId) ==>
                    exists t :: t in db.topics && t.topicId == e.topicId && t.courseId == courseId.value)
  {
    if CourseFilterApplies(courseId) then
      var rows := Filter(Join(db.entries, db.topics, EntryOfTopic), TimelineRowFilter(courseId.value));
      var r := Project(rows, RowEntry);
      assert forall e :: e in r <==>
               && e in db.entries && e.entryState == "active"
               && exists t :: t in db.topics && t.topicId == e.topicId && t.courseId == courseId.value by {
        forall e ensures e in r <==>
                           && e in db.entries && e.entryState == "active"
                           && exists t :: t in db.topics && t.topicId == e.topicId && t.courseId == courseId.value
        {
          ProjectMembership(rows, RowEntry, e);
          if exists t :: t in db.topics && t.topicId == e.topicId && t.courseId == courseId.value {
            var t :| t in db.topics && t.topicId == e.topicId && t.courseId == courseId.value;
            if e in db.entries && e.entryState == "active" {
              assert (e, t) in rows;
            }
          }
        }
      }
      r
    else
      Filter(db.entries, EntryIsActive)
  }

  /** An active entry whose topic is one of the course's topics. */
  predicate InCourseTimeline(topics: seq<Topic>, courseId: int, e: Entry)
  {
    e.entryState == "active" && exists t :: t in topics && t.topicId == e.topicId && t.courseId == courseId
  }

  /** Whether the timeline counts an entry of the table, decided on the entry alone. */
  function InTimelineScope(db: Db, courseId: Option<int>): Entry -> bool
  {
    if CourseFilterApplies(courseId) then (e: Entry) => InCourseTimeline(db.topics, courseId.value, e)
    else EntryIsActive
  }

  /** Under unique topic ids an entry joins at most one topic, so the filtered join yields it once or not at all. */
  lemma InCourseTimelineCons(e: Entry, topics: seq<Topic>, courseId: int)
    requires topics != []
    ensures InCourseTimeline(topics, courseId, e)
        <==> || (e.entryState == "active" && topics[0].topicId == e.topicId && topics[0].courseId == courseId)
             || InCourseTimeline(topics[1..], courseId, e)
  {
    assert topics == [topics[0]] + topics[1..];
  }

  /** The entry a single entry-topic pair contributes to the course-filtered timeline. */
  lemma PairTimelineScope(e: Entry, t: Topic, courseId: int)
    ensures Project(Filter(if EntryOfTopic(e, t) then [(e, t)] else [], TimelineRowFilter(courseId)), RowEntry)
         == if e.entryState == "active" && t.topicId == e.topicId && t.courseId == courseId then [e] else []
  {
  }

  lemma {:induction false} MatchesTimelineScope(e: Entry, topics: seq<Topic>, courseId: int)
    requires UniqueBy(topics, TopicKey)
    ensures Project(Filter(Matches(e, topics, EntryOfTopic), TimelineRowFilter(courseId)), RowEntry)
         == if InCourseTimeline(topics, courseId, e) then [e] else []
  {
    if topics != [] {
      var t := topics[0];
      var p := TimelineRowFilter(courseId);
      var head := if EntryOfTopic(e, t) then [(e, t)] else [];
      var tail := Matches(e, topics[1..], EntryOfTopic);
      assert Matches(e, topics, EntryOfTopic) == head + tail;
      UniqueByTail(topics, TopicKey);
      MatchesTimelineScope(e, topics[1..], courseId);
      FilterConcat(head, tail, p);
      ProjectConcat(Filter(head, p), Filter(tail, p), RowEntry);
      PairTimelineScope(e, t, courseId);
      InCourseTimelineCons(e, topics, courseId);
      if t.topicId == e.topicId {
        assert !InCourseTimeline(topics[1..], courseId, e);
      }
    }
  }

  /** Under unique topic ids the filtered join lists the course's active entries once each, in table order. */
  lemma {:induction false} JoinTimelineScope(entries: seq<Entry>, topics: seq<Topic>, courseId: int)
    requires UniqueBy(topics, TopicKey)
    ensures Project(Filter(Join(entries, topics, EntryOfTopic), TimelineRowFilter(courseId)), RowEntry)
         == Filter(entries, (e: Entry) => InCourseTimeline(topics, courseId, e))
  {
    if entries != [] {
      var p := TimelineRowFilter(courseId);
      var m := Matches(entries[0], topics, EntryOfTopic);
      var rest := Join(entries[1..], topics, EntryOfTopic);
      FilterConcat(m, rest, p);
      ProjectConcat(Filter(m, p), Filter(rest, p), RowEntry);
      MatchesTimelineScope(entries[0], topics, courseId);
      JoinTimelineScope(entries[1..], topics, courseId);
    }
  }

  /**
    Under the schema's topic key the timeline's scope is the entry table
    filtered on the entry alone: every counted entry counts once.
  */
  lemma {:induction false} TimelineScopeOnce(db: Db, courseId: Option<int>)
    requires UniqueBy(db.topics, TopicKey)
    ensures TimelineScope(db, courseId) == Filter(db.entries, InTimelineScope(db, courseId))
  {
    if CourseFilterApplies(courseId) {
      JoinTimelineScope(db.entries, db.topics, courseId.value);
    }
  }

  /** One timeline point: a day and the number of posts made on it. */
  datatype DayCount = DayCount(day: int, posts: nat)

  ghost predicate StrictlyAscending(bs: seq<DayCount>)
  {
    forall i, j :: 0 <= i < j < |bs| ==> bs[i].day < bs[j].day
  }

  ghost predicate AllPositive(bs: seq<DayCount>)
  {
    forall i :: 0 <= i < |bs| ==> bs[i].posts >= 1
  }

  /** The posts a timeline reports for day `d` (zero when the day is absent). */
  function PostsOn(bs: seq<DayCount>, d: int): nat
  {
    if bs == [] then 0
    else (if bs[0].day == d then bs[0].posts else 0) + PostsOn(bs[1..], d)
  }

  /** The posts a timeline reports in all. */
  function TotalPosts(bs: seq<DayCount>): nat
  {
    if bs == [] then 0 else bs[0].posts + TotalPosts(bs[1..])
  }

  /** Counts one more post on day `d` in an ascending timeline. */
  function AddDay(bs: seq<DayCount>, d: int): (r: seq<DayCount>)
    requires StrictlyAscending(bs) && AllPositive(bs)
    ensures StrictlyAscending(r) && AllPositive(r)
    ensures |r| > 0 && r[0].day == (if bs == [] || d < bs[0].day then d else bs[0].day)
  {
    if bs == [] then [DayCount(d, 1)]
    else if d < bs[0].day then [DayCount(d, 1)] + bs
    else if d == bs[0].day then [DayCount(d, bs[0].posts + 1)] + bs[1..]
    else
      var rest := AddDay(bs[1..], d);
      assert forall i :: 0 <= i < |rest| ==> rest[0].day <= rest[i].day;
      [bs[0]] + rest
  }

  /** Adding day `d` adds one post in all, and one on day `d` only. */
  lemma {:induction false} AddDayCounts(bs: seq<DayCount>, d: int)
    requires StrictlyAscending(bs) && AllPositive(bs)
    ensures TotalPosts(AddDay(bs, d)) == TotalPosts(bs) + 1
    ensures forall x :: PostsOn(AddDay(bs, d), x) == PostsOn(bs, x) + (if x == d then 1 else 0)
  {
    var r := AddDay(bs, d);
    if bs == [] {
    } else if d < bs[0].day {
      assert r[1..] == bs;
    } else if d == bs[0].day {
      assert r[1..] == bs[1..];
    } else {
      AddDayCounts(bs[1..], d);
      assert r[1..] == AddDay(bs[1..], d);
    }
  }

  /**
    `GROUP BY date ORDER BY date` over a sequence of days: one point per
    distinct day, ascending, each counting how often that day occurs.
  */
  function GroupByDay(days: seq<int>): (r: seq<DayCount>)
    ensures StrictlyAscending(r) && AllPositive(r)
    ensures TotalPosts(r) == |days|
    ensures forall x :: PostsOn(r, x) == multiset(days)[x]
  {
    if days == [] then []
    else
      var init, last := days[..|days| - 1], days[|days| - 1];
      assert days == init + [last];
      AddDayCounts(GroupByDay(init), last);
      AddDay(GroupByDay(init), last)
  }

  /** In an ascending timeline, the posts reported for a listed day are those of its one point. */
  lemma {:induction false} PostsOnListedDay(bs: seq<DayCount>, i: int)
    requires StrictlyAscending(bs) && 0 <= i < |bs|
    ensures PostsOn(bs, bs[i].day) == bs[i].posts
  {
    if i == 0 {
      PostsOnAbsentDay(bs[1..], bs[0].day);
    } else {
      assert bs[0].day < bs[i].day;
      assert bs[1..][i - 1] == bs[i];
      PostsOnListedDay(bs[1..], i - 1);
    }
  }

  lemma {:induction false} PostsOnAbsentDay(bs: seq<DayCount>, d: int)
    requires StrictlyAscending(bs)
    requires forall i :: 0 <= i < |bs| ==> bs[i].day > d
    ensures PostsOn(bs, d) == 0
  {
    if bs != [] {
      PostsOnAbsentDay(bs[1..], d);
    }
  }

  lemma {:induction false} PostsOnUnlistedDay(bs: seq<DayCount>, d: int)
    requires forall i :: 0 <= i < |bs| ==> bs[i].day != d
    ensures PostsOn(bs, d) == 0
  {
    if bs != [] {
      PostsOnUnlistedDay(bs[1..], d);
    }
  }

  lemma {:induction false} CountKeyIsMultiplicity<T>(s: seq<T>, key: T -> int, k: int)
    ensures CountKey(s, key, k) == multiset(Project(s, key))[k]
  {
    if s != [] {
      assert Project(s, key) == [key(s[0])] + Project(s[1..], key);
      CountKeyIsMultiplicity(s[1..], key, k);
    }
  }

  /** The discussion timeline: active entries in scope, counted per day. */
  function GetDiscussionTimeline(db: Db, courseId: Option<int>): (r: seq<DayCount>)
    ensures StrictlyAscending(r) && AllPositive(r)
    ensures TotalPosts(r) == |TimelineScope(db, courseId)|
  {
    GroupByDay(Project(TimelineScope(db, courseId), EntryDay))
  }

  /**
    The timeline's days are strictly increasing (so none repeats), every
    point counts at least one post, the counts add up to the number of
    active entries in scope, each point counts exactly the entries of its
    day, and every day with such an entry has a point.
  */
  lemma TimelineShape(db: Db, courseId: Option<int>)
    ensures var r := GetDiscussionTimeline(db, courseId);
            var scope := TimelineScope(db, courseId);
            && StrictlyAscending(r)
            && AllPositive(r)
            && TotalPosts(r) == |scope|
            && (forall i :: 0 <= i < |r| ==> r[i].posts == CountKey(scope, EntryDay, r[i].day))
            && (forall e :: e in scope ==> exists i :: 0 <= i < |r| && r[i].day == DayOf(e.createdAt))
  {
    var r := GetDiscussionTimeline(db, courseId);
    var scope := TimelineScope(db, courseId);
    forall i | 0 <= i < |r| ensures r[i].posts == CountKey(scope, EntryDay, r[i].day) {
      PostsOnListedDay(r, i);
      CountKeyIsMultiplicity(scope, EntryDay, r[i].day);
    }
    forall e | e in scope ensures exists i :: 0 <= i < |r| && r[i].day == DayOf(e.createdAt) {
      var d := DayOf(e.createdAt);
      assert CountKey(scope, EntryDay, d) > 0 by {
        assert EntryDay(e) == d;
      }
      CountKeyIsMultiplicity(scope, EntryDay, d);
      if forall i :: 0 <= i < |r| ==> r[i].day != d {
        PostsOnUnlistedDay(r, d);
        assert false;
      }
    }
  }

  /**
    Under the schema's topic key, the timeline reports for each day exactly
    the number of entries of the table the timeline counts that were made
    on it, and in all the number of those entries.
  */
  lemma {:induction false} TimelinePostsPerDay(db: Db, courseId: Option<int>, d: int)
    requires UniqueBy(db.topics, TopicKey)
    ensures var counted := Filter(db.entries, InTimelineScope(db, courseId));
            && PostsOn(GetDiscussionTimeline(db, courseId), d) == CountKey(counted, EntryDay, d)
            && TotalPosts(GetDiscussionTimeline(db, courseId)) == |counted|
  {
    TimelineScopeOnce(db, courseId);
    CountKeyIsMultiplicity(TimelineScope(db, courseId), EntryDay, d);
  }

  /** An entry counted on an earlier point was created before one counted on a later point. */
  lemma TimelineChronological(db: Db, courseId: Option<int>, i: int, j: int, e1: Entry, e2: Entry)
    requires var r := GetDiscussionTimeline(db, courseId);
             0 <= i < j < |r| && DayOf(e1.createdAt) == r[i].day && DayOf(e2.createdAt) == r[j].day
    ensures e1.createdAt < e2.createdAt
  {
    TimelineShape(db, courseId);
    if e2.createdAt <= e1.createdAt {
      DayOfMonotone(e2.createdAt, e1.createdAt);
    }
  }

  /** A course id of 0 is falsy, so it filters nothing: the same as no course id. */
  lemma ZeroCourseIdMeansAllCourses(db: Db)
    ensures GetDiscussionTimeline(db, Some(0)) == GetDiscussionTimeline(db, None)
  {
  }

  // ================================================== student engagement

  predicate UserHoldsEnrollment(u: User, e: Enrollment) { u.userId == e.userId }
  function RowUser(r: (User, Enrollment)): User { r.0 }

  function StudentRows(db: Db, courseId: int): seq<(User, Enrollment)>
  {
    Filter(Join(db.users, db.enrollments, UserHoldsEnrollment),
           (row: (User, Enrollment)) => && row.1.courseId == courseId
                                        && row.1.enrollmentType == "student"
                                        && row.1.enrollmentState == "active")
  }

  /**
    The users joined to an active student enrollment in the course, in join
    order. The query asks for whole `User` entities, so the ORM merges the
    rows of one user (several enrollment rows) into the first.
  */
  function EnrolledStudents(db: Db, courseId: int): (r: seq<User>)
    ensures UniqueBy(r, UserKey)
  {
    UniqueFirst(Project(StudentRows(db, courseId), RowUser), UserKey)
  }

  /**
    Each listed student is a user with an active student enrollment in the
    course; under the schema's user key every such user is listed.
  */
  lemma {:induction false} EnrolledStudentsExactly(db: Db, courseId: int, u: User)
    ensures u in EnrolledStudents(db, courseId) ==>
              && u in db.users
              && exists e :: && e in db.enrollments && e.userId == u.userId && e.courseId == courseId
                             && e.enrollmentType == "student" && e.enrollmentState == "active"
    ensures UniqueBy(db.users, UserKey) ==>
              (&& u in db.users
               && (exists e :: && e in db.enrollments && e.userId == u.userId && e.courseId == courseId
                              && e.enrollmentType == "student" && e.enrollmentState == "active")
               ==> u in EnrolledStudents(db, courseId))
  {
    var rows := StudentRows(db, courseId);
    var users := Project(rows, RowUser);
    ProjectMembership(rows, RowUser, u);
    if u in db.users && exists e :: && e in db.enrollments && e.userId == u.userId && e.courseId == courseId
                                    && e.enrollmentType == "student" && e.enrollmentState == "active" {
      var e :| && e in db.enrollments && e.userId == u.userId && e.courseId == courseId
               && e.enrollmentType == "student" && e.enrollmentState == "active";
      assert (u, e) in rows;
      if UniqueBy(db.users, UserKey) {
        forall a, b | a in users && b in users && UserKey(a) == UserKey(b) ensures a == b {
          ProjectMembership(rows, RowUser, a);
          ProjectMembership(rows, RowUser, b);
          UniqueBySameRow(db.users, UserKey, a, b);
        }
        UniqueFirstMembers(users, UserKey, u);
      }
    }
  }

  function RowTopicId(r: (Entry, Topic)): int { r.1.topicId }

  /** The `WHERE` of the two per-student queries. */
  function PostRowFilter(courseId: int, userId: int): ((Entry, Topic)) -> bool
  {
    (row: (Entry, Topic)) => && row.1.courseId == courseId
                             && row.0.postedBy == userId
                             && row.0.entryState == "active"
  }

  /** The student's active entries in topics of the course, each joined to its topic. */
  function PostRows(db: Db, courseId: int, userId: int): seq<(Entry, Topic)>
  {
    Filter(Join(db.entries, db.topics, EntryOfTopic), PostRowFilter(courseId, userId))
  }

  /** A post row is an active entry of the student joined to its topic, which is in the course. */
  lemma PostRowsExactly(db: Db, courseId: int, userId: int, row: (Entry, Topic))
    ensures row in PostRows(db, courseId, userId) <==>
              && row.0 in db.entries && row.1 in db.topics && row.0.topicId == row.1.topicId
              && row.1.courseId == courseId && row.0.postedBy == userId && row.0.entryState == "active"
  {
  }

  /** An active entry of the student whose topic is one of the course's topics. */
  ghost predicate CoursePost(topics: seq<Topic>, courseId: int, userId: int, e: Entry)
  {
    && e.postedBy == userId && e.entryState == "active"
    && exists t :: t in topics && t.topicId == e.topicId && t.courseId == courseId
  }

  /** How many of `entries` are course posts of the student, counted with repetition. */
  ghost function CoursePostCount(topics: seq<Topic>, entries: seq<Entry>, courseId: int, userId: int): nat
  {
    if entries == [] then 0
    else (if CoursePost(topics, courseId, userId, entries[0]) then 1 else 0)
         + CoursePostCount(topics, entries[1..], courseId, userId)
  }

  /** The distinct topics the student's course posts are in. */
  ghost function CoursePostTopics(db: Db, courseId: int, userId: int): set<int>
  {
    set e | e in db.entries && CoursePost(db.topics, courseId, userId, e) :: e.topicId
  }

  /** Under unique topic ids an entry joins at most one topic, so it gives one post row or none. */
  lemma {:induction false} MatchesPostCount(e: Entry, topics: seq<Topic>, courseId: int, userId: int)
    requires UniqueBy(topics, TopicKey)
    ensures |Filter(Matches(e, topics, EntryOfTopic), PostRowFilter(courseId, userId))|
         == if CoursePost(topics, courseId, userId, e) then 1 else 0
  {
    if topics != [] {
      var t := topics[0];
      var head := if EntryOfTopic(e, t) then [(e, t)] else [];
      var tail := Matches(e, topics[1..], EntryOfTopic);
      assert Matches(e, topics, EntryOfTopic) == head + tail;
      assert UniqueBy(topics[1..], TopicKey) by {
        forall i, j | 0 <= i < j < |topics[1..]| ensures TopicKey(topics[1..][i]) != TopicKey(topics[1..][j]) {
          assert topics[1..][i] == topics[i + 1] && topics[1..][j] == topics[j + 1];
        }
      }
      MatchesPostCount(e, topics[1..], courseId, userId);
      FilterConcat(head, tail, PostRowFilter(courseId, userId));
      assert topics == [t] + topics[1..];
      if t.topicId == e.topicId {
        assert !exists u :: u in topics[1..] && u.topicId == e.topicId by {
          forall u | u in topics[1..] ensures u.topicId != e.topicId {
            var j :| 0 <= j < |topics[1..]| && topics[1..][j] == u;
            assert TopicKey(topics[0]) != TopicKey(topics[j + 1]);
          }
        }
      }
    }
  }

  /** Under unique topic ids the post rows are the student's course posts, one each. */
  lemma {:induction false} JoinPostCount(entries: seq<Entry>, topics: seq<Topic>, courseId: int, userId: int)
    requires UniqueBy(topics, TopicKey)
    ensures |Filter(Join(entries, topics, EntryOfTopic), PostRowFilter(courseId, userId))|
         == CoursePostCount(topics, entries, courseId, userId)
  {
    if entries != [] {
      var p := PostRowFilter(courseId, userId);
      FilterConcat(Matches(entries[0], topics, EntryOfTopic), Join(entries[1..], topics, EntryOfTopic), p);
      MatchesPostCount(entries[0], topics, courseId, userId);
      JoinPostCount(entries[1..], topics, courseId, userId);
    }
  }

  /** The distinct topics of the post rows are the topics of the student's course posts. */
  lemma {:induction false} PostRowTopics(db: Db, courseId: int, userId: int)
    ensures Image(PostRows(db, courseId, userId), RowTopicId) == CoursePostTopics(db, courseId, userId)
  {
    var rows := PostRows(db, courseId, userId);
    forall id | id in CoursePostTopics(db, courseId, userId) ensures id in Image(rows, RowTopicId) {
      var e :| e in db.entries && CoursePost(db.topics, courseId, userId, e) && e.topicId == id;
      var t :| t in db.topics && t.topicId == e.topicId && t.courseId == courseId;
      PostRowsExactly(db, courseId, userId, (e, t));
      assert RowTopicId((e, t)) == id;
    }
    forall id | id in Image(rows, RowTopicId) ensures id in CoursePostTopics(db, courseId, userId) {
      var row :| row in rows && RowTopicId(row) == id;
      PostRowsExactly(db, courseId, userId, row);
      assert CoursePost(db.topics, courseId, userId, row.0);
    }
  }

  /** One line of the engagement report. */
  datatype EngagementRow = EngagementRow(
    studentName: string,
    posts: nat,
    topicsParticipated: nat,
    engagementScore: nat)

  /**
    A student's line: the posts are the student's active entries in the
    course, the topics are the distinct topics among them, and the score
    weighs a topic twice as much as a post.
  */
  function RowFor(db: Db, courseId: int, student: User): (r: EngagementRow)
    ensures r.studentName == student.userName
    ensures r.engagementScore == r.posts + 2 * r.topicsParticipated
    ensures r.topicsParticipated <= r.posts
    ensures r.posts == 0 <==> r.topicsParticipated == 0
  {
    var rows := PostRows(db, courseId, student.userId);
    ImageAtMostLength(rows, RowTopicId);
    var posts := |rows|;
    var topics := |Image(rows, RowTopicId)|;
    EngagementRow(student.userName, posts, topics, posts + topics * 2)
  }

  /**
    What a line counts: the student's course posts, one each under the
    schema's topic key, and the distinct topics among them.
  */
  lemma {:induction false} RowForCounts(db: Db, courseId: int, student: User)
    ensures UniqueBy(db.topics, TopicKey) ==>
              RowFor(db, courseId, student).posts == CoursePostCount(db.topics, db.entries, courseId, student.userId)
    ensures RowFor(db, courseId, student).topicsParticipated == |CoursePostTopics(db, courseId, student.userId)|
  {
    if UniqueBy(db.topics, TopicKey) {
      JoinPostCount(db.entries, db.topics, courseId, student.userId);
    }
    PostRowTopics(db, courseId, student.userId);
  }

  /** The lines in the order the student query returns the students. */
  function EngagementRows(db: Db, courseId: int): (r: seq<EngagementRow>)
    ensures |r| == |EnrolledStudents(db, courseId)|
    ensures forall i :: 0 <= i < |r| ==> r[i] == RowFor(db, courseId, EnrolledStudents(db, courseId)[i])
  {
    var students := EnrolledStudents(db, courseId);
    seq(|students|, i requires 0 <= i < |students| => RowFor(db, courseId, students[i]))
  }

  /** Sorting ascending by the negated score is sorting descending by the score. */
  function NegScore(row: EngagementRow): int { -(row.engagementScore as int) }

  /**
    A student without an active entry in the course's topics still has a
    line, with no posts, no topics and score 0; one with such an entry has
    a positive score.
  */
  lemma SilentStudentScoresZero(db: Db, courseId: int, student: User)
    ensures RowFor(db, courseId, student).engagementScore == 0 <==>
              forall e, t :: e in db.entries && t in db.topics && e.topicId == t.topicId && t.courseId == courseId
                             ==> e.postedBy != student.userId || e.entryState != "active"
  {
    var rows := PostRows(db, courseId, student.userId);
    if |rows| > 0 {
      PostRowsExactly(db, courseId, student.userId, rows[0]);
    } else {
      forall e, t | e in db.entries && t in db.topics && e.topicId == t.topicId && t.courseId == courseId
        ensures e.postedBy != student.userId || e.entryState != "active"
      {
        PostRowsExactly(db, courseId, student.userId, (e, t));
      }
    }
  }

  /**
    Sorting lines by negated score puts every line in, highest score first,
    and lines with equal scores keep their relative order.
  */
  lemma {:induction false} RankingOrder(rows: seq<EngagementRow>)
    ensures var ranking := SortBy(rows, NegScore);
            && (forall i :: 0 <= i < |rows| ==> rows[i] in ranking)
            && (forall i, j :: 0 <= i < j < |ranking| ==> ranking[i].engagementScore >= ranking[j].engagementScore)
            && (forall k :: WithKey(ranking, NegScore, k) == WithKey(rows, NegScore, k))
  {
    var ranking := SortBy(rows, NegScore);
    forall k ensures WithKey(ranking, NegScore, k) == WithKey(rows, NegScore, k) {
      SortByStable(rows, NegScore, k);
    }
    forall i | 0 <= i < |rows| ensures rows[i] in ranking {
      assert rows[i] in multiset(rows);
    }
    forall i, j | 0 <= i < j < |ranking| ensures ranking[i].engagementScore >= ranking[j].engagementScore {
      assert NegScore(ranking[i]) <= NegScore(ranking[j]);
    }
  }

  /**
    The report ranks every listed student's line, from the highest score
    to the lowest, and students with equal scores keep the order in which
    the student query returned them.
  */
  lemma {:induction false} EngagementRanking(db: Db, courseId: int)
    ensures var ranking := SortBy(EngagementRows(db, courseId), NegScore);
            && |ranking| == |EnrolledStudents(db, courseId)|
            && (forall i :: 0 <= i < |EnrolledStudents(db, courseId)| ==>
                  RowFor(db, courseId, EnrolledStudents(db, courseId)[i]) in ranking)
            && (forall i, j :: 0 <= i < j < |ranking| ==> ranking[i].engagementScore >= ranking[j].engagementScore)
            && (forall k :: WithKey(ranking, NegScore, k) == WithKey(EngagementRows(db, courseId), NegScore, k))
  {
    RankingOrder(EngagementRows(db, courseId));
  }

  /** The two per-student queries of the loop: the student's posts and the distinct topics among them. */
  method StudentLine(db: Db, courseId: int, student: User) returns (row: EngagementRow)
    ensures row == RowFor(db, courseId, student)
    ensures UniqueBy(db.topics, TopicKey) ==>
              row.posts == CoursePostCount(db.topics, db.entries, courseId, student.userId)
    ensures row.topicsParticipated == |CoursePostTopics(db, courseId, student.userId)|
    ensures row.engagementScore == row.posts + 2 * row.topicsParticipated
  {
    RowForCounts(db, courseId, student);
    var rows := PostRows(db, courseId, student.userId);
    var postCount := |rows|;
    var topicCount := |Image(rows, RowTopicId)|;
    row := EngagementRow(student.userName, postCount, topicCount, postCount + topicCount * 2);
  }

  /** The first `i + 1` lines are the first `i` and the line of the `i`-th enrolled student. */
  lemma {:induction false} EngagementRowsPrefix(db: Db, courseId: int, i: nat)
    requires i < |EnrolledStudents(db, courseId)|
    ensures EngagementRows(db, courseId)[..i + 1]
              == EngagementRows(db, courseId)[..i] + [RowFor(db, courseId, EnrolledStudents(db, courseId)[i])]
  {
    var all := EngagementRows(db, courseId);
    assert all[..i + 1] == all[..i] + [all[i]];
  }

  /**
    Builds the engagement lines one student at a time, in the order the
    student query returns them, then sorts them by descending score with a
    stable sort (the order it yields is stated by EngagementRanking).
  */
  method GetStudentEngagement(db: Db, courseId: int) returns (ranking: seq<EngagementRow>)
    ensures ranking == SortBy(EngagementRows(db, courseId), NegScore)
    ensures |ranking| == |EnrolledStudents(db, courseId)|
  {
    var students := EnrolledStudents(db, courseId);
    var engagementData: seq<EngagementRow> := [];
    var i := 0;
    while i < |students|
      invariant 0 <= i <= |students|
      invariant engagementData == EngagementRows(db, courseId)[..i]
    {
      var student := students[i];
      var row := StudentLine(db, courseId, student);
      EngagementRowsPrefix(db, courseId, i);
      engagementData := engagementData + [row];
      i := i + 1;
    }
    assert engagementData == EngagementRows(db, courseId);
    ranking := SortBy(engagementData, NegScore);
  }

  /**
    The schema permits duplicate enrollment rows; the student they name is
    still listed once.
  */
  lemma DuplicateEnrollmentListsStudentOnce()
    ensures var db := Db([Alice], [Algebra],
                         [Enrollment(1, 1, 10, "student", "active"),
                          Enrollment(2, 1, 10, "student", "active")],
                         [], [], []);
            WellFormed(db) && EnrolledStudents(db, 10) == [Alice]
  {
    var db := Db([Alice], [Algebra],
                 [Enrollment(1, 1, 10, "student", "active"),
                  Enrollment(2, 1, 10, "student", "active")],
                 [], [], []);
    var e1, e2 := db.enrollments[0], db.enrollments[1];
    assert Matches(Alice, db.enrollments, UserHoldsEnrollment) == [(Alice, e1), (Alice, e2)];
    assert Join(db.users, db.enrollments, UserHoldsEnrollment) == [(Alice, e1), (Alice, e2)];
    assert StudentRows(db, 10) == [(Alice, e1), (Alice, e2)];
    assert Project(StudentRows(db, 10), RowUser) == [Alice, Alice];
    assert [Alice, Alice][1..] == [Alice];
    assert UniqueFrom([Alice], UserKey, {1}) == [] by {
      assert [Alice][1..] == [];
    }
    var none: set<int> := {};
    assert none + {UserKey(Alice)} == {1};
    assert UniqueFrom([Alice, Alice], UserKey, none) == [Alice] + UniqueFrom([Alice], UserKey, {1});
    assert WellFormed(db) by {
      assert UniqueBy(db.enrollments, EnrollmentKey);
    }
  }


  // ===================================================== thread analysis

  function EntryCreatedAt(e: Entry): int { e.createdAt }
  function EntryAuthor(e: Entry): int { e.postedBy }
  predicate IsRoot(e: Entry) { e.parentId.None? }
  predicate IsReply(e: Entry) { e.parentId.Some? }

  /** The topic's active entries, in table order. */
  function ActiveInTopic(db: Db, topicId: int): (r: seq<Entry>)
    ensures forall e :: e in r <==> e in db.entries && e.topicId == topicId && e.entryState == "active"
  {
    Filter(db.entries, (e: Entry) => e.topicId == topicId && e.entryState == "active")
  }

  /** The topic's active entries, oldest first (ties stay in table order). */
  function ThreadEntries(db: Db, topicId: int): (r: seq<Entry>)
    ensures multiset(r) == multiset(ActiveInTopic(db, topicId))
    ensures SortedBy(r, EntryCreatedAt)
  {
    SortBy(ActiveInTopic(db, topicId), EntryCreatedAt)
  }

  /** Sorting keeps the thread's entries and their number. */
  lemma ThreadEntriesSame(db: Db, topicId: int)
    ensures |ThreadEntries(db, topicId)| == |ActiveInTopic(db, topicId)|
    ensures forall e :: e in ThreadEntries(db, topicId) <==> e in db.entries && e.topicId == topicId && e.entryState == "active"
  {
    var es, active := ThreadEntries(db, topicId), ActiveInTopic(db, topicId);
    assert |multiset(es)| == |multiset(active)|;
    forall e ensures e in es <==> e in active {
      assert e in es <==> e in multiset(es);
      assert e in active <==> e in multiset(active);
    }
  }

  /** Every entry is either a root post or a reply, never both. */
  lemma {:induction false} RootsPlusReplies(es: seq<Entry>)
    ensures |Filter(es, IsRoot)| + |Filter(es, IsReply)| == |es|
  {
    if es != [] {
      RootsPlusReplies(es[1..]);
    }
  }

  /** One item of a thread's timeline. */
  datatype ThreadItem = ThreadItem(
    entryId: int,
    createdAt: Timestamp,
    parentId: Option<int>,
    author: string)

  /**
    The timeline items of `es`, in order, each naming its author. An entry
    whose author row is missing makes the source read a field of nothing:
    `Fault`.
  */
  function TimelineItems(db: Db, es: seq<Entry>): (r: Checked<seq<ThreadItem>>)
    ensures r.Fault? <==> exists i :: 0 <= i < |es| && UserById(db, es[i].postedBy).None?
    ensures r.Ok? ==>
              && |r.value| == |es|
              && forall i :: 0 <= i < |es| ==>
                   && r.value[i].entryId == es[i].entryId
                   && r.value[i].createdAt == es[i].createdAt
                   && r.value[i].parentId == es[i].parentId
                   && UserById(db, es[i].postedBy).Some?
                   && r.value[i].author == UserById(db, es[i].postedBy).value.userName
  {
    if forall i :: 0 <= i < |es| ==> UserById(db, es[i].postedBy).Some? then
      Ok(seq(|es|, i requires 0 <= i < |es| =>
               ThreadItem(es[i].entryId, es[i].createdAt, es[i].parentId, UserById(db, es[i].postedBy).value.userName)))
    else
      Fault
  }

  /** A lookup of an entry's author fails exactly when no user has the author's id. */
  lemma MissingAuthor(db: Db, es: seq<Entry>)
    ensures (exists i :: 0 <= i < |es| && UserById(db, es[i].postedBy).None?) <==>
            (exists e :: e in es && !HasUser(db, e.postedBy))
  {
    if exists e :: e in es && !HasUser(db, e.postedBy) {
      var e :| e in es && !HasUser(db, e.postedBy);
      var i :| 0 <= i < |es| && es[i] == e;
      assert UserById(db, es[i].postedBy).None?;
    }
  }

  /** Items copied in order from entries sorted by creation time are in that order too. */
  lemma TimelineFollowsEntries(es: seq<Entry>, items: seq<ThreadItem>)
    requires SortedBy(es, EntryCreatedAt)
    requires |items| == |es| && forall i :: 0 <= i < |es| ==> items[i].createdAt == es[i].createdAt
    ensures forall i, j :: 0 <= i < j < |items| ==> items[i].createdAt <= items[j].createdAt
  {
    forall i, j | 0 <= i < j < |items| ensures items[i].createdAt <= items[j].createdAt {
      assert EntryCreatedAt(es[i]) <= EntryCreatedAt(es[j]);
    }
  }

  /** The report on one thread. */
  datatype ThreadReport = ThreadReport(
    totalPosts: nat,
    originalPosts: nat,
    replies: nat,
    participants: nat,
    timeline: seq<ThreadItem>)

  /**
    Root posts and replies of the topic's active entries, the number of
    distinct authors among them, and their timeline, oldest first. The
    report is `Fault` exactly when one of those entries has no author row.
  */
  function GetThreadAnalysis(db: Db, topicId: int): (r: Checked<ThreadReport>)
    ensures r.Fault? <==> exists e :: e in ActiveInTopic(db, topicId) && !HasUser(db, e.postedBy)
    ensures r.Ok? ==>
              && r.value.totalPosts == |ActiveInTopic(db, topicId)|
              && r.value.originalPosts == |Filter(ActiveInTopic(db, topicId), IsRoot)|
              && r.value.replies == |Filter(ActiveInTopic(db, topicId), IsReply)|
              && r.value.totalPosts == r.value.originalPosts + r.value.replies
              && r.value.participants <= r.value.totalPosts
              && (r.value.participants == 0 <==> r.value.totalPosts == 0)
              && |r.value.timeline| == r.value.totalPosts
              && (forall i, j :: 0 <= i < j < |r.value.timeline| ==>
                    r.value.timeline[i].createdAt <= r.value.timeline[j].createdAt)
  {
    var es := ThreadEntries(db, topicId);
    ThreadEntriesSame(db, topicId);
    MissingAuthor(db, es);
    RootsPlusReplies(es);
    FilterCountPermutation(es, ActiveInTopic(db, topicId), IsRoot);
    FilterCountPermutation(es, ActiveInTopic(db, topicId), IsReply);
    ImageAtMostLength(es, EntryAuthor);
    match TimelineItems(db, es)
    case Fault => Fault
    case Ok(timeline) =>
      TimelineFollowsEntries(es, timeline);
      Ok(ThreadReport(
        |es|,
        |Filter(es, IsRoot)|,
        |Filter(es, IsReply)|,
        |Image(es, EntryAuthor)|,
        timeline))
  }

  /** Each timeline item is the entry in the same place of the thread, its parent id copied unchecked. */
  lemma ThreadTimelineItems(db: Db, topicId: int, i: int)
    requires GetThreadAnalysis(db, topicId).Ok?
    requires 0 <= i < |ThreadEntries(db, topicId)|
    ensures var item := GetThreadAnalysis(db, topicId).value.timeline[i];
            var e := ThreadEntries(db, topicId)[i];
            && item.entryId == e.entryId
            && item.createdAt == e.createdAt
            && item.parentId == e.parentId
            && exists u :: u in db.users && u.userId == e.postedBy && u.userName == item.author
  {
    var u := UserById(db, ThreadEntries(db, topicId)[i].postedBy).value;
    assert u in db.users;
  }

  /** The participants are the distinct authors of the topic's active entries. */
  lemma ThreadParticipants(db: Db, topicId: int)
    requires GetThreadAnalysis(db, topicId).Ok?
    ensures GetThreadAnalysis(db, topicId).value.participants ==
              |set e | e in ActiveInTopic(db, topicId) :: e.postedBy|
  {
    var es := ThreadEntries(db, topicId);
    ThreadEntriesSame(db, topicId);
    assert Image(es, EntryAuthor) == set e | e in ActiveInTopic(db, topicId) :: e.postedBy;
  }

  /** With intact foreign keys the thread report never faults. */
  lemma ThreadNeverFaults(db: Db, topicId: int)
    requires ForeignKeysHold(db)
    ensures GetThreadAnalysis(db, topicId).Ok?
  {
  }
}

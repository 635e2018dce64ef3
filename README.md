# LMS discussion analytics — a Dafny model

This project models the read-only core of a small learning-management
discussion analytics service. The service holds six tables: users, courses,
enrollments, topics, entries (discussion posts, optionally replying to
another entry) and logins. Over them it computes four reports:

- course statistics: topics, posts and distinct registered authors per course name;
- a per-day discussion timeline, optionally for one course;
- a per-course student engagement ranking;
- a per-topic thread analysis.

It also models the identity rules (login id → user, instructor and admin
checks) and the decisions the web pages take: login, dashboard course
visibility and recent activity, and the course analytics page.

Modules:

- `Query` (query.dfy): the relational building blocks the SQL queries are
  made of. Tables and results are sequences of rows (bag semantics). `Join`
  is a nested loop, outer table first. `Filter` is `WHERE`. `GroupCount` is
  `GROUP BY … COUNT`. `GroupDistinct` is `COUNT(DISTINCT …)`. `FirstWith` is
  `.first()`. `SortBy` is a stable insertion sort and `Take` is `LIMIT`.
  `UniqueFirst` is the ORM's merging of repeated entities in a result that
  asks for one whole entity: the first row of each primary key is kept.
- `Models` (models.dfy): the six records, a snapshot `Db`, the key
  constraints the schema declares (`WellFormed`), and foreign-key integrity
  (`ForeignKeysHold`). The reports never assume foreign-key integrity.
- `Auth` (auth.dfy): `verify_user`, the user lookup of `get_current_user`,
  `is_instructor` and `is_admin`.
- `Analytics` (analytics.dfy): the four reports. The engagement ranking is a
  method whose loop builds one line per student, as the source does. It is
  proved equal to a stable sort, by descending score, of the per-student lines.
- `App` (app.dfy): the login, dashboard and course analytics handlers.

Code that can raise is modelled explicitly rather than excluded. In this
core that means reading an attribute through a relationship whose related
row is missing: `login.user` for a login without a user, `user.login` for a
user without a login, and `e.author` for an entry without an author. Such
code returns `Checked.Fault`. With foreign keys intact, `login.user` and
`e.author` always resolve (`Auth.VerifyUserNeverFaults`,
`Analytics.ThreadNeverFaults`). Foreign keys do not give every user a login
row, so `user.login` can still fault for such a user (`Auth.IsAdmin`,
`App.Dashboard`).

Two facts about the schema matter to the reports:

- Nothing ties an entry's parent to its topic: the schema only makes it
  reference an entry (`Models.CrossTopicParentAllowed`).
- Enrollments are keyed by a surrogate id only, so one user may hold several
  enrollment rows for the same course (`Models.DuplicateEnrollmentsAllowed`).
  The student and course queries ask for whole entities, and the ORM merges
  the repeated rows, so such a student is still listed once
  (`Analytics.DuplicateEnrollmentListsStudentOnce`).

## Model

| member | source | states |
|---|---|---|
| Models.DuplicateEnrollmentsAllowed | app/models.py:37-41 | a snapshot with two identical active enrollments of one user in one course satisfies every key and foreign-key constraint |
| Models.CrossTopicParentAllowed | app/models.py:72-79 | a reply whose parent entry is in another topic satisfies every key and foreign-key constraint |
| Models.WellFormed | app/models.py:9-85 | the declared keys: unique user, course, enrollment, topic and entry ids, one login per user, unique login ids (a definition, no contract) |
| Models.ForeignKeysHold | app/models.py:38-84 | every foreign key names an existing row; a user need not have a login row (a definition, no contract) |
| Auth.VerifyUser | app/auth.py:14-19 | an unknown login id gives no user; a fault only when the login's user row is missing; a returned user is registered and linked to a login with that id |
| Auth.VerifyUserAccepts | app/auth.py:16-18 | under the key constraints, verification returns user u exactly when u is registered and linked to a login with that id |
| Auth.VerifyUserRejectsUnregistered | app/auth.py:17-19 | under the key constraints, a login whose user is not registered gives no user |
| Auth.VerifyUserNeverFaults | app/auth.py:17-18 | with foreign keys intact, verification never faults |
| Auth.GetCurrentUser | app/auth.py:34-41 | a failed decode or a missing subject gives no user; a returned user is in the table with the subject's id; an existing id is always found |
| Auth.GetCurrentUserFinds | app/auth.py:40-41 | under the key constraints, the subject resolves to exactly the user with that id |
| Auth.IsInstructor | app/auth.py:43-49 | true exactly when some enrollment of the user has type "teacher", whatever its state or course |
| Auth.IsAdmin | app/auth.py:51-53 | faults exactly when the user has no login row; true only when a login of the user has login id "admin" |
| Auth.IsAdminExactly | app/auth.py:51-53 | under the key constraints, a user is the admin exactly when their login row's id is "admin" |
| Auth.AtMostOneAdmin | app/models.py:84-85 | since login ids are unique, two admins have the same user id |
| Analytics.GetCourseStats | app/routes/analytics.py:12-53 | the total is the number of course rows; every breakdown value is at least 1; every name with participation also has activity, and its participation is at most its activity |
| Analytics.TopicStats | app/routes/analytics.py:20-25 | active topics per course name, as a GROUP BY over courses joined to topics (a definition; its values are stated by Analytics.TopicStatsGroups and Analytics.TopicStatsSumsSameNamedCourses) |
| Analytics.ActivityStats | app/routes/analytics.py:28-35 | active entries per course name, as a GROUP BY over courses, topics and entries (a definition; its values are stated by Analytics.ActivityStatsSumsSameNamedCourses) |
| Analytics.ParticipationStats | app/routes/analytics.py:38-46 | distinct registered authors of active entries per course name (a definition; its values are stated by Analytics.ParticipationGroups and Analytics.ParticipationCountsAuthors) |
| Analytics.TopicStatsGroups | app/routes/analytics.py:20-25 | a name has a topic count exactly when some course with that name has an active topic |
| Analytics.TopicStatsSumsSameNamedCourses | app/routes/analytics.py:20-25 | the topic count of a name is the sum of the active topic counts of all courses with that name |
| Analytics.CourseWithoutActiveTopics | app/routes/analytics.py:17-25 | a course whose name has no active topic is absent from the topic breakdown but is counted in the total |
| Analytics.ActivityStatsSumsSameNamedCourses | app/routes/analytics.py:28-35 | the post count of a name is the sum, over courses with that name and all their topics, of active entries, whatever the topic's state |
| Analytics.ParticipationAtMostActivity | app/routes/analytics.py:38-46 | participation of a name is at most its activity count |
| Analytics.ParticipationGroups | app/routes/analytics.py:38-46 | a name has a participation count exactly when a registered user has an active entry in a topic of a course with that name |
| Analytics.ParticipationCountsAuthors | app/routes/analytics.py:38-46 | the participation count of a name is the number of distinct registered authors of active entries in courses with that name |
| Analytics.DayOfMonotone | app/routes/analytics.py:59-69 | truncating a timestamp to its day preserves order |
| Analytics.TimelineScope | app/routes/analytics.py:59-67 | an entry is counted exactly when it is active and, if the course filter applies, joined to a topic of that course; a filtered entry appears once per topic row it joins, which Analytics.TimelineScopeOnce bounds to once under the topic key |
| Analytics.AddDay | app/routes/analytics.py:69 | adding a day to an ascending timeline keeps it strictly ascending with positive counts |
| Analytics.AddDayCounts | app/routes/analytics.py:69 | adding a day adds one post in total and one on that day only |
| Analytics.GroupByDay | app/routes/analytics.py:69 | grouped days are strictly ascending and positive, total the number of inputs, and count each day as often as it occurs |
| Analytics.TimelineScopeOnce | app/routes/analytics.py:59-67 | under the topic key the scope is the entry table filtered on the entry alone, so each counted entry counts once, in table order |
| Analytics.TimelinePostsPerDay | app/routes/analytics.py:59-71 | under the topic key each day's point counts exactly the table's entries in scope made that day, and the points add up to the number of those entries |
| Analytics.GetDiscussionTimeline | app/routes/analytics.py:55-71 | the points are strictly ascending by day with positive counts, and the counts add up to the active entries in scope |
| Analytics.TimelineShape | app/routes/analytics.py:59-71 | timeline dates are strictly ascending; every count is at least 1; counts total the active entries in scope; each count is the entries of its day; every such day appears |
| Analytics.TimelineChronological | app/routes/analytics.py:69 | an entry counted on an earlier point was created before one counted on a later point |
| Analytics.ZeroCourseIdMeansAllCourses | app/routes/analytics.py:64 | course id 0 gives the same timeline as no course id |
| Analytics.EnrolledStudents | app/routes/analytics.py:77-84 | no user is listed twice, however many enrollment rows they hold |
| Analytics.EnrolledStudentsExactly | app/routes/analytics.py:77-84 | a listed student is a user with an active student enrollment in the course; under the user key every such user is listed |
| Analytics.PostRows | app/routes/analytics.py:90-96 | the student's active entries joined to their topic, kept when the topic is in the course (a definition; its rows are stated by Analytics.PostRowsExactly and counted by Analytics.RowForCounts) |
| Analytics.PostRowsExactly | app/routes/analytics.py:90-96 | a post row is exactly an active entry of the student joined to its topic, which is in the course |
| Analytics.RowFor | app/routes/analytics.py:88-112 | a line carries the student's name; score = posts + 2 × topics; topics ≤ posts; no posts exactly when no topics |
| Analytics.RowForCounts | app/routes/analytics.py:89-105 | under unique topic ids the posts are the number of the student's active entries in topics of the course; the topics are the distinct topic ids among those entries |
| Analytics.SilentStudentScoresZero | app/routes/analytics.py:88-112 | a student scores 0 exactly when they have no active entry in a topic of the course |
| Analytics.EngagementRows | app/routes/analytics.py:86-112 | one line per listed student, in the order the student query returned them |
| Analytics.RankingOrder | app/routes/analytics.py:114 | the descending stable sort keeps every line, orders scores from highest to lowest, and keeps lines with equal scores in input order |
| Analytics.EngagementRanking | app/routes/analytics.py:77-114 | the ranking has one line per listed student, each student's line is in it, scores do not increase, and equal scores keep the student query's order |
| Analytics.StudentLine | app/routes/analytics.py:89-112 | the line holds, under unique topic ids, the number of the student's active entries in topics of the course, and the number of distinct topics among them; the score is posts + 2 × topics; it is the line of the engagement report |
| Analytics.GetStudentEngagement | app/routes/analytics.py:73-114 | the method's loop and sort give exactly the stable descending sort of the per-student lines, one per listed student |
| Analytics.DuplicateEnrollmentListsStudentOnce | app/routes/analytics.py:77-84 | a student with two active enrollment rows in a course, in a snapshot meeting every key constraint, is listed once |
| Analytics.ActiveInTopic | app/routes/analytics.py:121-124 | exactly the active entries of the topic |
| Analytics.ThreadEntries | app/routes/analytics.py:121-124 | the topic's active entries, sorted by creation time |
| Analytics.ThreadEntriesSame | app/routes/analytics.py:121-124 | sorting keeps the number of entries and the set of entries |
| Analytics.RootsPlusReplies | app/routes/analytics.py:129-130 | root posts plus replies equal all entries |
| Analytics.TimelineItems | app/routes/analytics.py:132-139 | faults exactly when some entry's author row is missing; otherwise one item per entry, in order, with id, time and parent copied and the author's name |
| Analytics.MissingAuthor | app/routes/analytics.py:137 | an author lookup fails exactly when no user has the author's id |
| Analytics.TimelineFollowsEntries | app/routes/analytics.py:132-139 | items copied from time-sorted entries are in time order |
| Analytics.GetThreadAnalysis | app/routes/analytics.py:116-142 | faults exactly when an active entry of the topic has no author row; otherwise total = active entries; originals = active entries without a parent; replies = active entries with a parent; total = originals + replies; participants ≤ total; participants = 0 exactly when total = 0; one timeline item per post, oldest first |
| Analytics.ThreadTimelineItems | app/routes/analytics.py:132-139 | each timeline item is the entry at the same place, with its parent id copied unchecked and the author's name |
| Analytics.ThreadParticipants | app/routes/analytics.py:131 | the participant count is the number of distinct authors of the topic's active entries |
| Analytics.ThreadNeverFaults | app/routes/analytics.py:137 | with foreign keys intact the thread report never faults |
| App.HandleLogin | app/main.py:36-53 | an unknown login id re-renders the form with "Invalid credentials"; a redirect names a registered user linked to that login id; a server error only when the login's user row is missing |
| App.LoginAccepts | app/main.py:39-53 | under the key constraints, login redirects with subject id exactly when that user is registered and linked to the login id |
| App.LoginRejectsUnregistered | app/main.py:39-44 | under the key constraints, a login whose user is not registered gets the form with the error |
| App.CurrentUser | app/main.py:58-64 | no cookie or an empty cookie gives no user; a user found is in the table and is the subject of the decoded token |
| App.AccessibleCourses | app/main.py:67-68 | the admin sees every course, in table order |
| App.AccessibleCoursesExactly | app/main.py:69-73 | a non-admin sees only courses where they hold an active enrollment, of any type, each once; under the course key every such course is listed |
| App.RecentCandidates | app/main.py:76-78 | candidates are sorted newest first |
| App.RecentCandidatesExactly | app/main.py:76-77 | a candidate is exactly an active entry whose topic and course exist |
| App.RecentEntries | app/main.py:76-78 | at most 10 entries; fewer only when there are fewer candidates; newest first |
| App.RecentEntriesAreNewest | app/main.py:76-78 | no eligible entry left out is newer than a listed one |
| App.RecentEntriesEligible | app/main.py:76-78 | every listed entry is active and its topic and course exist |
| App.Dashboard | app/main.py:55-87 | no resolvable user gives the login page; a server error exactly when the user has no login row; otherwise the page is for that user, with the admin and instructor flags as the rules say, the courses App.AccessibleCourses gives and the entries App.RecentEntries gives |
| App.CourseAnalytics | app/main.py:89-109 | authentication is checked first; 404 exactly when an authenticated user asks for an unknown course id; otherwise the page shows the course with that id |
| App.CourseAnalyticsShows | app/main.py:100-109 | under the key constraints, an authenticated request for an existing course shows that course |
| Query.Filter | app/routes/analytics.py:22-24 | the rows kept are exactly the input rows satisfying the condition |
| Query.Join | app/routes/analytics.py:22 | a pair is in the inner join exactly when both rows are in their tables and the join condition holds |
| Query.GroupCount | app/routes/analytics.py:20-25 | a key is present exactly when some row has it, and its value is the number of such rows, at least 1 |
| Query.GroupDistinct | app/routes/analytics.py:38-46 | a key is present exactly when some row has it, and its value is the number of distinct values, between 1 and the row count |
| Query.ImageAtMostLength | app/routes/analytics.py:99-105 | a distinct count is at most the number of rows, and is 0 exactly when there are no rows |
| Query.FirstWith | app/auth.py:16 | none exactly when no row has the key; otherwise a row of the table with that key |
| Query.FirstWithUnique | app/auth.py:40 | when the key is unique, the first row with a row's key is that row |
| Query.SortBy | app/routes/analytics.py:114 | the result has the same elements (as a multiset) and is sorted by the key |
| Query.SortByStable | app/routes/analytics.py:114 | rows with equal keys keep their input order |
| Query.FilterCountPermutation | app/routes/analytics.py:129-130 | how many rows a condition keeps does not depend on the order of the rows |
| Query.UniqueFirst | app/routes/analytics.py:78-84 | the merged result keeps only input rows, at most one per key |
| Query.UniqueFirstCovers | app/routes/analytics.py:78-84 | every key of the input keeps a row in the merged result |
| Query.UniqueFirstMembers | app/main.py:70-73 | when rows with equal keys are equal, merging keeps exactly the input's rows |
| Query.Take | app/main.py:78 | at most n rows, fewer only when the input is shorter, and a prefix of the input |
| Query.TakeSorted | app/main.py:78 | a LIMIT applied after an ORDER BY keeps the order |

## Left out

- Token signing, decoding and expiry (JWT) and the unused bcrypt context: decoding is the parameter `decode` of `App.CurrentUser`.
- The `sub` claim is written as a string and compared with an integer column; the model reads it as an integer id.
- FastAPI routing, templates, static files, cookies as transport, the startup hook and the logout handler: they carry no decision.
- The Excel loader in app/utils/data_loader.py is not part of this model; foreign-key integrity is stated as `Models.ForeignKeysHold` instead.
- Dates: timestamps are integer seconds, and `func.date` is `Analytics.DayOf`, floor division by 86400; ISO formatting of timestamps is not modelled.
- The row order of queries without `ORDER BY`, and the order among rows that tie on the `ORDER BY` key, is modelled as table order, outer table first in a join; SQL leaves both to the database. This covers the entries of one thread with equal `entry_created_at` (app/routes/analytics.py:124) and the recent entries (app/main.py:78), where the order of tied entries also decides which of them fall within the 10-entry limit.
- App.RecentEntries: the ORM's merging of repeated entries, applied after the LIMIT, is not modelled. Under the schema's keys each entry joins at most one topic and one course row, so no entry repeats. The thread query has no join, so its entries repeat only when entry ids do.
- App.AccessibleCoursesExactly: states which courses a non-admin sees and that each appears once, not their order.
- The course-filtered timeline query calls `select_from(Entry)` after a `filter` (app/routes/analytics.py:64-65). Some SQLAlchemy versions refuse that call on a query that already has criteria. The model takes the query as running, with the meaning its text gives.
- Consistency of the several queries of one request under concurrent writes: each report reads one snapshot `Db`.
- Identifiers are unbounded integers; the database's integer width is not modelled.

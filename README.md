# Student portal: a verified model

The original program is a small classroom Q&A portal. It is a single Flask
application (`app.py`) over one SQLite file, and has three roles:

- **admin**: creates students, teachers and courses, enrolls students, and
  deletes students and courses.
- **teacher**: sees the courses they teach and those courses' questions.
- **student**: sees their courses, asks questions in a class and upvotes
  questions, at most once each.

This project models it in Dafny.

- **Tables.** The five tables are the `Schema.Db` value, in storage order:
  users, classrooms, questions, enrollments, and the set of votes.
  - `Schema.Valid` is the invariant every handler keeps. Each table's
    `INTEGER PRIMARY KEY` is unique, and no (user, classroom) enrollment
    appears twice.
- **Store.** `Portal.Store` is the database as an object whose five fields
  the write handlers update. It runs one SQL statement per step, and each
  handler is one commit.
  - Each method is proved against a pure step function in `Handlers`, which
    states the handler's whole effect on the tables and its response.
- **Read handlers.** `login`, `logout`, `/admin`, `/dashboard`,
  `/class/<id>` and `/teacher` are pure functions in `Queries`. They take
  the tables and the session and return the response.
- **Session.** The session cookie is `Web.Session`: either no session, or
  the `(user_id, role, username)` that `login` stores.
- **Responses.** A redirect, a plain-text body, the 404 and 403 pages, or
  the data a template is rendered with.
- **Scenarios.** Properties that span several requests are in `Scenarios`:
  - repeated upvotes and enrollments;
  - the seeded accounts;
  - what the pages show after `init_db`, `add_student`, `add_teacher`,
    `add_course`, `enroll_student`, `delete_student`, `delete_course`,
    `ask` and `upvote`;
  - the vote ordering of the class page.

The model keeps the program's behaviour as it is:

- `upvote` does not check that the question exists.
- `delete_student` removes the user's vote rows but leaves the question
  counters alone.
- `delete_course` leaves the votes for the deleted questions.
- `ask` has no session or classroom check. A question for a classroom id
  that no classroom has is stored, and the joins leave it out only while
  that stays so. A course created later with that id takes the question
  in, and `/admin`, `/teacher` and its class page then list it.

Row ids are only known to be unused in their table: the store picks one
larger than every id present. A classroom id whose row is gone but which
questions or enrollments still mention is not unknown. `UnknownClassroom`
needs every table to be free of the id, and only then is `delete_course` a
no-op (`Handlers.DeleteCourse`).

## Model

| member | source | states |
|---|---|---|
| Schema.NewUserId | app.py:15 | the id chosen for a new user row is used by no existing user |
| Schema.NewClassroomId | app.py:16 | the id chosen for a new classroom row is used by no existing classroom |
| Schema.NewQuestionId | app.py:17 | the id chosen for a new question row is used by no existing question |
| Schema.NewEnrollmentId | app.py:18 | the id chosen for a new enrollment row is used by no existing enrollment |
| Handlers.AppendUserKeepsValid | app.py:15 | inserting a user with an unused id keeps every primary key unique |
| Handlers.AppendClassroomKeepsValid | app.py:16 | inserting a classroom with an unused id keeps every primary key unique |
| Handlers.AppendQuestionKeepsValid | app.py:17 | inserting a question with an unused id keeps every primary key unique |
| Handlers.AppendEnrollmentKeepsValid | app.py:18 | inserting an enrollment with an unused id for a pair not yet enrolled keeps ids and pairs unique |
| Handlers.InitDb | app.py:13-29 | a non-empty users table is left alone; an empty one gets exactly admin/admin123, student/1234 and teacher/teach123 with those roles, plus "Math 101" taught by "teacher"; nothing else changes; the invariant is kept when the seed ids are unused and distinct |
| Portal.Store.constructor | app.py:15-19 | a new store has five empty tables and satisfies the invariant |
| Portal.Store.InitDb | app.py:13-29 | the store's new tables are `Handlers.InitDb` of the old ones for some unused, distinct seed ids; the invariant is kept |
| Queries.Login | app.py:33-50 | GET shows the form and keeps the session; POST redirects if and only if some user has that username and password; it logs in the first such user (id, role, username) and sends admin to /admin, teacher to /teacher and anyone else to /dashboard; otherwise it answers "Wrong password!" and leaves the session unchanged |
| Scenarios.LogoutClosesEveryPage | app.py:213-215 | `Queries.Logout` clears the session: after logout the session is empty, the response is a redirect to the login page, and every page then redirects there |
| Queries.SubjectsOf | app.py:61-66 | the join rows of one question are its pairings with exactly the classrooms whose id is its classroom id |
| Queries.NoClassroomNoSubjects | app.py:64 | a question whose classroom id no classroom has contributes no join row |
| Queries.SubjectsOfAtMostOne | app.py:64 | with unique classroom ids a question contributes at most one join row |
| Queries.JoinSubjects | app.py:61-66 | a (question, subject) row is in the join if and only if the question is stored and a classroom with its classroom id has that subject |
| Queries.JoinKeepsDistinct | app.py:61-66 | with unique question and classroom ids the join lists each question id at most once |
| Queries.NewestFirst | app.py:61-66 | the listed rows are exactly the join rows; when keys are unique the question ids are strictly decreasing |
| Queries.AdminDashboard | app.py:54-68 | non-admins are sent to '/'; admins get every classroom, exactly the users whose role is student and exactly those whose role is teacher, each user listed once under the invariant, and the joined questions newest first |
| Handlers.AddStudent | app.py:72-81 | non-admins are sent to '/' and nothing changes; for an admin exactly one user row with role "student" is appended and the answer is /admin; the invariant is kept when the id is unused |
| Portal.Store.AddStudent | app.py:72-81 | the store's new tables and response are `Handlers.AddStudent` of the old tables for an unused id; the invariant is kept |
| Handlers.AddTeacher | app.py:84-92 | the same as add_student with role "teacher" |
| Portal.Store.AddTeacher | app.py:84-92 | the store's new tables and response are `Handlers.AddTeacher` of the old tables for an unused id; the invariant is kept |
| Handlers.AddCourse | app.py:95-103 | non-admins are sent to '/'; for an admin exactly one classroom is appended, whose teacher is the given username or "" when the form has none; the invariant is kept when the id is unused |
| Portal.Store.AddCourse | app.py:95-103 | the store's new tables and response are `Handlers.AddCourse` of the old tables for an unused id; the invariant is kept |
| Handlers.EnrollStudent | app.py:106-117 | non-admins are sent to '/'; for an admin the pair is enrolled afterwards; it is left unchanged if already enrolled, and otherwise exactly one enrollment row is appended; the invariant is kept |
| Portal.Store.EnrollStudent | app.py:106-117 | the lookup-then-insert on the store gives `Handlers.EnrollStudent` of the old tables for an unused id; the invariant is kept |
| Scenarios.EnrollTwiceKeepsOneRow | app.py:112-115 | enrolling a pair a second time changes nothing, and exactly one enrollment row holds that pair |
| Handlers.UsersWithout | app.py:126 | keeps exactly the users whose id differs; unique ids stay unique; a missing id changes nothing |
| Handlers.EnrollmentsWithoutUser | app.py:128 | keeps exactly the enrollments of other users; keeps ids and pairs unique; a no-op when the user has none |
| Handlers.DeleteStudent | app.py:121-134 | non-admins are sent to '/'; for an admin the user row, their enrollments and their votes are gone and every other row stays; classrooms and questions (counters included) are unchanged; an unknown user is a no-op; the invariant is kept |
| Portal.Store.DeleteStudent | app.py:121-134 | the three DELETE statements on the store give `Handlers.DeleteStudent`; the invariant is kept |
| Scenarios.DeletedStudentLeavesNoTrace | app.py:121-134 | a session still holding the deleted user's id sees an empty dashboard and no question marked as voted |
| Handlers.ClassroomsWithout | app.py:143 | keeps exactly the classrooms with another id; unique ids stay unique; a no-op for a missing id |
| Handlers.QuestionsWithout | app.py:145 | keeps exactly the questions of other classrooms; unique ids stay unique; a no-op when none match |
| Handlers.EnrollmentsWithoutClass | app.py:147 | keeps exactly the enrollments for other classrooms; ids and pairs stay unique; a no-op when none match |
| Handlers.DeleteCourse | app.py:138-151 | non-admins are sent to '/'; for an admin the classroom, its questions and its enrollments are gone and every other row stays; users and votes are untouched; a classroom id no row mentions is a no-op; the invariant is kept |
| Portal.Store.DeleteCourse | app.py:138-151 | the three DELETE statements on the store give `Handlers.DeleteCourse`; the invariant is kept |
| Scenarios.DeletedCourseNotFound | app.py:138-151 | after a course is deleted its class page is the 404, and neither the admin page nor any dashboard lists it |
| Queries.EnrolledCopies | app.py:159-163 | one classroom's join rows with a user's enrollments: that classroom exactly when the user is enrolled in it |
| Queries.NotEnrolledNoCopies | app.py:161 | a classroom the user is not enrolled in contributes no dashboard row |
| Queries.EnrolledCopiesAtMostOne | app.py:161 | with unique enrollment pairs a classroom contributes at most one dashboard row |
| Queries.MyClasses | app.py:159-163 | a classroom is listed if and only if it is stored and the user has an enrollment in it |
| Queries.MyClassesDistinct | app.py:159-163 | with unique classroom ids and enrollment pairs no classroom is listed twice |
| Queries.Dashboard | app.py:156-165 | without a session the answer is the redirect to '/'; with one it is exactly the classrooms the user is enrolled in, each at most once under the invariant |
| Scenarios.EnrolledClassOnDashboard | app.py:106-117 | after an admin enrolls a user in a stored classroom, that user's dashboard lists it |
| Queries.ClassroomById | app.py:171 | finds a classroom if and only if one has the id; the one found has it, and under unique ids it is the only one |
| Queries.InClass | app.py:183 | keeps exactly the questions of that classroom; unique ids stay unique |
| Queries.Annotate | app.py:179-182 | each question is paired with has_voted, which is true exactly when the user has a vote row for it; each output row holds the input question at the same position, so order and length are kept |
| Queries.Ranked | app.py:178-185 | the list is exactly the classroom's questions, each once, with the user's has_voted flag, and votes never increase down the list |
| Queries.ClassroomPage | app.py:168-188 | no session gives a redirect to '/'; a missing classroom gives the 404; a teacher who does not teach it gets the 403; each of these holds in both directions; in every other case the page renders and shows the classroom and its ranked questions |
| Scenarios.RankedThreeOneTwo | app.py:184 | a complete listing without repeats of questions with 3, 1 and 2 votes, ordered by votes, is the 3, then the 2, then the 1 |
| Scenarios.MostVotedFirst | app.py:178-188 | the class page of a classroom whose questions have 3, 1 and 2 votes lists them as 3, 2, 1 |
| Handlers.Ask | app.py:191-198 | the answer redirects to the class page; an empty text changes nothing; otherwise exactly one question with that class id, that text and 0 votes is appended, whether the classroom exists or not; the invariant is kept |
| Portal.Store.Ask | app.py:191-198 | the store's new tables and response are `Handlers.Ask` of the old tables for an unused id; the invariant is kept |
| Scenarios.AskedQuestionListed | app.py:191-198 | a question asked on a class page the session may see is listed there with 0 votes |
| Scenarios.JoinAppend | app.py:61-66 | the join of a longer question list is the old join followed by the new question's rows |
| Scenarios.OrphanQuestionAdoptedByNewCourse | app.py:95-103 | a question asked for a missing classroom id appears on the admin page once a course with that id is added, under that course's subject |
| Scenarios.AskIntoMissingClassroomHidden | app.py:191-198 | a question asked for a classroom id no classroom has leaves the admin dashboard exactly as it was |
| Handlers.Bump | app.py:207 | every question with the id gets one more vote, and every other question is unchanged |
| Handlers.Upvote | app.py:201-210 | the answer redirects to the class page; if the user already voted for the question nothing changes; otherwise the vote row is added and the counter of each question with that id rises by one; nothing else changes and the invariant is kept |
| Portal.Store.Upvote | app.py:201-210 | the lookup, INSERT and UPDATE on the store give `Handlers.Upvote`; the invariant is kept |
| Scenarios.UpvoteTwiceCountsOnce | app.py:204-207 | a second upvote by the same user for the same question, from any class page, changes nothing; the counter rose by exactly one if the user had not voted before |
| Scenarios.UpvoteMissingQuestion | app.py:204-207 | an upvote for a question id no row has records the vote and changes no counter |
| Scenarios.VoteTwice | app.py:201-210 | two identical upvote requests against the store leave it as one does |
| Scenarios.InitDbTwiceSeedsOnce | app.py:22-28 | seeding a second time leaves the tables as the first seeding left them |
| Scenarios.SeededAccountsLogIn | app.py:24-26 | on a new database admin/admin123, student/1234 and teacher/teach123 log in with their seed ids and are sent to /admin, /dashboard and /teacher; a wrong password is refused and the session is kept |
| Scenarios.SeededTeacherSeesMath | app.py:27 | on a new database the seeded teacher's dashboard lists exactly "Math 101" and no questions |
| Queries.TeacherDashboard | app.py:219-231 | non-teachers are sent to '/'; a teacher gets exactly the classrooms whose teacher field is their username, each once under the invariant, and exactly the questions joined with those classrooms, with ids strictly decreasing under the invariant |
| Scenarios.NewStudentOnAdminPage | app.py:72-81 | a student the admin adds is listed among the students on /admin |
| Scenarios.NewTeacherOnAdminPage | app.py:84-92 | a teacher the admin adds is listed among the teachers on /admin |
| Scenarios.UpvotedShowsVoted | app.py:201-210 | after an upvote, any class page of that session that renders marks every question with that id as voted |
| Scenarios.NewCourseOnTeacherDashboard | app.py:95-103 | a course an admin assigns to a teacher appears on that teacher's dashboard |
| Seqs.FindFirst | app.py:38 | `fetchone()`: the index found satisfies the condition and no earlier row does; none is found if and only if no row does |
| Seqs.SortDesc | app.py:184 | `ORDER BY ... DESC`: the output is a permutation of the input, with keys that never increase |

## Left out

- Flask itself is not modelled: routing, HTTP methods other than login's
  GET/POST split, templates, redirects as URLs, the `secret_key`, `print`
  and `app.run`. Each handler takes the request's values as parameters.
- `request.referrer`: the deletes' redirect is `Path.Back`, which means the
  referring page or /admin.
- The sqlite connection and its open/close calls are not modelled. Each
  handler is modelled as one atomic commit. Crash consistency and
  concurrent requests are not modelled either.
- Rowid allocation: a new row's id is only known to be unused in its table.
  SQLite's exact choice is not modelled.
- Scan order: a SELECT without ORDER BY returns rows in the model's storage
  order. Rows with equal votes are ordered by the insertion sort, not by
  SQLite's sort.
- Ids are unbounded integers in the model. In the source an id outside
  SQLite's signed 64-bit INTEGER range, such as `/class/9223372036854775808`,
  makes the sqlite3 driver raise OverflowError at the first statement that
  binds it: app.py:126, 143, 171, 195 and 204. The request then ends in a
  500 with nothing committed. The model instead handles such ids like any
  other: `Queries.ClassroomPage` answers 404, `Handlers.Ask` stores the
  question, `Handlers.Upvote` records the vote, and `Handlers.DeleteStudent`
  and `Handlers.DeleteCourse` redirect back.
- Form values: `student_id` and `class_id` are taken as integers. SQLite's
  conversion of the posted text to INTEGER affinity is not modelled.
- A missing form field raises a KeyError, and the resulting 400 is not
  modelled.
- Handlers.Upvote: requires a session. Without one, the source's
  `session['user_id']` raises a KeyError and no table is touched.
- Passwords are stored and compared as plain text, as the source does. No
  hashing is modelled.
- `get_db` and the five CREATE TABLE IF NOT EXISTS statements are the
  `Portal.Store` constructor: a new file with empty tables. Re-creating a
  table that already exists changes nothing.

/** The handlers that write to the store, each as a step from the tables before
    the request to the tables after it (one commit) and the response.

    A new row's id is a parameter: the store may hand out any id that no row
    of that table uses, and only that freshness is assumed where it matters. */
module Handlers {
  import opened Seqs
  import opened Schema
  import opened Web

  /** The store after the handler's commit, and its response. */
  datatype Step = Step(db: Db, response: Response)

  // ------------------------------------------------------ appending a row

  lemma AppendUserKeepsValid(db: Db, u: User)
    ensures Valid(db) && FreshUser(db, u.id) ==> Valid(db.(users := db.users + [u]))
  {
    if Valid(db) && FreshUser(db, u.id) {
      DistinctKeysAppend(db.users, u, UserId);
    }
  }

  lemma AppendClassroomKeepsValid(db: Db, c: Classroom)
    ensures Valid(db) && FreshClassroom(db, c.id) ==> Valid(db.(classrooms := db.classrooms + [c]))
  {
    if Valid(db) && FreshClassroom(db, c.id) {
      DistinctKeysAppend(db.classrooms, c, ClassroomId);
    }
  }

  lemma AppendQuestionKeepsValid(db: Db, q: Question)
    ensures Valid(db) && FreshQuestion(db, q.id) ==> Valid(db.(questions := db.questions + [q]))
  {
    if Valid(db) && FreshQuestion(db, q.id) {
      DistinctKeysAppend(db.questions, q, QuestionId);
    }
  }

  // ------------------------------------------------------------ bootstrap

  /** The ids given to the seed rows are fresh and pairwise different. */
  predicate SeedIds(db: Db, adminId: int, studentId: int, teacherId: int, classId: int) {
    && FreshUser(db, adminId) && FreshUser(db, studentId) && FreshUser(db, teacherId)
    && adminId != studentId && adminId != teacherId && studentId != teacherId
    && FreshClassroom(db, classId)
  }

  /** `init_db`: when the users table is empty, seed the three accounts and
      the classroom "Math 101"; otherwise leave everything as it is. */
  function InitDb(db: Db, adminId: int, studentId: int, teacherId: int, classId: int): (r: Db)
    ensures |db.users| > 0 ==> r == db
    ensures |db.users| == 0 ==>
      && r.users == [User(adminId, "admin", "admin123", "admin"),
                     User(studentId, "student", "1234", "student"),
                     User(teacherId, "teacher", "teach123", "teacher")]
      && r.classrooms == db.classrooms + [Classroom(classId, "Math 101", "teacher")]
      && r.questions == db.questions && r.enrollments == db.enrollments && r.votes == db.votes
    ensures Valid(db) && SeedIds(db, adminId, studentId, teacherId, classId) ==> Valid(r)
  {
    if |db.users| > 0 then db
    else
      var admin := User(adminId, "admin", "admin123", "admin");
      var student := User(studentId, "student", "1234", "student");
      var teacher := User(teacherId, "teacher", "teach123", "teacher");
      var math := Classroom(classId, "Math 101", "teacher");
      var db1 := db.(users := db.users + [admin]);
      var db2 := db1.(users := db1.users + [student]);
      var db3 := db2.(users := db2.users + [teacher]);
      AppendUserKeepsValid(db, admin);
      AppendUserKeepsValid(db1, student);
      AppendUserKeepsValid(db2, teacher);
      AppendClassroomKeepsValid(db3, math);
      db3.(classrooms := db3.classrooms + [math])
  }

  // ---------------------------------------------------------- admin: create

  function InsertUser(db: Db, session: Session, id: int, username: string, password: string, role: string): Step {
    if !IsAdmin(session) then Step(db, Redirect(Root))
    else Step(db.(users := db.users + [User(id, username, password, role)]), Redirect(AdminHome))
  }

  /** `add_student`: an admin appends a user with the fixed role 'student'. */
  function AddStudent(db: Db, session: Session, id: int, username: string, password: string): (r: Step)
    ensures !IsAdmin(session) ==> r == Step(db, Redirect(Root))
    ensures IsAdmin(session) ==>
      && r.response == Redirect(AdminHome)
      && r.db == db.(users := db.users + [User(id, username, password, "student")])
    ensures Valid(db) && FreshUser(db, id) ==> Valid(r.db)
  {
    AppendUserKeepsValid(db, User(id, username, password, "student"));
    InsertUser(db, session, id, username, password, "student")
  }

  /** `add_teacher`: an admin appends a user with the fixed role 'teacher'. */
  function AddTeacher(db: Db, session: Session, id: int, username: string, password: string): (r: Step)
    ensures !IsAdmin(session) ==> r == Step(db, Redirect(Root))
    ensures IsAdmin(session) ==>
      && r.response == Redirect(AdminHome)
      && r.db == db.(users := db.users + [User(id, username, password, "teacher")])
    ensures Valid(db) && FreshUser(db, id) ==> Valid(r.db)
  {
    AppendUserKeepsValid(db, User(id, username, password, "teacher"));
    InsertUser(db, session, id, username, password, "teacher")
  }

  /** `teacher_username or ''`: a missing teacher is stored as the empty string. */
  function TeacherOrEmpty(teacher: Option<string>): string {
    match teacher
    case Some(t) => t
    case None => ""
  }

  /** `add_course`: an admin appends a classroom. */
  function AddCourse(db: Db, session: Session, id: int, subject: string, teacher: Option<string>): (r: Step)
    ensures !IsAdmin(session) ==> r == Step(db, Redirect(Root))
    ensures IsAdmin(session) ==>
      && r.response == Redirect(AdminHome)
      && r.db == db.(classrooms := db.classrooms + [Classroom(id, subject, TeacherOrEmpty(teacher))])
    ensures IsAdmin(session) && teacher.None? ==> r.db.classrooms[|db.classrooms|].teacher == ""
    ensures Valid(db) && FreshClassroom(db, id) ==> Valid(r.db)
  {
    var c := Classroom(id, subject, TeacherOrEmpty(teacher));
    AppendClassroomKeepsValid(db, c);
    if !IsAdmin(session) then Step(db, Redirect(Root))
    else Step(db.(classrooms := db.classrooms + [c]), Redirect(AdminHome))
  }

  /** Adding an enrollment for a pair that is not enrolled keeps both keys unique. */
  lemma AppendEnrollmentKeepsValid(db: Db, e: Enrollment)
    ensures Valid(db) && FreshEnrollment(db, e.id) && !IsEnrolled(db, e.userId, e.classroomId) ==>
      Valid(db.(enrollments := db.enrollments + [e]))
  {
    if Valid(db) && FreshEnrollment(db, e.id) && !IsEnrolled(db, e.userId, e.classroomId) {
      DistinctKeysAppend(db.enrollments, e, EnrollmentId);
      forall i | 0 <= i < |db.enrollments| ensures EnrollmentPair(db.enrollments[i]) != EnrollmentPair(e) {
        assert db.enrollments[i] in db.enrollments;
      }
      DistinctKeysAppend(db.enrollments, e, EnrollmentPair);
    }
  }

  /** `enroll_student`: an admin adds an enrollment only when the pair is not
      enrolled yet; afterwards the pair is enrolled either way. */
  function EnrollStudent(db: Db, session: Session, id: int, userId: int, classId: int): (r: Step)
    ensures !IsAdmin(session) ==> r == Step(db, Redirect(Root))
    ensures IsAdmin(session) ==> r.response == Redirect(AdminHome) && IsEnrolled(r.db, userId, classId)
    ensures IsAdmin(session) && IsEnrolled(db, userId, classId) ==> r.db == db
    ensures IsAdmin(session) && !IsEnrolled(db, userId, classId) ==>
      r.db == db.(enrollments := db.enrollments + [Enrollment(id, userId, classId)])
    ensures Valid(db) && FreshEnrollment(db, id) ==> Valid(r.db)
  {
    var e := Enrollment(id, userId, classId);
    AppendEnrollmentKeepsValid(db, e);
    if !IsAdmin(session) then Step(db, Redirect(Root))
    else if IsEnrolled(db, userId, classId) then Step(db, Redirect(AdminHome))
    else
      var after := db.(enrollments := db.enrollments + [e]);
      assert e in after.enrollments;
      Step(after, Redirect(AdminHome))
  }

  // ---------------------------------------------------------- admin: delete

  function UsersWithout(users: seq<User>, userId: int): (r: seq<User>)
    ensures forall u :: u in r <==> u in users && u.id != userId
    ensures DistinctKeys(users, UserId) ==> DistinctKeys(r, UserId)
    ensures (forall u :: u in users ==> u.id != userId) ==> r == users
  {
    FilterKeepsDistinct(users, (u: User) => u.id != userId, UserId);
    Filter(users, (u: User) => u.id != userId)
  }

  function EnrollmentsWithoutUser(es: seq<Enrollment>, userId: int): (r: seq<Enrollment>)
    ensures forall e :: e in r <==> e in es && e.userId != userId
    ensures DistinctKeys(es, EnrollmentId) ==> DistinctKeys(r, EnrollmentId)
    ensures DistinctKeys(es, EnrollmentPair) ==> DistinctKeys(r, EnrollmentPair)
    ensures (forall e :: e in es ==> e.userId != userId) ==> r == es
  {
    FilterKeepsDistinct(es, (e: Enrollment) => e.userId != userId, EnrollmentId);
    FilterKeepsDistinct(es, (e: Enrollment) => e.userId != userId, EnrollmentPair);
    Filter(es, (e: Enrollment) => e.userId != userId)
  }

  function EnrollmentsWithoutClass(es: seq<Enrollment>, classId: int): (r: seq<Enrollment>)
    ensures forall e :: e in r <==> e in es && e.classroomId != classId
    ensures DistinctKeys(es, EnrollmentId) ==> DistinctKeys(r, EnrollmentId)
    ensures DistinctKeys(es, EnrollmentPair) ==> DistinctKeys(r, EnrollmentPair)
    ensures (forall e :: e in es ==> e.classroomId != classId) ==> r == es
  {
    FilterKeepsDistinct(es, (e: Enrollment) => e.classroomId != classId, EnrollmentId);
    FilterKeepsDistinct(es, (e: Enrollment) => e.classroomId != classId, EnrollmentPair);
    Filter(es, (e: Enrollment) => e.classroomId != classId)
  }

  function VotesWithout(votes: set<Vote>, userId: int): (r: set<Vote>)
    ensures forall v :: v in r <==> v in votes && v.userId != userId
  {
    set v | v in votes && v.userId != userId
  }

  function ClassroomsWithout(cs: seq<Classroom>, classId: int): (r: seq<Classroom>)
    ensures forall c :: c in r <==> c in cs && c.id != classId
    ensures DistinctKeys(cs, ClassroomId) ==> DistinctKeys(r, ClassroomId)
    ensures (forall c :: c in cs ==> c.id != classId) ==> r == cs
  {
    FilterKeepsDistinct(cs, (c: Classroom) => c.id != classId, ClassroomId);
    Filter(cs, (c: Classroom) => c.id != classId)
  }

  function QuestionsWithout(qs: seq<Question>, classId: int): (r: seq<Question>)
    ensures forall q :: q in r <==> q in qs && q.classroomId != classId
    ensures DistinctKeys(qs, QuestionId) ==> DistinctKeys(r, QuestionId)
    ensures (forall q :: q in qs ==> q.classroomId != classId) ==> r == qs
  {
    FilterKeepsDistinct(qs, (q: Question) => q.classroomId != classId, QuestionId);
    Filter(qs, (q: Question) => q.classroomId != classId)
  }

  /** No row of any table mentions the user id. */
  predicate UnknownUser(db: Db, userId: int) {
    && (forall u :: u in db.users ==> u.id != userId)
    && (forall e :: e in db.enrollments ==> e.userId != userId)
    && (forall v :: v in db.votes ==> v.userId != userId)
  }

  /** `delete_student`: an admin deletes the user row, then that user's
      enrollments, then that user's votes. Question counters are left as
      they are, so a deleted voter's votes are still counted. */
  function DeleteStudent(db: Db, session: Session, userId: int): (r: Step)
    ensures !IsAdmin(session) ==> r == Step(db, Redirect(Root))
    ensures IsAdmin(session) ==> r.response == Redirect(Back)
    ensures IsAdmin(session) ==>
      && (forall u :: u in r.db.users <==> u in db.users && u.id != userId)
      && (forall e :: e in r.db.enrollments <==> e in db.enrollments && e.userId != userId)
      && (forall v :: v in r.db.votes <==> v in db.votes && v.userId != userId)
      && r.db.classrooms == db.classrooms
      && r.db.questions == db.questions
    ensures IsAdmin(session) && UnknownUser(db, userId) ==> r.db == db
    ensures Valid(db) ==> Valid(r.db)
  {
    if !IsAdmin(session) then Step(db, Redirect(Root))
    else
      var db1 := db.(users := UsersWithout(db.users, userId));
      var db2 := db1.(enrollments := EnrollmentsWithoutUser(db1.enrollments, userId));
      var db3 := db2.(votes := VotesWithout(db2.votes, userId));
      Step(db3, Redirect(Back))
  }

  /** No row of any table mentions the classroom id. */
  predicate UnknownClassroom(db: Db, classId: int) {
    && (forall c :: c in db.classrooms ==> c.id != classId)
    && (forall q :: q in db.questions ==> q.classroomId != classId)
    && (forall e :: e in db.enrollments ==> e.classroomId != classId)
  }

  /** `delete_course`: an admin deletes the classroom row, then its questions,
      then its enrollments. Users and votes are untouched, so votes for the
      deleted questions remain. */
  function DeleteCourse(db: Db, session: Session, classId: int): (r: Step)
    ensures !IsAdmin(session) ==> r == Step(db, Redirect(Root))
    ensures IsAdmin(session) ==> r.response == Redirect(Back)
    ensures IsAdmin(session) ==>
      && (forall c :: c in r.db.classrooms <==> c in db.classrooms && c.id != classId)
      && (forall q :: q in r.db.questions <==> q in db.questions && q.classroomId != classId)
      && (forall e :: e in r.db.enrollments <==> e in db.enrollments && e.classroomId != classId)
      && r.db.users == db.users
      && r.db.votes == db.votes
    ensures IsAdmin(session) && UnknownClassroom(db, classId) ==> r.db == db
    ensures Valid(db) ==> Valid(r.db)
  {
    if !IsAdmin(session) then Step(db, Redirect(Root))
    else
      var db1 := db.(classrooms := ClassroomsWithout(db.classrooms, classId));
      var db2 := db1.(questions := QuestionsWithout(db1.questions, classId));
      var db3 := db2.(enrollments := EnrollmentsWithoutClass(db2.enrollments, classId));
      Step(db3, Redirect(Back))
  }

  // ------------------------------------------------------- ask and upvote

  /** `ask`: no session or role check; non-empty text appends a question with
      no votes, whether or not the classroom exists; empty text is dropped. */
  function Ask(db: Db, classId: int, id: int, text: string): (r: Step)
    ensures r.response == Redirect(ClassPage(classId))
    ensures text == "" ==> r.db == db
    ensures text != "" ==> r.db == db.(questions := db.questions + [Question(id, classId, text, 0)])
    ensures Valid(db) && FreshQuestion(db, id) ==> Valid(r.db)
  {
    var q := Question(id, classId, text, 0);
    AppendQuestionKeepsValid(db, q);
    if text == "" then Step(db, Redirect(ClassPage(classId)))
    else Step(db.(questions := db.questions + [q]), Redirect(ClassPage(classId)))
  }

  /** `UPDATE questions SET votes = votes + 1 WHERE id = ?`. */
  function Bump(qs: seq<Question>, qId: int): (r: seq<Question>)
    ensures |r| == |qs|
    ensures forall i :: 0 <= i < |qs| ==>
      r[i] == if qs[i].id == qId then qs[i].(votes := qs[i].votes + 1) else qs[i]
  {
    if qs == [] then []
    else
      var head := if qs[0].id == qId then qs[0].(votes := qs[0].votes + 1) else qs[0];
      [head] + Bump(qs[1..], qId)
  }

  /** `upvote`: when the session's user has no vote row for `qId`, insert it
      and raise the counter of every question with that id (none, if the
      question does not exist); the class id only picks the redirect. */
  function Upvote(db: Db, session: Session, classId: int, qId: int): (r: Step)
    requires session.Some?
    ensures r.response == Redirect(ClassPage(classId))
    ensures Vote(session.value.userId, qId) in db.votes ==> r.db == db
    ensures Vote(session.value.userId, qId) !in db.votes ==>
      && r.db.votes == db.votes + {Vote(session.value.userId, qId)}
      && r.db.users == db.users && r.db.classrooms == db.classrooms && r.db.enrollments == db.enrollments
      && |r.db.questions| == |db.questions|
      && (forall i :: 0 <= i < |db.questions| ==>
            r.db.questions[i] == if db.questions[i].id == qId
                                 then db.questions[i].(votes := db.questions[i].votes + 1)
                                 else db.questions[i])
    ensures Valid(db) ==> Valid(r.db)
  {
    var vote := Vote(session.value.userId, qId);
    if vote in db.votes then Step(db, Redirect(ClassPage(classId)))
    else
      var db1 := db.(votes := db.votes + {vote});
      var db2 := db1.(questions := Bump(db1.questions, qId));
      assert forall i :: 0 <= i < |db2.questions| ==> QuestionId(db2.questions[i]) == QuestionId(db.questions[i]);
      Step(db2, Redirect(ClassPage(classId)))
  }
}

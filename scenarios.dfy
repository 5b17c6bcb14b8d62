/** Properties that span several requests: repeated votes and enrollments,
    the seeded accounts, and what the pages show after each write handler. */
module Scenarios {
  import opened Seqs
  import opened Schema
  import opened Web
  import opened Queries
  import opened Handlers
  import Portal

  // ------------------------------------------------------------ repeats

  /** A second upvote of the same question by the same user, from any class
      page, changes nothing: the counter rises at most once per user. */
  lemma UpvoteTwiceCountsOnce(db: Db, session: Session, classId: int, againFrom: int, qId: int)
    requires session.Some?
    ensures var once := Upvote(db, session, classId, qId).db;
      && Upvote(once, session, againFrom, qId).db == once
      && |once.questions| == |db.questions|
      && forall i :: 0 <= i < |db.questions| && db.questions[i].id == qId ==>
           once.questions[i].votes == db.questions[i].votes + (if Vote(session.value.userId, qId) in db.votes then 0 else 1)
  {
  }

  /** `upvote` of a question id no row has still records the vote, and no
      counter changes. */
  lemma UpvoteMissingQuestion(db: Db, session: Session, classId: int, qId: int)
    requires session.Some?
    requires forall q :: q in db.questions ==> q.id != qId
    ensures Upvote(db, session, classId, qId).db.questions == db.questions
    ensures Vote(session.value.userId, qId) in Upvote(db, session, classId, qId).db.votes
  {
    var r := Upvote(db, session, classId, qId).db;
    if Vote(session.value.userId, qId) !in db.votes {
      forall i | 0 <= i < |db.questions| ensures r.questions[i] == db.questions[i] {
        assert db.questions[i] in db.questions;
      }
    }
  }

  /** Enrolling the same pair twice leaves exactly one enrollment row for it. */
  lemma EnrollTwiceKeepsOneRow(db: Db, session: Session, id: int, againId: int, userId: int, classId: int)
    requires Valid(db) && IsAdmin(session) && FreshEnrollment(db, id)
    ensures var once := EnrollStudent(db, session, id, userId, classId).db;
      && EnrollStudent(once, session, againId, userId, classId).db == once
      && exists k :: 0 <= k < |once.enrollments|
           && EnrollmentPair(once.enrollments[k]) == (userId, classId)
           && forall j :: 0 <= j < |once.enrollments| && EnrollmentPair(once.enrollments[j]) == (userId, classId) ==> j == k
  {
    var once := EnrollStudent(db, session, id, userId, classId).db;
    var e :| e in once.enrollments && e.userId == userId && e.classroomId == classId;
    var k :| 0 <= k < |once.enrollments| && once.enrollments[k] == e;
    assert EnrollmentPair(once.enrollments[k]) == (userId, classId);
  }

  /** `init_db` seeds once: running it again leaves the tables alone. */
  lemma InitDbTwiceSeedsOnce(db: Db, a: int, s: int, t: int, c: int, a2: int, s2: int, t2: int, c2: int)
    ensures InitDb(InitDb(db, a, s, t, c), a2, s2, t2, c2) == InitDb(db, a, s, t, c)
  {
  }

  // ------------------------------------------------------------ seeding

  function EmptyDb(): Db { Db([], [], [], [], {}) }

  /** Login picks the first user with the submitted credentials. */
  lemma LoginFindsFirst(db: Db, session: Session, k: nat, username: string, password: string)
    requires k < |db.users| && HasCredentials(db.users[k], username, password)
    requires forall j :: 0 <= j < k ==> !HasCredentials(db.users[j], username, password)
    ensures Login(db, session, Submit(username, password))
      == LoginResult(Some(Identity(db.users[k].id, db.users[k].role, db.users[k].username)), Redirect(HomeFor(db.users[k].role)))
  {
    assert db.users[k] in db.users;
    var r := Login(db, session, Submit(username, password));
    var k' :| 0 <= k' < |db.users| && HasCredentials(db.users[k'], username, password)
      && (forall j :: 0 <= j < k' ==> !HasCredentials(db.users[j], username, password))
      && r.session == Some(Identity(db.users[k'].id, db.users[k'].role, db.users[k'].username))
      && r.response.to == HomeFor(db.users[k'].role);
    assert k' == k;
  }

  function SeedUsers(a: int, s: int, t: int): seq<User> {
    [User(a, "admin", "admin123", "admin"), User(s, "student", "1234", "student"), User(t, "teacher", "teach123", "teacher")]
  }

  lemma AdminLogsIn(db: Db, a: int, s: int, t: int, session: Session)
    requires db.users == SeedUsers(a, s, t)
    ensures Login(db, session, Submit("admin", "admin123")) == LoginResult(Some(Identity(a, "admin", "admin")), Redirect(AdminHome))
  {
    LoginFindsFirst(db, session, 0, "admin", "admin123");
  }

  lemma StudentLogsIn(db: Db, a: int, s: int, t: int, session: Session)
    requires db.users == SeedUsers(a, s, t)
    ensures Login(db, session, Submit("student", "1234")) == LoginResult(Some(Identity(s, "student", "student")), Redirect(DashboardHome))
  {
    assert "student" != "admin";
    LoginFindsFirst(db, session, 1, "student", "1234");
  }

  lemma TeacherLogsIn(db: Db, a: int, s: int, t: int, session: Session)
    requires db.users == SeedUsers(a, s, t)
    ensures Login(db, session, Submit("teacher", "teach123")) == LoginResult(Some(Identity(t, "teacher", "teacher")), Redirect(TeacherHome))
  {
    assert "teacher" != "admin" && "teacher" != "student";
    LoginFindsFirst(db, session, 2, "teacher", "teach123");
  }

  lemma WrongPasswordRefused(db: Db, a: int, s: int, t: int, session: Session)
    requires db.users == SeedUsers(a, s, t)
    ensures Login(db, session, Submit("admin", "1234")) == LoginResult(session, Text("Wrong password!"))
  {
    assert "1234" != "admin123" && "student" != "admin" && "teacher" != "admin";
    assert forall u :: u in db.users ==> !HasCredentials(u, "admin", "1234");
  }

  /** On a new database the three seeded accounts log in with their seeded
      passwords and are sent to their role's home page; a wrong password is
      refused and the session is kept. */
  lemma SeededAccountsLogIn(a: int, s: int, t: int, c: int, session: Session)
    requires SeedIds(EmptyDb(), a, s, t, c)
    ensures var db := InitDb(EmptyDb(), a, s, t, c);
      && Login(db, session, Submit("admin", "admin123")) == LoginResult(Some(Identity(a, "admin", "admin")), Redirect(AdminHome))
      && Login(db, session, Submit("student", "1234")) == LoginResult(Some(Identity(s, "student", "student")), Redirect(DashboardHome))
      && Login(db, session, Submit("teacher", "teach123")) == LoginResult(Some(Identity(t, "teacher", "teacher")), Redirect(TeacherHome))
      && Login(db, session, Submit("admin", "1234")) == LoginResult(session, Text("Wrong password!"))
  {
    var db := InitDb(EmptyDb(), a, s, t, c);
    assert db.users == SeedUsers(a, s, t);
    AdminLogsIn(db, a, s, t, session);
    StudentLogsIn(db, a, s, t, session);
    TeacherLogsIn(db, a, s, t, session);
    WrongPasswordRefused(db, a, s, t, session);
  }

  /** The seeded teacher's dashboard lists the seeded classroom "Math 101". */
  lemma SeededTeacherSeesMath(a: int, s: int, t: int, c: int)
    requires SeedIds(EmptyDb(), a, s, t, c)
    ensures var db := InitDb(EmptyDb(), a, s, t, c);
      TeacherDashboard(db, Some(Identity(t, "teacher", "teacher"))) == Render(TeacherView([Classroom(c, "Math 101", "teacher")], []))
  {
    var db := InitDb(EmptyDb(), a, s, t, c);
    assert db.classrooms == [Classroom(c, "Math 101", "teacher")];
    var page := TeacherDashboard(db, Some(Identity(t, "teacher", "teacher")));
    NoMemberEmpty(page.view.questions);
    assert Filter(db.classrooms, (x: Classroom) => x.teacher == "teacher") == db.classrooms;
  }

  /** After `logout` every page sends the visitor back to the login form. */
  lemma LogoutClosesEveryPage(db: Db, classId: int)
    ensures Logout().response == Redirect(Root)
    ensures var session := Logout().session;
      && AdminDashboard(db, session) == Redirect(Root)
      && TeacherDashboard(db, session) == Redirect(Root)
      && Dashboard(db, session) == Redirect(Root)
      && ClassroomPage(db, session, classId) == Redirect(Root)
  {
  }

  // ------------------------------------------------------------ writes seen by reads

  /** A student the admin adds is listed among the students on `/admin`. */
  lemma NewStudentOnAdminPage(db: Db, admin: Session, id: int, username: string, password: string)
    requires IsAdmin(admin)
    ensures User(id, username, password, "student")
      in AdminDashboard(AddStudent(db, admin, id, username, password).db, admin).view.students
  {
  }

  /** A teacher the admin adds is listed among the teachers on `/admin`. */
  lemma NewTeacherOnAdminPage(db: Db, admin: Session, id: int, username: string, password: string)
    requires IsAdmin(admin)
    ensures User(id, username, password, "teacher")
      in AdminDashboard(AddTeacher(db, admin, id, username, password).db, admin).view.teachers
  {
  }

  /** After an upvote, every class page of the same session that renders marks
      each question with that id as voted. */
  lemma UpvotedShowsVoted(db: Db, session: Session, from: int, classId: int, qId: int)
    requires session.Some?
    ensures var page := ClassroomPage(Upvote(db, session, from, qId).db, session, classId);
      page.Render? ==> forall l :: l in page.view.ranked && l.question.id == qId ==> l.hasVoted
  {
  }

  /** A course the admin assigns to a teacher shows on that teacher's dashboard. */
  lemma NewCourseOnTeacherDashboard(db: Db, admin: Session, teacher: Session, id: int, subject: string)
    requires IsAdmin(admin) && HasRole(teacher, "teacher")
    ensures var after := AddCourse(db, admin, id, subject, Some(teacher.value.username)).db;
      Classroom(id, subject, teacher.value.username) in TeacherDashboard(after, teacher).view.classes
  {
  }

  /** After the admin enrolls a user in an existing classroom, that user's
      dashboard lists it. */
  lemma EnrolledClassOnDashboard(db: Db, admin: Session, id: int, me: Identity, c: Classroom)
    requires IsAdmin(admin) && c in db.classrooms
    ensures c in Dashboard(EnrollStudent(db, admin, id, me.userId, c.id).db, Some(me)).view.classes
  {
  }

  /** A question asked in a class the session may see is listed on that class
      page, with no votes. */
  lemma AskedQuestionListed(db: Db, session: Session, classId: int, id: int, text: string)
    requires text != "" && ClassroomPage(db, session, classId).Render?
    ensures var page := ClassroomPage(Ask(db, classId, id, text).db, session, classId);
      && page.Render?
      && Listed(Question(id, classId, text, 0), Vote(session.value.userId, id) in db.votes) in page.view.ranked
  {
  }

  /** Appending a question to the join's left side appends its rows. */
  lemma {:induction false} JoinAppend(qs: seq<Question>, q: Question, cs: seq<Classroom>)
    ensures JoinSubjects(qs + [q], cs) == JoinSubjects(qs, cs) + SubjectsOf(q, cs)
  {
    if qs == [] {
      assert qs + [q] == [q];
      assert JoinSubjects([q], cs) == SubjectsOf(q, cs) + JoinSubjects([], cs);
    } else {
      assert (qs + [q])[0] == qs[0];
      assert (qs + [q])[1..] == qs[1..] + [q];
      JoinAppend(qs[1..], q, cs);
    }
  }

  /** `ask` accepts a question for a classroom id no row has, but the inner
      join leaves it out: the admin dashboard is exactly as before. */
  lemma AskIntoMissingClassroomHidden(db: Db, admin: Session, classId: int, id: int, text: string)
    requires forall c :: c in db.classrooms ==> c.id != classId
    ensures AdminDashboard(Ask(db, classId, id, text).db, admin) == AdminDashboard(db, admin)
  {
    if text != "" {
      var q := Question(id, classId, text, 0);
      var after := db.(questions := db.questions + [q]);
      assert JoinSubjects(after.questions, db.classrooms) == JoinSubjects(db.questions, db.classrooms) by {
        JoinAppend(db.questions, q, db.classrooms);
        NoClassroomNoSubjects(q, db.classrooms);
        assert JoinSubjects(db.questions, db.classrooms) + [] == JoinSubjects(db.questions, db.classrooms);
      }
      assert NewestFirst(after.questions, after.classrooms) == NewestFirst(db.questions, db.classrooms);
      assert Ask(db, classId, id, text).db == after;
    }
  }

  /** The orphan question is hidden only while no classroom has its id: a
      course created later with that id takes it in, and the admin page then
      lists it under the new course's subject. */
  lemma OrphanQuestionAdoptedByNewCourse(db: Db, admin: Session, classId: int, qId: int, text: string,
                                         subject: string, teacher: Option<string>)
    requires IsAdmin(admin) && text != ""
    ensures var asked := Ask(db, classId, qId, text).db;
      var added := AddCourse(asked, admin, classId, subject, teacher).db;
      Posted(Question(qId, classId, text, 0), subject) in AdminDashboard(added, admin).view.questions
  {
    var asked := Ask(db, classId, qId, text).db;
    var added := AddCourse(asked, admin, classId, subject, teacher).db;
    assert Question(qId, classId, text, 0) in added.questions;
    assert Classroom(classId, subject, TeacherOrEmpty(teacher)) in added.classrooms;
  }

  /** After `delete_student` a session still carrying that user's id sees no
      classes and no question marked as voted. */
  lemma DeletedStudentLeavesNoTrace(db: Db, admin: Session, me: Identity, classId: int)
    requires IsAdmin(admin)
    ensures var after := DeleteStudent(db, admin, me.userId).db;
      && Dashboard(after, Some(me)) == Render(DashboardView([]))
      && (ClassroomPage(after, Some(me), classId).Render? ==>
            forall l :: l in ClassroomPage(after, Some(me), classId).view.ranked ==> !l.hasVoted)
  {
    var after := DeleteStudent(db, admin, me.userId).db;
    NoMemberEmpty(Dashboard(after, Some(me)).view.classes);
  }

  /** After `delete_course` the class page answers 404, and the course is
      gone from the admin and every dashboard. */
  lemma DeletedCourseNotFound(db: Db, admin: Session, session: Session, classId: int)
    requires IsAdmin(admin) && session.Some?
    ensures var after := DeleteCourse(db, admin, classId).db;
      && ClassroomPage(after, session, classId) == NotFound
      && (forall c :: c in Dashboard(after, session).view.classes ==> c.id != classId)
      && (forall c :: c in AdminDashboard(after, admin).view.classes ==> c.id != classId)
  {
  }

  // ------------------------------------------------------------ ordering

  function VotedQuestions(): seq<Question> {
    [Question(1, 1, "a", 3), Question(2, 1, "b", 1), Question(3, 1, "c", 2)]
  }

  function VotedDb(): Db {
    Db([], [Classroom(1, "Math 101", "teacher")], VotedQuestions(), [], {})
  }

  /** Any listing of the three questions (no votes cast) that is complete,
      without repeats and ordered by votes is 3, 2, 1. */
  lemma {:induction false} RankedThreeOneTwo(r: seq<Listed>)
    requires RankedFor(r, VotedDb(), 2, 1)
    ensures r == [Listed(VotedQuestions()[0], false), Listed(VotedQuestions()[2], false), Listed(VotedQuestions()[1], false)]
  {
    var qs := VotedQuestions();
    var x, y, z := Listed(qs[0], false), Listed(qs[1], false), Listed(qs[2], false);
    assert |r| == 3 by {
      assert InClass(qs, 1) == qs;
    }
    assert DistinctKeys(r, ListedId) by {
      assert DistinctKeys(qs, QuestionId);
    }
    assert forall i :: 0 <= i < 3 ==> r[i] == x || r[i] == y || r[i] == z by {
      forall i | 0 <= i < 3 ensures r[i] == x || r[i] == y || r[i] == z {
        assert r[i] in r;
      }
    }
    assert ListedVotes(r[0]) >= ListedVotes(r[1]) >= ListedVotes(r[2]);
    assert r[0] != r[1] && r[1] != r[2] && r[0] != r[2] by {
      assert ListedId(r[0]) != ListedId(r[1]) && ListedId(r[1]) != ListedId(r[2]) && ListedId(r[0]) != ListedId(r[2]);
    }
    ThreeByVotes(r, x, y, z);
  }

  /** Three distinct rows with 3, 1 and 2 votes, sorted by votes, are x, z, y. */
  lemma ThreeByVotes(r: seq<Listed>, x: Listed, y: Listed, z: Listed)
    requires |r| == 3
    requires x.question.votes == 3 && y.question.votes == 1 && z.question.votes == 2
    requires forall i :: 0 <= i < 3 ==> r[i] == x || r[i] == y || r[i] == z
    requires r[0] != r[1] && r[1] != r[2] && r[0] != r[2]
    requires ListedVotes(r[0]) >= ListedVotes(r[1]) >= ListedVotes(r[2])
    ensures r == [x, z, y]
  {
    assert r[0] == x && r[1] == z && r[2] == y;
  }

  /** Questions with 3, 1 and 2 votes are listed with 3, then 2, then 1. */
  lemma MostVotedFirst()
    ensures ClassroomPage(VotedDb(), Some(Identity(2, "student", "student")), 1)
      == Render(ClassroomView(Classroom(1, "Math 101", "teacher"),
                              [Listed(VotedQuestions()[0], false), Listed(VotedQuestions()[2], false), Listed(VotedQuestions()[1], false)]))
  {
    var c := Classroom(1, "Math 101", "teacher");
    assert c in VotedDb().classrooms;
    assert ClassroomById(VotedDb().classrooms, 1) == Some(c);
    RankedThreeOneTwo(Ranked(VotedDb(), 2, 1));
  }

  // ------------------------------------------------------------ the store

  /** Two identical upvote requests against the store leave it as one does. */
  method VoteTwice(store: Portal.Store, session: Session, classId: int, qId: int)
    requires store.Valid() && session.Some?
    modifies store
    ensures store.Valid()
    ensures store.Tables() == Upvote(old(store.Tables()), session, classId, qId).db
  {
    var first := store.Upvote(session, classId, qId);
    var second := store.Upvote(session, classId, qId);
    UpvoteTwiceCountsOnce(old(store.Tables()), session, classId, classId, qId);
  }
}

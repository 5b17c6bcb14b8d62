/** The read-only handlers: login's credential lookup, logout, and the four
    pages, each a selection, join or sort over the tables. */
module Queries {
  import opened Seqs
  import opened Schema
  import opened Web

  // ---------------------------------------------------------------- login

  datatype LoginRequest = ShowForm | Submit(username: string, password: string)

  /** The session after the request, and the response. */
  datatype LoginResult = LoginResult(session: Session, response: Response)

  predicate HasCredentials(u: User, username: string, password: string) {
    u.username == username && u.password == password
  }

  function HomeFor(role: string): Path {
    if role == "admin" then AdminHome
    else if role == "teacher" then TeacherHome
    else DashboardHome
  }

  /** GET shows the form; POST looks up the first user whose username and
      password both match, stores that user in the session and redirects by
      role, or answers "Wrong password!" and leaves the session alone. */
  function Login(db: Db, session: Session, request: LoginRequest): (r: LoginResult)
    ensures request.ShowForm? ==> r == LoginResult(session, Render(LoginForm))
    ensures request.Submit? ==>
      (r.response.Redirect? <==> exists u :: u in db.users && HasCredentials(u, request.username, request.password))
    ensures request.Submit? && r.response.Redirect? ==>
      exists k :: 0 <= k < |db.users| && HasCredentials(db.users[k], request.username, request.password)
        && (forall j :: 0 <= j < k ==> !HasCredentials(db.users[j], request.username, request.password))
        && r.session == Some(Identity(db.users[k].id, db.users[k].role, db.users[k].username))
        && r.response.to == (if db.users[k].role == "admin" then AdminHome
                             else if db.users[k].role == "teacher" then TeacherHome
                             else DashboardHome)
    ensures request.Submit? && !r.response.Redirect? ==>
      r == LoginResult(session, Text("Wrong password!"))
  {
    match request
    case ShowForm => LoginResult(session, Render(LoginForm))
    case Submit(username, password) =>
      match FindFirst(db.users, (u: User) => HasCredentials(u, username, password))
      case Some(k) =>
        var u := db.users[k];
        LoginResult(Some(Identity(u.id, u.role, u.username)), Redirect(HomeFor(u.role)))
      case None =>
        LoginResult(session, Text("Wrong password!"))
  }

  function Logout(): LoginResult {
    LoginResult(None, Redirect(Root))
  }

  // ---------------------------------------------------------------- joins

  /** The rows `questions JOIN classrooms ON questions.classroom_id = classrooms.id`
      produces for one question, one per matching classroom. */
  function SubjectsOf(q: Question, cs: seq<Classroom>): (r: seq<Posted>)
    ensures forall p :: p in r <==>
      p.question == q && exists c :: c in cs && c.id == q.classroomId && c.subject == p.subject
  {
    if cs == [] then []
    else
      assert cs == [cs[0]] + cs[1..];
      (if cs[0].id == q.classroomId then [Posted(q, cs[0].subject)] else []) + SubjectsOf(q, cs[1..])
  }

  lemma {:induction false} NoClassroomNoSubjects(q: Question, cs: seq<Classroom>)
    requires forall c :: c in cs ==> ClassroomId(c) != q.classroomId
    ensures SubjectsOf(q, cs) == []
  {
    if cs != [] {
      NoClassroomNoSubjects(q, cs[1..]);
    }
  }

  lemma {:induction false} SubjectsOfAtMostOne(q: Question, cs: seq<Classroom>)
    requires DistinctKeys(cs, ClassroomId)
    ensures |SubjectsOf(q, cs)| <= 1
  {
    if cs != [] {
      DistinctKeysTail(cs, ClassroomId);
      SubjectsOfAtMostOne(q, cs[1..]);
      if cs[0].id == q.classroomId {
        NoClassroomNoSubjects(q, cs[1..]);
      }
    }
  }

  /** The inner join of questions with classrooms, question by question. */
  function JoinSubjects(qs: seq<Question>, cs: seq<Classroom>): (r: seq<Posted>)
    ensures forall p :: p in r <==>
      p.question in qs && exists c :: c in cs && c.id == p.question.classroomId && c.subject == p.subject
  {
    if qs == [] then []
    else
      assert qs == [qs[0]] + qs[1..];
      SubjectsOf(qs[0], cs) + JoinSubjects(qs[1..], cs)
  }

  /** With unique classroom ids the join yields each question at most once. */
  lemma {:induction false} JoinKeepsDistinct(qs: seq<Question>, cs: seq<Classroom>)
    ensures DistinctKeys(qs, QuestionId) && DistinctKeys(cs, ClassroomId) ==>
      DistinctKeys(JoinSubjects(qs, cs), PostedId)
  {
    if qs != [] && DistinctKeys(qs, QuestionId) && DistinctKeys(cs, ClassroomId) {
      DistinctKeysTail(qs, QuestionId);
      JoinKeepsDistinct(qs[1..], cs);
      SubjectsOfAtMostOne(qs[0], cs);
      var head := SubjectsOf(qs[0], cs);
      var rest := JoinSubjects(qs[1..], cs);
      forall x, y | x in head && y in rest ensures PostedId(x) != PostedId(y) {
        assert y.question in qs[1..];
      }
      DistinctKeysConcat(head, rest, PostedId);
    }
  }

  /** What `ORDER BY questions.id DESC` over the join lists. */
  ghost predicate NewestFirstOf(r: seq<Posted>, qs: seq<Question>, cs: seq<Classroom>) {
    && (forall p :: p in r <==>
         p.question in qs && exists c :: c in cs && c.id == p.question.classroomId && c.subject == p.subject)
    && (DistinctKeys(qs, QuestionId) && DistinctKeys(cs, ClassroomId) ==> Decreasing(r, PostedId))
  }

  /** The joined questions, newest (largest id) first; a question whose
      classroom is missing has no row. */
  function NewestFirst(qs: seq<Question>, cs: seq<Classroom>): (r: seq<Posted>)
    ensures NewestFirstOf(r, qs, cs)
  {
    var joined := JoinSubjects(qs, cs);
    var sorted := SortDesc(joined, PostedId);
    assert forall p :: p in sorted <==> p in joined by {
      forall p ensures p in sorted <==> p in joined {
        assert p in sorted <==> p in multiset(sorted);
      }
    }
    JoinKeepsDistinct(qs, cs);
    SortKeepsDistinct(joined, PostedId, PostedId);
    StrictWhenDistinct(sorted, PostedId);
    sorted
  }

  // ---------------------------------------------------------------- pages

  /** `/admin`: every classroom, the students, the teachers and all questions
      that have a classroom, newest first; anyone but an admin goes to '/'. */
  function AdminDashboard(db: Db, session: Session): (r: Response)
    ensures !IsAdmin(session) ==> r == Redirect(Root)
    ensures IsAdmin(session) ==> r.Render? && r.view.AdminView?
    ensures r.Render? ==> r.view.AdminView? && r.view.classes == db.classrooms
    ensures r.Render? ==> r.view.AdminView? && forall u :: u in r.view.students <==> u in db.users && u.role == "student"
    ensures r.Render? ==> r.view.AdminView? && forall u :: u in r.view.teachers <==> u in db.users && u.role == "teacher"
    ensures r.Render? ==> r.view.AdminView? && NewestFirstOf(r.view.questions, db.questions, db.classrooms)
    ensures r.Render? && Valid(db) ==>
      && r.view.AdminView?
      && DistinctKeys(r.view.students, UserId)
      && DistinctKeys(r.view.teachers, UserId)
  {
    FilterKeepsDistinct(db.users, (u: User) => u.role == "student", UserId);
    FilterKeepsDistinct(db.users, (u: User) => u.role == "teacher", UserId);
    if !IsAdmin(session) then Redirect(Root)
    else
      Render(AdminView(
        db.classrooms,
        Filter(db.users, (u: User) => u.role == "student"),
        Filter(db.users, (u: User) => u.role == "teacher"),
        NewestFirst(db.questions, db.classrooms)))
  }

  /** Copies of classroom `c`, one per enrollment of `userId` in it. */
  function EnrolledCopies(c: Classroom, es: seq<Enrollment>, userId: int): (r: seq<Classroom>)
    ensures forall x :: x in r <==> x == c && exists e :: e in es && e.userId == userId && e.classroomId == c.id
  {
    if es == [] then []
    else
      assert es == [es[0]] + es[1..];
      (if es[0].userId == userId && es[0].classroomId == c.id then [c] else []) + EnrolledCopies(c, es[1..], userId)
  }

  lemma {:induction false} NotEnrolledNoCopies(c: Classroom, es: seq<Enrollment>, userId: int)
    requires forall e :: e in es ==> EnrollmentPair(e) != (userId, c.id)
    ensures EnrolledCopies(c, es, userId) == []
  {
    if es != [] {
      assert EnrollmentPair(es[0]) != (userId, c.id);
      NotEnrolledNoCopies(c, es[1..], userId);
    }
  }

  lemma {:induction false} EnrolledCopiesAtMostOne(c: Classroom, es: seq<Enrollment>, userId: int)
    requires DistinctKeys(es, EnrollmentPair)
    ensures |EnrolledCopies(c, es, userId)| <= 1
  {
    if es != [] {
      DistinctKeysTail(es, EnrollmentPair);
      EnrolledCopiesAtMostOne(c, es[1..], userId);
      if es[0].userId == userId && es[0].classroomId == c.id {
        NotEnrolledNoCopies(c, es[1..], userId);
      }
    }
  }

  /** `classrooms JOIN enrollments ON classrooms.id = enrollments.classroom_id
      WHERE enrollments.user_id = ?`. */
  function MyClasses(cs: seq<Classroom>, es: seq<Enrollment>, userId: int): (r: seq<Classroom>)
    ensures forall c :: c in r <==> c in cs && exists e :: e in es && e.userId == userId && e.classroomId == c.id
  {
    if cs == [] then []
    else
      assert cs == [cs[0]] + cs[1..];
      EnrolledCopies(cs[0], es, userId) + MyClasses(cs[1..], es, userId)
  }

  /** Because no (user, classroom) pair is enrolled twice, the dashboard lists
      each classroom at most once. */
  lemma {:induction false} MyClassesDistinct(cs: seq<Classroom>, es: seq<Enrollment>, userId: int)
    ensures DistinctKeys(cs, ClassroomId) && DistinctKeys(es, EnrollmentPair) ==>
      DistinctKeys(MyClasses(cs, es, userId), ClassroomId)
  {
    if cs != [] && DistinctKeys(cs, ClassroomId) && DistinctKeys(es, EnrollmentPair) {
      DistinctKeysTail(cs, ClassroomId);
      MyClassesDistinct(cs[1..], es, userId);
      EnrolledCopiesAtMostOne(cs[0], es, userId);
      var head := EnrolledCopies(cs[0], es, userId);
      var rest := MyClasses(cs[1..], es, userId);
      forall x, y | x in head && y in rest ensures ClassroomId(x) != ClassroomId(y) {
        assert y in cs[1..];
      }
      DistinctKeysConcat(head, rest, ClassroomId);
    }
  }

  /** `/dashboard`: the classrooms the session's user is enrolled in. */
  function Dashboard(db: Db, session: Session): (r: Response)
    ensures session.None? <==> r == Redirect(Root)
    ensures session.Some? ==> (
      && r.Render? && r.view.DashboardView?
      && (forall c :: c in r.view.classes <==>
            c in db.classrooms && IsEnrolled(db, session.value.userId, c.id))
      && (Valid(db) ==> DistinctKeys(r.view.classes, ClassroomId)))
  {
    match session
    case None => Redirect(Root)
    case Some(me) =>
      var classes := MyClasses(db.classrooms, db.enrollments, me.userId);
      MyClassesDistinct(db.classrooms, db.enrollments, me.userId);
      Render(DashboardView(classes))
  }

  /** `SELECT * FROM classrooms WHERE id = ?` and `fetchone()`. */
  function ClassroomById(cs: seq<Classroom>, id: int): (r: Option<Classroom>)
    ensures r.Some? <==> exists c :: c in cs && c.id == id
    ensures r.Some? ==> r.value in cs && r.value.id == id
    ensures r.Some? && DistinctKeys(cs, ClassroomId) ==> forall c :: c in cs && c.id == id ==> c == r.value
  {
    match FindFirst(cs, (c: Classroom) => c.id == id)
    case None => None
    case Some(k) => Some(cs[k])
  }

  /** The `has_voted` column: whether `userId` has a vote row for the question. */
  function Annotate(qs: seq<Question>, userId: int, votes: set<Vote>): (r: seq<Listed>)
    ensures forall l :: l in r <==> l.question in qs && l.hasVoted == (Vote(userId, l.question.id) in votes)
    ensures DistinctKeys(qs, QuestionId) ==> DistinctKeys(r, ListedId)
    ensures |r| == |qs|
    ensures forall i :: 0 <= i < |qs| ==> r[i].question == qs[i]
  {
    var r := seq(|qs|, i requires 0 <= i < |qs| => Listed(qs[i], Vote(userId, qs[i].id) in votes));
    assert forall l :: l in r <==> l.question in qs && l.hasVoted == (Vote(userId, l.question.id) in votes) by {
      forall l ensures l in r <==> l.question in qs && l.hasVoted == (Vote(userId, l.question.id) in votes) {
        if l.question in qs && l.hasVoted == (Vote(userId, l.question.id) in votes) {
          var i :| 0 <= i < |qs| && qs[i] == l.question;
          assert r[i] == l;
        }
      }
    }
    r
  }

  /** `WHERE questions.classroom_id = ?`. */
  function InClass(qs: seq<Question>, classId: int): (r: seq<Question>)
    ensures forall q :: q in r <==> q in qs && q.classroomId == classId
    ensures DistinctKeys(qs, QuestionId) ==> DistinctKeys(r, QuestionId)
    ensures (forall q :: q in qs ==> q.classroomId == classId) ==> r == qs
  {
    FilterKeepsDistinct(qs, (q: Question) => q.classroomId == classId, QuestionId);
    Filter(qs, (q: Question) => q.classroomId == classId)
  }

  /** What the classroom view lists: exactly that class's questions, each once
      with its `has_voted` flag, most votes first. */
  ghost predicate RankedFor(r: seq<Listed>, db: Db, userId: int, classId: int) {
    && |r| == |InClass(db.questions, classId)|
    && (forall l :: l in r <==>
         && l.question in db.questions
         && l.question.classroomId == classId
         && l.hasVoted == (Vote(userId, l.question.id) in db.votes))
    && NonIncreasing(r, ListedVotes)
    && (DistinctKeys(db.questions, QuestionId) ==> DistinctKeys(r, ListedId))
  }

  /** The LEFT JOIN with votes, WHERE classroom_id = ?, ORDER BY votes DESC. */
  function Ranked(db: Db, userId: int, classId: int): (r: seq<Listed>)
    ensures RankedFor(r, db, userId, classId)
  {
    var inClass := InClass(db.questions, classId);
    var annotated := Annotate(inClass, userId, db.votes);
    var sorted := SortDesc(annotated, ListedVotes);
    assert forall l :: l in sorted <==> l in annotated by {
      forall l ensures l in sorted <==> l in annotated {
        assert l in sorted <==> l in multiset(sorted);
      }
    }
    assert |sorted| == |annotated| by {
      assert |sorted| == |multiset(sorted)|;
    }
    SortKeepsDistinct(annotated, ListedVotes, ListedId);
    sorted
  }

  /** `/class/<class_id>`: '/' without a session, 404 for a missing class, 403
      for a teacher who does not teach it, otherwise the ranked questions. */
  function ClassroomPage(db: Db, session: Session, classId: int): (r: Response)
    ensures r == Redirect(Root) <==> session.None?
    ensures r == NotFound <==> session.Some? && ClassroomById(db.classrooms, classId).None?
    ensures r == Forbidden <==>
      && session.Some?
      && ClassroomById(db.classrooms, classId).Some?
      && session.value.role == "teacher"
      && ClassroomById(db.classrooms, classId).value.teacher != session.value.username
    ensures r == Redirect(Root) || r == NotFound || r == Forbidden || r.Render?
    ensures
      && session.Some?
      && ClassroomById(db.classrooms, classId).Some?
      && !(session.value.role == "teacher" && ClassroomById(db.classrooms, classId).value.teacher != session.value.username)
      ==> r.Render?
    ensures r.Render? ==>
      && session.Some?
      && r.view.ClassroomView?
      && ClassroomById(db.classrooms, classId) == Some(r.view.classroom)
      && RankedFor(r.view.ranked, db, session.value.userId, classId)
  {
    match session
    case None => Redirect(Root)
    case Some(me) =>
      match ClassroomById(db.classrooms, classId)
      case None => NotFound
      case Some(c) =>
        if me.role == "teacher" && c.teacher != me.username then Forbidden
        else Render(ClassroomView(c, Ranked(db, me.userId, classId)))
  }

  /** `/teacher`: the classrooms whose teacher field is the session's username
      and all their questions, newest first; anyone but a teacher goes to '/'. */
  function TeacherDashboard(db: Db, session: Session): (r: Response)
    ensures !HasRole(session, "teacher") ==> r == Redirect(Root)
    ensures HasRole(session, "teacher") ==> (
      && r.Render? && r.view.TeacherView?
      && (forall c :: c in r.view.classes <==> c in db.classrooms && c.teacher == session.value.username)
      && (forall p :: p in r.view.questions <==>
            && p.question in db.questions
            && exists c :: c in db.classrooms && c.teacher == session.value.username
                           && c.id == p.question.classroomId && c.subject == p.subject)
      && (Valid(db) ==> DistinctKeys(r.view.classes, ClassroomId))
      && (Valid(db) ==> Decreasing(r.view.questions, PostedId)))
  {
    if !HasRole(session, "teacher") then Redirect(Root)
    else
      var name := session.value.username;
      var mine := Filter(db.classrooms, (c: Classroom) => c.teacher == name);
      var posted := NewestFirst(db.questions, mine);
      FilterKeepsDistinct(db.classrooms, (c: Classroom) => c.teacher == name, ClassroomId);
      Render(TeacherView(mine, posted))
  }
}

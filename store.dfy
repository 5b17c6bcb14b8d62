/** The persistent store as an object whose five tables the write handlers
    update statement by statement, each handler one commit. */
module Portal {
  import opened Seqs
  import opened Schema
  import opened Web
  import Handlers

  class Store {
    var users: seq<User>
    var classrooms: seq<Classroom>
    var questions: seq<Question>
    var enrollments: seq<Enrollment>
    var votes: set<Vote>

    /** The tables as a value, for the read handlers and the specifications. */
    function Tables(): Db
      reads this
    {
      Db(users, classrooms, questions, enrollments, votes)
    }

    ghost predicate Valid()
      reads this
    {
      Schema.Valid(Tables())
    }

    /** A new database file after the five CREATE TABLE IF NOT EXISTS statements. */
    constructor ()
      ensures Valid()
      ensures Tables() == Db([], [], [], [], {})
    {
      users, classrooms, questions, enrollments, votes := [], [], [], [], {};
    }

    /** `init_db`: seeds when the users table is empty, each INSERT taking an
        id no row of its table uses. */
    method InitDb()
      requires Valid()
      modifies this
      ensures Valid()
      ensures exists adminId, studentId, teacherId, classId ::
        && Handlers.SeedIds(old(Tables()), adminId, studentId, teacherId, classId)
        && Tables() == Handlers.InitDb(old(Tables()), adminId, studentId, teacherId, classId)
    {
      ghost var before := Tables();
      ghost var a := NewUserId(before);
      ghost var db1 := before.(users := before.users + [User(a, "admin", "admin123", "admin")]);
      ghost var s := NewUserId(db1);
      ghost var db2 := db1.(users := db1.users + [User(s, "student", "1234", "student")]);
      ghost var t := NewUserId(db2);
      ghost var c := NewClassroomId(before);
      FreshUserBeforeAppend(before, User(a, "admin", "admin123", "admin"), s);
      FreshUserBeforeAppend(db1, User(s, "student", "1234", "student"), t);
      FreshUserBeforeAppend(before, User(a, "admin", "admin123", "admin"), t);
      if |users| == 0 {
        var adminId := NewUserId(Tables());
        users := users + [User(adminId, "admin", "admin123", "admin")];
        var studentId := NewUserId(Tables());
        users := users + [User(studentId, "student", "1234", "student")];
        var teacherId := NewUserId(Tables());
        users := users + [User(teacherId, "teacher", "teach123", "teacher")];
        var classId := NewClassroomId(Tables());
        classrooms := classrooms + [Classroom(classId, "Math 101", "teacher")];
        assert adminId == a && studentId == s && teacherId == t && classId == c;
      }
      assert Handlers.SeedIds(before, a, s, t, c);
      assert Tables() == Handlers.InitDb(before, a, s, t, c);
    }

    /** `add_student`. */
    method AddStudent(session: Session, username: string, password: string) returns (r: Response)
      requires Valid()
      modifies this
      ensures Valid()
      ensures exists id ::
        && FreshUser(old(Tables()), id)
        && Handlers.Step(Tables(), r) == Handlers.AddStudent(old(Tables()), session, id, username, password)
    {
      ghost var before := Tables();
      var id := NewUserId(Tables());
      if !IsAdmin(session) {
        r := Redirect(Root);
      } else {
        users := users + [User(id, username, password, "student")];
        r := Redirect(AdminHome);
      }
      assert FreshUser(before, id);
      assert Handlers.Step(Tables(), r) == Handlers.AddStudent(before, session, id, username, password);
    }

    /** `add_teacher`. */
    method AddTeacher(session: Session, username: string, password: string) returns (r: Response)
      requires Valid()
      modifies this
      ensures Valid()
      ensures exists id ::
        && FreshUser(old(Tables()), id)
        && Handlers.Step(Tables(), r) == Handlers.AddTeacher(old(Tables()), session, id, username, password)
    {
      ghost var before := Tables();
      var id := NewUserId(Tables());
      if !IsAdmin(session) {
        r := Redirect(Root);
      } else {
        users := users + [User(id, username, password, "teacher")];
        r := Redirect(AdminHome);
      }
      assert FreshUser(before, id);
      assert Handlers.Step(Tables(), r) == Handlers.AddTeacher(before, session, id, username, password);
    }

    /** `add_course`; `teacher` is None when the form has no teacher_username. */
    method AddCourse(session: Session, subject: string, teacher: Option<string>) returns (r: Response)
      requires Valid()
      modifies this
      ensures Valid()
      ensures exists id ::
        && FreshClassroom(old(Tables()), id)
        && Handlers.Step(Tables(), r) == Handlers.AddCourse(old(Tables()), session, id, subject, teacher)
    {
      ghost var before := Tables();
      var id := NewClassroomId(Tables());
      if !IsAdmin(session) {
        r := Redirect(Root);
      } else {
        classrooms := classrooms + [Classroom(id, subject, Handlers.TeacherOrEmpty(teacher))];
        r := Redirect(AdminHome);
      }
      assert FreshClassroom(before, id);
      assert Handlers.Step(Tables(), r) == Handlers.AddCourse(before, session, id, subject, teacher);
    }

    /** `enroll_student`: look the pair up, insert only when it is not found. */
    method EnrollStudent(session: Session, userId: int, classId: int) returns (r: Response)
      requires Valid()
      modifies this
      ensures Valid()
      ensures exists id ::
        && FreshEnrollment(old(Tables()), id)
        && Handlers.Step(Tables(), r) == Handlers.EnrollStudent(old(Tables()), session, id, userId, classId)
    {
      ghost var before := Tables();
      var id := NewEnrollmentId(Tables());
      if !IsAdmin(session) {
        r := Redirect(Root);
      } else {
        var existing := FindFirst(enrollments, (e: Enrollment) => e.userId == userId && e.classroomId == classId);
        if existing.None? {
          assert !IsEnrolled(before, userId, classId) by {
            forall e | e in before.enrollments ensures !(e.userId == userId && e.classroomId == classId) {
              var j :| 0 <= j < |enrollments| && enrollments[j] == e;
            }
          }
          enrollments := enrollments + [Enrollment(id, userId, classId)];
        } else {
          assert enrollments[existing.value] in enrollments;
        }
        r := Redirect(AdminHome);
      }
      assert FreshEnrollment(before, id);
      assert Handlers.Step(Tables(), r) == Handlers.EnrollStudent(before, session, id, userId, classId);
    }

    /** `delete_student`: three DELETE statements, one commit. */
    method DeleteStudent(session: Session, userId: int) returns (r: Response)
      requires Valid()
      modifies this
      ensures Valid()
      ensures Handlers.Step(Tables(), r) == Handlers.DeleteStudent(old(Tables()), session, userId)
    {
      if !IsAdmin(session) {
        return Redirect(Root);
      }
      users := Handlers.UsersWithout(users, userId);
      enrollments := Handlers.EnrollmentsWithoutUser(enrollments, userId);
      votes := Handlers.VotesWithout(votes, userId);
      r := Redirect(Back);
    }

    /** `delete_course`: three DELETE statements, one commit. */
    method DeleteCourse(session: Session, classId: int) returns (r: Response)
      requires Valid()
      modifies this
      ensures Valid()
      ensures Handlers.Step(Tables(), r) == Handlers.DeleteCourse(old(Tables()), session, classId)
    {
      if !IsAdmin(session) {
        return Redirect(Root);
      }
      classrooms := Handlers.ClassroomsWithout(classrooms, classId);
      questions := Handlers.QuestionsWithout(questions, classId);
      enrollments := Handlers.EnrollmentsWithoutClass(enrollments, classId);
      r := Redirect(Back);
    }

    /** `ask`: takes no session at all. */
    method Ask(classId: int, text: string) returns (r: Response)
      requires Valid()
      modifies this
      ensures Valid()
      ensures exists id ::
        && FreshQuestion(old(Tables()), id)
        && Handlers.Step(Tables(), r) == Handlers.Ask(old(Tables()), classId, id, text)
    {
      ghost var before := Tables();
      var id := NewQuestionId(Tables());
      if text != "" {
        questions := questions + [Question(id, classId, text, 0)];
      }
      r := Redirect(ClassPage(classId));
      assert FreshQuestion(before, id);
      assert Handlers.Step(Tables(), r) == Handlers.Ask(before, classId, id, text);
    }

    /** `upvote`: look the vote up; if absent, INSERT it and UPDATE the counter. */
    method Upvote(session: Session, classId: int, qId: int) returns (r: Response)
      requires Valid()
      requires session.Some?
      modifies this
      ensures Valid()
      ensures Handlers.Step(Tables(), r) == Handlers.Upvote(old(Tables()), session, classId, qId)
    {
      var userId := session.value.userId;
      var existing := Vote(userId, qId) in votes;
      if !existing {
        votes := votes + {Vote(userId, qId)};
        questions := Handlers.Bump(questions, qId);
      }
      r := Redirect(ClassPage(classId));
    }
  }
}

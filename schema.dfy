/** The five tables of the portal's store and the invariant every handler keeps.

    Each table is a sequence of rows in storage order; the `votes` table, whose
    primary key is the whole (user_id, question_id) pair, is a set. */
module Schema {
  import opened Seqs

  datatype User = User(id: int, username: string, password: string, role: string)
  datatype Classroom = Classroom(id: int, subject: string, teacher: string)
  /** `votes` is the question's counter column, never negative. */
  datatype Question = Question(id: int, classroomId: int, text: string, votes: nat)
  datatype Enrollment = Enrollment(id: int, userId: int, classroomId: int)
  datatype Vote = Vote(userId: int, questionId: int)

  datatype Db = Db(
    users: seq<User>,
    classrooms: seq<Classroom>,
    questions: seq<Question>,
    enrollments: seq<Enrollment>,
    votes: set<Vote>)

  function UserId(u: User): int { u.id }
  function ClassroomId(c: Classroom): int { c.id }
  function QuestionId(q: Question): int { q.id }
  function EnrollmentId(e: Enrollment): int { e.id }
  function EnrollmentPair(e: Enrollment): (int, int) { (e.userId, e.classroomId) }

  function UserIds(us: seq<User>): seq<int> { seq(|us|, i requires 0 <= i < |us| => us[i].id) }
  function ClassroomIds(cs: seq<Classroom>): seq<int> { seq(|cs|, i requires 0 <= i < |cs| => cs[i].id) }
  function QuestionIds(qs: seq<Question>): seq<int> { seq(|qs|, i requires 0 <= i < |qs| => qs[i].id) }
  function EnrollmentIds(es: seq<Enrollment>): seq<int> { seq(|es|, i requires 0 <= i < |es| => es[i].id) }

  /** The INTEGER PRIMARY KEY of each table is unique, and no (user, classroom)
      pair is enrolled twice. */
  ghost predicate Valid(db: Db) {
    && DistinctKeys(db.users, UserId)
    && DistinctKeys(db.classrooms, ClassroomId)
    && DistinctKeys(db.questions, QuestionId)
    && DistinctKeys(db.enrollments, EnrollmentId)
    && DistinctKeys(db.enrollments, EnrollmentPair)
  }

  /** `id` is used by no row of the table: a row id the store may allocate. */
  predicate FreshUser(db: Db, id: int) { forall i :: 0 <= i < |db.users| ==> db.users[i].id != id }
  predicate FreshClassroom(db: Db, id: int) { forall i :: 0 <= i < |db.classrooms| ==> db.classrooms[i].id != id }
  predicate FreshQuestion(db: Db, id: int) { forall i :: 0 <= i < |db.questions| ==> db.questions[i].id != id }
  predicate FreshEnrollment(db: Db, id: int) { forall i :: 0 <= i < |db.enrollments| ==> db.enrollments[i].id != id }

  /** An id for the next INSERT into each table. */
  function NewUserId(db: Db): (id: int)
    ensures FreshUser(db, id)
  {
    var ids := UserIds(db.users);
    assert forall i :: 0 <= i < |db.users| ==> db.users[i].id == ids[i];
    NewId(ids)
  }

  function NewClassroomId(db: Db): (id: int)
    ensures FreshClassroom(db, id)
  {
    var ids := ClassroomIds(db.classrooms);
    assert forall i :: 0 <= i < |db.classrooms| ==> db.classrooms[i].id == ids[i];
    NewId(ids)
  }

  function NewQuestionId(db: Db): (id: int)
    ensures FreshQuestion(db, id)
  {
    var ids := QuestionIds(db.questions);
    assert forall i :: 0 <= i < |db.questions| ==> db.questions[i].id == ids[i];
    NewId(ids)
  }

  function NewEnrollmentId(db: Db): (id: int)
    ensures FreshEnrollment(db, id)
  {
    var ids := EnrollmentIds(db.enrollments);
    assert forall i :: 0 <= i < |db.enrollments| ==> db.enrollments[i].id == ids[i];
    NewId(ids)
  }

  /** An id unused after appending `u` was unused before and is not `u`'s. */
  lemma FreshUserBeforeAppend(db: Db, u: User, id: int)
    requires FreshUser(db.(users := db.users + [u]), id)
    ensures FreshUser(db, id) && u.id != id
  {
    assert forall i :: 0 <= i < |db.users| ==> (db.users + [u])[i] == db.users[i];
    assert (db.users + [u])[|db.users|] == u;
  }

  /** SELECT * FROM enrollments WHERE user_id=? AND classroom_id=? finds a row. */
  predicate IsEnrolled(db: Db, userId: int, classId: int) {
    exists e :: e in db.enrollments && e.userId == userId && e.classroomId == classId
  }
}

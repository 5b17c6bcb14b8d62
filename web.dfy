/** What a handler sees of the request and what it hands back: the session
    cookie's identity, redirect targets, rendered pages and error responses. */
module Web {
  import opened Seqs
  import opened Schema

  /** The three keys `login` writes into the session. */
  datatype Identity = Identity(userId: int, role: string, username: string)

  /** None: nobody has logged in (or the session was cleared). */
  type Session = Option<Identity>

  predicate HasRole(session: Session, role: string) {
    session.Some? && session.value.role == role
  }

  predicate IsAdmin(session: Session) { HasRole(session, "admin") }

  /** Redirect targets. `Back` is the referring page, or the admin dashboard
      when the request has no referrer. */
  datatype Path = Root | AdminHome | TeacherHome | DashboardHome | ClassPage(classId: int) | Back

  /** A question joined with its classroom's subject (`class_subject`). */
  datatype Posted = Posted(question: Question, subject: string)

  /** A question with the `has_voted` flag of the classroom view. */
  datatype Listed = Listed(question: Question, hasVoted: bool)

  function PostedId(p: Posted): int { p.question.id }
  function ListedId(l: Listed): int { l.question.id }
  function ListedVotes(l: Listed): int { l.question.votes }

  /** The data each template is rendered with. */
  datatype View =
    | LoginForm
    | AdminView(classes: seq<Classroom>, students: seq<User>, teachers: seq<User>, questions: seq<Posted>)
    | DashboardView(classes: seq<Classroom>)
    | ClassroomView(classroom: Classroom, ranked: seq<Listed>)
    | TeacherView(classes: seq<Classroom>, questions: seq<Posted>)

  /** `NotFound` is the 404 "Class not found or deleted", `Forbidden` the 403. */
  datatype Response =
    | Redirect(to: Path)
    | Text(body: string)
    | NotFound
    | Forbidden
    | Render(view: View)
}

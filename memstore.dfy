/**
  app/models/simple_models.py: the record classes of the in-memory variant and `Storage`, six
  dicts keyed by record id. demo.py carries a copy of the same Storage class (without
  get_faculty_by_user_id); both are modelled by the class below.
*/
module MemStore {
  import opened Common
  import opened Tables
  import Helpers

  /** Record ids: uuid4 strings in the Flask variant, fixed or running-number strings in the demo. */
  type Id = string

  datatype User = User(id: Id, username: string, email: string, password: string, role: Role)
  datatype Student = Student(id: Id, userId: Id, fullName: string)
  datatype Faculty = Faculty(id: Id, userId: Id, fullName: string)
  datatype Course = Course(id: Id, code: string, name: string, facultyId: Option<Id>)
  datatype Session = Session(
    id: Id, courseId: Id, facultyId: Id, token: string, createdAt: int, expiration: int, isActive: bool)
  datatype Attendance = Attendance(id: Id, sessionId: Id, studentId: Id, markedAt: int)

  /** User.check_password: these models keep the password in clear and compare it exactly. */
  predicate CheckPassword(u: User, password: string)
  {
    u.password == password
  }

  /**
    The Session constructor: `id` and `token` stand for its two uuid4 draws and `now` for its
    clock reading. The session starts active and accepts its token up to and including
    three minutes after creation, and never after.
  */
  function NewSession(id: Id, courseId: Id, facultyId: Id, token: string, now: int): (s: Session)
    ensures s.id == id && s.courseId == courseId && s.facultyId == facultyId && s.token == token
    ensures s.isActive && s.createdAt == now
    ensures forall t :: !Helpers.Expired(s.isActive, s.expiration, t) <==> t <= now + 3 * Helpers.MicrosPerMinute
  {
    Session(id, courseId, facultyId, token, now, Helpers.MinutesAfter(now, 3), true)
  }

  // The tests of the store's lookup loops and list comprehensions.
  function HasUsername(username: string): User -> bool { (u: User) => u.username == username }
  function StudentOf(userId: Id): Student -> bool { (s: Student) => s.userId == userId }
  function FacultyOf(userId: Id): Faculty -> bool { (f: Faculty) => f.userId == userId }
  function HasCode(code: string): Course -> bool { (c: Course) => c.code == code }
  function HasToken(token: string): Session -> bool { (s: Session) => s.token == token }
  function OfSession(sessionId: Id): Attendance -> bool { (a: Attendance) => a.sessionId == sessionId }
  function OfStudent(studentId: Id): Attendance -> bool { (a: Attendance) => a.studentId == studentId }
  function ForPair(sessionId: Id, studentId: Id): Attendance -> bool
  {
    (a: Attendance) => a.sessionId == sessionId && a.studentId == studentId
  }
  function TaughtBy(facultyId: Id): Course -> bool { (c: Course) => c.facultyId == Some(facultyId) }

  /** `current_user and current_user.role == role` */
  predicate LoggedInAs(user: Option<User>, role: Role)
  {
    user.Some? && user.value.role == role
  }

  /** The six dicts of a Storage, as one value. */
  datatype MemState = MemState(
    users: Table<Id, User>,
    students: Table<Id, Student>,
    faculties: Table<Id, Faculty>,
    courses: Table<Id, Course>,
    sessions: Table<Id, Session>,
    attendances: Table<Id, Attendance>)

  /** add_X(x) stores x under x.id, so every dict maps each key to the record carrying that id. */
  ghost predicate WellKeyed(s: MemState)
  {
    && s.users.Valid() && s.students.Valid() && s.faculties.Valid()
    && s.courses.Valid() && s.sessions.Valid() && s.attendances.Valid()
    && (forall k :: k in s.users.rows ==> s.users.rows[k].id == k)
    && (forall k :: k in s.students.rows ==> s.students.rows[k].id == k)
    && (forall k :: k in s.faculties.rows ==> s.faculties.rows[k].id == k)
    && (forall k :: k in s.courses.rows ==> s.courses.rows[k].id == k)
    && (forall k :: k in s.sessions.rows ==> s.sessions.rows[k].id == k)
    && (forall k :: k in s.attendances.rows ==> s.attendances.rows[k].id == k)
  }

  /** No two users share a username. */
  ghost predicate UniqueUsernames(users: Table<Id, User>)
  {
    forall a, b :: a in users.rows && b in users.rows && users.rows[a].username == users.rows[b].username ==> a == b
  }

  /** No two courses share a course code. */
  ghost predicate UniqueCodes(courses: Table<Id, Course>)
  {
    forall a, b :: a in courses.rows && b in courses.rows && courses.rows[a].code == courses.rows[b].code ==> a == b
  }

  /** Some course already has this code. */
  ghost predicate CodeTaken(courses: Table<Id, Course>, code: string)
  {
    exists k :: k in courses.rows && courses.rows[k].code == code
  }

  /** No two sessions share a token. */
  ghost predicate UniqueTokens(sessions: Table<Id, Session>)
  {
    forall a, b :: a in sessions.rows && b in sessions.rows && sessions.rows[a].token == sessions.rows[b].token ==> a == b
  }

  /** At most one attendance per (session, student) pair. */
  ghost predicate OnePerPair(attendances: Table<Id, Attendance>)
  {
    forall a, b ::
      a in attendances.rows && b in attendances.rows &&
      attendances.rows[a].sessionId == attendances.rows[b].sessionId &&
      attendances.rows[a].studentId == attendances.rows[b].studentId
      ==> a == b
  }

  /** Some attendance already records this (session, student) pair. */
  ghost predicate Marked(attendances: Table<Id, Attendance>, sessionId: Id, studentId: Id)
  {
    exists k :: k in attendances.rows && attendances.rows[k].sessionId == sessionId && attendances.rows[k].studentId == studentId
  }

  /** Some user already has this username. */
  ghost predicate UsernameTaken(users: Table<Id, User>, username: string)
  {
    exists k :: k in users.rows && users.rows[k].username == username
  }

  /** The payloads of the successful replies both in-memory variants give. */
  datatype LoginInfo = LoginInfo(userId: Id, role: Role)
  datatype SessionInfo = SessionInfo(sessionId: Id, token: string, expiration: int)
  datatype MarkInfo = MarkInfo(sessionId: Id, markedAt: int)

  /**
    The checks both in-memory mark_attendance handlers make, in their order: a student is
    logged in, a token was sent, a session carries it, that session is active and not past
    its expiration, and the caller has a student profile. The first check that fails names
    the error; when all pass, the result is the session and the profile.
  */
  ghost function RedeemCheck(user: Option<User>, s: MemState, token: string, now: int): Result<(Session, Student)>
    requires s.sessions.Valid() && s.students.Valid()
  {
    if !LoggedInAs(user, StudentRole) then Err(Unauthorized)
    else if token == "" then Err(MissingField)
    else match First(s.sessions.Values(), HasToken(token))
      case None => Err(InvalidToken)
      case Some(session) =>
        if Helpers.Expired(session.isActive, session.expiration, now) then Err(Expired)
        else match First(s.students.Values(), StudentOf(user.value.id))
          case None => Err(NoProfile)
          case Some(student) => Ok((session, student))
  }

  /**
    The checks read only sessions, profiles and the clock: at another instant they pass with
    the same session and profile, or fail, and records of attendances do not change them.
  */
  lemma RedeemCheckTimeless(user: Option<User>, s: MemState, token: string, now: int, later: int,
                            attendances: Table<Id, Attendance>)
    requires s.sessions.Valid() && s.students.Valid() && RedeemCheck(user, s, token, now).Ok?
    ensures var r := RedeemCheck(user, s.(attendances := attendances), token, later);
      r.Ok? ==> r.value == RedeemCheck(user, s, token, now).value
  {
  }

  /**
    What a passed check rests on: the token belongs to a stored session that is active and
    not past its expiration, and the profile is a stored one of the caller.
  */
  lemma RedeemCheckAccepts(user: Option<User>, s: MemState, token: string, now: int)
    requires s.sessions.Valid() && s.students.Valid()
    requires RedeemCheck(user, s, token, now).Ok?
    ensures var (session, student) := RedeemCheck(user, s, token, now).value;
      && LoggedInAs(user, StudentRole) && token != ""
      && session in s.sessions.rows.Values && session.token == token
      && session.isActive && now <= session.expiration
      && student in s.students.rows.Values && student.userId == user.value.id
  {
    ValuesAreRows(s.sessions);
    ValuesAreRows(s.students);
  }

  /**
    With unique tokens, a session presented at exactly its expiration instant passes the
    expiry check, and one instant later it fails it, whatever else holds.
  */
  lemma ExpiryBoundary(user: Option<User>, s: MemState, token: string, k: Id)
    requires s.sessions.Valid() && s.students.Valid() && UniqueTokens(s.sessions)
    requires LoggedInAs(user, StudentRole) && token != ""
    requires k in s.sessions.rows && s.sessions.rows[k].token == token && s.sessions.rows[k].isActive
    ensures RedeemCheck(user, s, token, s.sessions.rows[k].expiration) != Err(Expired)
    ensures RedeemCheck(user, s, token, s.sessions.rows[k].expiration + 1) == Err(Expired)
  {
    TokenLookup(s.sessions, token, k);
  }

  /**
    With unique usernames, the lookup loop finds a user by username iff one exists, and
    then it finds exactly that user.
  */
  lemma UsernameLookup(users: Table<Id, User>, username: string)
    requires users.Valid() && UniqueUsernames(users)
    ensures First(users.Values(), HasUsername(username)).Some? <==>
            exists k :: k in users.rows && users.rows[k].username == username
    ensures forall k :: k in users.rows && users.rows[k].username == username ==>
            First(users.Values(), HasUsername(username)) == Some(users.rows[k])
  {
    forall k | k in users.rows && users.rows[k].username == username
      ensures First(users.Values(), HasUsername(username)) == Some(users.rows[k])
    {
      FirstOfUnique(users, HasUsername(username), k);
    }
    var r := First(users.Values(), HasUsername(username));
    if r.Some? {
      ValuesAreRows(users);
      var k :| k in users.rows && users.rows[k] == r.value;
    }
  }

  /** With unique tokens, the token lookup finds the one session carrying the token. */
  lemma TokenLookup(sessions: Table<Id, Session>, token: string, k: Id)
    requires sessions.Valid() && UniqueTokens(sessions)
    requires k in sessions.rows && sessions.rows[k].token == token
    ensures First(sessions.Values(), HasToken(token)) == Some(sessions.rows[k])
  {
    FirstOfUnique(sessions, HasToken(token), k);
  }

  /** A session under a new id with a token no session has keeps tokens unique. */
  lemma FreshTokenKeepsUnique(sessions: Table<Id, Session>, id: Id, s: Session)
    requires sessions.Valid() && UniqueTokens(sessions)
    requires id !in sessions.rows
    requires forall k :: k in sessions.rows ==> sessions.rows[k].token != s.token
    ensures UniqueTokens(sessions.Put(id, s))
  {
  }

  /** An attendance under a new id for a pair not yet marked keeps one record per pair. */
  lemma UnmarkedKeepsOnePerPair(attendances: Table<Id, Attendance>, id: Id, a: Attendance)
    requires attendances.Valid() && OnePerPair(attendances)
    requires id !in attendances.rows
    requires !Marked(attendances, a.sessionId, a.studentId)
    ensures OnePerPair(attendances.Put(id, a))
    ensures Marked(attendances.Put(id, a), a.sessionId, a.studentId)
  {
    assert attendances.Put(id, a).rows[id] == a;
  }

  /**
    The converse: a second record for a pair that is already marked breaks one record per
    pair, whatever its id. This is what an attendance path without a duplicate check does.
  */
  lemma MarkedTwiceBreaksOnePerPair(attendances: Table<Id, Attendance>, id: Id, a: Attendance)
    requires attendances.Valid()
    requires id !in attendances.rows
    requires Marked(attendances, a.sessionId, a.studentId)
    ensures !OnePerPair(attendances.Put(id, a))
  {
    var k :| k in attendances.rows && attendances.rows[k].sessionId == a.sessionId && attendances.rows[k].studentId == a.studentId;
    var t := attendances.Put(id, a);
    assert k in t.rows && id in t.rows && t.rows[k].sessionId == t.rows[id].sessionId;
    assert t.rows[k].studentId == t.rows[id].studentId && k != id;
  }

  class Storage {
    var users: Table<Id, User>
    var students: Table<Id, Student>
    var faculties: Table<Id, Faculty>
    var courses: Table<Id, Course>
    var sessions: Table<Id, Session>
    var attendances: Table<Id, Attendance>

    function State(): MemState
      reads this
    {
      MemState(users, students, faculties, courses, sessions, attendances)
    }

    ghost predicate Valid()
      reads this
    {
      WellKeyed(State())
    }

    constructor ()
      ensures Valid()
      ensures State() == MemState(Empty(), Empty(), Empty(), Empty(), Empty(), Empty())
    {
      users, students, faculties := Empty(), Empty(), Empty();
      courses, sessions, attendances := Empty(), Empty(), Empty();
    }

    method AddUser(u: User)
      requires Valid()
      modifies this
      ensures Valid()
      ensures State() == old(State()).(users := old(users).Put(u.id, u))
    {
      users := users.Put(u.id, u);
    }

    method AddStudent(s: Student)
      requires Valid()
      modifies this
      ensures Valid()
      ensures State() == old(State()).(students := old(students).Put(s.id, s))
    {
      students := students.Put(s.id, s);
    }

    method AddFaculty(f: Faculty)
      requires Valid()
      modifies this
      ensures Valid()
      ensures State() == old(State()).(faculties := old(faculties).Put(f.id, f))
    {
      faculties := faculties.Put(f.id, f);
    }

    method AddCourse(c: Course)
      requires Valid()
      modifies this
      ensures Valid()
      ensures State() == old(State()).(courses := old(courses).Put(c.id, c))
    {
      courses := courses.Put(c.id, c);
    }

    method AddSession(s: Session)
      requires Valid()
      modifies this
      ensures Valid()
      ensures State() == old(State()).(sessions := old(sessions).Put(s.id, s))
    {
      sessions := sessions.Put(s.id, s);
    }

    method AddAttendance(a: Attendance)
      requires Valid()
      modifies this
      ensures Valid()
      ensures State() == old(State()).(attendances := old(attendances).Put(a.id, a))
    {
      attendances := attendances.Put(a.id, a);
    }

    /** `del self.courses[course_id]` */
    method RemoveCourse(courseId: Id)
      requires Valid() && courseId in courses.rows
      modifies this
      ensures Valid()
      ensures State() == old(State()).(courses := old(courses).Remove(courseId))
    {
      courses := courses.Remove(courseId);
    }

    method GetUserByUsername(username: string) returns (r: Option<User>)
      requires Valid()
      ensures r == First(users.Values(), HasUsername(username))
      ensures r.None? <==> forall k :: k in users.rows ==> users.rows[k].username != username
      ensures r.Some? ==> r.value.username == username && users.Get(r.value.id) == r
    {
      r := FindFirst(users, HasUsername(username));
    }

    method GetStudentByUserId(userId: Id) returns (r: Option<Student>)
      requires Valid()
      ensures r == First(students.Values(), StudentOf(userId))
      ensures r.None? <==> forall k :: k in students.rows ==> students.rows[k].userId != userId
      ensures r.Some? ==> r.value.userId == userId && students.Get(r.value.id) == r
    {
      r := FindFirst(students, StudentOf(userId));
    }

    method GetFacultyByUserId(userId: Id) returns (r: Option<Faculty>)
      requires Valid()
      ensures r == First(faculties.Values(), FacultyOf(userId))
      ensures r.None? <==> forall k :: k in faculties.rows ==> faculties.rows[k].userId != userId
      ensures r.Some? ==> r.value.userId == userId && faculties.Get(r.value.id) == r
    {
      r := FindFirst(faculties, FacultyOf(userId));
    }

    method GetSessionByToken(token: string) returns (r: Option<Session>)
      requires Valid()
      ensures r == First(sessions.Values(), HasToken(token))
      ensures r.None? <==> forall k :: k in sessions.rows ==> sessions.rows[k].token != token
      ensures r.Some? ==> r.value.token == token && sessions.Get(r.value.id) == r
    {
      r := FindFirst(sessions, HasToken(token));
    }

    /**
      The lookups both mark_attendance handlers make before they write: the token's session
      by get_session_by_token and the caller's profile by get_student_by_user_id, each
      behind its check.
    */
    method CheckRedemption(user: Option<User>, token: string, now: int) returns (r: Result<(Session, Student)>)
      requires Valid()
      ensures r == RedeemCheck(user, State(), token, now)
    {
      if !LoggedInAs(user, StudentRole) {
        return Err(Unauthorized);
      }
      if token == "" {
        return Err(MissingField);
      }
      var session := GetSessionByToken(token);
      if session.None? {
        return Err(InvalidToken);
      }
      if Helpers.Expired(session.value.isActive, session.value.expiration, now) {
        return Err(Expired);
      }
      var student := GetStudentByUserId(user.value.id);
      if student.None? {
        return Err(NoProfile);
      }
      return Ok((session.value, student.value));
    }

    function AttendancesBySession(sessionId: Id): (r: seq<Attendance>)
      reads this
      requires Valid()
      ensures |r| <= attendances.Size()
      ensures forall a :: a in r <==> a in attendances.rows.Values && a.sessionId == sessionId
      ensures |r| == |KeysWhere(attendances, OfSession(sessionId))|
    {
      ValuesAreRows(attendances);
      WhereCount(attendances, OfSession(sessionId));
      Where(attendances.Values(), OfSession(sessionId))
    }

    function AttendancesByStudent(studentId: Id): (r: seq<Attendance>)
      reads this
      requires Valid()
      ensures |r| <= attendances.Size()
      ensures forall a :: a in r <==> a in attendances.rows.Values && a.studentId == studentId
      ensures |r| == |KeysWhere(attendances, OfStudent(studentId))|
    {
      ValuesAreRows(attendances);
      WhereCount(attendances, OfStudent(studentId));
      Where(attendances.Values(), OfStudent(studentId))
    }
  }
}

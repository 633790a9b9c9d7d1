/**
  app/models/models.py: the SQLAlchemy schema of the database variant. Each model is a row
  datatype keyed by its integer primary key; the unique columns and UniqueConstraints become
  `Constraints`, which the database enforces at commit. `Db` holds the seven tables and
  applies a transaction with `Commit`; the controllers build the pending change on a value
  and commit it, or roll back by committing nothing.
*/
module Models {
  import opened Common
  import opened Tables

  /** Integer primary keys. */
  type Key = int

  /** A users row. password_hash is whatever bcrypt produced; the hashing is not modelled. */
  datatype UserRow = UserRow(id: Key, username: string, email: string, passwordHash: string, role: Role)
  /** A students row; studentNumber is the `student_id` column, the college's own number. */
  datatype StudentRow = StudentRow(id: Key, userId: Key, studentNumber: string, fullName: string)
  /** A faculties row; facultyNumber is the `faculty_id` column. */
  datatype FacultyRow = FacultyRow(id: Key, userId: Key, facultyNumber: string, fullName: string)
  datatype CourseRow = CourseRow(id: Key, code: string, name: string, facultyId: Option<Key>)
  datatype EnrollmentRow = EnrollmentRow(id: Key, studentId: Key, courseId: Key, enrolledAt: int)
  datatype SessionRow = SessionRow(
    id: Key, courseId: Key, facultyId: Key, sessionDate: int, token: string, expiration: int, isActive: bool)
  datatype AttendanceRow = AttendanceRow(id: Key, sessionId: Key, studentId: Key, markedAt: int)

  /**
    A sessions row as the insert creates it: is_active and session_date take their column
    defaults (true, and the insert time).
  */
  function NewSessionRow(id: Key, courseId: Key, facultyId: Key, token: string, expiration: int, now: int)
    : (r: SessionRow)
    ensures r.isActive && r.sessionDate == now
    ensures r.id == id && r.courseId == courseId && r.facultyId == facultyId
    ensures r.token == token && r.expiration == expiration
  {
    SessionRow(id, courseId, facultyId, now, token, expiration, true)
  }

  // The columns the schema declares unique.
  function Username(u: UserRow): string { u.username }
  function Email(u: UserRow): string { u.email }
  function StudentNumber(s: StudentRow): string { s.studentNumber }
  function FacultyNumber(f: FacultyRow): string { f.facultyNumber }
  function Code(c: CourseRow): string { c.code }
  function EnrollPair(e: EnrollmentRow): (Key, Key) { (e.studentId, e.courseId) }
  function Token(s: SessionRow): string { s.token }
  function AttendPair(a: AttendanceRow): (Key, Key) { (a.sessionId, a.studentId) }
  // The foreign-key columns a delete would set to NULL.
  function EnrollStudent(e: EnrollmentRow): Key { e.studentId }
  function EnrollCourse(e: EnrollmentRow): Key { e.courseId }
  function SessionCourse(s: SessionRow): Key { s.courseId }
  // The owner column of each profile.
  function StudentUser(s: StudentRow): Key { s.userId }
  function FacultyUser(f: FacultyRow): Key { f.userId }

  // The filters of the controllers' `filter_by(...)` queries.
  function WithUsername(username: string): UserRow -> bool { (u: UserRow) => u.username == username }
  function StudentOfUser(userId: Key): StudentRow -> bool { (p: StudentRow) => p.userId == userId }
  function FacultyOfUser(userId: Key): FacultyRow -> bool { (p: FacultyRow) => p.userId == userId }
  function WithToken(token: string): SessionRow -> bool { (r: SessionRow) => r.token == token }
  function OfSession(sessionId: Key): AttendanceRow -> bool { (a: AttendanceRow) => a.sessionId == sessionId }
  function OfStudent(studentId: Key): AttendanceRow -> bool { (a: AttendanceRow) => a.studentId == studentId }

  /** `Course.query.get(course_id)`'s name, or 'Unknown' when there is no such course. */
  function CourseName(s: DbState, courseId: Key): string
  {
    if courseId in s.courses.rows then s.courses.rows[courseId].name else "Unknown"
  }

  datatype DbState = DbState(
    users: Table<Key, UserRow>,
    students: Table<Key, StudentRow>,
    faculties: Table<Key, FacultyRow>,
    courses: Table<Key, CourseRow>,
    enrollments: Table<Key, EnrollmentRow>,
    sessions: Table<Key, SessionRow>,
    attendances: Table<Key, AttendanceRow>)

  function EmptyDb(): DbState
  {
    DbState(Empty(), Empty(), Empty(), Empty(), Empty(), Empty(), Empty())
  }

  /** Every table is a valid table whose rows carry their own primary key. */
  ghost predicate WellKeyed(s: DbState)
  {
    && s.users.Valid() && s.students.Valid() && s.faculties.Valid() && s.courses.Valid()
    && s.enrollments.Valid() && s.sessions.Valid() && s.attendances.Valid()
    && (forall k :: k in s.users.rows ==> s.users.rows[k].id == k)
    && (forall k :: k in s.students.rows ==> s.students.rows[k].id == k)
    && (forall k :: k in s.faculties.rows ==> s.faculties.rows[k].id == k)
    && (forall k :: k in s.courses.rows ==> s.courses.rows[k].id == k)
    && (forall k :: k in s.enrollments.rows ==> s.enrollments.rows[k].id == k)
    && (forall k :: k in s.sessions.rows ==> s.sessions.rows[k].id == k)
    && (forall k :: k in s.attendances.rows ==> s.attendances.rows[k].id == k)
  }

  /**
    The uniqueness the schema declares: username and email, the student and faculty
    numbers, the course code, one enrollment per (student, course), the session token, and
    one attendance per (session, student).
  */
  ghost predicate Constraints(s: DbState)
  {
    && WellKeyed(s)
    && Unique(s.users, Username) && Unique(s.users, Email)
    && Unique(s.students, StudentNumber) && Unique(s.faculties, FacultyNumber)
    && Unique(s.courses, Code) && Unique(s.enrollments, EnrollPair)
    && Unique(s.sessions, Token) && Unique(s.attendances, AttendPair)
  }

  /** The student is enrolled in the course. */
  ghost predicate Enrolled(s: DbState, studentId: Key, courseId: Key)
  {
    Has(s.enrollments, EnrollPair, (studentId, courseId))
  }

  /** Every attendance belongs to a stored session whose course the student is enrolled in. */
  ghost predicate AttendancesEnrolled(s: DbState)
  {
    forall k :: k in s.attendances.rows ==>
      && s.attendances.rows[k].sessionId in s.sessions.rows
      && Enrolled(s, s.attendances.rows[k].studentId, s.sessions.rows[s.attendances.rows[k].sessionId].courseId)
  }

  /** The user userId is stored and has the given role. */
  ghost predicate LinkedTo(users: Table<Key, UserRow>, userId: Key, role: Role)
  {
    userId in users.rows && users.rows[userId].role == role
  }

  /**
    Users and profiles come and go together: each profile belongs to a stored user of the
    matching role, no user has two profiles, and every student or faculty user has one.
  */
  ghost predicate Coupled(s: DbState)
  {
    && (forall j :: j in s.students.rows ==> LinkedTo(s.users, s.students.rows[j].userId, StudentRole))
    && (forall j :: j in s.faculties.rows ==> LinkedTo(s.users, s.faculties.rows[j].userId, FacultyRole))
    && Unique(s.students, StudentUser) && Unique(s.faculties, FacultyUser)
    && (forall k :: k in s.users.rows && s.users.rows[k].role == StudentRole ==> Has(s.students, StudentUser, k))
    && (forall k :: k in s.users.rows && s.users.rows[k].role == FacultyRole ==> Has(s.faculties, FacultyUser, k))
  }

  /** What every controller keeps true of the database. */
  ghost predicate Consistent(s: DbState)
  {
    Constraints(s) && AttendancesEnrolled(s) && Coupled(s)
  }

  /** The database: seven tables that change only by committing a consistent state. */
  class Db {
    var users: Table<Key, UserRow>
    var students: Table<Key, StudentRow>
    var faculties: Table<Key, FacultyRow>
    var courses: Table<Key, CourseRow>
    var enrollments: Table<Key, EnrollmentRow>
    var sessions: Table<Key, SessionRow>
    var attendances: Table<Key, AttendanceRow>

    function State(): DbState
      reads this
    {
      DbState(users, students, faculties, courses, enrollments, sessions, attendances)
    }

    ghost predicate Valid()
      reads this
    {
      Consistent(State())
    }

    constructor ()
      ensures Valid() && State() == EmptyDb()
    {
      users, students, faculties, courses := Empty(), Empty(), Empty(), Empty();
      enrollments, sessions, attendances := Empty(), Empty(), Empty();
    }

    /** db.session.commit(): the pending state becomes the stored one. */
    method Commit(s: DbState)
      requires Consistent(s)
      modifies this
      ensures Valid() && State() == s
    {
      users, students, faculties, courses := s.users, s.students, s.faculties, s.courses;
      enrollments, sessions, attendances := s.enrollments, s.sessions, s.attendances;
    }
  }
}

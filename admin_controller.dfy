/**
  app/controllers/admin_controller.py: the administrator's routes of the database variant,
  each behind role_required('admin'). Deletions follow what the ORM does on flush: a deleted
  parent row has its child rows' foreign key set to NULL. Enrollments and sessions declare
  that key NOT NULL, so deleting a student or course that still has them fails at commit
  (500, nothing deleted); courses may lose their faculty, so deleting a faculty member
  unassigns their courses.
*/
module AdminController {
  import opened Common
  import opened Tables
  import opened Models
  import opened Helpers
  import opened Recent

  // ---------------------------------------------------------------- get_all_users

  /**
    One entry of the user listing: the user's columns, and for a student or faculty user
    with a profile its number and full name.
  */
  datatype UserInfo = UserInfo(
    id: Key, username: string, email: string, role: Role, number: Option<string>, fullName: Option<string>)

  /** The entry of one user, with the first profile `filter_by(user_id=...)` finds. */
  function UserInfoOf(s: DbState): UserRow -> UserInfo
    requires s.students.Valid() && s.faculties.Valid()
  {
    (u: UserRow) =>
      var student := First(s.students.Values(), StudentOfUser(u.id));
      var faculty := First(s.faculties.Values(), FacultyOfUser(u.id));
      if u.role == StudentRole && student.Some? then
        UserInfo(u.id, u.username, u.email, u.role, Some(student.value.studentNumber), Some(student.value.fullName))
      else if u.role == FacultyRole && faculty.Some? then
        UserInfo(u.id, u.username, u.email, u.role, Some(faculty.value.facultyNumber), Some(faculty.value.fullName))
      else UserInfo(u.id, u.username, u.email, u.role, None, None)
  }

  /** The entry of one user: its profile looked up only for the user's own role. */
  method UserEntry(s: DbState, u: UserRow) returns (info: UserInfo)
    requires WellKeyed(s)
    ensures info == UserInfoOf(s)(u)
  {
    info := UserInfo(u.id, u.username, u.email, u.role, None, None);
    if u.role == StudentRole {
      var student := FindFirst(s.students, StudentOfUser(u.id));
      if student.Some? {
        info := info.(number := Some(student.value.studentNumber), fullName := Some(student.value.fullName));
      }
    } else if u.role == FacultyRole {
      var faculty := FindFirst(s.faculties, FacultyOfUser(u.id));
      if faculty.Some? {
        info := info.(number := Some(faculty.value.facultyNumber), fullName := Some(faculty.value.fullName));
      }
    }
  }

  /** The listing loop: one entry per user, in query order. */
  method UserEntries(s: DbState, users: seq<UserRow>) returns (entries: seq<UserInfo>)
    requires WellKeyed(s)
    ensures entries == Map(users, UserInfoOf(s))
  {
    entries := [];
    var i := 0;
    while i < |users|
      invariant 0 <= i <= |users|
      invariant entries == Map(users[..i], UserInfoOf(s))
    {
      assert users[..i + 1][..i] == users[..i];
      var info := UserEntry(s, users[i]);
      entries := entries + [info];
      i := i + 1;
    }
    assert users[..i] == users;
  }

  /** The reply of get_all_users. */
  datatype UserListing = UserListing(total: nat, users: seq<UserInfo>)

  /** get_all_users: one entry per stored user, and the total is the number of users. */
  method GetAllUsers(db: Db, claims: Claims) returns (r: Response<UserListing>)
    requires db.Valid()
    ensures !HasRole(claims, AdminRole) ==> r == Fail(403, MissingRole)
    ensures HasRole(claims, AdminRole) ==>
      && r == Response(200, Ok(UserListing(|db.users.rows|, Map(db.users.Values(), UserInfoOf(db.State())))))
      && r.body.value.total == |r.body.value.users|
  {
    if !HasRole(claims, AdminRole) {
      return Fail(403, MissingRole);
    }
    var s := db.State();
    var entries := UserEntries(s, s.users.Values());
    SizeIsKeyCount(s.users);
    r := Response(200, Ok(UserListing(|entries|, entries)));
  }

  /**
    In a consistent database every student user's entry shows the number and name of the
    profile that belongs to that user.
  */
  lemma StudentEntryShowsProfile(s: DbState, k: Key, j: Key)
    requires Consistent(s) && k in s.users.rows && j in s.students.rows && s.students.rows[j].userId == k
    ensures var info := UserInfoOf(s)(s.users.rows[k]);
      && info.id == k && info.role == StudentRole
      && info.number == Some(s.students.rows[j].studentNumber)
      && info.fullName == Some(s.students.rows[j].fullName)
  {
    assert LinkedTo(s.users, s.students.rows[j].userId, StudentRole);
    forall a, b | a in s.students.rows && b in s.students.rows
                  && StudentOfUser(k)(s.students.rows[a]) && StudentOfUser(k)(s.students.rows[b])
      ensures a == b
    {
      assert StudentUser(s.students.rows[a]) == StudentUser(s.students.rows[b]);
    }
    FirstOfUnique(s.students, StudentOfUser(k), j);
  }

  // ---------------------------------------------------------------- delete_student / delete_faculty

  /** A student and that student's user removed: still consistent. */
  lemma DeleteStudentKeepsConsistent(s: DbState, studentId: Key)
    requires Consistent(s) && studentId in s.students.rows
    ensures var uid := s.students.rows[studentId].userId;
      Consistent(s.(students := s.students.Remove(studentId), users := s.users.Remove(uid)))
  {
    var uid := s.students.rows[studentId].userId;
    RemoveKeepsUnique(s.users, Username, uid);
    RemoveKeepsUnique(s.users, Email, uid);
    RemoveKeepsUnique(s.students, StudentNumber, studentId);
    DeleteStudentKeepsCoupled(s, studentId);
  }

  /**
    The users and profiles stay coupled: the removed user was a student user whose only
    profile is the removed one.
  */
  lemma DeleteStudentKeepsCoupled(s: DbState, studentId: Key)
    requires WellKeyed(s) && Coupled(s) && studentId in s.students.rows
    ensures var uid := s.students.rows[studentId].userId;
      Coupled(s.(students := s.students.Remove(studentId), users := s.users.Remove(uid)))
  {
    var uid := s.students.rows[studentId].userId;
    var s' := s.(students := s.students.Remove(studentId), users := s.users.Remove(uid));
    RemoveKeepsUnique(s.students, StudentUser, studentId);
    assert LinkedTo(s.users, uid, StudentRole);
    forall j | j in s'.students.rows
      ensures LinkedTo(s'.users, s'.students.rows[j].userId, StudentRole)
    {
      assert StudentUser(s.students.rows[j]) != StudentUser(s.students.rows[studentId]);
    }
    forall j | j in s'.faculties.rows
      ensures LinkedTo(s'.users, s'.faculties.rows[j].userId, FacultyRole)
    {
      assert LinkedTo(s.users, s.faculties.rows[j].userId, FacultyRole);
    }
    forall k | k in s'.users.rows && s'.users.rows[k].role == StudentRole
      ensures Has(s'.students, StudentUser, k)
    {
      RemoveKeepsHas(s.students, StudentUser, studentId, k);
    }
    forall k | k in s'.users.rows && s'.users.rows[k].role == FacultyRole
      ensures Has(s'.faculties, FacultyUser, k)
    {
    }
  }

  /**
    delete_student: 404 without such a student; 500 and no change when the student has
    enrollments; otherwise the student row and its user are gone and nothing else changes.
    The user is always there to delete, and is a student user.
  */
  method DeleteStudent(db: Db, claims: Claims, studentId: Key) returns (r: Response<Done>)
    requires db.Valid()
    modifies db
    ensures db.Valid()
    ensures !HasRole(claims, AdminRole) ==> r == Fail(403, MissingRole) && db.State() == old(db.State())
    ensures HasRole(claims, AdminRole) && studentId !in old(db.students.rows) ==>
      r == Fail(404, StudentNotFound) && db.State() == old(db.State())
    ensures HasRole(claims, AdminRole) && studentId in old(db.students.rows) ==>
      var uid := old(db.students.rows[studentId].userId);
      && LinkedTo(old(db.users), uid, StudentRole)
      && (Has(old(db.enrollments), EnrollStudent, studentId) ==>
            r == Fail(500, ConstraintViolation) && db.State() == old(db.State()))
      && (!Has(old(db.enrollments), EnrollStudent, studentId) ==>
            && r == Response(200, Ok(Done))
            && db.State() == old(db.State()).(students := old(db.students).Remove(studentId),
                                               users := old(db.users).Remove(uid)))
  {
    if !HasRole(claims, AdminRole) {
      return Fail(403, MissingRole);
    }
    var s := db.State();
    var student := s.students.Get(studentId);
    if student.None? {
      return Fail(404, StudentNotFound);
    }
    var enrolled := HasValue(s.enrollments, EnrollStudent, studentId);
    if enrolled {
      return Fail(500, ConstraintViolation);
    }
    DeleteStudentKeepsConsistent(s, studentId);
    db.Commit(s.(students := s.students.Remove(studentId), users := s.users.Remove(student.value.userId)));
    r := Response(200, Ok(Done));
  }

  /** The courses table with every course of this faculty left without one. */
  function Unassign(courses: Table<Key, CourseRow>, facultyId: Key): (t: Table<Key, CourseRow>)
    requires courses.Valid()
    ensures t.Valid() && t.order == courses.order && t.rows.Keys == courses.rows.Keys
    ensures forall k :: k in t.rows ==> t.rows[k].facultyId != Some(facultyId)
    ensures forall k :: k in t.rows ==>
      t.rows[k] == (if courses.rows[k].facultyId == Some(facultyId) then courses.rows[k].(facultyId := None)
                    else courses.rows[k])
  {
    Table(courses.order, map k | k in courses.rows ::
      if courses.rows[k].facultyId == Some(facultyId) then courses.rows[k].(facultyId := None) else courses.rows[k])
  }

  /** Unassigning keeps every row's key and code, so course codes stay unique. */
  lemma UnassignKeepsCodes(s: DbState, facultyId: Key)
    requires Constraints(s)
    ensures var c := Unassign(s.courses, facultyId);
      Unique(c, Code) && forall k :: k in c.rows ==> c.rows[k].id == k
  {
    var c := Unassign(s.courses, facultyId);
    forall a, b | a in c.rows && b in c.rows && Code(c.rows[a]) == Code(c.rows[b])
      ensures a == b
    {
      assert Code(s.courses.rows[a]) == Code(s.courses.rows[b]);
    }
  }

  /** A faculty member and their user removed, their courses unassigned: still consistent. */
  lemma DeleteFacultyKeepsConsistent(s: DbState, facultyId: Key)
    requires Consistent(s) && facultyId in s.faculties.rows
    ensures var uid := s.faculties.rows[facultyId].userId;
      Consistent(s.(faculties := s.faculties.Remove(facultyId), users := s.users.Remove(uid),
                    courses := Unassign(s.courses, facultyId)))
  {
    var uid := s.faculties.rows[facultyId].userId;
    UnassignKeepsCodes(s, facultyId);
    RemoveKeepsUnique(s.users, Username, uid);
    RemoveKeepsUnique(s.users, Email, uid);
    RemoveKeepsUnique(s.faculties, FacultyNumber, facultyId);
    DeleteFacultyKeepsCoupled(s, facultyId);
  }

  /**
    The users and profiles stay coupled: the removed user was a faculty user whose only
    profile is the removed one.
  */
  lemma DeleteFacultyKeepsCoupled(s: DbState, facultyId: Key)
    requires WellKeyed(s) && Coupled(s) && facultyId in s.faculties.rows
    ensures var uid := s.faculties.rows[facultyId].userId;
      Coupled(s.(faculties := s.faculties.Remove(facultyId), users := s.users.Remove(uid)))
  {
    var uid := s.faculties.rows[facultyId].userId;
    var s' := s.(faculties := s.faculties.Remove(facultyId), users := s.users.Remove(uid));
    RemoveKeepsUnique(s.faculties, FacultyUser, facultyId);
    assert LinkedTo(s.users, uid, FacultyRole);
    forall j | j in s'.faculties.rows
      ensures LinkedTo(s'.users, s'.faculties.rows[j].userId, FacultyRole)
    {
      assert FacultyUser(s.faculties.rows[j]) != FacultyUser(s.faculties.rows[facultyId]);
    }
    forall j | j in s'.students.rows
      ensures LinkedTo(s'.users, s'.students.rows[j].userId, StudentRole)
    {
      assert LinkedTo(s.users, s.students.rows[j].userId, StudentRole);
    }
    forall k | k in s'.users.rows && s'.users.rows[k].role == FacultyRole
      ensures Has(s'.faculties, FacultyUser, k)
    {
      RemoveKeepsHas(s.faculties, FacultyUser, facultyId, k);
    }
    forall k | k in s'.users.rows && s'.users.rows[k].role == StudentRole
      ensures Has(s'.students, StudentUser, k)
    {
    }
  }

  /**
    delete_faculty: 404 without such a faculty member; otherwise the faculty row and its user
    are gone, every course they taught has no faculty, and nothing else changes.
  */
  method DeleteFaculty(db: Db, claims: Claims, facultyId: Key) returns (r: Response<Done>)
    requires db.Valid()
    modifies db
    ensures db.Valid()
    ensures !HasRole(claims, AdminRole) ==> r == Fail(403, MissingRole) && db.State() == old(db.State())
    ensures HasRole(claims, AdminRole) && facultyId !in old(db.faculties.rows) ==>
      r == Fail(404, FacultyNotFound) && db.State() == old(db.State())
    ensures HasRole(claims, AdminRole) && facultyId in old(db.faculties.rows) ==>
      var uid := old(db.faculties.rows[facultyId].userId);
      && LinkedTo(old(db.users), uid, FacultyRole)
      && r == Response(200, Ok(Done))
      && db.State() == old(db.State()).(faculties := old(db.faculties).Remove(facultyId),
                                         users := old(db.users).Remove(uid),
                                         courses := Unassign(old(db.courses), facultyId))
  {
    if !HasRole(claims, AdminRole) {
      return Fail(403, MissingRole);
    }
    var s := db.State();
    var faculty := s.faculties.Get(facultyId);
    if faculty.None? {
      return Fail(404, FacultyNotFound);
    }
    DeleteFacultyKeepsConsistent(s, facultyId);
    db.Commit(s.(faculties := s.faculties.Remove(facultyId), users := s.users.Remove(faculty.value.userId),
                 courses := Unassign(s.courses, facultyId)));
    r := Response(200, Ok(Done));
  }

  // ---------------------------------------------------------------- create_course / delete_course

  /** The reply of create_course: the new course's id. */
  datatype CourseCreated = CourseCreated(courseId: Key)

  /** A course under a fresh key with an unused code keeps the database consistent. */
  lemma AddCourseKeepsConsistent(s: DbState, c: CourseRow)
    requires Consistent(s) && c.id !in s.courses.rows && !Has(s.courses, Code, c.code)
    ensures Consistent(s.(courses := s.courses.Put(c.id, c)))
  {
    PutKeepsUnique(s.courses, Code, c.id, c);
  }

  /**
    create_course: 400 when a course already has the code; otherwise a new course with the
    given code, name and optional faculty, and nothing else changes.
  */
  method CreateCourse(db: Db, claims: Claims, code: string, name: string, facultyId: Option<Key>, courseId: Key)
    returns (r: Response<CourseCreated>)
    requires db.Valid() && courseId !in db.courses.rows
    modifies db
    ensures db.Valid()
    ensures !HasRole(claims, AdminRole) ==> r == Fail(403, MissingRole) && db.State() == old(db.State())
    ensures HasRole(claims, AdminRole) && Has(old(db.courses), Code, code) ==>
      r == Fail(400, DuplicateCourseCode) && db.State() == old(db.State())
    ensures HasRole(claims, AdminRole) && !Has(old(db.courses), Code, code) ==>
      && r == Response(201, Ok(CourseCreated(courseId)))
      && db.State() == old(db.State()).(courses := old(db.courses).Put(courseId, CourseRow(courseId, code, name, facultyId)))
  {
    if !HasRole(claims, AdminRole) {
      return Fail(403, MissingRole);
    }
    var s := db.State();
    var taken := HasValue(s.courses, Code, code);
    if taken {
      return Fail(400, DuplicateCourseCode);
    }
    AddCourseKeepsConsistent(s, CourseRow(courseId, code, name, facultyId));
    db.Commit(s.(courses := s.courses.Put(courseId, CourseRow(courseId, code, name, facultyId))));
    r := Response(201, Ok(CourseCreated(courseId)));
  }

  /** The course has an enrollment or a session, whose NOT NULL course_id the delete would clear. */
  ghost predicate CourseInUse(s: DbState, courseId: Key)
  {
    Has(s.enrollments, EnrollCourse, courseId) || Has(s.sessions, SessionCourse, courseId)
  }

  /** Removing a course keeps the database consistent: no invariant mentions the course table's rows. */
  lemma RemoveCourseKeepsConsistent(s: DbState, courseId: Key)
    requires Consistent(s)
    ensures Consistent(s.(courses := s.courses.Remove(courseId)))
  {
    RemoveKeepsUnique(s.courses, Code, courseId);
  }

  /**
    delete_course: 404 without such a course; 500 and no change while enrollments or sessions
    refer to it; otherwise the course is gone and nothing else changes.
  */
  method DeleteCourse(db: Db, claims: Claims, courseId: Key) returns (r: Response<Done>)
    requires db.Valid()
    modifies db
    ensures db.Valid()
    ensures !HasRole(claims, AdminRole) ==> r == Fail(403, MissingRole) && db.State() == old(db.State())
    ensures HasRole(claims, AdminRole) && courseId !in old(db.courses.rows) ==>
      r == Fail(404, CourseNotFound) && db.State() == old(db.State())
    ensures HasRole(claims, AdminRole) && courseId in old(db.courses.rows) && CourseInUse(old(db.State()), courseId) ==>
      r == Fail(500, ConstraintViolation) && db.State() == old(db.State())
    ensures HasRole(claims, AdminRole) && courseId in old(db.courses.rows) && !CourseInUse(old(db.State()), courseId) ==>
      r == Response(200, Ok(Done)) && db.State() == old(db.State()).(courses := old(db.courses).Remove(courseId))
  {
    if !HasRole(claims, AdminRole) {
      return Fail(403, MissingRole);
    }
    var s := db.State();
    if courseId !in s.courses.rows {
      return Fail(404, CourseNotFound);
    }
    var enrolled := HasValue(s.enrollments, EnrollCourse, courseId);
    var scheduled := HasValue(s.sessions, SessionCourse, courseId);
    if enrolled || scheduled {
      return Fail(500, ConstraintViolation);
    }
    RemoveCourseKeepsConsistent(s, courseId);
    db.Commit(s.(courses := s.courses.Remove(courseId)));
    r := Response(200, Ok(Done));
  }

  // ---------------------------------------------------------------- create_enrollment

  /** The reply of create_enrollment: the new enrollment's id. */
  datatype EnrollmentCreated = EnrollmentCreated(enrollmentId: Key)

  /** A new enrollment for an unenrolled pair keeps the database consistent. */
  lemma AddEnrollmentKeepsConsistent(s: DbState, e: EnrollmentRow)
    requires Consistent(s) && e.id !in s.enrollments.rows && !Enrolled(s, e.studentId, e.courseId)
    ensures Consistent(s.(enrollments := s.enrollments.Put(e.id, e)))
  {
    PutKeepsUnique(s.enrollments, EnrollPair, e.id, e);
    var s' := s.(enrollments := s.enrollments.Put(e.id, e));
    forall k | k in s'.attendances.rows
      ensures Enrolled(s', s.attendances.rows[k].studentId, s.sessions.rows[s.attendances.rows[k].sessionId].courseId)
    {
      var a := s.attendances.rows[k];
      PutKeepsHas(s.enrollments, EnrollPair, e.id, e, (a.studentId, s.sessions.rows[a.sessionId].courseId));
    }
  }

  /**
    The checks of create_enrollment, in their order: the pair check first (the student is
    already enrolled in the course), then the student, then the course; an absent id finds
    nothing.
  */
  ghost function EnrollCheck(s: DbState, studentId: Option<Key>, courseId: Option<Key>): Result<(Key, Key)>
  {
    if studentId.Some? && courseId.Some? && Enrolled(s, studentId.value, courseId.value) then Err(AlreadyEnrolled)
    else if studentId.None? || studentId.value !in s.students.rows then Err(StudentNotFound)
    else if courseId.None? || courseId.value !in s.courses.rows then Err(CourseNotFound)
    else Ok((studentId.value, courseId.value))
  }

  /** The status each failed check is answered with. */
  function EnrollStatus(kind: ErrorKind): int
  {
    if kind == AlreadyEnrolled then 400 else 404
  }

  /** An enrollment is created exactly for a stored student and course that are not yet paired. */
  lemma EnrollCheckAccepts(s: DbState, studentId: Option<Key>, courseId: Option<Key>)
    ensures EnrollCheck(s, studentId, courseId).Ok? <==>
      && studentId.Some? && courseId.Some?
      && studentId.value in s.students.rows && courseId.value in s.courses.rows
      && !Enrolled(s, studentId.value, courseId.value)
    ensures EnrollCheck(s, studentId, courseId).Ok? ==> EnrollCheck(s, studentId, courseId).value == (studentId.value, courseId.value)
  {
  }

  /** The same enrollment requested again, at any later time, is refused as AlreadyEnrolled. */
  lemma SecondEnrollmentRefused(s: DbState, studentId: Option<Key>, courseId: Option<Key>, now: int, id: Key)
    requires WellKeyed(s) && EnrollCheck(s, studentId, courseId).Ok? && id !in s.enrollments.rows
    ensures var e := EnrollmentRow(id, studentId.value, courseId.value, now);
      EnrollCheck(s.(enrollments := s.enrollments.Put(id, e)), studentId, courseId) == Err(AlreadyEnrolled)
  {
    var e := EnrollmentRow(id, studentId.value, courseId.value, now);
    assert s.enrollments.Put(id, e).rows[id] == e;
  }

  /**
    create_enrollment: on a failed check the status it names and no change; otherwise one
    enrollment for the pair, dated now, and nothing else changes.
  */
  method CreateEnrollment(db: Db, claims: Claims, studentId: Option<Key>, courseId: Option<Key>, now: int, enrollmentId: Key)
    returns (r: Response<EnrollmentCreated>)
    requires db.Valid() && enrollmentId !in db.enrollments.rows
    modifies db
    ensures db.Valid()
    ensures !HasRole(claims, AdminRole) ==> r == Fail(403, MissingRole) && db.State() == old(db.State())
    ensures HasRole(claims, AdminRole) ==>
      var d := EnrollCheck(old(db.State()), studentId, courseId);
      && (d.Err? ==> r == Fail(EnrollStatus(d.kind), d.kind) && db.State() == old(db.State()))
      && (d.Ok? ==>
            && r == Response(201, Ok(EnrollmentCreated(enrollmentId)))
            && db.State() == old(db.State()).(enrollments := old(db.enrollments).Put(enrollmentId,
                 EnrollmentRow(enrollmentId, d.value.0, d.value.1, now))))
  {
    if !HasRole(claims, AdminRole) {
      return Fail(403, MissingRole);
    }
    var s := db.State();
    if studentId.Some? && courseId.Some? {
      var enrolled := HasValue(s.enrollments, EnrollPair, (studentId.value, courseId.value));
      if enrolled {
        return Fail(400, AlreadyEnrolled);
      }
    }
    if studentId.None? || studentId.value !in s.students.rows {
      return Fail(404, StudentNotFound);
    }
    if courseId.None? || courseId.value !in s.courses.rows {
      return Fail(404, CourseNotFound);
    }
    var e := EnrollmentRow(enrollmentId, studentId.value, courseId.value, now);
    AddEnrollmentKeepsConsistent(s, e);
    db.Commit(s.(enrollments := s.enrollments.Put(enrollmentId, e)));
    r := Response(201, Ok(EnrollmentCreated(enrollmentId)));
  }

  // ---------------------------------------------------------------- admin_dashboard

  /** How many recent enrollments the dashboard shows. */
  const RecentLimit: nat := 5

  /** One recent enrollment, as shown when both its student and its course are found. */
  datatype RecentLine = RecentLine(studentName: string, courseName: string, enrolledAt: int)

  function RecentLineOf(s: DbState): EnrollmentRow -> Option<RecentLine>
  {
    (e: EnrollmentRow) =>
      if e.studentId in s.students.rows && e.courseId in s.courses.rows
      then Some(RecentLine(s.students.rows[e.studentId].fullName, s.courses.rows[e.courseId].name, e.enrolledAt))
      else None
  }

  /** The dashboard loop over the recent enrollments, skipping those whose student or course is gone. */
  method RecentLines(s: DbState, recent: seq<EnrollmentRow>) returns (lines: seq<RecentLine>)
    ensures lines == Collect(recent, RecentLineOf(s))
  {
    lines := [];
    var i := 0;
    while i < |recent|
      invariant 0 <= i <= |recent|
      invariant lines == Collect(recent[..i], RecentLineOf(s))
    {
      assert recent[..i + 1][..i] == recent[..i];
      var e := recent[i];
      if e.studentId in s.students.rows && e.courseId in s.courses.rows {
        lines := lines + [RecentLine(s.students.rows[e.studentId].fullName, s.courses.rows[e.courseId].name, e.enrolledAt)];
      }
      i := i + 1;
    }
    assert recent[..i] == recent;
  }

  /** The reply of admin_dashboard. */
  datatype Dashboard = Dashboard(students: nat, faculties: nat, courses: nat, sessions: nat, recent: seq<RecentLine>)

  /**
    admin_dashboard: the number of students, faculty members, courses and sessions, and a
    line for each of the latest five enrollments whose student and course both exist.
  */
  method AdminDashboard(db: Db, claims: Claims) returns (r: Response<Dashboard>)
    requires db.Valid()
    ensures !HasRole(claims, AdminRole) ==> r == Fail(403, MissingRole)
    ensures HasRole(claims, AdminRole) ==>
      var recent := Latest(db.enrollments.Values(), RecentLimit);
      && IsLatest(db.enrollments.Values(), RecentLimit, recent)
      && r == Response(200, Ok(Dashboard(|db.students.rows|, |db.faculties.rows|, |db.courses.rows|,
                                         |db.sessions.rows|, Collect(recent, RecentLineOf(db.State())))))
      && |r.body.value.recent| <= RecentLimit
  {
    if !HasRole(claims, AdminRole) {
      return Fail(403, MissingRole);
    }
    var s := db.State();
    SizeIsKeyCount(s.students);
    SizeIsKeyCount(s.faculties);
    SizeIsKeyCount(s.courses);
    SizeIsKeyCount(s.sessions);
    var recent := Latest(s.enrollments.Values(), RecentLimit);
    LatestIsLatest(s.enrollments.Values(), RecentLimit);
    var lines := RecentLines(s, recent);
    r := Response(200, Ok(Dashboard(s.students.Size(), s.faculties.Size(), s.courses.Size(), s.sessions.Size(), lines)));
  }
}

/**
  simple_app.py: the Flask variant over the in-memory Storage of simple_models.py. The
  module-level `current_user` and `storage` globals become the two fields of `App`; every
  route is a method returning the HTTP status with either its payload or the error it names.
  Ids and tokens the source draws from uuid4 are fresh arguments; the clock is `now`.
*/
module SimpleApp {
  import opened Common
  import opened Tables
  import opened MemStore
  import Helpers
  import Text

  /** The code register_admin accepts once surrounding whitespace is stripped. */
  const AdminCode: string := "ADMIN2024"

  /** The user userId is stored and has the given role. */
  ghost predicate LinkedTo(users: Table<Id, User>, userId: Id, role: Role)
  {
    userId in users.rows && users.rows[userId].role == role
  }

  /** Registration adds a profile only together with its user, under the matching role. */
  ghost predicate ProfilesLinked(s: MemState)
  {
    && (forall k :: k in s.students.rows ==> LinkedTo(s.users, s.students.rows[k].userId, StudentRole))
    && (forall k :: k in s.faculties.rows ==> LinkedTo(s.users, s.faculties.rows[k].userId, FacultyRole))
  }

  /** What every route of this app keeps true of the store. */
  ghost predicate Inv(s: MemState)
  {
    && WellKeyed(s) && UniqueUsernames(s.users) && UniqueTokens(s.sessions)
    && UniqueCodes(s.courses) && ProfilesLinked(s)
  }

  /** A user under a fresh id whose username nobody has keeps the invariant. */
  lemma AddUserKeepsInv(s: MemState, u: User)
    requires Inv(s) && u.id !in s.users.rows && !UsernameTaken(s.users, u.username)
    ensures Inv(s.(users := s.users.Put(u.id, u)))
  {
  }

  /** A student profile under a fresh id, linked to a stored student user, keeps the invariant. */
  lemma AddStudentKeepsInv(s: MemState, st: Student)
    requires Inv(s) && st.id !in s.students.rows && LinkedTo(s.users, st.userId, StudentRole)
    ensures Inv(s.(students := s.students.Put(st.id, st)))
  {
  }

  /** A faculty profile under a fresh id, linked to a stored faculty user, keeps the invariant. */
  lemma AddFacultyKeepsInv(s: MemState, f: Faculty)
    requires Inv(s) && f.id !in s.faculties.rows && LinkedTo(s.users, f.userId, FacultyRole)
    ensures Inv(s.(faculties := s.faculties.Put(f.id, f)))
  {
  }

  /** A course under a fresh id whose code no course has keeps the invariant. */
  lemma AddCourseKeepsInv(s: MemState, c: Course)
    requires Inv(s) && c.id !in s.courses.rows && !CodeTaken(s.courses, c.code)
    ensures Inv(s.(courses := s.courses.Put(c.id, c)))
  {
  }

  /** Deleting a course keeps the invariant. */
  lemma RemoveCourseKeepsInv(s: MemState, courseId: Id)
    requires Inv(s)
    ensures Inv(s.(courses := s.courses.Remove(courseId)))
  {
  }

  /** A session under a fresh id with a fresh token keeps the invariant. */
  lemma AddSessionKeepsInv(s: MemState, session: Session)
    requires Inv(s) && session.id !in s.sessions.rows
    requires forall k :: k in s.sessions.rows ==> s.sessions.rows[k].token != session.token
    ensures Inv(s.(sessions := s.sessions.Put(session.id, session)))
  {
    FreshTokenKeepsUnique(s.sessions, session.id, session);
  }

  /** Any attendance under a fresh id keeps the invariant: this app asks nothing of attendances. */
  lemma AddAttendanceKeepsInv(s: MemState, a: Attendance)
    requires Inv(s) && a.id !in s.attendances.rows
    ensures Inv(s.(attendances := s.attendances.Put(a.id, a)))
  {
  }

  /**
    The gate of the course routes: a faculty user is logged in (else 401) and has a
    faculty profile (else 404); the result is that profile.
  */
  ghost function FacultyCheck(user: Option<User>, s: MemState): Result<Faculty>
    requires s.faculties.Valid()
  {
    if !LoggedInAs(user, FacultyRole) then Err(Unauthorized)
    else match First(s.faculties.Values(), FacultyOf(user.value.id))
      case None => Err(NoProfile)
      case Some(f) => Ok(f)
  }

  /** A passed gate names a stored profile of the logged-in faculty user. */
  lemma FacultyCheckAccepts(user: Option<User>, s: MemState)
    requires s.faculties.Valid() && FacultyCheck(user, s).Ok?
    ensures LoggedInAs(user, FacultyRole)
    ensures FacultyCheck(user, s).value in s.faculties.rows.Values
    ensures FacultyCheck(user, s).value.userId == user.value.id
  {
    ValuesAreRows(s.faculties);
  }

  /** The gate as the routes run it: get_faculty_by_user_id behind the role test. */
  method CheckFaculty(user: Option<User>, s: MemState) returns (r: Result<Faculty>)
    requires s.faculties.Valid()
    ensures r == FacultyCheck(user, s)
  {
    if !LoggedInAs(user, FacultyRole) {
      return Err(Unauthorized);
    }
    var f := FindFirst(s.faculties, FacultyOf(user.value.id));
    if f.None? {
      return Err(NoProfile);
    }
    r := Ok(f.value);
  }

  /** The status the course routes answer each failed gate with. */
  function GateStatus(kind: ErrorKind): int
  {
    if kind == NoProfile then 404 else 401
  }

  /** The status mark_attendance answers each failed redemption check with. */
  function MarkStatus(kind: ErrorKind): int
  {
    match kind
    case Unauthorized => 401
    case NoProfile => 404
    case _ => 400
  }

  /**
    Whitespace around the admin code does not matter: the stripped code is compared, so a
    padded ADMIN2024 passes the code check.
  */
  lemma PaddedAdminCodeAccepted(pre: string, post: string)
    requires forall i :: 0 <= i < |pre| ==> Text.IsSpace(pre[i])
    requires forall i :: 0 <= i < |post| ==> Text.IsSpace(post[i])
    ensures Text.Strip(pre + AdminCode + post) == AdminCode
  {
    assert !Text.IsSpace(AdminCode[0]) && !Text.IsSpace(AdminCode[|AdminCode| - 1]);
    Text.StripPadded(pre, AdminCode, post);
  }

  /**
    This variant records a redemption each time it passes the checks. The checks never look
    at attendances, so a second redemption of the same token by the same student, however
    late as long as the session has not expired, is accepted for the same session and
    profile, and the second row it adds breaks one record per (session, student) pair.
  */
  lemma RepeatRedemptionRecordedTwice(
    user: Option<User>, s: MemState, token: string, now: int, later: int, id1: Id, id2: Id)
    requires s.sessions.Valid() && s.students.Valid() && s.attendances.Valid()
    requires RedeemCheck(user, s, token, now).Ok? && RedeemCheck(user, s, token, later).Ok?
    requires id1 !in s.attendances.rows && id2 !in s.attendances.rows && id1 != id2
    ensures var (session, student) := RedeemCheck(user, s, token, now).value;
      var s1 := s.(attendances := s.attendances.Put(id1, Attendance(id1, session.id, student.id, now)));
      && RedeemCheck(user, s1, token, later) == Ok((session, student))
      && id2 !in s1.attendances.rows
      && !OnePerPair(s1.attendances.Put(id2, Attendance(id2, session.id, student.id, later)))
  {
    var (session, student) := RedeemCheck(user, s, token, now).value;
    var first := Attendance(id1, session.id, student.id, now);
    var atts1 := s.attendances.Put(id1, first);
    var s1 := s.(attendances := atts1);
    assert RedeemCheck(user, s1, token, later) == RedeemCheck(user, s, token, later);
    assert atts1.rows[id1] == first;
    assert Marked(atts1, session.id, student.id);
    MarkedTwiceBreaksOnePerPair(atts1, id2, Attendance(id2, session.id, student.id, later));
  }

  /** The reply of get_faculty_courses. */
  datatype CourseList = CourseList(total: nat, courses: seq<Course>)

  /** The reply of get_admin_stats: the size of each dict. */
  datatype Stats = Stats(students: nat, faculty: nat, courses: nat, sessions: nat, attendances: nat)

  /**
    The loop of get_faculty_courses, `for course in storage.courses.values(): if
    course.faculty_id == faculty.id: courses_data.append(...)`.
  */
  method CoursesTaughtBy(courses: Table<Id, Course>, facultyId: Id) returns (list: seq<Course>)
    requires courses.Valid()
    ensures list == Where(courses.Values(), TaughtBy(facultyId))
    ensures forall c :: c in list <==> c in courses.rows.Values && c.facultyId == Some(facultyId)
    ensures |list| == |KeysWhere(courses, TaughtBy(facultyId))|
  {
    var vs := courses.Values();
    list := [];
    var i := 0;
    while i < |vs|
      invariant 0 <= i <= |vs|
      invariant list == Where(vs[..i], TaughtBy(facultyId))
    {
      assert vs[..i + 1][..i] == vs[..i];
      if vs[i].facultyId == Some(facultyId) {
        list := list + [vs[i]];
      }
      i := i + 1;
    }
    assert vs[..i] == vs;
    ValuesAreRows(courses);
    WhereCount(courses, TaughtBy(facultyId));
  }

  /**
    The duplicate scan of create_course, `for course in storage.courses.values(): if
    course.course_code == code: return ...`: it stops iff some stored course has the code.
  */
  method CodeInUse(courses: Table<Id, Course>, code: string) returns (taken: bool)
    requires courses.Valid()
    ensures taken <==> CodeTaken(courses, code)
  {
    var clash := FindFirst(courses, HasCode(code));
    taken := clash.Some?;
  }

  class App {
    var currentUser: Option<User>
    const store: Storage

    ghost predicate Valid()
      reads this, store
    {
      Inv(store.State())
    }

    /** Start-up: an empty storage and nobody logged in. */
    constructor ()
      ensures Valid() && fresh(store) && currentUser == None
      ensures store.State() == MemState(Empty(), Empty(), Empty(), Empty(), Empty(), Empty())
    {
      currentUser := None;
      store := new Storage();
    }

    /**
      register_student: a taken username gives 400 and changes nothing; otherwise one user
      with role student under userId and one profile under studentId pointing at it.
    */
    method RegisterStudent(username: string, email: string, password: string, fullName: string, userId: Id, studentId: Id)
      returns (r: Response<Id>)
      requires Valid()
      requires userId !in store.users.rows && studentId !in store.students.rows
      modifies store
      ensures Valid()
      ensures UsernameTaken(old(store.users), username) ==>
        r == Fail(400, DuplicateUsername) && store.State() == old(store.State())
      ensures !UsernameTaken(old(store.users), username) ==>
        && r == Response(201, Ok(userId))
        && store.State() == old(store.State()).(
             users := old(store.users).Put(userId, User(userId, username, email, password, StudentRole)),
             students := old(store.students).Put(studentId, Student(studentId, userId, fullName)))
    {
      var existing := store.GetUserByUsername(username);
      if existing.Some? {
        return Fail(400, DuplicateUsername);
      }
      var user := User(userId, username, email, password, StudentRole);
      AddUserKeepsInv(store.State(), user);
      store.AddUser(user);
      var student := Student(studentId, userId, fullName);
      AddStudentKeepsInv(store.State(), student);
      store.AddStudent(student);
      r := Response(201, Ok(userId));
    }

    /** register_faculty: as register_student, with role faculty and a faculty profile. */
    method RegisterFaculty(username: string, email: string, password: string, fullName: string, userId: Id, facultyId: Id)
      returns (r: Response<Id>)
      requires Valid()
      requires userId !in store.users.rows && facultyId !in store.faculties.rows
      modifies store
      ensures Valid()
      ensures UsernameTaken(old(store.users), username) ==>
        r == Fail(400, DuplicateUsername) && store.State() == old(store.State())
      ensures !UsernameTaken(old(store.users), username) ==>
        && r == Response(201, Ok(userId))
        && store.State() == old(store.State()).(
             users := old(store.users).Put(userId, User(userId, username, email, password, FacultyRole)),
             faculties := old(store.faculties).Put(facultyId, Faculty(facultyId, userId, fullName)))
    {
      var existing := store.GetUserByUsername(username);
      if existing.Some? {
        return Fail(400, DuplicateUsername);
      }
      var user := User(userId, username, email, password, FacultyRole);
      AddUserKeepsInv(store.State(), user);
      store.AddUser(user);
      var faculty := Faculty(facultyId, userId, fullName);
      AddFacultyKeepsInv(store.State(), faculty);
      store.AddFaculty(faculty);
      r := Response(201, Ok(userId));
    }

    /**
      register_admin: the stripped code is checked first (403), then the username (400);
      success adds one admin user and no profile. An absent admin_code is "".
    */
    method RegisterAdmin(adminCode: string, username: string, email: string, password: string, userId: Id)
      returns (r: Response<Id>)
      requires Valid()
      requires userId !in store.users.rows
      modifies store
      ensures Valid()
      ensures Text.Strip(adminCode) != AdminCode ==>
        r == Fail(403, InvalidAdminCode) && store.State() == old(store.State())
      ensures Text.Strip(adminCode) == AdminCode && UsernameTaken(old(store.users), username) ==>
        r == Fail(400, DuplicateUsername) && store.State() == old(store.State())
      ensures Text.Strip(adminCode) == AdminCode && !UsernameTaken(old(store.users), username) ==>
        && r == Response(201, Ok(userId))
        && store.State() == old(store.State()).(
             users := old(store.users).Put(userId, User(userId, username, email, password, AdminRole)))
    {
      if Text.Strip(adminCode) != AdminCode {
        return Fail(403, InvalidAdminCode);
      }
      var existing := store.GetUserByUsername(username);
      if existing.Some? {
        return Fail(400, DuplicateUsername);
      }
      var user := User(userId, username, email, password, AdminRole);
      AddUserKeepsInv(store.State(), user);
      store.AddUser(user);
      r := Response(201, Ok(userId));
    }

    /**
      login: an empty or absent username or password gives 400; otherwise it succeeds iff
      a user with that username has that password, and only then is current_user replaced.
      An unknown user and a wrong password get the same 401.
    */
    method Login(username: string, password: string) returns (r: Response<LoginInfo>)
      requires Valid()
      modifies this
      ensures Valid() && store.State() == old(store.State())
      ensures (username == "" || password == "") ==>
        r == Fail(400, MissingField) && currentUser == old(currentUser)
      ensures username != "" && password != "" ==>
        && (r.status == 200 <==>
              exists k :: k in store.users.rows && store.users.rows[k].username == username
                          && CheckPassword(store.users.rows[k], password))
        && (r.status == 200 ==>
              && currentUser.Some? && currentUser.value.username == username
              && store.users.Get(currentUser.value.id) == currentUser
              && r.body == Ok(LoginInfo(currentUser.value.id, currentUser.value.role)))
        && (r.status != 200 ==> r == Fail(401, InvalidCredentials) && currentUser == old(currentUser))
    {
      if username == "" || password == "" {
        return Fail(400, MissingField);
      }
      var user := store.GetUserByUsername(username);
      UsernameLookup(store.users, username);
      if user.Some? && CheckPassword(user.value, password) {
        currentUser := user;
        r := Response(200, Ok(LoginInfo(user.value.id, user.value.role)));
      } else {
        r := Fail(401, InvalidCredentials);
      }
    }

    /**
      create_session: 401 with nobody logged in, 403 for a non-faculty user, 400 without a
      course id; otherwise one active session of the caller with a three-minute token.
    */
    method CreateSession(courseId: Id, sessionId: Id, token: string, now: int) returns (r: Response<SessionInfo>)
      requires Valid()
      requires sessionId !in store.sessions.rows
      requires forall k :: k in store.sessions.rows ==> store.sessions.rows[k].token != token
      modifies store
      ensures Valid()
      ensures currentUser.None? ==> r == Fail(401, NotLoggedIn) && store.State() == old(store.State())
      ensures currentUser.Some? && currentUser.value.role != FacultyRole ==>
        r == Fail(403, MissingRole) && store.State() == old(store.State())
      ensures LoggedInAs(currentUser, FacultyRole) && courseId == "" ==>
        r == Fail(400, MissingField) && store.State() == old(store.State())
      ensures LoggedInAs(currentUser, FacultyRole) && courseId != "" ==>
        && r == Response(201, Ok(SessionInfo(sessionId, token, Helpers.MinutesAfter(now, 3))))
        && store.State() == old(store.State()).(
             sessions := old(store.sessions).Put(sessionId, NewSession(sessionId, courseId, currentUser.value.id, token, now)))
    {
      if currentUser.None? {
        return Fail(401, NotLoggedIn);
      }
      if currentUser.value.role != FacultyRole {
        return Fail(403, MissingRole);
      }
      if courseId == "" {
        return Fail(400, MissingField);
      }
      var session := NewSession(sessionId, courseId, currentUser.value.id, token, now);
      AddSessionKeepsInv(store.State(), session);
      store.AddSession(session);
      r := Response(201, Ok(SessionInfo(sessionId, token, session.expiration)));
    }

    /**
      mark_attendance: the redemption checks answer 401, 400 or 404; every call that passes
      them adds a new attendance, with no enrollment or duplicate check.
    */
    method MarkAttendance(token: string, now: int, attendanceId: Id) returns (r: Response<MarkInfo>)
      requires Valid()
      requires attendanceId !in store.attendances.rows
      modifies store
      ensures Valid()
      ensures var d := RedeemCheck(currentUser, old(store.State()), token, now);
        && (d.Err? ==> r == Fail(MarkStatus(d.kind), d.kind) && store.State() == old(store.State()))
        && (d.Ok? ==>
              && r == Response(201, Ok(MarkInfo(d.value.0.id, now)))
              && store.State() == old(store.State()).(
                   attendances := old(store.attendances).Put(attendanceId, Attendance(attendanceId, d.value.0.id, d.value.1.id, now))))
    {
      var d := store.CheckRedemption(currentUser, token, now);
      if d.Err? {
        return Fail(MarkStatus(d.kind), d.kind);
      }
      var (session, student) := d.value;
      var attendance := Attendance(attendanceId, session.id, student.id, now);
      AddAttendanceKeepsInv(store.State(), attendance);
      store.AddAttendance(attendance);
      r := Response(201, Ok(MarkInfo(session.id, now)));
    }

    /**
      create_course: 401 unless a faculty user is logged in, 404 without a faculty profile,
      400 when some course has the code; otherwise one course owned by the caller's profile.
    */
    method CreateCourse(code: string, name: string, courseId: Id) returns (r: Response<Id>)
      requires Valid()
      requires courseId !in store.courses.rows
      modifies store
      ensures Valid()
      ensures var d := FacultyCheck(currentUser, old(store.State()));
        && (d.Err? ==> r == Fail(GateStatus(d.kind), d.kind) && store.State() == old(store.State()))
        && (d.Ok? && CodeTaken(old(store.courses), code) ==>
              r == Fail(400, DuplicateCourseCode) && store.State() == old(store.State()))
        && (d.Ok? && !CodeTaken(old(store.courses), code) ==>
              && r == Response(201, Ok(courseId))
              && store.State() == old(store.State()).(
                   courses := old(store.courses).Put(courseId, Course(courseId, code, name, Some(d.value.id)))))
    {
      var faculty := CheckFaculty(currentUser, store.State());
      if faculty.Err? {
        return Fail(GateStatus(faculty.kind), faculty.kind);
      }
      var taken := CodeInUse(store.courses, code);
      if taken {
        return Fail(400, DuplicateCourseCode);
      }
      var course := Course(courseId, code, name, Some(faculty.value.id));
      AddCourseKeepsInv(store.State(), course);
      store.AddCourse(course);
      r := Response(201, Ok(courseId));
    }

    /**
      delete_course: 401 unless a faculty user is logged in, 404 without a profile, 404 for an
      unknown course, 403 for a course the caller's profile does not own; otherwise exactly
      that key is removed.
    */
    method DeleteCourse(courseId: Id) returns (r: Response<Done>)
      requires Valid()
      modifies store
      ensures Valid()
      ensures var d := FacultyCheck(currentUser, old(store.State()));
        && (d.Err? ==> r == Fail(GateStatus(d.kind), d.kind) && store.State() == old(store.State()))
        && (d.Ok? && courseId !in old(store.courses).rows ==>
              r == Fail(404, CourseNotFound) && store.State() == old(store.State()))
        && (d.Ok? && courseId in old(store.courses).rows
              && old(store.courses).rows[courseId].facultyId != Some(d.value.id) ==>
              r == Fail(403, NotOwner) && store.State() == old(store.State()))
        && (d.Ok? && courseId in old(store.courses).rows
              && old(store.courses).rows[courseId].facultyId == Some(d.value.id) ==>
              && r == Response(200, Ok(Done))
              && store.State() == old(store.State()).(courses := old(store.courses).Remove(courseId)))
    {
      var faculty := CheckFaculty(currentUser, store.State());
      if faculty.Err? {
        return Fail(GateStatus(faculty.kind), faculty.kind);
      }
      var course := store.courses.Get(courseId);
      if course.None? {
        return Fail(404, CourseNotFound);
      }
      if course.value.facultyId != Some(faculty.value.id) {
        return Fail(403, NotOwner);
      }
      RemoveCourseKeepsInv(store.State(), courseId);
      store.RemoveCourse(courseId);
      r := Response(200, Ok(Done));
    }

    /**
      get_faculty_courses: 401 with nobody logged in, 403 for a non-faculty user, 404
      without a profile; otherwise exactly the stored courses the caller's profile owns, in
      insertion order, with their count.
    */
    method GetFacultyCourses() returns (r: Response<CourseList>)
      requires Valid()
      ensures currentUser.None? ==> r == Fail(401, NotLoggedIn)
      ensures currentUser.Some? && currentUser.value.role != FacultyRole ==> r == Fail(403, MissingRole)
      ensures LoggedInAs(currentUser, FacultyRole) ==>
        var f := First(store.faculties.Values(), FacultyOf(currentUser.value.id));
        && (f.None? ==> r == Fail(404, NoProfile))
        && (f.Some? ==>
              && r.status == 200 && r.body.Ok?
              && r.body.value.courses == Where(store.courses.Values(), TaughtBy(f.value.id))
              && r.body.value.total == |r.body.value.courses| == |KeysWhere(store.courses, TaughtBy(f.value.id))|
              && forall c :: c in r.body.value.courses <==>
                   c in store.courses.rows.Values && c.facultyId == Some(f.value.id))
    {
      if currentUser.None? {
        return Fail(401, NotLoggedIn);
      }
      if currentUser.value.role != FacultyRole {
        return Fail(403, MissingRole);
      }
      var faculty := store.GetFacultyByUserId(currentUser.value.id);
      if faculty.None? {
        return Fail(404, NoProfile);
      }
      var list := CoursesTaughtBy(store.courses, faculty.value.id);
      r := Response(200, Ok(CourseList(|list|, list)));
    }

    /** get_admin_stats: 401 with nobody logged in, 403 for a non-admin; otherwise the record counts. */
    method GetAdminStats() returns (r: Response<Stats>)
      requires Valid()
      ensures currentUser.None? ==> r == Fail(401, NotLoggedIn)
      ensures currentUser.Some? && currentUser.value.role != AdminRole ==> r == Fail(403, MissingRole)
      ensures LoggedInAs(currentUser, AdminRole) ==>
        r == Response(200, Ok(Stats(
          |store.students.rows|, |store.faculties.rows|, |store.courses.rows|,
          |store.sessions.rows|, |store.attendances.rows|)))
    {
      if currentUser.None? {
        return Fail(401, NotLoggedIn);
      }
      if currentUser.value.role != AdminRole {
        return Fail(403, MissingRole);
      }
      SizeIsKeyCount(store.students);
      SizeIsKeyCount(store.faculties);
      SizeIsKeyCount(store.courses);
      SizeIsKeyCount(store.sessions);
      SizeIsKeyCount(store.attendances);
      r := Response(200, Ok(Stats(
        |store.students.Values()|, |store.faculties.Values()|, |store.courses.Values()|,
        |store.sessions.Values()|, |store.attendances.Values()|)));
    }
  }
}

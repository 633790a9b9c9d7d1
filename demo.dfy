/**
  demo.py: the command-line variant. `QRAttendanceSystem` keeps the logged-in user in a field
  and works on a Storage seeded with sample data; session and attendance ids are running
  numbers taken from the current count ("SES1", "SES2", ..., "ATT1", ...).
*/
module Demo {
  import opened Common
  import opened Tables
  import opened MemStore
  import Helpers
  import Text

  /** f"SES{n}" */
  function SessionId(n: nat): Id
  {
    Text.NumberedId("SES", n)
  }

  /** f"ATT{n}" */
  function AttendanceId(n: nat): Id
  {
    Text.NumberedId("ATT", n)
  }

  /** prefix1, prefix2, ..., prefix{n} */
  function NumberedIds(prefix: string, n: nat): (ids: seq<Id>)
    ensures |ids| == n
    ensures forall i :: 0 <= i < n ==> ids[i] == Text.NumberedId(prefix, i + 1)
  {
    if n == 0 then [] else NumberedIds(prefix, n - 1) + [Text.NumberedId(prefix, n)]
  }

  /**
    The keys of t, in insertion order, are prefix1, prefix2, ...: what ids drawn as
    f"{prefix}{len(d) + 1}" give on a dict nothing is ever deleted from.
  */
  ghost predicate Numbered<V(!new)>(t: Table<Id, V>, prefix: string)
  {
    t.order == NumberedIds(prefix, |t.order|)
  }

  /** A later running number is none of the earlier ones. */
  lemma {:induction false} LaterNumberFresh(prefix: string, n: nat, m: nat)
    requires n < m
    ensures Text.NumberedId(prefix, m) !in NumberedIds(prefix, n)
  {
    if n > 0 {
      LaterNumberFresh(prefix, n - 1, m);
      if Text.NumberedId(prefix, m) == Text.NumberedId(prefix, n) {
        Text.NumberedIdInjective(prefix, n, m);
      }
    }
  }

  /** The next running number is not a key yet, and storing under it keeps the numbering. */
  lemma NextNumberFresh<V(!new)>(t: Table<Id, V>, prefix: string, v: V)
    requires t.Valid() && Numbered(t, prefix)
    ensures Text.NumberedId(prefix, t.Size() + 1) !in t.rows
    ensures Numbered(t.Put(Text.NumberedId(prefix, t.Size() + 1), v), prefix)
  {
    LaterNumberFresh(prefix, t.Size(), t.Size() + 1);
  }

  // The records initialize_sample_data stores.
  const FacultyUser := User("F001", "prof_smith", "smith@college.edu", "password123", FacultyRole)
  const FacultyProfile := Faculty("FAC001", "F001", "Professor Smith")
  const SampleCourse := Course("C001", "CS101", "Introduction to Computer Science", Some("FAC001"))
  const StudentUser := User("S001", "john_doe", "john@student.edu", "password123", StudentRole)
  const StudentProfile := Student("STU001", "S001", "John Doe")

  /** The storage right after initialize_sample_data. */
  function SampleData(): (s: MemState)
    ensures Inv(s)
    ensures s.users.order == [FacultyUser.id, StudentUser.id]
    ensures s.sessions.Size() == 0 && s.attendances.Size() == 0
  {
    MemState(SampleUsers(), One(StudentProfile.id, StudentProfile), One(FacultyProfile.id, FacultyProfile),
      One(SampleCourse.id, SampleCourse), Empty(), Empty())
  }

  function One<V(!new)>(k: Id, v: V): (t: Table<Id, V>)
    ensures t.Valid() && t.rows == map[k := v] && t.order == [k]
  {
    Empty().Put(k, v)
  }

  function SampleUsers(): (t: Table<Id, User>)
    ensures t.Valid() && UniqueUsernames(t)
    ensures t.order == [FacultyUser.id, StudentUser.id]
  {
    assert FacultyUser.id[0] == 'F' && StudentUser.id[0] == 'S';
    var t := One(FacultyUser.id, FacultyUser).Put(StudentUser.id, StudentUser);
    assert t.rows == map[FacultyUser.id := FacultyUser, StudentUser.id := StudentUser];
    SampleUsernamesUnique(t);
    t
  }

  /** The two sample users have different usernames. */
  lemma SampleUsernamesUnique(t: Table<Id, User>)
    requires t.rows == map[FacultyUser.id := FacultyUser, StudentUser.id := StudentUser]
    ensures UniqueUsernames(t)
  {
    assert FacultyUser.username[0] == 'p' && StudentUser.username[0] == 'j';
    forall a, b | a in t.rows && b in t.rows && t.rows[a].username == t.rows[b].username
      ensures a == b
    {
      assert a == FacultyUser.id || a == StudentUser.id;
      assert b == FacultyUser.id || b == StudentUser.id;
    }
  }

  /** initialize_sample_data, on the fresh storage the system starts with. */
  method InitializeSampleData(s: Storage)
    requires s.Valid() && s.State() == MemState(Empty(), Empty(), Empty(), Empty(), Empty(), Empty())
    modifies s
    ensures s.Valid() && s.State() == SampleData()
  {
    s.AddUser(FacultyUser);
    s.AddFaculty(FacultyProfile);
    s.AddCourse(SampleCourse);
    s.AddUser(StudentUser);
    s.AddStudent(StudentProfile);
    assert s.users == SampleUsers();
  }

  datatype HistoryEntry = HistoryEntry(sessionId: Id, course: string, markedAt: int)
  datatype History = History(studentName: string, total: nat, entries: seq<HistoryEntry>)

  /**
    mark_attendance's decision: the shared redemption checks, then the scan for a record of
    the same (session, student) pair.
  */
  ghost function MarkDecision(user: Option<User>, s: MemState, token: string, now: int): Result<(Session, Student)>
    requires WellKeyed(s)
  {
    match RedeemCheck(user, s, token, now)
    case Err(kind) => Err(kind)
    case Ok((session, student)) =>
      if Marked(s.attendances, session.id, student.id) then Err(AlreadyMarked) else Ok((session, student))
  }

  /** The lookups of mark_attendance: the redemption checks, then the scan for an earlier record of the pair. */
  method DecideMark(store: Storage, user: Option<User>, token: string, now: int) returns (d: Result<(Session, Student)>)
    requires store.Valid()
    ensures d == MarkDecision(user, store.State(), token, now)
  {
    var checked := store.CheckRedemption(user, token, now);
    if checked.Err? {
      return Err(checked.kind);
    }
    var (session, student) := checked.value;
    var existing := FindFirst(store.attendances, ForPair(session.id, student.id));
    if existing.Some? {
      assert Marked(store.attendances, session.id, student.id);
      return Err(AlreadyMarked);
    }
    d := Ok((session, student));
  }

  /**
    Once a redemption has been recorded, the same caller presenting the same token is
    refused, at any later instant: the pair is now marked, or an earlier check fails.
  */
  lemma SecondRedemptionRefused(user: Option<User>, s: MemState, token: string, now: int, later: int, id: Id)
    requires WellKeyed(s) && id !in s.attendances.rows
    requires MarkDecision(user, s, token, now).Ok?
    ensures var (session, student) := MarkDecision(user, s, token, now).value;
      var after := s.(attendances := s.attendances.Put(id, Attendance(id, session.id, student.id, now)));
      WellKeyed(after) && MarkDecision(user, after, token, later).Err?
  {
    var (session, student) := MarkDecision(user, s, token, now).value;
    var after := s.(attendances := s.attendances.Put(id, Attendance(id, session.id, student.id, now)));
    RedeemCheckTimeless(user, s, token, now, later, after.attendances);
    assert after.attendances.rows[id].sessionId == session.id && after.attendances.rows[id].studentId == student.id;
    assert Marked(after.attendances, session.id, student.id);
  }

  /**
    The running numbers stay aligned with the dicts, usernames and tokens stay unique, and
    no (session, student) pair is recorded twice.
  */
  ghost predicate Inv(s: MemState)
  {
    && WellKeyed(s)
    && Numbered(s.sessions, "SES") && Numbered(s.attendances, "ATT")
    && UniqueUsernames(s.users)
    && UniqueTokens(s.sessions)
    && OnePerPair(s.attendances)
  }

  /** Recording a redemption the decision accepts, under the next running id, keeps the invariant. */
  lemma MarkKeepsInv(user: Option<User>, s: MemState, token: string, now: int)
    requires Inv(s)
    requires MarkDecision(user, s, token, now).Ok?
    ensures var (session, student) := MarkDecision(user, s, token, now).value;
      var id := AttendanceId(s.attendances.Size() + 1);
      && id !in s.attendances.rows
      && Inv(s.(attendances := s.attendances.Put(id, Attendance(id, session.id, student.id, now))))
  {
    var (session, student) := MarkDecision(user, s, token, now).value;
    var id := AttendanceId(s.attendances.Size() + 1);
    RecordKeepsInv(s, Attendance(id, session.id, student.id, now));
  }

  /** An attendance for an unmarked pair, under the next running id, keeps the invariant. */
  lemma RecordKeepsInv(s: MemState, a: Attendance)
    requires Inv(s) && a.id == AttendanceId(s.attendances.Size() + 1)
    requires !Marked(s.attendances, a.sessionId, a.studentId)
    ensures a.id !in s.attendances.rows
    ensures Inv(s.(attendances := s.attendances.Put(a.id, a)))
  {
    NextNumberFresh(s.attendances, "ATT", a);
    UnmarkedKeepsOnePerPair(s.attendances, a.id, a);
  }

  /** Opening a session with a fresh token under the next running id keeps the invariant. */
  lemma CreateKeepsInv(s: MemState, session: Session)
    requires Inv(s)
    requires session.id == SessionId(s.sessions.Size() + 1)
    requires forall k :: k in s.sessions.rows ==> s.sessions.rows[k].token != session.token
    ensures session.id !in s.sessions.rows
    ensures Inv(s.(sessions := s.sessions.Put(session.id, session)))
  {
    NextNumberFresh(s.sessions, "SES", session);
    FreshTokenKeepsUnique(s.sessions, session.id, session);
  }

  class AttendanceSystem {
    var currentUser: Option<User>
    const store: Storage

    /**
      The running numbers stay aligned with the dicts, tokens stay unique, usernames stay
      unique, and no (session, student) pair is recorded twice.
    */
    ghost predicate Valid()
      reads this, store
    {
      Inv(store.State())
    }

    /** QRAttendanceSystem(): nobody logged in, storage holding the sample data. */
    constructor ()
      ensures Valid() && fresh(store)
      ensures currentUser == None
      ensures store.State() == SampleData()
    {
      var s := new Storage();
      InitializeSampleData(s);
      store := s;
      currentUser := None;
    }

    /**
      login: succeeds iff a user with that username exists and its stored password equals
      the given one; only then does the logged-in user change. An unknown username and a
      wrong password give the same error.
    */
    method Login(username: string, password: string) returns (r: Result<LoginInfo>)
      requires Valid()
      modifies this
      ensures Valid() && unchanged(store)
      ensures r.Ok? <==> exists k :: k in store.users.rows && store.users.rows[k].username == username && CheckPassword(store.users.rows[k], password)
      ensures r.Ok? ==>
        && currentUser.Some? && currentUser.value in store.users.rows.Values
        && currentUser.value.username == username
        && r.value == LoginInfo(currentUser.value.id, currentUser.value.role)
      ensures r.Err? ==> r.kind == InvalidCredentials && currentUser == old(currentUser)
    {
      var user := store.GetUserByUsername(username);
      UsernameLookup(store.users, username);
      if user.Some? && CheckPassword(user.value, password) {
        currentUser := user;
        r := Ok(LoginInfo(user.value.id, user.value.role));
      } else {
        r := Err(InvalidCredentials);
      }
    }

    /**
      create_session: refused unless a faculty user is logged in. Otherwise one session is
      added under the next running id, owned by the caller, active, carrying the fresh
      token and expiring three minutes after now; nothing else changes.
    */
    method CreateSession(courseId: Id, token: string, now: int) returns (r: Result<SessionInfo>)
      requires Valid()
      requires forall k :: k in store.sessions.rows ==> store.sessions.rows[k].token != token
      modifies store
      ensures Valid()
      ensures !LoggedInAs(currentUser, FacultyRole) ==> r == Err(Unauthorized) && unchanged(store)
      ensures LoggedInAs(currentUser, FacultyRole) ==>
        var id := SessionId(old(store.sessions.Size()) + 1);
        && id !in old(store.sessions.rows)
        && store.State() == old(store.State()).(sessions := old(store.sessions).Put(id, NewSession(id, courseId, currentUser.value.id, token, now)))
        && store.sessions.Size() == old(store.sessions.Size()) + 1
        && r == Ok(SessionInfo(id, token, Helpers.MinutesAfter(now, 3)))
    {
      if !LoggedInAs(currentUser, FacultyRole) {
        return Err(Unauthorized);
      }
      var id := SessionId(store.sessions.Size() + 1);
      var session := NewSession(id, courseId, currentUser.value.id, token, now);
      CreateKeepsInv(store.State(), session);
      store.AddSession(session);
      r := Ok(SessionInfo(id, token, session.expiration));
    }

    /**
      mark_attendance: the outcome is MarkDecision's. On an error nothing changes; on
      success exactly one attendance joining the session and the caller's profile is added
      under the next running id.
    */
    method MarkAttendance(token: string, now: int) returns (r: Result<MarkInfo>)
      requires Valid()
      modifies store
      ensures Valid()
      ensures var s := old(store.State());
        var d := MarkDecision(currentUser, s, token, now);
        && (d.Err? ==> r == Err(d.kind) && unchanged(store))
        && (d.Ok? ==>
              var id := AttendanceId(s.attendances.Size() + 1);
              && id !in s.attendances.rows
              && store.State() == s.(attendances := s.attendances.Put(id, Attendance(id, d.value.0.id, d.value.1.id, now)))
              && r == Ok(MarkInfo(d.value.0.id, now)))
    {
      var s := store.State();
      var d := DecideMark(store, currentUser, token, now);
      if d.Err? {
        return Err(d.kind);
      }
      var (session, student) := d.value;
      var id := AttendanceId(s.attendances.Size() + 1);
      var a := Attendance(id, session.id, student.id, now);
      MarkKeepsInv(currentUser, s, token, now);
      assert id !in s.attendances.rows;
      ghost var after := s.(attendances := s.attendances.Put(id, a));
      assert Inv(after);
      store.AddAttendance(a);
      assert store.State() == after;
      r := Ok(MarkInfo(session.id, now));
    }

    /**
      get_student_attendance_history: refused unless a student is logged in, 'not found'
      without a profile; otherwise one entry per attendance of the profile, in storage
      order, and the total is the number of entries.
    */
    method AttendanceHistory() returns (r: Result<History>)
      requires Valid()
      ensures !LoggedInAs(currentUser, StudentRole) ==> r == Err(Unauthorized)
      ensures LoggedInAs(currentUser, StudentRole) ==>
        var profile := First(store.students.Values(), StudentOf(currentUser.value.id));
        && (profile.None? ==> r == Err(NoProfile))
        && (profile.Some? ==>
              var attendances := store.AttendancesByStudent(profile.value.id);
              && r.Ok? && r.value.studentName == profile.value.fullName
              && r.value.entries == HistoryOf(store.State(), attendances)
              && r.value.total == |r.value.entries| == |attendances|
              && r.value.total == |KeysWhere(store.attendances, OfStudent(profile.value.id))|)
    {
      if !LoggedInAs(currentUser, StudentRole) {
        return Err(Unauthorized);
      }
      var student := store.GetStudentByUserId(currentUser.value.id);
      if student.None? {
        return Err(NoProfile);
      }
      var attendances := store.AttendancesByStudent(student.value.id);
      var entries := HistoryLines(store.State(), attendances);
      r := Ok(History(student.value.fullName, |entries|, entries));
    }
  }

  /**
    The loop of get_student_attendance_history: for each attendance, look up its session
    and that session's course, and append a line with the course name or 'Unknown'.
  */
  method HistoryLines(s: MemState, attendances: seq<Attendance>) returns (entries: seq<HistoryEntry>)
    ensures entries == HistoryOf(s, attendances)
  {
    entries := [];
    var i := 0;
    while i < |attendances|
      invariant 0 <= i <= |attendances|
      invariant entries == HistoryOf(s, attendances[..i])
    {
      var att := attendances[i];
      var session := s.sessions.Get(att.sessionId);
      var course := if session.Some? then s.courses.Get(session.value.courseId) else None;
      var entry := HistoryEntry(att.sessionId, if course.Some? then course.value.name else "Unknown", att.markedAt);
      assert attendances[..i + 1][..i] == attendances[..i];
      entries := entries + [entry];
      i := i + 1;
    }
    assert attendances[..i] == attendances;
  }

  /** The course name of the attendance's session, or 'Unknown' when the session or course is gone. */
  function CourseNameOf(s: MemState, a: Attendance): string
  {
    match s.sessions.Get(a.sessionId)
    case None => "Unknown"
    case Some(session) =>
      match s.courses.Get(session.courseId)
      case None => "Unknown"
      case Some(course) => course.name
  }

  /** One history line: the session id, the course name or 'Unknown', the marking time. */
  function EntryOf(s: MemState, a: Attendance): HistoryEntry
  {
    HistoryEntry(a.sessionId, CourseNameOf(s, a), a.markedAt)
  }

  /** The history lines of a list of attendances, built by appending one line per attendance. */
  function HistoryOf(s: MemState, attendances: seq<Attendance>): (entries: seq<HistoryEntry>)
    ensures |entries| == |attendances|
  {
    if attendances == [] then []
    else
      var n := |attendances| - 1;
      HistoryOf(s, attendances[..n]) + [EntryOf(s, attendances[n])]
  }

  /** The history has one line per attendance, in the same order. */
  lemma {:induction false} HistoryOfAt(s: MemState, attendances: seq<Attendance>)
    ensures forall i :: 0 <= i < |attendances| ==> HistoryOf(s, attendances)[i] == EntryOf(s, attendances[i])
  {
    if attendances != [] {
      var n := |attendances| - 1;
      HistoryOfAt(s, attendances[..n]);
      assert forall i :: 0 <= i < n ==> attendances[..n][i] == attendances[i];
    }
  }
}

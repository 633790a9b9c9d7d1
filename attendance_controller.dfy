/**
  app/controllers/attendance_controller.py: the database variant of the session lifecycle.
  A faculty member opens a session carrying a fresh token that expires three minutes later; a
  student redeems the token, and the redemption is recorded only after every check passes,
  including enrollment in the session's course and no earlier record for the same session.
  `claims` are the verified access token's claims, whose user_id is also the identity.
*/
module AttendanceController {
  import opened Common
  import opened Tables
  import opened Models
  import opened Helpers

  /** A request's course_id is falsy when absent or 0. */
  predicate Falsy(courseId: Option<Key>)
  {
    courseId.None? || courseId.value == 0
  }

  /** The reply of create_session: the new session, the QR payload and the expiration. */
  datatype SessionCreated = SessionCreated(sessionId: Key, qrCode: string, expiration: int)

  /** A session under a fresh key with an unused token keeps the database consistent. */
  lemma AddSessionKeepsConsistent(s: DbState, row: SessionRow)
    requires Consistent(s) && row.id !in s.sessions.rows && !Has(s.sessions, Token, row.token)
    ensures Consistent(s.(sessions := s.sessions.Put(row.id, row)))
  {
    PutKeepsUnique(s.sessions, Token, row.id, row);
    var s' := s.(sessions := s.sessions.Put(row.id, row));
    forall k | k in s'.attendances.rows
      ensures s'.sessions.rows[s'.attendances.rows[k].sessionId] == s.sessions.rows[s.attendances.rows[k].sessionId]
    {
      assert s.attendances.rows[k].sessionId in s.sessions.rows;
    }
  }

  /**
    create_session, behind role_required('faculty'): 403 for another role, 400 without a
    course id; otherwise the helper's token and expiration go into a new active session of
    the caller, and an insert the unique token index refuses is rolled back with 500.
  */
  method CreateSession(db: Db, claims: Claims, courseId: Option<Key>, token: string, now: int, sessionId: Key)
    returns (r: Response<SessionCreated>)
    requires db.Valid() && sessionId !in db.sessions.rows
    modifies db
    ensures db.Valid()
    ensures !HasRole(claims, FacultyRole) ==> r == Fail(403, MissingRole) && db.State() == old(db.State())
    ensures HasRole(claims, FacultyRole) && Falsy(courseId) ==>
      r == Fail(400, MissingField) && db.State() == old(db.State())
    ensures HasRole(claims, FacultyRole) && !Falsy(courseId) && Has(old(db.sessions), Token, token) ==>
      r == Fail(500, ConstraintViolation) && db.State() == old(db.State())
    ensures HasRole(claims, FacultyRole) && !Falsy(courseId) && !Has(old(db.sessions), Token, token) ==>
      var q := GenerateTimeBoundQr(token, now);
      && r == Response(201, Ok(SessionCreated(sessionId, q.qrPayload, q.expiration)))
      && db.State() == old(db.State()).(sessions := old(db.sessions).Put(sessionId,
           NewSessionRow(sessionId, courseId.value, claims.userId, q.token, q.expiration, now)))
  {
    if !HasRole(claims, FacultyRole) {
      return Fail(403, MissingRole);
    }
    if Falsy(courseId) {
      return Fail(400, MissingField);
    }
    var q := GenerateTimeBoundQr(token, now);
    var s := db.State();
    var clash := HasValue(s.sessions, Token, q.token);
    if clash {
      return Fail(500, ConstraintViolation);
    }
    var row := NewSessionRow(sessionId, courseId.value, claims.userId, q.token, q.expiration, now);
    AddSessionKeepsConsistent(s, row);
    db.Commit(s.(sessions := s.sessions.Put(sessionId, row)));
    r := Response(201, Ok(SessionCreated(sessionId, q.qrPayload, q.expiration)));
  }

  /**
    The checks of mark_attendance, in their order: a token was sent, a session carries it,
    that session is active and not past its expiration, the caller has a student profile,
    the profile is enrolled in the session's course, and no attendance records this
    (session, student) pair yet. The first that fails names the error.
  */
  ghost function MarkCheck(s: DbState, userId: Key, token: string, now: int): Result<(SessionRow, StudentRow)>
    requires s.sessions.Valid() && s.students.Valid()
  {
    if token == "" then Err(MissingField)
    else match First(s.sessions.Values(), WithToken(token))
      case None => Err(InvalidToken)
      case Some(session) =>
        if Helpers.Expired(session.isActive, session.expiration, now) then Err(Expired)
        else match First(s.students.Values(), StudentOfUser(userId))
          case None => Err(NoProfile)
          case Some(student) =>
            if !Enrolled(s, student.id, session.courseId) then Err(NotEnrolled)
            else if Has(s.attendances, AttendPair, (session.id, student.id)) then Err(AlreadyMarked)
            else Ok((session, student))
  }

  /** The status each failed check is answered with. */
  function MarkStatus(kind: ErrorKind): int
  {
    match kind
    case NoProfile => 404
    case NotEnrolled => 403
    case _ => 400
  }

  /**
    What a passed check rests on: the token's session is stored, active and not past its
    expiration; the profile is the caller's; it is enrolled in the session's course; and
    the pair has no record yet.
  */
  lemma MarkCheckAccepts(s: DbState, userId: Key, token: string, now: int)
    requires WellKeyed(s) && MarkCheck(s, userId, token, now).Ok?
    ensures var (session, student) := MarkCheck(s, userId, token, now).value;
      && token != "" && session.id in s.sessions.rows && s.sessions.rows[session.id] == session
      && session.token == token && session.isActive && now <= session.expiration
      && student.id in s.students.rows && s.students.rows[student.id] == student && student.userId == userId
      && Enrolled(s, student.id, session.courseId)
      && !Has(s.attendances, AttendPair, (session.id, student.id))
  {
    var (session, student) := MarkCheck(s, userId, token, now).value;
    var k := KeyOfValue(s.sessions, session);
    var j := KeyOfValue(s.students, student);
  }

  /**
    Recording a passed check keeps the database consistent: the pair was unrecorded, and
    the student is enrolled in the session's course, so every attendance still implies an
    enrollment.
  */
  lemma MarkKeepsConsistent(s: DbState, userId: Key, token: string, now: int, id: Key)
    requires Consistent(s) && MarkCheck(s, userId, token, now).Ok? && id !in s.attendances.rows
    ensures var (session, student) := MarkCheck(s, userId, token, now).value;
      Consistent(s.(attendances := s.attendances.Put(id, AttendanceRow(id, session.id, student.id, now))))
  {
    var (session, student) := MarkCheck(s, userId, token, now).value;
    MarkCheckAccepts(s, userId, token, now);
    AddAttendanceKeepsConsistent(s, AttendanceRow(id, session.id, student.id, now));
  }

  /** An attendance of an enrolled student for a stored session, under a fresh key and for an unrecorded pair. */
  lemma AddAttendanceKeepsConsistent(s: DbState, a: AttendanceRow)
    requires Consistent(s) && a.id !in s.attendances.rows && !Has(s.attendances, AttendPair, AttendPair(a))
    requires a.sessionId in s.sessions.rows && Enrolled(s, a.studentId, s.sessions.rows[a.sessionId].courseId)
    ensures Consistent(s.(attendances := s.attendances.Put(a.id, a)))
  {
    PutKeepsUnique(s.attendances, AttendPair, a.id, a);
    var s' := s.(attendances := s.attendances.Put(a.id, a));
    assert s'.attendances.rows[a.id] == a;
  }

  /** The reply of a recorded attendance: the course's name ('Unknown' without one) and the session date. */
  datatype Marked = Marked(course: string, sessionDate: int)

  /**
    mark_attendance, behind role_required('student'): on a failed check the status it names
    and no change; otherwise exactly one attendance for the session and the caller's profile,
    stamped now, and nothing else changes.
  */
  method MarkAttendance(db: Db, claims: Claims, token: string, now: int, attendanceId: Key)
    returns (r: Response<Marked>)
    requires db.Valid() && attendanceId !in db.attendances.rows
    modifies db
    ensures db.Valid()
    ensures !HasRole(claims, StudentRole) ==> r == Fail(403, MissingRole) && db.State() == old(db.State())
    ensures HasRole(claims, StudentRole) ==>
      var d := MarkCheck(old(db.State()), claims.userId, token, now);
      && (d.Err? ==> r == Fail(MarkStatus(d.kind), d.kind) && db.State() == old(db.State()))
      && (d.Ok? ==>
            && r == Response(201, Ok(Marked(CourseName(old(db.State()), d.value.0.courseId), d.value.0.sessionDate)))
            && db.State() == old(db.State()).(attendances := old(db.attendances).Put(attendanceId,
                 AttendanceRow(attendanceId, d.value.0.id, d.value.1.id, now))))
  {
    if !HasRole(claims, StudentRole) {
      return Fail(403, MissingRole);
    }
    var s := db.State();
    var d := CheckMark(s, claims.userId, token, now);
    if d.Err? {
      return Fail(MarkStatus(d.kind), d.kind);
    }
    var (session, student) := d.value;
    MarkKeepsConsistent(s, claims.userId, token, now, attendanceId);
    db.Commit(s.(attendances := s.attendances.Put(attendanceId, AttendanceRow(attendanceId, session.id, student.id, now))));
    r := Response(201, Ok(Marked(CourseName(s, session.courseId), session.sessionDate)));
  }

  /** The queries mark_attendance runs, each behind its check. */
  method CheckMark(s: DbState, userId: Key, token: string, now: int) returns (r: Result<(SessionRow, StudentRow)>)
    requires WellKeyed(s)
    ensures r == MarkCheck(s, userId, token, now)
  {
    if token == "" {
      return Err(MissingField);
    }
    var session := FindFirst(s.sessions, WithToken(token));
    if session.None? {
      return Err(InvalidToken);
    }
    if Helpers.Expired(session.value.isActive, session.value.expiration, now) {
      return Err(Expired);
    }
    var student := FindFirst(s.students, StudentOfUser(userId));
    if student.None? {
      return Err(NoProfile);
    }
    var enrolled := HasValue(s.enrollments, EnrollPair, (student.value.id, session.value.courseId));
    if !enrolled {
      return Err(NotEnrolled);
    }
    var marked := HasValue(s.attendances, AttendPair, (session.value.id, student.value.id));
    if marked {
      return Err(AlreadyMarked);
    }
    r := Ok((session.value, student.value));
  }

  /**
    A token is redeemed at most once per student: after a recorded redemption the same
    caller presenting the same token is refused at any later instant, as AlreadyMarked while
    the session is still open and as Expired after.
  */
  lemma SecondRedemptionRefused(s: DbState, userId: Key, token: string, now: int, later: int, id: Key)
    requires WellKeyed(s) && MarkCheck(s, userId, token, now).Ok? && id !in s.attendances.rows
    ensures var (session, student) := MarkCheck(s, userId, token, now).value;
      var s' := s.(attendances := s.attendances.Put(id, AttendanceRow(id, session.id, student.id, now)));
      && MarkCheck(s', userId, token, later).Err?
      && (Helpers.Expired(session.isActive, session.expiration, later) ==> MarkCheck(s', userId, token, later) == Err(Expired))
      && (!Helpers.Expired(session.isActive, session.expiration, later) ==> MarkCheck(s', userId, token, later) == Err(AlreadyMarked))
  {
    var (session, student) := MarkCheck(s, userId, token, now).value;
    var a := AttendanceRow(id, session.id, student.id, now);
    var s' := s.(attendances := s.attendances.Put(id, a));
    assert First(s'.sessions.Values(), WithToken(token)) == Some(session);
    assert First(s'.students.Values(), StudentOfUser(userId)) == Some(student);
    assert Enrolled(s', student.id, session.courseId);
    assert s'.attendances.rows[id] == a;
    assert Has(s'.attendances, AttendPair, (session.id, student.id));
  }

  /**
    With unique tokens, a redemption at exactly the session's expiration instant passes the
    expiry check, and one instant later it fails it.
  */
  lemma ExpiryBoundary(s: DbState, userId: Key, token: string, k: Key)
    requires Constraints(s) && token != ""
    requires k in s.sessions.rows && s.sessions.rows[k].token == token && s.sessions.rows[k].isActive
    ensures MarkCheck(s, userId, token, s.sessions.rows[k].expiration) != Err(Expired)
    ensures MarkCheck(s, userId, token, s.sessions.rows[k].expiration + 1) == Err(Expired)
  {
    forall a, b | a in s.sessions.rows && b in s.sessions.rows && WithToken(token)(s.sessions.rows[a])
                  && WithToken(token)(s.sessions.rows[b])
      ensures a == b
    {
      assert Token(s.sessions.rows[a]) == Token(s.sessions.rows[b]);
    }
    FirstOfUnique(s.sessions, WithToken(token), k);
  }

  /** One line of the session roster. */
  datatype Attendee = Attendee(studentNumber: string, studentName: string, markedAt: int)

  /** The roster line of an attendance, when `Student.query.get` finds its student. */
  function AttendeeOf(s: DbState): AttendanceRow -> Option<Attendee>
  {
    (a: AttendanceRow) =>
      if a.studentId in s.students.rows
      then Some(Attendee(s.students.rows[a.studentId].studentNumber, s.students.rows[a.studentId].fullName, a.markedAt))
      else None
  }

  /** The roster loop: one line per attendance whose student is found, in query order. */
  method RosterLines(s: DbState, atts: seq<AttendanceRow>) returns (lines: seq<Attendee>)
    ensures lines == Collect(atts, AttendeeOf(s))
  {
    lines := [];
    var i := 0;
    while i < |atts|
      invariant 0 <= i <= |atts|
      invariant lines == Collect(atts[..i], AttendeeOf(s))
    {
      assert atts[..i + 1][..i] == atts[..i];
      var line := AttendeeOf(s)(atts[i]);
      if line.Some? {
        lines := lines + [line.value];
      }
      i := i + 1;
    }
    assert atts[..i] == atts;
  }

  /** The reply of get_session_attendances. */
  datatype Roster = Roster(sessionId: Key, course: string, total: nat, attendances: seq<Attendee>)

  /** An attendance of the session whose student is found: it gets a line in the roster. */
  function ListedIn(s: DbState, sessionId: Key): AttendanceRow -> bool
  {
    (a: AttendanceRow) => a.sessionId == sessionId && a.studentId in s.students.rows
  }

  /** The roster has one line per stored attendance of the session whose student is found. */
  lemma RosterCount(s: DbState, sessionId: Key)
    requires WellKeyed(s)
    ensures |Collect(Where(s.attendances.Values(), OfSession(sessionId)), AttendeeOf(s))|
         == |KeysWhere(s.attendances, ListedIn(s, sessionId))|
  {
    var t := s.attendances;
    WhereWhere(t.Values(), OfSession(sessionId), Defined(AttendeeOf(s)));
    WhereCount(t, Both(OfSession(sessionId), Defined(AttendeeOf(s))));
    assert KeysWhere(t, Both(OfSession(sessionId), Defined(AttendeeOf(s)))) == KeysWhere(t, ListedIn(s, sessionId));
  }

  /** The roster of a stored session: its attendances' lines, their count and the course name. */
  method BuildRoster(s: DbState, sessionId: Key) returns (roster: Roster)
    requires WellKeyed(s) && sessionId in s.sessions.rows
    ensures roster.attendances == Collect(Where(s.attendances.Values(), OfSession(sessionId)), AttendeeOf(s))
    ensures roster.total == |roster.attendances| <= |s.attendances.rows|
    ensures roster.total == |KeysWhere(s.attendances, ListedIn(s, sessionId))|
    ensures roster.course == CourseName(s, s.sessions.rows[sessionId].courseId)
    ensures forall k ::
              k in s.attendances.rows && s.attendances.rows[k].sessionId == sessionId
              && s.attendances.rows[k].studentId in s.students.rows ==>
              AttendeeOf(s)(s.attendances.rows[k]).value in roster.attendances
  {
    var atts := Where(s.attendances.Values(), OfSession(sessionId));
    var lines := RosterLines(s, atts);
    ValuesAreRows(s.attendances);
    SizeIsKeyCount(s.attendances);
    RosterCount(s, sessionId);
    forall k | k in s.attendances.rows && s.attendances.rows[k].sessionId == sessionId
               && s.attendances.rows[k].studentId in s.students.rows
      ensures AttendeeOf(s)(s.attendances.rows[k]).value in lines
    {
      assert s.attendances.rows[k] in atts;
    }
    roster := Roster(sessionId, CourseName(s, s.sessions.rows[sessionId].courseId), |lines|, lines);
  }

  /**
    get_session_attendances, behind role_required('faculty'): 404 unless a session has this
    id and the caller as its faculty; otherwise one line per attendance of that session
    whose student exists, and the total is the number of lines.
  */
  method SessionAttendances(db: Db, claims: Claims, sessionId: Key) returns (r: Response<Roster>)
    requires db.Valid()
    ensures !HasRole(claims, FacultyRole) ==> r == Fail(403, MissingRole)
    ensures HasRole(claims, FacultyRole)
            && !(sessionId in db.sessions.rows && db.sessions.rows[sessionId].facultyId == claims.userId) ==>
      r == Fail(404, SessionNotFound)
    ensures HasRole(claims, FacultyRole)
            && sessionId in db.sessions.rows && db.sessions.rows[sessionId].facultyId == claims.userId ==>
      && r.status == 200 && r.body.Ok?
      && r.body.value.attendances == Collect(Where(db.attendances.Values(), OfSession(sessionId)), AttendeeOf(db.State()))
      && r.body.value.total == |r.body.value.attendances| <= |db.attendances.rows|
      && r.body.value.total == |KeysWhere(db.attendances, ListedIn(db.State(), sessionId))|
      && r.body.value.course == CourseName(db.State(), db.sessions.rows[sessionId].courseId)
      && forall k :: k in db.attendances.rows && db.attendances.rows[k].sessionId == sessionId
                     && db.attendances.rows[k].studentId in db.students.rows ==>
           AttendeeOf(db.State())(db.attendances.rows[k]).value in r.body.value.attendances
  {
    if !HasRole(claims, FacultyRole) {
      return Fail(403, MissingRole);
    }
    var s := db.State();
    var session := s.sessions.Get(sessionId);
    if session.None? || session.value.facultyId != claims.userId {
      return Fail(404, SessionNotFound);
    }
    var roster := BuildRoster(s, sessionId);
    r := Response(200, Ok(roster));
  }

  /** One line of a student's history. */
  datatype HistoryLine = HistoryLine(course: string, courseCode: string, sessionDate: Option<int>, markedAt: int)

  /** The history line of an attendance: its session's course, 'Unknown' when the session or course is gone. */
  function HistoryLineOf(s: DbState): AttendanceRow -> HistoryLine
  {
    (a: AttendanceRow) =>
      if a.sessionId !in s.sessions.rows then HistoryLine("Unknown", "Unknown", None, a.markedAt)
      else
        var session := s.sessions.rows[a.sessionId];
        if session.courseId in s.courses.rows
        then HistoryLine(s.courses.rows[session.courseId].name, s.courses.rows[session.courseId].code,
                         Some(session.sessionDate), a.markedAt)
        else HistoryLine("Unknown", "Unknown", Some(session.sessionDate), a.markedAt)
  }

  /** The history loop: one line per attendance, in query order. */
  method HistoryLines(s: DbState, atts: seq<AttendanceRow>) returns (lines: seq<HistoryLine>)
    ensures lines == Map(atts, HistoryLineOf(s))
  {
    lines := [];
    var i := 0;
    while i < |atts|
      invariant 0 <= i <= |atts|
      invariant lines == Map(atts[..i], HistoryLineOf(s))
    {
      assert atts[..i + 1][..i] == atts[..i];
      lines := lines + [HistoryLineOf(s)(atts[i])];
      i := i + 1;
    }
    assert atts[..i] == atts;
  }

  /** The reply of the student history route. */
  datatype History = History(studentName: string, total: nat, lines: seq<HistoryLine>)

  /**
    get_student_attendance_history, behind role_required('student'): 404 without a student
    profile; otherwise one line per attendance of that profile, in query order, and the
    total is their number.
  */
  method StudentHistory(db: Db, claims: Claims) returns (r: Response<History>)
    requires db.Valid()
    ensures !HasRole(claims, StudentRole) ==> r == Fail(403, MissingRole)
    ensures HasRole(claims, StudentRole) ==>
      var p := First(db.students.Values(), StudentOfUser(claims.userId));
      && (p.None? ==> r == Fail(404, NoProfile))
      && (p.Some? ==>
            var atts := Where(db.attendances.Values(), OfStudent(p.value.id));
            && r == Response(200, Ok(History(p.value.fullName, |atts|, Map(atts, HistoryLineOf(db.State())))))
            && |atts| == |KeysWhere(db.attendances, OfStudent(p.value.id))|
            && forall a :: a in atts <==> a in db.attendances.rows.Values && a.studentId == p.value.id)
  {
    if !HasRole(claims, StudentRole) {
      return Fail(403, MissingRole);
    }
    var s := db.State();
    var student := FindFirst(s.students, StudentOfUser(claims.userId));
    if student.None? {
      return Fail(404, NoProfile);
    }
    var atts := Where(s.attendances.Values(), OfStudent(student.value.id));
    var lines := HistoryLines(s, atts);
    ValuesAreRows(s.attendances);
    WhereCount(s.attendances, OfStudent(student.value.id));
    r := Response(200, Ok(History(student.value.fullName, |lines|, lines)));
  }
}

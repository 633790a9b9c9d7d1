/**
  app/controllers/auth_controller.py: registration of students and faculty, login, and the
  student profile route. `passwordHash` stands for bcrypt's hash of the submitted password
  and `checkpw` for bcrypt.checkpw; the access token is represented by the claims it carries.
*/
module AuthController {
  import opened Common
  import opened Tables
  import opened Models
  import opened Helpers

  /** A new user and a profile under fresh keys, with no taken value, keep the schema's constraints. */
  lemma RegisterKeepsConstraints<P(!new)>(
    users: Table<Key, UserRow>, profiles: Table<Key, P>, number: P -> string, u: UserRow, pid: Key, p: P)
    requires users.Valid() && Unique(users, Username) && Unique(users, Email)
    requires profiles.Valid() && Unique(profiles, number)
    requires u.id !in users.rows && pid !in profiles.rows
    requires !Has(users, Username, u.username) && !Has(users, Email, u.email) && !Has(profiles, number, number(p))
    ensures Unique(users.Put(u.id, u), Username) && Unique(users.Put(u.id, u), Email)
    ensures Unique(profiles.Put(pid, p), number)
  {
    PutKeepsUnique(users, Username, u.id, u);
    PutKeepsUnique(users, Email, u.id, u);
    PutKeepsUnique(profiles, number, pid, p);
  }

  /** A user under a fresh key leaves every existing user linked as before. */
  lemma LinkedGrows(users: Table<Key, UserRow>, u: UserRow, k: Key, role: Role)
    requires users.Valid() && u.id !in users.rows && LinkedTo(users, k, role)
    ensures LinkedTo(users.Put(u.id, u), k, role)
  {
  }

  /**
    A new student user with its profile keeps users and profiles coupled: the profile's
    user is the new one, and every older user keeps its profile.
  */
  lemma RegisterStudentKeepsCoupled(s: DbState, u: UserRow, p: StudentRow)
    requires WellKeyed(s) && Coupled(s)
    requires u.id !in s.users.rows && p.id !in s.students.rows
    requires u.role == StudentRole && p.userId == u.id
    ensures Coupled(s.(users := s.users.Put(u.id, u), students := s.students.Put(p.id, p)))
  {
    var s' := s.(users := s.users.Put(u.id, u), students := s.students.Put(p.id, p));
    forall j | j in s.students.rows
      ensures s.students.rows[j].userId != u.id
    {
      assert LinkedTo(s.users, s.students.rows[j].userId, StudentRole);
    }
    PutKeepsUnique(s.students, StudentUser, p.id, p);
    forall j | j in s'.students.rows
      ensures LinkedTo(s'.users, s'.students.rows[j].userId, StudentRole)
    {
      if j != p.id {
        LinkedGrows(s.users, u, s.students.rows[j].userId, StudentRole);
      }
    }
    forall j | j in s'.faculties.rows
      ensures LinkedTo(s'.users, s'.faculties.rows[j].userId, FacultyRole)
    {
      LinkedGrows(s.users, u, s.faculties.rows[j].userId, FacultyRole);
    }
    forall k | k in s'.users.rows && s'.users.rows[k].role == StudentRole
      ensures Has(s'.students, StudentUser, k)
    {
      if k != u.id {
        assert Has(s.students, StudentUser, k);
        PutKeepsHas(s.students, StudentUser, p.id, p, k);
      }
    }
    forall k | k in s'.users.rows && s'.users.rows[k].role == FacultyRole
      ensures Has(s'.faculties, FacultyUser, k)
    {
      assert k != u.id;
    }
  }

  /** The same for a faculty user and its faculty profile. */
  lemma RegisterFacultyKeepsCoupled(s: DbState, u: UserRow, p: FacultyRow)
    requires WellKeyed(s) && Coupled(s)
    requires u.id !in s.users.rows && p.id !in s.faculties.rows
    requires u.role == FacultyRole && p.userId == u.id
    ensures Coupled(s.(users := s.users.Put(u.id, u), faculties := s.faculties.Put(p.id, p)))
  {
    var s' := s.(users := s.users.Put(u.id, u), faculties := s.faculties.Put(p.id, p));
    forall j | j in s.faculties.rows
      ensures s.faculties.rows[j].userId != u.id
    {
      assert LinkedTo(s.users, s.faculties.rows[j].userId, FacultyRole);
    }
    PutKeepsUnique(s.faculties, FacultyUser, p.id, p);
    forall j | j in s'.faculties.rows
      ensures LinkedTo(s'.users, s'.faculties.rows[j].userId, FacultyRole)
    {
      if j != p.id {
        LinkedGrows(s.users, u, s.faculties.rows[j].userId, FacultyRole);
      }
    }
    forall j | j in s'.students.rows
      ensures LinkedTo(s'.users, s'.students.rows[j].userId, StudentRole)
    {
      LinkedGrows(s.users, u, s.students.rows[j].userId, StudentRole);
    }
    forall k | k in s'.users.rows && s'.users.rows[k].role == FacultyRole
      ensures Has(s'.faculties, FacultyUser, k)
    {
      if k != u.id {
        assert Has(s.faculties, FacultyUser, k);
        PutKeepsHas(s.faculties, FacultyUser, p.id, p, k);
      }
    }
    forall k | k in s'.users.rows && s'.users.rows[k].role == StudentRole
      ensures Has(s'.students, StudentUser, k)
    {
      assert k != u.id;
    }
  }

  /** A new student user and its profile, under fresh keys, with no taken value, keep the constraints. */
  lemma RegisterStudentKeepsConstraints(s: DbState, u: UserRow, p: StudentRow)
    requires Constraints(s)
    requires u.id !in s.users.rows && p.id !in s.students.rows
    requires !Has(s.users, Username, u.username) && !Has(s.users, Email, u.email)
    requires !Has(s.students, StudentNumber, p.studentNumber)
    ensures Constraints(s.(users := s.users.Put(u.id, u), students := s.students.Put(p.id, p)))
  {
    RegisterKeepsConstraints(s.users, s.students, StudentNumber, u, p.id, p);
  }

  /** The same for a faculty user and its faculty profile. */
  lemma RegisterFacultyKeepsConstraints(s: DbState, u: UserRow, p: FacultyRow)
    requires Constraints(s)
    requires u.id !in s.users.rows && p.id !in s.faculties.rows
    requires !Has(s.users, Username, u.username) && !Has(s.users, Email, u.email)
    requires !Has(s.faculties, FacultyNumber, p.facultyNumber)
    ensures Constraints(s.(users := s.users.Put(u.id, u), faculties := s.faculties.Put(p.id, p)))
  {
    RegisterKeepsConstraints(s.users, s.faculties, FacultyNumber, u, p.id, p);
  }

  /** A new user and its profile, under fresh keys, with nothing the schema forbids. */
  lemma RegisterStudentKeepsConsistent(s: DbState, u: UserRow, p: StudentRow)
    requires Consistent(s)
    requires u.id !in s.users.rows && p.id !in s.students.rows
    requires u.role == StudentRole && p.userId == u.id
    requires !Has(s.users, Username, u.username) && !Has(s.users, Email, u.email)
    requires !Has(s.students, StudentNumber, p.studentNumber)
    ensures Consistent(s.(users := s.users.Put(u.id, u), students := s.students.Put(p.id, p)))
  {
    RegisterStudentKeepsConstraints(s, u, p);
    RegisterStudentKeepsCoupled(s, u, p);
  }

  /** The same for a faculty user and its faculty profile. */
  lemma RegisterFacultyKeepsConsistent(s: DbState, u: UserRow, p: FacultyRow)
    requires Consistent(s)
    requires u.id !in s.users.rows && p.id !in s.faculties.rows
    requires u.role == FacultyRole && p.userId == u.id
    requires !Has(s.users, Username, u.username) && !Has(s.users, Email, u.email)
    requires !Has(s.faculties, FacultyNumber, p.facultyNumber)
    ensures Consistent(s.(users := s.users.Put(u.id, u), faculties := s.faculties.Put(p.id, p)))
  {
    RegisterFacultyKeepsConstraints(s, u, p);
    RegisterFacultyKeepsCoupled(s, u, p);
  }

  /** The state a successful register_student commits. */
  function WithStudent(s: DbState, u: UserRow, p: StudentRow): DbState
    requires s.users.Valid() && s.students.Valid()
  {
    s.(users := s.users.Put(u.id, u), students := s.students.Put(p.id, p))
  }

  /**
    register_student: 400 for a taken username, then 400 for a taken email, then 500 when
    the database refuses the student number (the transaction is rolled back); otherwise one
    student user and its profile, committed together.
  */
  method RegisterStudent(
    db: Db, username: string, email: string, passwordHash: string, studentNumber: string, fullName: string,
    userId: Key, studentId: Key)
    returns (r: Response<Done>)
    requires db.Valid()
    requires userId !in db.users.rows && studentId !in db.students.rows
    modifies db
    ensures db.Valid()
    ensures Has(old(db.users), Username, username) ==>
      r == Fail(400, DuplicateUsername) && db.State() == old(db.State())
    ensures !Has(old(db.users), Username, username) && Has(old(db.users), Email, email) ==>
      r == Fail(400, DuplicateEmail) && db.State() == old(db.State())
    ensures !Has(old(db.users), Username, username) && !Has(old(db.users), Email, email)
            && Has(old(db.students), StudentNumber, studentNumber) ==>
      r == Fail(500, ConstraintViolation) && db.State() == old(db.State())
    ensures !Has(old(db.users), Username, username) && !Has(old(db.users), Email, email)
            && !Has(old(db.students), StudentNumber, studentNumber) ==>
      && r == Response(201, Ok(Done))
      && db.State() == WithStudent(old(db.State()),
           UserRow(userId, username, email, passwordHash, StudentRole),
           StudentRow(studentId, userId, studentNumber, fullName))
  {
    var s := db.State();
    var nameTaken := HasValue(s.users, Username, username);
    if nameTaken {
      return Fail(400, DuplicateUsername);
    }
    var emailTaken := HasValue(s.users, Email, email);
    if emailTaken {
      return Fail(400, DuplicateEmail);
    }
    var numberTaken := HasValue(s.students, StudentNumber, studentNumber);
    if numberTaken {
      return Fail(500, ConstraintViolation);
    }
    var user := UserRow(userId, username, email, passwordHash, StudentRole);
    var student := StudentRow(studentId, userId, studentNumber, fullName);
    RegisterStudentKeepsConsistent(s, user, student);
    db.Commit(WithStudent(s, user, student));
    r := Response(201, Ok(Done));
  }

  /** register_faculty: the same checks, one faculty user and its faculty profile. */
  method RegisterFaculty(
    db: Db, username: string, email: string, passwordHash: string, facultyNumber: string, fullName: string,
    userId: Key, facultyId: Key)
    returns (r: Response<Done>)
    requires db.Valid()
    requires userId !in db.users.rows && facultyId !in db.faculties.rows
    modifies db
    ensures db.Valid()
    ensures Has(old(db.users), Username, username) ==>
      r == Fail(400, DuplicateUsername) && db.State() == old(db.State())
    ensures !Has(old(db.users), Username, username) && Has(old(db.users), Email, email) ==>
      r == Fail(400, DuplicateEmail) && db.State() == old(db.State())
    ensures !Has(old(db.users), Username, username) && !Has(old(db.users), Email, email)
            && Has(old(db.faculties), FacultyNumber, facultyNumber) ==>
      r == Fail(500, ConstraintViolation) && db.State() == old(db.State())
    ensures !Has(old(db.users), Username, username) && !Has(old(db.users), Email, email)
            && !Has(old(db.faculties), FacultyNumber, facultyNumber) ==>
      && r == Response(201, Ok(Done))
      && db.State() == old(db.State()).(
           users := old(db.users).Put(userId, UserRow(userId, username, email, passwordHash, FacultyRole)),
           faculties := old(db.faculties).Put(facultyId, FacultyRow(facultyId, userId, facultyNumber, fullName)))
  {
    var s := db.State();
    var nameTaken := HasValue(s.users, Username, username);
    if nameTaken {
      return Fail(400, DuplicateUsername);
    }
    var emailTaken := HasValue(s.users, Email, email);
    if emailTaken {
      return Fail(400, DuplicateEmail);
    }
    var numberTaken := HasValue(s.faculties, FacultyNumber, facultyNumber);
    if numberTaken {
      return Fail(500, ConstraintViolation);
    }
    var user := UserRow(userId, username, email, passwordHash, FacultyRole);
    var faculty := FacultyRow(facultyId, userId, facultyNumber, fullName);
    RegisterFacultyKeepsConsistent(s, user, faculty);
    db.Commit(s.(users := s.users.Put(userId, user), faculties := s.faculties.Put(facultyId, faculty)));
    r := Response(201, Ok(Done));
  }

  /** The reply of a successful login: the claims of the issued token, the role and the id. */
  datatype LoginReply = LoginReply(claims: Claims, role: Role, userId: Key)

  /**
    login: 400 when the username or password is empty or absent; 200 with claims naming the
    user's role and id when the first user with that username passes checkpw; otherwise the
    same 401 whether the user is unknown or the password wrong.
  */
  function Login(s: DbState, username: string, password: string, checkpw: (string, string) -> bool)
    : (r: Response<LoginReply>)
    requires s.users.Valid()
    ensures (username == "" || password == "") ==> r == Fail(400, MissingField)
    ensures r.status == 200 ==>
      && username != "" && password != ""
      && exists u :: u in s.users.Values() && u.username == username && checkpw(password, u.passwordHash)
                     && r.body == Ok(LoginReply(Claims(Some(u.role), u.id), u.role, u.id))
    ensures username != "" && password != "" && r.status != 200 ==> r == Fail(401, InvalidCredentials)
  {
    if username == "" || password == "" then Fail(400, MissingField)
    else match First(s.users.Values(), WithUsername(username))
      case None => Fail(401, InvalidCredentials)
      case Some(u) =>
        if checkpw(password, u.passwordHash) then Response(200, Ok(LoginReply(Claims(Some(u.role), u.id), u.role, u.id)))
        else Fail(401, InvalidCredentials)
  }

  /** With usernames unique, login succeeds exactly for a stored username and a matching password. */
  lemma LoginSucceedsIff(s: DbState, username: string, password: string, checkpw: (string, string) -> bool)
    requires Constraints(s) && username != "" && password != ""
    ensures Login(s, username, password, checkpw).status == 200 <==>
      exists k :: k in s.users.rows && s.users.rows[k].username == username
                  && checkpw(password, s.users.rows[k].passwordHash)
  {
    var r := Login(s, username, password, checkpw);
    if k :| k in s.users.rows && s.users.rows[k].username == username && checkpw(password, s.users.rows[k].passwordHash) {
      forall a, b | a in s.users.rows && b in s.users.rows && WithUsername(username)(s.users.rows[a])
                    && WithUsername(username)(s.users.rows[b])
        ensures a == b
      {
        assert Username(s.users.rows[a]) == Username(s.users.rows[b]);
      }
      FirstOfUnique(s.users, WithUsername(username), k);
    } else if r.status == 200 {
      var u :| u in s.users.Values() && u.username == username && checkpw(password, u.passwordHash);
      var k := KeyOfValue(s.users, u);
      assert false;
    }
  }

  /** The profile fields student_profile returns. */
  datatype Profile = Profile(username: string, email: string, studentNumber: string, fullName: string)

  /**
    The body of student_profile, for the caller named by the token's identity: 404 for an
    unknown user, 404 for a user without a student profile, else the user's account fields
    with the fields of a profile of theirs.
  */
  function ProfileView(s: DbState, claims: Claims): (r: Response<Profile>)
    requires s.users.Valid() && s.students.Valid()
    ensures claims.userId !in s.users.rows ==> r == Fail(404, UserNotFound)
    ensures claims.userId in s.users.rows && !Has(s.students, StudentUser, claims.userId) ==>
      r == Fail(404, NoProfile)
    ensures claims.userId in s.users.rows && Has(s.students, StudentUser, claims.userId) ==>
      && r.status == 200 && r.body.Ok?
      && r.body.value.username == s.users.rows[claims.userId].username
      && r.body.value.email == s.users.rows[claims.userId].email
      && exists j :: j in s.students.rows && s.students.rows[j].userId == claims.userId
                     && r.body.value.studentNumber == s.students.rows[j].studentNumber
                     && r.body.value.fullName == s.students.rows[j].fullName
  {
    if claims.userId !in s.users.rows then Fail(404, UserNotFound)
    else match First(s.students.Values(), StudentOfUser(claims.userId))
      case None =>
        assert forall j :: j in s.students.rows ==> s.students.rows[j] in s.students.Values();
        Fail(404, NoProfile)
      case Some(p) =>
        assert exists j :: j in s.students.rows && s.students.rows[j] == p by {
          var j := KeyOfValue(s.students, p);
        }
        var u := s.users.rows[claims.userId];
        Response(200, Ok(Profile(u.username, u.email, p.studentNumber, p.fullName)))
  }

  /** student_profile: the view behind role_required('student'). */
  function StudentProfile(s: DbState, claims: Claims): (r: Response<Profile>)
    requires s.users.Valid() && s.students.Valid()
    ensures !HasRole(claims, StudentRole) ==> r == Fail(403, MissingRole)
    ensures HasRole(claims, StudentRole) ==> r == ProfileView(s, claims)
  {
    RoleRequired(StudentRole, (c: Claims) requires s.users.Valid() && s.students.Valid() => ProfileView(s, c), claims)
  }

  /**
    Registration, login and the profile route fit together: after a successful
    register_student, logging in with a password that matches the stored hash yields
    student claims for the new user, and those claims read back the registered profile.
  */
  lemma RegisterLoginProfile(
    s: DbState, username: string, email: string, passwordHash: string, password: string,
    checkpw: (string, string) -> bool, studentNumber: string, fullName: string, userId: Key, studentId: Key)
    requires Consistent(s)
    requires userId !in s.users.rows && studentId !in s.students.rows
    requires !Has(s.users, Username, username) && !Has(s.users, Email, email)
    requires !Has(s.students, StudentNumber, studentNumber)
    requires username != "" && password != "" && checkpw(password, passwordHash)
    ensures var s' := WithStudent(s, UserRow(userId, username, email, passwordHash, StudentRole),
                                  StudentRow(studentId, userId, studentNumber, fullName));
      && Login(s', username, password, checkpw)
         == Response(200, Ok(LoginReply(Claims(Some(StudentRole), userId), StudentRole, userId)))
      && StudentProfile(s', Claims(Some(StudentRole), userId))
         == Response(200, Ok(Profile(username, email, studentNumber, fullName)))
  {
    var u := UserRow(userId, username, email, passwordHash, StudentRole);
    var p := StudentRow(studentId, userId, studentNumber, fullName);
    var s' := WithStudent(s, u, p);
    RegisterStudentKeepsConsistent(s, u, p);
    assert s'.users.rows[userId] == u && s'.students.rows[studentId] == p;
    LoginAsStored(s', u, password, checkpw);
    ProfileOfStored(s', u, p);
  }

  /** With usernames unique, a stored user logs in by its username and a matching password. */
  lemma LoginAsStored(s: DbState, u: UserRow, password: string, checkpw: (string, string) -> bool)
    requires s.users.Valid() && Unique(s.users, Username)
    requires u.id in s.users.rows && s.users.rows[u.id] == u
    requires u.username != "" && password != "" && checkpw(password, u.passwordHash)
    ensures Login(s, u.username, password, checkpw) == Response(200, Ok(LoginReply(Claims(Some(u.role), u.id), u.role, u.id)))
  {
    FirstOfUnique(s.users, WithUsername(u.username), u.id);
  }

  /** With one profile per user, a student user's claims read back its stored profile. */
  lemma ProfileOfStored(s: DbState, u: UserRow, p: StudentRow)
    requires s.users.Valid() && s.students.Valid() && Unique(s.students, StudentUser)
    requires u.id in s.users.rows && s.users.rows[u.id] == u
    requires p.id in s.students.rows && s.students.rows[p.id] == p && p.userId == u.id
    ensures StudentProfile(s, Claims(Some(StudentRole), u.id)) == Response(200, Ok(Profile(u.username, u.email, p.studentNumber, p.fullName)))
  {
    FirstOfUnique(s.students, StudentOfUser(u.id), p.id);
  }
}

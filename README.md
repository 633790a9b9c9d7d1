# QR-code attendance system: a verified model

The QR-code attendance system lets a faculty member open a short-lived attendance session
that carries a token, which is shown as a QR code. A student redeems that token, and the
system runs a fixed chain of checks before recording at most one attendance per
(session, student) pair. Around this sit registration, login, role gates, course and
enrollment management, and a few read-only listings.

The repository implements the logic three times, and this model follows each one as
written:

- **the SQL controllers** (`app/controllers/*.py` over the schema of `app/models/models.py`):
  modules `AuthController`, `AttendanceController` and `AdminController`, over the schema in
  `Models` and the role gates in `Helpers`;
- **the in-memory command-line demo** (`demo.py`): module `Demo`;
- **the in-memory Flask app** (`simple_app.py` over `app/models/simple_models.py`): modules
  `SimpleApp` and `MemStore`.

The three differ where it matters:

- the controller's `mark_attendance` checks enrollment and looks for an earlier record;
- the demo looks for an earlier record but does not check enrollment;
- the Flask app does neither, so a repeated redemption adds a second record.

How the pieces are modelled:

- **Tables.** A Python dict and a database table are both a `Tables.Table`: the keys in
  insertion order plus the key-to-row map. `filter_by(...).first()` and the early-return
  lookup loops are `First`; list comprehensions and `.all()` filters are `Where`; result
  lists built in loops are `Map` or `Collect`.
- **In-memory storage.** The in-memory `Storage` is a class, `MemStore.Storage`, whose six
  table fields its `Add*` methods reassign.
- **The demo and the Flask app.** These are classes too, `Demo.AttendanceSystem` and
  `SimpleApp.App`, holding the store and the logged-in user that `login` reassigns.
- **The SQL database.** The database is the class `Models.Db`, with seven table fields. A
  controller computes the state its transaction would commit and proves that state
  `Consistent` before it calls `Db.Commit`. `Db.Commit` requires a consistent state and
  never refuses one. `Consistent` has three parts:
  - `Constraints`: the unique columns and the rows keyed by their ids. The database enforces
    these, together with the NOT NULL columns.
  - `Coupled`: every profile belongs to a stored user of its role, and every student or
    faculty user has exactly one profile.
  - `AttendancesEnrolled`: every attendance belongs to a stored session, and its student is
    enrolled in that session's course.

  The database does not enforce `Coupled` or `AttendancesEnrolled`. They are invariants of
  the application, and the controllers keep them. A rolled-back transaction is a path that
  never commits.
- **Time.** Times are integers counting microseconds. The clock reading `now` is a
  parameter.
- **Fresh values.** `uuid4` tokens and ids, autoincrement keys and bcrypt hashes are
  parameters.
- **Passwords and tokens.** Password checking with bcrypt is a function parameter
  `checkpw`. The JWT claims are the input `Helpers.Claims`.

On these points the model follows the code as written:

- **Expiry.** A redemption is refused as expired only when the session is inactive or its
  expiration is strictly before `now`. A token presented at exactly its expiration instant
  is still accepted. `ExpiryBoundary`, proved for the SQL path and the in-memory path,
  pins both sides of the boundary.
- **Deleting rows that have children.** Deleting a student that has enrollments, or a
  course that has enrollments or sessions, fails with 500 and changes nothing. The ORM
  sets the children's NOT NULL foreign key to null when the parent is deleted, so the
  commit is refused. Deleting a faculty member does succeed, and its courses lose their
  `faculty_id` (that column is nullable).
- **Registering faculty needs no role.** The docstring of `register_faculty` says "admin
  only", but the route has no `role_required` gate (auth_controller.py lines 50-52).
  `AuthController.RegisterFaculty` therefore takes no claims, and anyone may call it.

## Model

| member | source | states |
|---|---|---|
| Helpers.GenerateTimeBoundQr | qr_attendance_system/app/utils/helpers.py:27-36 | The token handed back is the one given to the QR encoder. The expiration lies exactly duration_minutes after now, and duration_minutes defaults to 3. A token is unexpired at time t iff t <= now + duration. |
| Helpers.RoleRequired | qr_attendance_system/app/utils/helpers.py:38-50 | The wrapped view's reply is returned iff the role claim equals the required role. Otherwise the reply is 403 MissingRole. |
| Helpers.RolesRequired | qr_attendance_system/app/utils/helpers.py:52-63 | The wrapped view's reply is returned iff the role claim is among the admitted roles. Otherwise the reply is 403. |
| Helpers.RoleRequiredIsRolesRequiredOfOne | qr_attendance_system/app/utils/helpers.py:38-63 | The single-role gate answers exactly as the list gate over a one-element list. |
| Tables.Table.Get | qr_attendance_system/app/models/simple_models.py:99-100 | `dict.get` returns a row iff the key is present, and that row is the one stored under it. |
| Tables.Table.Put | qr_attendance_system/app/models/simple_models.py:96-97 | Storing x under k maps k to x and leaves every other key as it was. A new key goes last in the order. An existing key keeps its place, and its row is overwritten. |
| Tables.Table.Remove | qr_attendance_system/simple_app.py:397-406 | `del d[k]` unmaps k and keeps every other key and its row. When k is at position i, the new order is the old one without position i. An absent key leaves the order unchanged. |
| Tables.First | qr_attendance_system/app/models/simple_models.py:102-106 | The first-match lookup returns nothing iff no row satisfies the filter. Otherwise it returns a matching row that is in the table. |
| Tables.FindFirst | qr_attendance_system/app/models/simple_models.py:102-106 | The early-return loop yields the first match in iteration order. It yields nothing iff no stored row matches, and otherwise a matching stored row. |
| Tables.Where | qr_attendance_system/app/models/simple_models.py:156-160 | A filtered list holds exactly the rows that satisfy the filter, and is no longer than the table. |
| Tables.WhereCounts | qr_attendance_system/app/models/simple_models.py:156-160 | Each matching row occurs in the filtered list as often as in the input. No other row occurs. |
| Tables.WhereAppend | qr_attendance_system/app/models/simple_models.py:156-160 | Filtering keeps the input order: the matches of a prefix come first, then the matches of the rest. |
| Tables.WhereCount | qr_attendance_system/app/models/simple_models.py:156-160 | Filtering a table's values gives exactly one entry per key whose row matches. |
| Tables.Collect | qr_attendance_system/app/controllers/attendance_controller.py:129-137 | The skip-if-missing loop gives one output per input that the lookup accepts. Every output comes from an input. |
| Tables.CollectAppend | qr_attendance_system/app/controllers/attendance_controller.py:129-137 | The skip-if-missing loop keeps the input order: the outputs of a prefix come first. |
| Tables.WhereWhere | qr_attendance_system/app/controllers/attendance_controller.py:126-132 | Filtering by the query and then skipping by the loop's test is filtering once by both. |
| Tables.FirstOfUnique | qr_attendance_system/app/models/models.py:14-15 | When a unique column makes the filter match at most one row, the first match is that row. |
| Text.NumberedIdInjective | qr_attendance_system/demo.py:204 | Ids of the form prefix plus a decimal number are equal only for equal numbers. |
| Text.StripPadded | qr_attendance_system/simple_app.py:111-112 | `str.strip` removes exactly the surrounding whitespace from a word that has no whitespace at its ends. |
| MemStore.NewSession | qr_attendance_system/app/models/simple_models.py:67-75 | A new session is active, stamped with its creation time, carries the given course, faculty and token, and is unexpired at t iff t <= creation + 3 minutes. |
| MemStore.Storage.constructor | qr_attendance_system/app/models/simple_models.py:88-94 | The store starts with six empty tables. |
| MemStore.Storage.AddUser | qr_attendance_system/app/models/simple_models.py:96-97 | add_user stores the user under its id, overwriting any earlier one, and changes nothing else. |
| MemStore.Storage.AddStudent | qr_attendance_system/app/models/simple_models.py:108-109 | add_student stores the profile under its id and changes nothing else. |
| MemStore.Storage.AddFaculty | qr_attendance_system/app/models/simple_models.py:120-121 | add_faculty stores the profile under its id and changes nothing else. |
| MemStore.Storage.AddCourse | qr_attendance_system/app/models/simple_models.py:132-133 | add_course stores the course under its id and changes nothing else. |
| MemStore.Storage.AddSession | qr_attendance_system/app/models/simple_models.py:138-139 | add_session stores the session under its id and changes nothing else. |
| MemStore.Storage.AddAttendance | qr_attendance_system/app/models/simple_models.py:150-151 | add_attendance stores the record under its id and changes nothing else. |
| MemStore.Storage.RemoveCourse | qr_attendance_system/simple_app.py:405-406 | `del storage.courses[course_id]` removes that key only. |
| MemStore.Storage.GetUserByUsername | qr_attendance_system/app/models/simple_models.py:102-106 | Returns the first user in iteration order with that username. Returns None iff no stored user has it. |
| MemStore.Storage.GetStudentByUserId | qr_attendance_system/app/models/simple_models.py:114-118 | Returns the first student profile of that user, or None iff there is none. |
| MemStore.Storage.GetFacultyByUserId | qr_attendance_system/app/models/simple_models.py:126-130 | Returns the first faculty profile of that user, or None iff there is none. |
| MemStore.Storage.GetSessionByToken | qr_attendance_system/app/models/simple_models.py:144-148 | Returns a stored session whose token equals the argument, or None iff no session carries it. |
| MemStore.Storage.AttendancesBySession | qr_attendance_system/app/models/simple_models.py:156-157 | Holds exactly the stored attendances of that session. Its length is the number of stored records of the session, so each record appears once. The order is the dict's, by `WhereAppend`. |
| MemStore.Storage.AttendancesByStudent | qr_attendance_system/app/models/simple_models.py:159-160 | Holds exactly the stored attendances of that student. Its length is the number of stored records of the student, so each record appears once. The order is the dict's, by `WhereAppend`. |
| MemStore.Storage.CheckRedemption | qr_attendance_system/demo.py:218-253 | The shared redemption chain, in order: logged in as a student, token present, token known, session active and unexpired, student profile found. The first failing check decides the outcome. |
| MemStore.RedeemCheckAccepts | qr_attendance_system/demo.py:218-253 | A passed chain means a student is logged in and the token is non-empty. The session is stored, carries the token, is active and now <= its expiration. The profile is stored and belongs to the caller. |
| MemStore.RedeemCheckTimeless | qr_attendance_system/demo.py:231-247 | A chain that passed once and passes again later yields the same session and profile, whatever the attendance table holds. |
| MemStore.ExpiryBoundary | qr_attendance_system/demo.py:240 | At exactly the expiration instant the token is not refused as expired. One microsecond later it is. |
| MemStore.UsernameLookup | qr_attendance_system/app/models/simple_models.py:102-106 | With unique usernames, the lookup finds a user iff one has that username, and then finds that very user. |
| MemStore.TokenLookup | qr_attendance_system/app/models/simple_models.py:144-148 | With unique tokens, the lookup finds exactly the session that carries the token. |
| MemStore.FreshTokenKeepsUnique | qr_attendance_system/app/models/simple_models.py:73 | Adding a session with an unused token keeps tokens unique. |
| MemStore.UnmarkedKeepsOnePerPair | qr_attendance_system/demo.py:256-271 | Recording a pair that has no record keeps at most one record per pair, and the pair is then marked. |
| MemStore.MarkedTwiceBreaksOnePerPair | qr_attendance_system/simple_app.py:227-245 | Recording a pair that already has a record leaves two records for it. |
| Demo.NumberedIds | qr_attendance_system/demo.py:204 | There are N running ids, and the i-th of them is prefix followed by i. |
| Demo.LaterNumberFresh | qr_attendance_system/demo.py:269 | A later running number is none of the earlier ids. |
| Demo.NextNumberFresh | qr_attendance_system/demo.py:204-206 | In a table keyed prefix1..prefixN, the id prefix(N+1) is not yet a key, and storing under it keeps the numbering. |
| Demo.SampleData | qr_attendance_system/demo.py:151-169 | The sample data satisfies the demo's invariant, with the faculty user before the student user and no sessions or attendances. |
| Demo.InitializeSampleData | qr_attendance_system/demo.py:151-169 | On an empty store, initialize_sample_data leaves exactly the sample data. |
| Demo.AttendanceSystem.constructor | qr_attendance_system/demo.py:147-149 | The system starts with no user logged in and the sample data stored. |
| Demo.AttendanceSystem.Login | qr_attendance_system/demo.py:177-193 | Login succeeds iff a user has that username and the password equals the stored one. Success logs that user in. Failure gives one InvalidCredentials answer for an unknown user and for a wrong password, and keeps the current user. |
| Demo.AttendanceSystem.CreateSession | qr_attendance_system/demo.py:195-214 | Refused unless a faculty user is logged in, and then the store is unchanged. Otherwise exactly one active session "SES{n+1}" is added, a fresh key, expiring 3 minutes after creation. |
| Demo.DecideMark | qr_attendance_system/demo.py:218-266 | The redemption chain, then the scan for an earlier record of the same pair. |
| Demo.AttendanceSystem.MarkAttendance | qr_attendance_system/demo.py:216-278 | A failed check changes nothing and reports that check's error. A passed one adds exactly one record "ATT{n+1}", which is a fresh key, for the pair, and changes nothing else. |
| Demo.SecondRedemptionRefused | qr_attendance_system/demo.py:256-266 | After a successful redemption, redeeming the same token again at any time is refused. |
| Demo.MarkKeepsInv | qr_attendance_system/demo.py:256-271 | A successful redemption keeps the demo's invariant: ids numbered from 1, unique usernames and tokens, and at most one record per pair. |
| Demo.RecordKeepsInv | qr_attendance_system/demo.py:269-271 | Recording an unmarked pair under the next running id keeps the invariant. |
| Demo.CreateKeepsInv | qr_attendance_system/demo.py:204-206 | Adding a session under the next running id, with an unused token, keeps the invariant. |
| Demo.AttendanceSystem.AttendanceHistory | qr_attendance_system/demo.py:280-317 | Refused unless a student is logged in, and refused with NoProfile when the student has no profile. Otherwise one entry per attendance of that student, in store order. The total equals the number of entries, which is the number of stored attendance records of that student. |
| Demo.HistoryLines | qr_attendance_system/demo.py:301-310 | The loop yields the history of the given attendances. |
| Demo.HistoryOf | qr_attendance_system/demo.py:301-315 | One history entry per attendance. |
| Demo.HistoryOfAt | qr_attendance_system/demo.py:302-310 | The i-th entry describes the i-th attendance: its session id, its course's name or 'Unknown', and its time. |
| SimpleApp.App.constructor | qr_attendance_system/simple_app.py:16-17 | The app starts with an empty store and no user logged in. |
| SimpleApp.App.RegisterStudent | qr_attendance_system/simple_app.py:34-67 | A taken username gives 400 and changes nothing. Otherwise exactly one student user and one profile linked to it are added. |
| SimpleApp.App.RegisterFaculty | qr_attendance_system/simple_app.py:69-101 | A taken username gives 400 and changes nothing. Otherwise exactly one faculty user and one profile linked to it are added. |
| SimpleApp.App.RegisterAdmin | qr_attendance_system/simple_app.py:103-136 | A wrong admin code, after stripping, gives 403. This is checked before the username. A taken username gives 400. Otherwise exactly one admin user and no profile are added. |
| SimpleApp.PaddedAdminCodeAccepted | qr_attendance_system/simple_app.py:111-112 | The admin code surrounded by whitespace is accepted. |
| SimpleApp.App.Login | qr_attendance_system/simple_app.py:138-162 | A missing username or password gives 400. Login succeeds iff the user exists and the password matches, and success logs that user in. Every other attempt gives 401 and keeps the current user. The store never changes. |
| SimpleApp.App.CreateSession | qr_attendance_system/simple_app.py:164-210 | No user gives 401, a non-faculty user 403, and a missing course_id 400, each changing nothing. Otherwise exactly one new active session is added, and the reply carries its token and its expiration 3 minutes on. |
| SimpleApp.App.MarkAttendance | qr_attendance_system/simple_app.py:212-253 | A failed redemption check changes nothing. A passed one always adds one record, with no enrollment or duplicate check. |
| SimpleApp.RepeatRedemptionRecordedTwice | qr_attendance_system/simple_app.py:227-245 | A token redeemed twice passes the checks both times, and the two records break at-most-one-per-pair. |
| SimpleApp.FacultyCheckAccepts | qr_attendance_system/simple_app.py:351-360 | The faculty gate passes only for a logged-in faculty user, and yields that user's stored profile. |
| SimpleApp.CheckFaculty | qr_attendance_system/simple_app.py:351-360 | The gate computed by the lookup loop is the faculty gate. |
| SimpleApp.App.CreateCourse | qr_attendance_system/simple_app.py:348-383 | A failed gate or a taken course code changes nothing. Otherwise exactly one course is added, owned by the caller's faculty profile. |
| SimpleApp.CodeInUse | qr_attendance_system/simple_app.py:362-366 | The scan reports true iff some stored course has that code. |
| SimpleApp.App.DeleteCourse | qr_attendance_system/simple_app.py:385-410 | An unknown id gives 404 and another faculty member's course 403, each changing nothing. Otherwise exactly that key is removed. |
| SimpleApp.App.GetFacultyCourses | qr_attendance_system/simple_app.py:314-346 | The reply is the courses owned by the caller's faculty profile, filtered in table order. The total is the number of stored courses that faculty profile owns. |
| SimpleApp.CoursesTaughtBy | qr_attendance_system/simple_app.py:331-342 | The loop computes the in-order filter of the courses by that faculty member. It holds exactly those courses, one per stored course. |
| SimpleApp.App.GetAdminStats | qr_attendance_system/simple_app.py:592-617 | For an admin, the counts equal the sizes of the five tables. |
| SimpleApp.AddUserKeepsInv | qr_attendance_system/simple_app.py:56-63 | Adding a user with a fresh id and an unused username keeps the app's invariant. |
| SimpleApp.AddStudentKeepsInv | qr_attendance_system/simple_app.py:56-63 | Adding a profile linked to a student user keeps the invariant. |
| SimpleApp.AddFacultyKeepsInv | qr_attendance_system/simple_app.py:90-97 | Adding a profile linked to a faculty user keeps the invariant. |
| SimpleApp.AddCourseKeepsInv | qr_attendance_system/simple_app.py:368-376 | Adding a course with an unused code keeps course codes unique. |
| SimpleApp.RemoveCourseKeepsInv | qr_attendance_system/simple_app.py:405-406 | Removing a course keeps the invariant. |
| SimpleApp.AddSessionKeepsInv | qr_attendance_system/simple_app.py:181-183 | Adding a session with an unused token keeps tokens unique. |
| SimpleApp.AddAttendanceKeepsInv | qr_attendance_system/simple_app.py:243-245 | Adding a record keeps the invariant, which does not include at most one record per pair. |
| Models.NewSessionRow | qr_attendance_system/app/models/models.py:100-109 | An inserted session row is active by default and dated at its insertion time. |
| Models.Db.constructor | qr_attendance_system/app/models/models.py:10-143 | The empty database satisfies every schema constraint. |
| Models.Db.Commit | qr_attendance_system/app/controllers/auth_controller.py:43 | A commit stores exactly a state that satisfies the constraints. |
| AuthController.RegisterKeepsConstraints | qr_attendance_system/app/models/models.py:14-15 | Adding a user whose username and email are unused, with a profile whose number is unused, keeps those columns unique. |
| AuthController.RegisterStudentKeepsConstraints | qr_attendance_system/app/controllers/auth_controller.py:23-43 | Registering a student with unused values keeps every uniqueness constraint. |
| AuthController.RegisterFacultyKeepsConstraints | qr_attendance_system/app/controllers/auth_controller.py:64-82 | Registering a faculty member with unused values keeps every uniqueness constraint. |
| AuthController.RegisterStudentKeepsCoupled | qr_attendance_system/app/controllers/auth_controller.py:23-43 | Adding a student user together with its profile keeps every profile linked to a user of its role, and every such user with one profile. |
| AuthController.RegisterFacultyKeepsCoupled | qr_attendance_system/app/controllers/auth_controller.py:64-82 | The same for a faculty user and its profile. |
| AuthController.RegisterStudentKeepsConsistent | qr_attendance_system/app/controllers/auth_controller.py:23-43 | A successful student registration commits a consistent state. |
| AuthController.RegisterFacultyKeepsConsistent | qr_attendance_system/app/controllers/auth_controller.py:64-82 | A successful faculty registration commits a consistent state. |
| AuthController.RegisterStudent | qr_attendance_system/app/controllers/auth_controller.py:9-48 | A taken username gives 400, then a taken email 400, and a taken student number 500 after rollback; each changes nothing. Otherwise exactly one student user and its linked profile are added, both or neither. |
| AuthController.RegisterFaculty | qr_attendance_system/app/controllers/auth_controller.py:50-88 | The same checks in the same order. Otherwise exactly one faculty user and its linked profile are added. |
| AuthController.Login | qr_attendance_system/app/controllers/auth_controller.py:90-123 | A missing field gives 400. A 200 reply means a user with that username exists, the password checks against its hash, and the claims carry that user's role and id. Every other reply is the same 401 InvalidCredentials. |
| AuthController.LoginSucceedsIff | qr_attendance_system/app/controllers/auth_controller.py:103-121 | With unique usernames, login succeeds iff a stored user has that username and the password checks. |
| AuthController.LoginAsStored | qr_attendance_system/app/controllers/auth_controller.py:103-119 | A stored user with a matching password gets the claims of its own role and id. |
| AuthController.ProfileView | qr_attendance_system/app/controllers/auth_controller.py:128-149 | An unknown user gives 404, and a user without a student profile 404. Otherwise the reply shows the user's username and email and its profile's number and name. |
| AuthController.StudentProfile | qr_attendance_system/app/controllers/auth_controller.py:125-149 | Non-students get 403. Students get the profile view. |
| AuthController.ProfileOfStored | qr_attendance_system/app/controllers/auth_controller.py:128-149 | With one profile per user, a student user's claims read back its stored profile. |
| AuthController.RegisterLoginProfile | qr_attendance_system/app/controllers/auth_controller.py:9-149 | After a successful registration, logging in with a matching password gives student claims for the new user, and those claims read back the registered profile. |
| AttendanceController.AddSessionKeepsConsistent | qr_attendance_system/app/models/models.py:107 | Adding a session with a fresh key and an unused token keeps the database consistent. |
| AttendanceController.CreateSession | qr_attendance_system/app/controllers/attendance_controller.py:9-43 | Non-faculty callers get 403, and a missing or zero course_id 400. A token already in use gives 500 after rollback. Each of these changes nothing. Otherwise exactly one active session is added, with the caller as faculty and the helper's token and expiration. |
| AttendanceController.CheckMark | qr_attendance_system/app/controllers/attendance_controller.py:54-89 | The check chain computed by the lookups, in the order: token present, token known, active and unexpired, profile found, enrolled, not already marked. |
| AttendanceController.MarkCheckAccepts | qr_attendance_system/app/controllers/attendance_controller.py:54-89 | A passed chain means: the token's session is stored, active and now <= its expiration; the profile is the caller's; it is enrolled in the session's course; and the pair has no record. |
| AttendanceController.MarkAttendance | qr_attendance_system/app/controllers/attendance_controller.py:45-110 | Non-students get 403. The first failing check decides the error: 404 for no profile, 403 for not enrolled, 400 otherwise. A failure changes nothing. Success adds exactly one record for the pair and nothing else, and replies with the course name and session date. |
| AttendanceController.MarkKeepsConsistent | qr_attendance_system/app/controllers/attendance_controller.py:92-98 | A successful redemption commits a consistent state: at most one record per pair, and every record enrolled. |
| AttendanceController.AddAttendanceKeepsConsistent | qr_attendance_system/app/models/models.py:129-138 | Adding a record for an unmarked, enrolled pair of a stored session keeps the database consistent. |
| AttendanceController.SecondRedemptionRefused | qr_attendance_system/app/controllers/attendance_controller.py:64-89 | After a successful redemption, the same token is refused at any later time: as expired if the session has expired, otherwise as already marked. |
| AttendanceController.ExpiryBoundary | qr_attendance_system/app/controllers/attendance_controller.py:64-65 | At exactly the expiration instant the token is not refused as expired. One microsecond later it is. |
| AttendanceController.RosterLines | qr_attendance_system/app/controllers/attendance_controller.py:129-137 | The loop keeps one line per attendance whose student resolves. |
| AttendanceController.BuildRoster | qr_attendance_system/app/controllers/attendance_controller.py:125-147 | The roster holds one line per attendance of that session whose student exists, in query order. The total is the number of lines, which is the number of stored attendances of the session whose student exists. |
| AttendanceController.RosterCount | qr_attendance_system/app/controllers/attendance_controller.py:125-145 | The number of roster lines is the number of stored attendances of the session whose student is found. |
| AttendanceController.SessionAttendances | qr_attendance_system/app/controllers/attendance_controller.py:112-149 | Non-faculty callers get 403. Unless the session exists and belongs to the caller, the reply is 404. Otherwise every attendance of the session whose student exists is listed. The total is the length of the list, which is the number of such stored attendances. |
| AttendanceController.HistoryLines | qr_attendance_system/app/controllers/attendance_controller.py:168-178 | One line per attendance, in order. |
| AttendanceController.StudentHistory | qr_attendance_system/app/controllers/attendance_controller.py:151-185 | Non-students get 403, and no profile gives 404. Otherwise exactly the caller's attendances are listed in query order, one line each, with 'Unknown' course fields when the session or course is gone. The total is the number of stored attendance rows of the caller. |
| AdminController.UserEntry | qr_attendance_system/app/controllers/admin_controller.py:17-38 | A user's entry carries its profile's number and name only for a student or faculty user that has a profile. |
| AdminController.UserEntries | qr_attendance_system/app/controllers/admin_controller.py:14-40 | One entry per user, in query order. |
| AdminController.GetAllUsers | qr_attendance_system/app/controllers/admin_controller.py:9-47 | Non-admins get 403. Otherwise there is one entry per stored user, and the total is the user count. |
| AdminController.StudentEntryShowsProfile | qr_attendance_system/app/controllers/admin_controller.py:27-31 | In a consistent database, a student user's entry shows its profile's number and name. |
| AdminController.DeleteStudentKeepsCoupled | qr_attendance_system/app/controllers/admin_controller.py:59-66 | Deleting a profile together with its user keeps the user-profile coupling. |
| AdminController.DeleteStudentKeepsConsistent | qr_attendance_system/app/controllers/admin_controller.py:59-68 | Deleting a student and its user keeps the database consistent. |
| AdminController.DeleteStudent | qr_attendance_system/app/controllers/admin_controller.py:49-73 | Non-admins get 403 and an unknown id 404. A student with enrollments cannot be deleted: 500 after rollback. Each of these changes nothing. Otherwise exactly the student and its owning user are removed. |
| AdminController.Unassign | qr_attendance_system/app/models/models.py:76 | After a faculty member is deleted, no course names it, every other course is unchanged, and the keys and order stay the same. |
| AdminController.UnassignKeepsCodes | qr_attendance_system/app/models/models.py:72 | Clearing faculty references keeps course codes unique. |
| AdminController.DeleteFacultyKeepsCoupled | qr_attendance_system/app/controllers/admin_controller.py:85-92 | Deleting a profile together with its user keeps the coupling. |
| AdminController.DeleteFacultyKeepsConsistent | qr_attendance_system/app/controllers/admin_controller.py:85-94 | Deleting a faculty member, its user and its course assignments keeps the database consistent. |
| AdminController.DeleteFaculty | qr_attendance_system/app/controllers/admin_controller.py:75-99 | Non-admins get 403 and an unknown id 404, each changing nothing. Otherwise exactly the faculty member and its user are removed, and its courses are unassigned. |
| AdminController.AddCourseKeepsConsistent | qr_attendance_system/app/controllers/admin_controller.py:113-121 | Adding a course with an unused code keeps the database consistent. |
| AdminController.CreateCourse | qr_attendance_system/app/controllers/admin_controller.py:101-129 | Non-admins get 403 and a taken code 400, each changing nothing. Otherwise exactly one course is added. |
| AdminController.RemoveCourseKeepsConsistent | qr_attendance_system/app/controllers/admin_controller.py:136-141 | Removing a course keeps the database consistent. |
| AdminController.DeleteCourse | qr_attendance_system/app/controllers/admin_controller.py:131-146 | Non-admins get 403 and an unknown id 404. A course with enrollments or sessions gives 500 after rollback. Each of these changes nothing. Otherwise only that course is removed. |
| AdminController.EnrollCheckAccepts | qr_attendance_system/app/controllers/admin_controller.py:152-174 | The enrollment checks pass iff both ids are given, the student and the course exist, and the pair is not enrolled. |
| AdminController.AddEnrollmentKeepsConsistent | qr_attendance_system/app/models/models.py:95 | Adding an enrollment for an unenrolled pair keeps at most one enrollment per pair. |
| AdminController.SecondEnrollmentRefused | qr_attendance_system/app/controllers/admin_controller.py:158-164 | After an enrollment is added, enrolling the same pair again is refused as already enrolled. |
| AdminController.CreateEnrollment | qr_attendance_system/app/controllers/admin_controller.py:148-190 | Non-admins get 403. An existing pair gives 400, checked before existence. Then an unknown student gives 404, then an unknown course 404. Each failure changes nothing. Otherwise exactly one enrollment is added. |
| AdminController.RecentLines | qr_attendance_system/app/controllers/admin_controller.py:207-216 | The loop skips the enrollments whose student or course is missing. |
| AdminController.AdminDashboard | qr_attendance_system/app/controllers/admin_controller.py:192-227 | Non-admins get 403. Otherwise the four counts are the table sizes. The recent list is drawn from a valid answer of "the 5 latest enrollments, latest first", skipping missing students or courses, and has at most 5 lines. |
| Recent.LatestIsLatest | qr_attendance_system/app/controllers/admin_controller.py:204 | The computed answer has min(5, n) rows drawn from the enrollments, latest first, and no enrollment left out is later than the last row kept. |
| Recent.LatestStep | qr_attendance_system/app/controllers/admin_controller.py:204 | Inserting one more enrollment into a valid answer and cutting at the limit gives a valid answer for the longer list. |
| Recent.InsertKeepsOrder | qr_attendance_system/app/controllers/admin_controller.py:204 | Inserting a row into a latest-first list keeps it latest first. |
| Recent.InsertAdds | qr_attendance_system/app/controllers/admin_controller.py:204 | Inserting adds exactly that row. |

## Left out

- QR image rendering (qrcode, PNG, base64): only the text handed to the encoder is modelled.
- bcrypt: registration takes the hash as input, and login takes the check as a function
  parameter.
- JWT issuance and verification: the claims are inputs, and the login reply carries the
  claims a token would encode.
- uuid4 randomness, autoincrement keys and the clock are parameters, with freshness
  preconditions where the source relies on them.
- Datetime formatting (`strftime`, `isoformat`) and the display-only columns are not modelled:
  department, semester, created_at and email in listings other than the profile view.
- Request parsing is not modelled, and neither are the KeyError-to-500 paths of missing JSON
  keys, exact message strings and print logging. One of these paths changes the store:
  simple_app.py register_student and register_faculty add the user (lines 52 and 87) before
  they read the profile keys (lines 57-58 and 92-93). A request without those keys gets 500
  and leaves behind a user with no profile. `SimpleApp.App.RegisterStudent` and
  `SimpleApp.App.RegisterFaculty` model only requests that carry every key.
- The concurrent-redemption race in the SQL mark_attendance between the duplicate check and
  the insert. The model is sequential. The unique constraint is modelled by the invariant the
  check preserves, not by a commit-time failure.
- Database foreign-key enforcement beyond what the ORM does on delete.
- SQL result order: the model lists query results in insertion order. The source fixes no
  order for `.all()` queries without ORDER BY (attendance_controller.py lines 126 and 165,
  admin_controller.py line 14), so the database may return them in another order, for
  example the order of an index. Equal enrollment dates in `ORDER BY ... DESC` may come in
  any order, and `Recent.IsLatest` admits every such order.
- simple_app.py get_attendance_report: it uses `random` and floating-point percentages.
- simple_app.py index, api_info, the profile views, get_student_attendance_history,
  get_all_users, get_all_courses, get_all_sessions and get_admin_profile: these are read-only
  formatting of the same tables and are not part of this model.
- simple_app.py `__main__` (lines 635-665): before `app.run` it stores five sample rows: the
  admin user, the faculty user prof_smith with profile F001, the course CS101, and the
  student user john_doe with profile S001. `SimpleApp.App.constructor` starts from an empty
  store, so the model does not include these rows.
- demo.py main(): a console script printing the results of the modelled operations.
- qr_attendance_system/main.py (the Kivy client) and app/__init__.py (Flask wiring) are not
  part of this model.
- AttendanceController.CreateSession: like the source, it does not check that the course
  exists.
- Demo.AttendanceSystem.constructor: demo.py keeps one module-level `storage` (line 142), and
  every `QRAttendanceSystem()` adds the sample rows to it again (lines 147-149). The model
  gives each instance a store of its own that holds exactly the sample data. This matches
  main(), which creates one instance (line 325). A second instance in the source would also
  see the sessions and attendances that earlier instances recorded.

/** Vocabulary shared by every part of the attendance system model. */
module Common {

  datatype Option<+T> = None | Some(value: T)

  /** The role string a user account carries: 'student', 'faculty' or 'admin'. */
  datatype Role = StudentRole | FacultyRole | AdminRole

  /** What went wrong, one constructor per distinct error message family of the system. */
  datatype ErrorKind =
    | MissingField          // a required request field is absent or empty
    | InvalidCredentials    // unknown username or wrong password (one message for both)
    | Unauthorized          // no logged-in user, or the wrong role, under one message
    | NotLoggedIn           // no logged-in user ('Please login first')
    | MissingRole           // the caller's role is not the required one
    | InvalidAdminCode
    | DuplicateUsername
    | DuplicateEmail
    | DuplicateCourseCode
    | AlreadyEnrolled
    | ConstraintViolation   // a database unique constraint fired; the transaction was rolled back
    | InvalidToken          // no session carries the presented token
    | Expired               // session inactive or past its expiration
    | NoProfile             // the caller has no Student (or Faculty) profile
    | NotEnrolled
    | AlreadyMarked
    | UserNotFound
    | StudentNotFound
    | FacultyNotFound
    | CourseNotFound
    | SessionNotFound       // unknown session, or a session of another faculty member
    | NotOwner

  /** The outcome of an operation: a payload, or the kind of error. */
  datatype Result<+T> = Ok(value: T) | Err(kind: ErrorKind)

  /** An HTTP reply: a status code and the outcome it carries. */
  datatype Response<+T> = Response(status: int, body: Result<T>)

  /** A reply that carries no payload beyond its status. */
  datatype Done = Done

  function Fail<T>(status: int, kind: ErrorKind): Response<T>
  {
    Response(status, Err(kind))
  }
}

/**
  app/utils/helpers.py: the expiry computation of a time-bound QR code and the role gates
  that wrap every protected endpoint. Timestamps are integers counting microseconds, the
  resolution of Python's datetime; the clock reading `now` is always a parameter.
*/
module Helpers {
  import opened Common

  const MicrosPerMinute: int := 60_000_000

  /** The default duration_minutes of generate_time_bound_qr. */
  const DefaultDurationMinutes: int := 3

  /** now + timedelta(minutes=minutes) */
  function MinutesAfter(now: int, minutes: int): int
  {
    now + minutes * MicrosPerMinute
  }

  /**
    The expiry test that every redemption path applies before anything else about the
    session: `not session.is_active or session.qr_expiration < now`. The comparison is
    strict, so a token presented at exactly its expiration instant still passes.
  */
  predicate Expired(isActive: bool, expiration: int, now: int)
  {
    !isActive || expiration < now
  }

  /**
    What generate_time_bound_qr returns: the token, its expiration, and the text handed to
    the QR encoder (the image rendering itself is not part of this model).
  */
  datatype TimeBoundQr = TimeBoundQr(token: string, expiration: int, qrPayload: string)

  /**
    generate_time_bound_qr: `token` is the fresh uuid4 string the helper draws and `now` the
    clock reading; course_id and faculty_id are accepted by the source but never used.
  */
  function GenerateTimeBoundQr(token: string, now: int, durationMinutes: int := DefaultDurationMinutes)
    : (q: TimeBoundQr)
    ensures q.token == token && q.qrPayload == q.token
    ensures q.expiration - now == durationMinutes * MicrosPerMinute
    ensures forall t :: !Expired(true, q.expiration, t) <==> t <= now + durationMinutes * MicrosPerMinute
  {
    TimeBoundQr(token, MinutesAfter(now, durationMinutes), token)
  }

  /** The claims of a verified access token: the 'role' claim (absent if missing) and the user id. */
  datatype Claims = Claims(role: Option<Role>, userId: int)

  predicate HasRole(claims: Claims, required: Role)
  {
    claims.role == Some(required)
  }

  predicate HasAnyRole(claims: Claims, required: seq<Role>)
  {
    claims.role.Some? && claims.role.value in required
  }

  /**
    role_required(required)(view): the view runs, and its reply is returned, iff the role
    claim equals the required role; otherwise the reply is 403 and the view never runs.
  */
  function RoleRequired<T>(required: Role, view: Claims -> Response<T>, claims: Claims): (r: Response<T>)
    ensures HasRole(claims, required) ==> r == view(claims)
    ensures !HasRole(claims, required) ==> r == Fail(403, MissingRole)
  {
    if claims.role != Some(required) then Fail(403, MissingRole) else view(claims)
  }

  /** roles_required(required)(view): the same gate for a list of admitted roles. */
  function RolesRequired<T>(required: seq<Role>, view: Claims -> Response<T>, claims: Claims)
    : (r: Response<T>)
    ensures HasAnyRole(claims, required) ==> r == view(claims)
    ensures !HasAnyRole(claims, required) ==> r == Fail(403, MissingRole)
  {
    if claims.role.None? || claims.role.value !in required then Fail(403, MissingRole)
    else view(claims)
  }

  /** A single-role gate is the multi-role gate over a one-element list. */
  lemma RoleRequiredIsRolesRequiredOfOne<T>(required: Role, view: Claims -> Response<T>, claims: Claims)
    ensures RoleRequired(required, view, claims) == RolesRequired([required], view, claims)
  {
  }
}

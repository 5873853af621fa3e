/** The HTTP layer of the users module
    (crates/modules/users/src/delivery/http/handler.rs): how an error becomes
    a status and a body, the guards of the query endpoints, and the
    conversion of a user into its response shape. */
module UserHandler {
  import opened Wrappers
  import opened Numerals
  import opened Errors
  import opened UserEntity
  import opened UserDto

  /** An error response: the status code and the `ErrorResponse` body. */
  datatype ErrorBody = ErrorBody(status: nat, error: string, details: Option<seq<string>>)

  /** The text an error carries besides its id; `None` for the two id errors. */
  function Detail(e: RepositoryError): (d: Option<string>)
    ensures d.None? <==> e.NotFound? || e.AlreadyExists?
    ensures d.Some? ==> d.value == e.message
  {
    match e
    case NotFound(_) => None
    case AlreadyExists(_) => None
    case _ => Some(e.message)
  }

  /** `IntoResponse for AppError`. */
  function IntoResponse(e: RepositoryError): (r: ErrorBody)
    ensures e.NotFound? ==> r == ErrorBody(404, "Resource not found: " + UuidText(e.id), None)
    ensures e.AlreadyExists? ==> r == ErrorBody(409, "Resource already exists with id: " + UuidText(e.id), None)
    ensures e.ValidationError? ==> r == ErrorBody(400, "Validation failed", Some([e.message]))
    ensures e.DatabaseError? ==> r == ErrorBody(500, "Database error occurred", Some([e.message]))
    ensures e.InternalError? ==> r == ErrorBody(500, "Internal server error", Some([e.message]))
    ensures e.Unauthorized? ==> r == ErrorBody(401, "Unauthorized", Some([e.message]))
    ensures e.Forbidden? ==> r == ErrorBody(403, "Forbidden", Some([e.message]))
    ensures e.BadRequest? ==> r == ErrorBody(400, "Bad request", Some([e.message]))
  {
    match e
    case NotFound(id) => ErrorBody(404, "Resource not found: " + UuidText(id), None)
    case AlreadyExists(id) => ErrorBody(409, "Resource already exists with id: " + UuidText(id), None)
    case ValidationError(msg) => ErrorBody(400, "Validation failed", Some([msg]))
    case DatabaseError(msg) => ErrorBody(500, "Database error occurred", Some([msg]))
    case InternalError(msg) => ErrorBody(500, "Internal server error", Some([msg]))
    case Unauthorized(msg) => ErrorBody(401, "Unauthorized", Some([msg]))
    case Forbidden(msg) => ErrorBody(403, "Forbidden", Some([msg]))
    case BadRequest(msg) => ErrorBody(400, "Bad request", Some([msg]))
  }

  /** Every response is a client or server error; the 5xx ones are exactly
      the database and internal errors; the details are the error's own
      text, present exactly when the error carries one. */
  lemma ResponseClasses(e: RepositoryError)
    ensures 400 <= IntoResponse(e).status < 600
    ensures IntoResponse(e).status == 500 <==> e.DatabaseError? || e.InternalError?
    ensures IntoResponse(e).details == (if Detail(e).Some? then Some([Detail(e).value]) else None)
  {
  }

  /** The response tells the error apart: two errors with the same response
      are the same error. */
  lemma ResponseInjective(a: RepositoryError, b: RepositoryError)
    requires IntoResponse(a) == IntoResponse(b)
    ensures a == b
  {
    var ra, rb := IntoResponse(a), IntoResponse(b);
    if a.NotFound? || a.AlreadyExists? {
      PrefixedUuid(if a.NotFound? then "Resource not found: " else "Resource already exists with id: ", a.id, b.id);
    } else {
      assert ra.details.value[0] == Detail(a).value;
      var ea, eb := ra.error, rb.error;
      assert ea[0] == eb[0] && ea[|ea| - 1] == eb[|eb| - 1];
    }
  }

  lemma PrefixedUuid(p: string, a: Uuid, b: Uuid)
    requires p + UuidText(a) == p + UuidText(b)
    ensures a == b
  {
    assert UuidText(a) == (p + UuidText(a))[|p|..];
    assert UuidText(b) == (p + UuidText(b))[|p|..];
    UuidTextInjective(a, b);
  }

  /** `UserResponse::from`: the id as its hyphenated text, the four user
      fields unchanged, the times through the RFC 3339 formatter `rfc3339`. */
  function FromUser(u: User, rfc3339: Timestamp -> string): (r: UserResponse)
    ensures r.id == UuidText(u.id)
    ensures r.username == u.username && r.email == u.email && r.fullName == u.fullName && r.age == u.age
    ensures r.createdAt == rfc3339(u.createdAt) && r.updatedAt == rfc3339(u.updatedAt)
  {
    UserResponse(UuidText(u.id), u.username, u.email, u.fullName, u.age, rfc3339(u.createdAt), rfc3339(u.updatedAt))
  }

  /** The list endpoints' body: one response per user, in order, and the count. */
  function ListOf(users: seq<User>, rfc3339: Timestamp -> string): (r: UserListResponse)
    ensures r.total == |users| && |r.users| == |users|
    ensures forall i :: 0 <= i < |users| ==> r.users[i] == FromUser(users[i], rfc3339)
  {
    UserListResponse(seq(|users|, i requires 0 <= i < |users| => FromUser(users[i], rfc3339)), |users|)
  }

  /** The response of a successful create. */
  function Created(u: User, rfc3339: Timestamp -> string): (r: (nat, ApiResponse<UserResponse>))
    ensures r.0 == 201 && r.1 == Success(FromUser(u, rfc3339))
  {
    (201, Success(FromUser(u, rfc3339)))
  }

  /** The `AgeRangeQuery` rule: both bounds in [1, 150]. */
  predicate AgeRangeValid(minAge: I32, maxAge: I32) {
    1 <= minAge <= 150 && 1 <= maxAge <= 150
  }

  /** The guard of `filter_by_age_range`: the query rules first (their text,
      `rendered`, belongs to the validation library), then the order of the
      bounds. */
  function AgeRangeGuard(minAge: I32, maxAge: I32, rendered: string): (r: Result<(), RepositoryError>)
    ensures r.Ok? <==> AgeRangeValid(minAge, maxAge) && minAge <= maxAge
    ensures !AgeRangeValid(minAge, maxAge) ==> r == Err(ValidationError(rendered))
    ensures AgeRangeValid(minAge, maxAge) && minAge > maxAge ==>
      r == Err(ValidationError("min_age must be less than or equal to max_age"))
  {
    if !AgeRangeValid(minAge, maxAge) then Err(ValidationError(rendered))
    else if minAge > maxAge then Err(ValidationError("min_age must be less than or equal to max_age"))
    else Ok(())
  }

  /** A query the guard lets through never meets the service's own
      "Minimum age cannot be greater than maximum age" rejection, and a bad
      query is answered 400. */
  lemma AgeRangeGuardShieldsService(minAge: I32, maxAge: I32, rendered: string)
    ensures AgeRangeGuard(minAge, maxAge, rendered).Ok? ==> !(minAge > maxAge)
    ensures AgeRangeGuard(minAge, maxAge, rendered).Err? ==> IntoResponse(AgeRangeGuard(minAge, maxAge, rendered).error).status == 400
  {
  }

  /** The `UsernameQuery` rule: 1 to 50 characters. */
  predicate UsernameQueryValid(username: string) {
    LengthWithin(username, 1, 50)
  }

  /** `find_by_username` after the service's lookup `found`: the query rule,
      then a missing user is a validation error, not `NotFound`. */
  function UsernameAnswer(username: string, rendered: string, found: Option<User>, rfc3339: Timestamp -> string)
    : (r: Result<ApiResponse<UserResponse>, RepositoryError>)
    ensures !UsernameQueryValid(username) ==> r == Err(ValidationError(rendered))
    ensures UsernameQueryValid(username) && found.None? ==>
      r == Err(ValidationError("User not found with username: " + username))
    ensures UsernameQueryValid(username) && found.Some? ==> r == Ok(Success(FromUser(found.value, rfc3339)))
  {
    if !UsernameQueryValid(username) then Err(ValidationError(rendered))
    else if found.None? then Err(ValidationError("User not found with username: " + username))
    else Ok(Success(FromUser(found.value, rfc3339)))
  }

  /** An unknown username is answered 400 "Validation failed", never 404. */
  lemma UnknownUsernameIs400(username: string, rendered: string, rfc3339: Timestamp -> string)
    ensures var r := UsernameAnswer(username, rendered, None, rfc3339);
      r.Err? && IntoResponse(r.error).status == 400 && IntoResponse(r.error).error == "Validation failed"
  {
  }
}

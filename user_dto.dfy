/** The HTTP request and response shapes of the users module
    (crates/modules/users/src/delivery/http/dto/mod.rs): the validation bounds
    of the two request bodies and the response envelope. */
module UserDto {
  import opened Wrappers
  import opened Numerals

  datatype CreateUserDto = CreateUserDto(username: string, email: string, fullName: string, age: Option<I32>)

  datatype UpdateUserDto = UpdateUserDto(
    username: Option<string>, email: Option<string>, fullName: Option<string>, age: Option<I32>)

  /** A `length(min, max)` rule; the rule counts characters. */
  predicate LengthWithin(s: string, min: nat, max: nat) {
    min <= |s| <= max
  }

  /** A `range(min = 1, max = 150)` rule on an optional age: an absent age passes. */
  predicate AgeWithin(age: Option<I32>) {
    age.None? || 1 <= age.value <= 150
  }

  /** The `#[validate]` rules of `CreateUserDto`; `isEmail` is the `email`
      rule, whose definition belongs to the validation library. */
  predicate CreateValid(dto: CreateUserDto, isEmail: string -> bool) {
    && LengthWithin(dto.username, 3, 50)
    && isEmail(dto.email)
    && LengthWithin(dto.fullName, 2, 100)
    && AgeWithin(dto.age)
  }

  /** The rules of `UpdateUserDto`: the same bounds, each applied only to a
      field that is present. */
  predicate UpdateValid(dto: UpdateUserDto, isEmail: string -> bool) {
    && (dto.username.Some? ==> LengthWithin(dto.username.value, 3, 50))
    && (dto.email.Some? ==> isEmail(dto.email.value))
    && (dto.fullName.Some? ==> LengthWithin(dto.fullName.value, 2, 100))
    && AgeWithin(dto.age)
  }

  /** An update that sets every field is valid exactly when the create request
      with the same values is: the two bodies share their bounds. */
  lemma UpdateMatchesCreate(dto: CreateUserDto, isEmail: string -> bool)
    ensures UpdateValid(UpdateUserDto(Some(dto.username), Some(dto.email), Some(dto.fullName), dto.age), isEmail)
      <==> CreateValid(dto, isEmail)
  {
  }

  /** An empty update passes every rule. */
  lemma EmptyUpdateValid(isEmail: string -> bool)
    ensures UpdateValid(UpdateUserDto(None, None, None, None), isEmail)
  {
  }

  datatype UserResponse = UserResponse(
    id: string, username: string, email: string, fullName: string, age: Option<I32>,
    createdAt: string, updatedAt: string)

  datatype UserListResponse = UserListResponse(users: seq<UserResponse>, total: nat)

  datatype ApiResponse<T> = ApiResponse(success: bool, data: Option<T>, message: Option<string>)

  /** `ApiResponse::success`. */
  function Success<T>(data: T): (r: ApiResponse<T>)
    ensures r.success && r.data == Some(data) && r.message.None?
  {
    ApiResponse(true, Some(data), None)
  }

  /** `ApiResponse::error`. */
  function Failure<T>(message: string): (r: ApiResponse<T>)
    ensures !r.success && r.data.None? && r.message == Some(message)
  {
    ApiResponse(false, None, Some(message))
  }
}

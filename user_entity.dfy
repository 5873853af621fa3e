/** The user entity (src/internal/modules/users/domain/entities/user.rs): its
    record, its constructor and its validation rules. */
module UserEntity {
  import opened Wrappers
  import opened Numerals
  import opened Errors

  /** A point in time, as the clock gives it; treated as an opaque token. */
  type Timestamp = string

  datatype User = User(
    id: Uuid, username: string, email: string, fullName: string, age: Option<I32>,
    createdAt: Timestamp, updatedAt: Timestamp)

  /** `User::new`, with the generated id and the clock reading as inputs: it
      copies the four given fields and stamps both times with the same reading. */
  function NewUser(id: Uuid, username: string, email: string, fullName: string, age: Option<I32>, now: Timestamp): (u: User)
    ensures u.id == id && u.username == username && u.email == email
    ensures u.fullName == fullName && u.age == age
    ensures u.createdAt == now && u.updatedAt == now
  {
    User(id, username, email, fullName, age, now, now)
  }

  /** The four rules of `User::validate`, each on its own. */
  predicate UsernameMissing(u: User) { u.username == [] }
  predicate EmailInvalid(u: User) { u.email == [] || '@' !in u.email }
  predicate FullNameMissing(u: User) { u.fullName == [] }
  predicate AgeInvalid(u: User) { u.age.Some? && u.age.value > 150 }

  /** `User::validate`: the rules are checked in this order and the first that
      fails gives the error; the user passes exactly when none fails. An age of
      zero or below passes. */
  function Validate(u: User): (r: Result<(), string>)
    ensures r.Ok? <==> !UsernameMissing(u) && !EmailInvalid(u) && !FullNameMissing(u) && !AgeInvalid(u)
    ensures UsernameMissing(u) ==> r == Err("Username cannot be empty")
    ensures !UsernameMissing(u) && EmailInvalid(u) ==> r == Err("Invalid email address")
    ensures !UsernameMissing(u) && !EmailInvalid(u) && FullNameMissing(u) ==> r == Err("Full name cannot be empty")
    ensures !UsernameMissing(u) && !EmailInvalid(u) && !FullNameMissing(u) && AgeInvalid(u) ==> r == Err("Invalid age")
  {
    if u.username == [] then Err("Username cannot be empty")
    else if u.email == [] || '@' !in u.email then Err("Invalid email address")
    else if u.fullName == [] then Err("Full name cannot be empty")
    else if u.age.Some? && u.age.value > 150 then Err("Invalid age")
    else Ok(())
  }

  /** The empty-email test is subsumed by the '@' test: an email passes exactly
      when it holds an '@'. */
  lemma EmailRule(u: User)
    ensures EmailInvalid(u) <==> '@' !in u.email
  {
  }
}

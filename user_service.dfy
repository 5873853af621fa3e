/** The business rules of the users module
    (crates/modules/users/src/service/service.rs) over the in-memory user
    repository: availability checks before create and update, the existence
    check before delete, the age-range guard and the statistics counts. */
module UserService {
  import opened Wrappers
  import opened Numerals
  import opened Errors
  import opened Grouping
  import opened BaseRepository
  import opened UserEntity
  import opened UserDto
  import opened UserRepository

  /** Some stored user holds `value` in field `f`. */
  ghost predicate Held(m: Users, f: Field, value: string) {
    exists k :: k in m && FieldOf(m[k], f) == value
  }

  /** The lookup the service does through `find_by_username` /
      `find_by_email` finds a user exactly when one holds the value, in
      whatever order the map is scanned. */
  lemma FindFindsHeld(m: Users, order: seq<Uuid>, f: Field, value: string)
    requires Enumerates(order, m.Keys)
    ensures FindFirst(ValuesIn(m, order), f, value).Some? <==> Held(m, f, value)
  {
    var all := ValuesIn(m, order);
    ValuesOfAll(m, order);
    if Held(m, f, value) {
      var k :| k in m && FieldOf(m[k], f) == value;
      assert m[k] in all;
    }
    if FindFirst(all, f, value).Some? {
      var u := FindFirst(all, f, value).value;
      var k :| k in m && m[k] == u;
      assert FieldOf(m[k], f) == value;
    }
  }

  /** The service's own rejection of a value in use; for an email its text
      differs from the repository's. */
  function InUseError(f: Field, value: string): (e: RepositoryError)
    ensures f == Username ==> e == ValidationError("Username '" + value + "' is already taken")
    ensures f == Email ==> e == ValidationError("Email '" + value + "' is already registered")
  {
    match f
    case Username => ValidationError("Username '" + value + "' is already taken")
    case Email => ValidationError("Email '" + value + "' is already registered")
  }

  /** `create_user`: the username check, then the email check, then the
      repository's `create_user` (`User::new` and `save`). */
  ghost function CreateSpec(m: Users, dto: CreateUserDto, id: Uuid, now: Timestamp, c: Copy): Change {
    if Held(m, Username, dto.username) then Change(m, Err(InUseError(Username, dto.username)))
    else if Held(m, Email, dto.email) then Change(m, Err(InUseError(Email, dto.email)))
    else SaveSpec(m, NewUser(id, dto.username, dto.email, dto.fullName, dto.age, now), c)
  }

  /** A field the update request changes to a value another user holds. */
  ghost predicate ChangesToHeld(m: Users, id: Uuid, given: Option<string>, f: Field)
    requires id in m
  {
    given.Some? && given.value != FieldOf(m[id], f) && Held(m, f, given.value)
  }

  /** `update_user`: `NotFound(id)` first; then a given username, and then a
      given email, is checked only when it differs from the stored one; then
      the repository's `update_user`. */
  ghost function UpdateServiceSpec(m: Users, id: Uuid, dto: UpdateUserDto, c: Copy): Change {
    if id !in m then Change(m, Err(NotFound(id)))
    else if ChangesToHeld(m, id, dto.username, Username) then Change(m, Err(InUseError(Username, dto.username.value)))
    else if ChangesToHeld(m, id, dto.email, Email) then Change(m, Err(InUseError(Email, dto.email.value)))
    else UpdateUserSpec(m, id, dto, c)
  }

  /** A rejected create leaves the store as it was; an accepted one adds the
      new user under its id and nothing else; a username or email in use is
      always rejected, the username reported first. */
  lemma CreateOutcome(m: Users, dto: CreateUserDto, id: Uuid, now: Timestamp, c: Copy)
    ensures var ch := CreateSpec(m, dto, id, now, c);
      && (ch.result.Err? ==> ch.users == m)
      && (ch.result.Ok? ==> ch.result.value == NewUser(id, dto.username, dto.email, dto.fullName, dto.age, now)
                            && id !in m && ch.users == m[id := ch.result.value])
      && (Held(m, Username, dto.username) ==> ch.result == Err(InUseError(Username, dto.username)))
      && (!Held(m, Username, dto.username) && Held(m, Email, dto.email) ==> ch.result == Err(InUseError(Email, dto.email)))
  {
    if !Held(m, Username, dto.username) && !Held(m, Email, dto.email) {
      SaveOutcome(m, NewUser(id, dto.username, dto.email, dto.fullName, dto.age, now), c);
    }
  }

  /** The service's checks come first, so a create never surfaces the
      repository's "already taken" rejection of an email. */
  lemma CreateReportsRegistered(m: Users, dto: CreateUserDto, id: Uuid, now: Timestamp, c: Copy)
    ensures CreateSpec(m, dto, id, now, c).result != Err(TakenError(Email, dto.email))
  {
    var u := NewUser(id, dto.username, dto.email, dto.fullName, dto.age, now);
    InUseNotTaken(dto.username, dto.email);
    if !Held(m, Username, dto.username) && !Held(m, Email, dto.email) {
      assert DuplicateCheck(m, Username, u.username, None).Ok?;
      assert DuplicateCheck(m, Email, u.email, None).Ok?;
      ValidateNotTaken(u, dto.email);
      DuplicateKeyNotTaken(c, dto.email);
    }
  }

  /** The service's own rejections are not the repository's text. */
  lemma InUseNotTaken(username: string, email: string)
    ensures InUseError(Username, username) != TakenError(Email, email)
    ensures InUseError(Email, email) != TakenError(Email, email)
  {
    var taken := "Email '" + email + "' is already taken";
    assert taken[0] == 'E';
    assert InUseError(Username, username).message[0] == 'U';
    assert |InUseError(Email, email).message| != |taken|;
  }

  /** No rejection of `User::validate` reads like a taken email. */
  lemma ValidateNotTaken(u: User, email: string)
    ensures Validate(u).Err? ==> FromString(Validate(u).error) != TakenError(Email, email)
  {
    var taken := "Email '" + email + "' is already taken";
    assert taken[0] == 'E';
    var v := Validate(u);
    assert v.Err? ==> v.error[0] != 'E';
  }

  /** Nor does the rejection of a present key. */
  lemma DuplicateKeyNotTaken(c: Copy, email: string)
    ensures DuplicateKeyError(c) != TakenError(Email, email)
  {
    var taken := "Email '" + email + "' is already taken";
    assert taken[1] == 'm';
    if c == Application {
      assert "Entity with this ID already exists"[1] == 'n';
    }
  }

  /** `create_user` keeps usernames and emails unique and users keyed by id. */
  lemma CreateKeepsInvariants(m: Users, dto: CreateUserDto, id: Uuid, now: Timestamp, c: Copy)
    requires UniqueFields(m) && KeyedById(m)
    ensures UniqueFields(CreateSpec(m, dto, id, now, c).users) && KeyedById(CreateSpec(m, dto, id, now, c).users)
  {
    SaveKeepsInvariants(m, NewUser(id, dto.username, dto.email, dto.fullName, dto.age, now), c);
  }

  /** `update_user` keeps usernames and emails unique and users keyed by id. */
  lemma UpdateServiceKeepsInvariants(m: Users, id: Uuid, dto: UpdateUserDto, c: Copy)
    requires UniqueFields(m) && KeyedById(m)
    ensures UniqueFields(UpdateServiceSpec(m, id, dto, c).users) && KeyedById(UpdateServiceSpec(m, id, dto, c).users)
  {
    UpdateUserKeepsInvariants(m, id, dto, c);
  }

  /** A missing id is reported before anything else and changes nothing; a
      rejected update changes nothing. */
  lemma UpdateServiceOutcome(m: Users, id: Uuid, dto: UpdateUserDto, c: Copy)
    ensures id !in m ==> UpdateServiceSpec(m, id, dto, c) == Change(m, Err(NotFound(id)))
    ensures UpdateServiceSpec(m, id, dto, c).result.Err? ==> UpdateServiceSpec(m, id, dto, c).users == m
  {
    if id in m && !ChangesToHeld(m, id, dto.username, Username) && !ChangesToHeld(m, id, dto.email, Email) {
      UpdateOutcome(m, id, Patch(m[id], dto), c);
    }
  }

  /** Resubmitting a user's own username and email passes the service's
      checks: a value equal to the stored one is not looked up. */
  lemma UpdateWithOwnValues(m: Users, id: Uuid, c: Copy)
    requires id in m
    ensures var dto := UpdateUserDto(Some(m[id].username), Some(m[id].email), None, None);
      UpdateServiceSpec(m, id, dto, c) == UpdateUserSpec(m, id, dto, c)
  {
  }

  /** The counts of `get_statistics`. */
  datatype Statistics = Statistics(totalUsers: nat, usersWithAge: nat)

  /** `filter_map(|u| u.age)`: the ages that are present, in order. */
  function Ages(users: seq<User>): (r: seq<I32>)
    ensures |r| <= |users|
    ensures forall a :: a in r <==> exists i :: 0 <= i < |users| && users[i].age == Some(a)
  {
    if users == [] then []
    else
      var rest := Ages(users[1..]);
      assert forall i :: 0 < i < |users| ==> users[i] == users[1..][i - 1];
      assert forall i :: 0 <= i < |users[1..]| ==> users[1..][i] == users[i + 1];
      if users[0].age.Some? then [users[0].age.value] + rest else rest
  }

  function StatisticsOf(users: seq<User>): Statistics {
    Statistics(|users|, |Ages(users)|)
  }

  /** The keys whose user has an age. */
  ghost function KeysWithAge(m: Users): set<Uuid> {
    set k | k in m && m[k].age.Some?
  }

  lemma {:induction false} AgesCount(m: Users, order: seq<Uuid>)
    requires Distinct(order) && forall k :: k in order ==> k in m
    ensures |Ages(ValuesIn(m, order))| == |set k | k in order && m[k].age.Some?|
  {
    if order != [] {
      var rest := order[1..];
      DistinctTail(order);
      AgesCount(m, rest);
      var vs := ValuesIn(m, order);
      assert vs[1..] == ValuesIn(m, rest);
      assert |Ages(vs)| == (if vs[0].age.Some? then 1 else 0) + |Ages(vs[1..])|;
      WithAgeStep(m, order);
    }
  }

  /** Counting the keys with an age, one key at a time. */
  lemma WithAgeStep(m: Users, order: seq<Uuid>)
    requires order != [] && order[0] !in order[1..] && forall k :: k in order ==> k in m
    requires forall k :: k in order <==> k == order[0] || k in order[1..]
    ensures |set k | k in order && m[k].age.Some?|
         == (if m[order[0]].age.Some? then 1 else 0) + |set k | k in order[1..] && m[k].age.Some?|
  {
    var s := set k | k in order[1..] && m[k].age.Some?;
    if m[order[0]].age.Some? {
      assert (set k | k in order && m[k].age.Some?) == {order[0]} + s;
    } else {
      assert (set k | k in order && m[k].age.Some?) == s;
    }
  }

  /** Whatever the scan order, `total_users` is the number of stored users
      and `users_with_age` the number of them that have an age. */
  lemma StatisticsCounts(m: Users, order: seq<Uuid>)
    requires Enumerates(order, m.Keys)
    ensures StatisticsOf(ValuesIn(m, order)) == Statistics(|m|, |KeysWithAge(m)|)
  {
    ValuesOfAll(m, order);
    AgesCount(m, order);
    assert (set k | k in order && m[k].age.Some?) == KeysWithAge(m);
  }

  class UserService {
    const repository: InMemoryUserRepository

    /** `new`: the service over a given repository. */
    constructor (repository: InMemoryUserRepository)
      ensures this.repository == repository
    {
      this.repository := repository;
    }

    function Users(): Users
      reads repository.base.storage
    {
      repository.Users()
    }

    method CreateUser(dto: CreateUserDto, id: Uuid, now: Timestamp, order: seq<Uuid>)
      returns (r: Result<User, RepositoryError>)
      requires Enumerates(order, Users().Keys)
      modifies repository.base.storage
      ensures Users() == CreateSpec(old(Users()), dto, id, now, repository.base.copy).users
      ensures r == CreateSpec(old(Users()), dto, id, now, repository.base.copy).result
    {
      var byName := repository.FindBy(Username, dto.username, order);
      FindFindsHeld(Users(), order, Username, dto.username);
      if byName.Some? {
        return Err(InUseError(Username, dto.username));
      }
      var byEmail := repository.FindBy(Email, dto.email, order);
      FindFindsHeld(Users(), order, Email, dto.email);
      if byEmail.Some? {
        return Err(InUseError(Email, dto.email));
      }
      r := repository.CreateUser(dto, id, now, order);
    }

    method GetUser(id: Uuid) returns (r: Result<User, RepositoryError>)
      ensures id in Users() ==> r == Ok(Users()[id])
      ensures id !in Users() ==> r == Err(NotFound(id))
    {
      var found := repository.FindById(id);
      if found.None? {
        return Err(NotFound(id));
      }
      r := Ok(found.value);
    }

    method GetAllUsers(order: seq<Uuid>) returns (r: seq<User>)
      requires Enumerates(order, Users().Keys)
      ensures r == ValuesIn(Users(), order)
    {
      r := repository.FindAll(order);
    }

    method UpdateUser(id: Uuid, dto: UpdateUserDto, order: seq<Uuid>) returns (r: Result<User, RepositoryError>)
      requires Enumerates(order, Users().Keys)
      modifies repository.base.storage
      ensures Users() == UpdateServiceSpec(old(Users()), id, dto, repository.base.copy).users
      ensures r == UpdateServiceSpec(old(Users()), id, dto, repository.base.copy).result
    {
      var found := repository.FindById(id);
      if found.None? {
        return Err(NotFound(id));
      }
      var existing := found.value;
      var name := CheckAvailable(dto.username, Username, existing.username, order);
      if name.Err? {
        return Err(name.error);
      }
      var email := CheckAvailable(dto.email, Email, existing.email, order);
      if email.Err? {
        return Err(email.error);
      }
      r := repository.UpdateUser(id, dto, order);
    }

    /** One availability check of `update_user`: a given value that differs
        from the current one is looked up. */
    method CheckAvailable(given: Option<string>, f: Field, current: string, order: seq<Uuid>)
      returns (r: Result<(), RepositoryError>)
      requires Enumerates(order, Users().Keys)
      ensures r.Err? <==> given.Some? && given.value != current && Held(Users(), f, given.value)
      ensures r.Err? ==> r.error == InUseError(f, given.value)
    {
      if given.Some? && given.value != current {
        var other := repository.FindBy(f, given.value, order);
        FindFindsHeld(Users(), order, f, given.value);
        if other.Some? {
          return Err(InUseError(f, given.value));
        }
      }
      r := Ok(());
    }

    /** `delete_user`: a missing id is `NotFound(id)`; otherwise the user is
        removed and the call returns `Ok(true)`. */
    method DeleteUser(id: Uuid) returns (r: Result<bool, RepositoryError>)
      modifies repository.base.storage
      ensures id !in old(Users()) ==> r == Err(NotFound(id)) && Users() == old(Users())
      ensures id in old(Users()) ==> r == Ok(true) && Users() == old(Users()) - {id}
    {
      var present := repository.Exists(id);
      if !present {
        return Err(NotFound(id));
      }
      var removed := repository.Delete(id);
      r := Ok(removed);
    }

    method FindByUsername(username: string, order: seq<Uuid>) returns (r: Option<User>)
      requires Enumerates(order, Users().Keys)
      ensures r.Some? <==> Held(Users(), Username, username)
      ensures r.Some? ==> r.value in Users().Values && r.value.username == username
    {
      r := repository.FindBy(Username, username, order);
      FindFindsHeld(Users(), order, Username, username);
      ValuesOfAll(Users(), order);
    }

    method FindByEmail(email: string, order: seq<Uuid>) returns (r: Option<User>)
      requires Enumerates(order, Users().Keys)
      ensures r.Some? <==> Held(Users(), Email, email)
      ensures r.Some? ==> r.value in Users().Values && r.value.email == email
    {
      r := repository.FindBy(Email, email, order);
      FindFindsHeld(Users(), order, Email, email);
      ValuesOfAll(Users(), order);
    }

    /** `get_users_by_age_range`: `min > max` is rejected before the
        repository is asked. */
    method GetUsersByAgeRange(min: I32, max: I32, order: seq<Uuid>) returns (r: Result<seq<User>, RepositoryError>)
      requires Enumerates(order, Users().Keys)
      ensures min > max ==> r == Err(ValidationError("Minimum age cannot be greater than maximum age"))
      ensures min <= max ==> r == Ok(AgeFilter(ValuesIn(Users(), order), min, max))
    {
      if min > max {
        return Err(ValidationError("Minimum age cannot be greater than maximum age"));
      }
      var found := repository.FindByAgeRange(min, max, order);
      r := Ok(found);
    }

    method GetUserCount() returns (n: nat)
      ensures n == |Users()|
    {
      n := repository.Count();
    }

    /** `get_statistics`, without the average age. */
    method GetStatistics(order: seq<Uuid>) returns (s: Statistics)
      requires Enumerates(order, Users().Keys)
      ensures s == Statistics(|Users()|, |KeysWithAge(Users())|)
    {
      var all := repository.FindAll(order);
      s := StatisticsOf(all);
      StatisticsCounts(Users(), order);
    }
  }
}

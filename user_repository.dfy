/** The in-memory user repository, in its two identical copies
    (crates/modules/users/src/repositories/repository.rs and
    src/internal/modules/users/repositories/repository.rs), layered on the
    base repository of the same copy. */
module UserRepository {
  import opened Wrappers
  import opened Numerals
  import opened Errors
  import opened Grouping
  import opened BaseRepository
  import opened UserEntity
  import opened UserDto

  /** The stored users, by storage key. */
  type Users = map<Uuid, User>

  datatype Field = Username | Email

  function FieldOf(u: User, f: Field): string {
    match f
    case Username => u.username
    case Email => u.email
  }

  /** The rejection of a value that another user already holds. */
  function TakenError(f: Field, value: string): (e: RepositoryError)
    ensures f == Username ==> e == ValidationError("Username '" + value + "' is already taken")
    ensures f == Email ==> e == ValidationError("Email '" + value + "' is already taken")
  {
    match f
    case Username => ValidationError("Username '" + value + "' is already taken")
    case Email => ValidationError("Email '" + value + "' is already taken")
  }

  /** A stored user that the duplicate check counts against `value`: it holds
      the value and its own `id` field is not the excluded id. */
  predicate Clashes(u: User, f: Field, value: string, exclude: Option<Uuid>) {
    FieldOf(u, f) == value && (exclude.None? || u.id != exclude.value)
  }

  /** `check_duplicate_username` / `check_duplicate_email`: the scan fails as
      soon as it meets a clashing user, so its outcome does not depend on the
      order of the scan. */
  function DuplicateCheck(m: Users, f: Field, value: string, exclude: Option<Uuid>): Result<(), RepositoryError> {
    if exists k :: k in m && Clashes(m[k], f, value, exclude) then Err(TakenError(f, value)) else Ok(())
  }

  /** A store change: the users afterwards and what the call returned. */
  datatype Change = Change(users: Users, result: Result<User, RepositoryError>)

  /** `save`: validate, check the username, then the email, then insert under
      the entity's own id. */
  function SaveSpec(m: Users, e: User, c: Copy): Change {
    var v := Validate(e);
    if v.Err? then Change(m, Err(FromString(v.error)))
    else
      var du := DuplicateCheck(m, Username, e.username, None);
      if du.Err? then Change(m, Err(du.error))
      else
        var de := DuplicateCheck(m, Email, e.email, None);
        if de.Err? then Change(m, Err(de.error))
        else if e.id in m then Change(m, Err(DuplicateKeyError(c)))
        else Change(m[e.id := e], Ok(e))
  }

  /** `update` as written: validate, check username and email excluding users
      whose `id` field is `id`, then replace the value stored under `id`. */
  function UpdateSpec(m: Users, id: Uuid, e: User, c: Copy): Change {
    var v := Validate(e);
    if v.Err? then Change(m, Err(FromString(v.error)))
    else
      var du := DuplicateCheck(m, Username, e.username, Some(id));
      if du.Err? then Change(m, Err(du.error))
      else
        var de := DuplicateCheck(m, Email, e.email, Some(id));
        if de.Err? then Change(m, Err(de.error))
        else if id !in m then Change(m, Err(MissingKeyError(c)))
        else Change(m[id := e], Ok(e))
  }

  /** No two stored users share a username, and none share an email. */
  ghost predicate UniqueFields(m: Users) {
    forall a, b :: a in m && b in m && a != b ==>
      m[a].username != m[b].username && m[a].email != m[b].email
  }

  /** Every user is stored under its own id. */
  ghost predicate KeyedById(m: Users) {
    forall k :: k in m ==> m[k].id == k
  }

  /** `save` succeeds exactly when the user is valid, holds no username or
      email already stored, and its id is new; a rejection changes nothing.
      Validation comes first, then the username, then the email. */
  lemma SaveOutcome(m: Users, e: User, c: Copy)
    ensures var ch := SaveSpec(m, e, c);
      && (ch.result.Ok? <==>
            && Validate(e).Ok?
            && (forall k :: k in m ==> m[k].username != e.username && m[k].email != e.email)
            && e.id !in m)
      && (ch.result.Ok? ==> ch.users == m[e.id := e] && ch.result.value == e)
      && (ch.result.Err? ==> ch.users == m)
      && (Validate(e).Err? ==> ch.result == Err(ValidationError(Validate(e).error)))
      && (Validate(e).Ok? && (exists k :: k in m && m[k].username == e.username) ==>
            ch.result == Err(ValidationError("Username '" + e.username + "' is already taken")))
      && (Validate(e).Ok? && (forall k :: k in m ==> m[k].username != e.username)
          && (exists k :: k in m && m[k].email == e.email) ==>
            ch.result == Err(ValidationError("Email '" + e.email + "' is already taken")))
      && ((&& Validate(e).Ok?
           && (forall k :: k in m ==> m[k].username != e.username && m[k].email != e.email)
           && e.id in m) ==> ch.result == Err(DuplicateKeyError(c)))
  {
    if Validate(e).Ok? && e.id !in m && forall k :: k in m ==> m[k].username != e.username && m[k].email != e.email {
      assert DuplicateCheck(m, Username, e.username, None).Ok?;
      assert DuplicateCheck(m, Email, e.email, None).Ok?;
    }
    if SaveSpec(m, e, c).result.Ok? {
      forall k | k in m ensures m[k].username != e.username && m[k].email != e.email {
        assert !Clashes(m[k], Username, e.username, None);
        assert !Clashes(m[k], Email, e.email, None);
      }
    }
  }

  /** `save` keeps both store invariants. */
  lemma SaveKeepsInvariants(m: Users, e: User, c: Copy)
    requires UniqueFields(m) && KeyedById(m)
    ensures UniqueFields(SaveSpec(m, e, c).users) && KeyedById(SaveSpec(m, e, c).users)
  {
    var ch := SaveSpec(m, e, c);
    if ch.result.Ok? {
      assert DuplicateCheck(m, Username, e.username, None).Ok?;
      assert DuplicateCheck(m, Email, e.email, None).Ok?;
      forall k | k in m ensures m[k].username != e.username && m[k].email != e.email {
        assert !Clashes(m[k], Username, e.username, None);
        assert !Clashes(m[k], Email, e.email, None);
      }
    }
  }

  /** `update` succeeds exactly when the entity is valid, no stored user
      other than those whose own `id` field is `id` holds its username or
      email, and `id` is a stored key; then exactly that key's value is
      replaced. Validation comes first, then the username, then the email,
      then the key; a rejection changes nothing. */
  lemma UpdateOutcome(m: Users, id: Uuid, e: User, c: Copy)
    ensures var ch := UpdateSpec(m, id, e, c);
      && (ch.result.Ok? <==>
            && Validate(e).Ok?
            && (forall k :: k in m && m[k].id != id ==> m[k].username != e.username)
            && (forall k :: k in m && m[k].id != id ==> m[k].email != e.email)
            && id in m)
      && (ch.result.Ok? ==> ch.users == m[id := e] && ch.result.value == e)
      && (ch.result.Err? ==> ch.users == m)
      && (Validate(e).Err? ==> ch.result == Err(ValidationError(Validate(e).error)))
      && (Validate(e).Ok? && (exists k :: k in m && m[k].id != id && m[k].username == e.username) ==>
            ch.result == Err(ValidationError("Username '" + e.username + "' is already taken")))
      && (Validate(e).Ok? && (forall k :: k in m && m[k].id != id ==> m[k].username != e.username)
          && (exists k :: k in m && m[k].id != id && m[k].email == e.email) ==>
            ch.result == Err(ValidationError("Email '" + e.email + "' is already taken")))
      && ((&& Validate(e).Ok?
           && (forall k :: k in m && m[k].id != id ==> m[k].username != e.username && m[k].email != e.email)
           && id !in m) ==> ch.result == Err(MissingKeyError(c)))
  {
    if Validate(e).Ok? {
      assert DuplicateCheck(m, Username, e.username, Some(id)).Ok? <==>
        forall k :: k in m && m[k].id != id ==> m[k].username != e.username;
      assert DuplicateCheck(m, Email, e.email, Some(id)).Ok? <==>
        forall k :: k in m && m[k].id != id ==> m[k].email != e.email;
    }
  }

  /** The duplicate checks of `update` exclude the stored user being replaced
      when users are stored under their own ids and the entity keeps its id:
      then `update` keeps both invariants. */
  lemma UpdateKeepsInvariants(m: Users, id: Uuid, e: User, c: Copy)
    requires UniqueFields(m) && KeyedById(m) && e.id == id
    ensures UniqueFields(UpdateSpec(m, id, e, c).users) && KeyedById(UpdateSpec(m, id, e, c).users)
  {
    UpdateAgreesWhenKeyed(m, id, e, c);
    UpdateByKeyKeepsUnique(m, id, e, c);
  }

  /** `update` with the duplicate checks excluding the storage key `id`
      rather than users whose `id` field is `id`. */
  function UpdateByKeySpec(m: Users, id: Uuid, e: User, c: Copy): Change {
    var v := Validate(e);
    if v.Err? then Change(m, Err(FromString(v.error)))
    else if exists k :: k in m && k != id && m[k].username == e.username then
      Change(m, Err(TakenError(Username, e.username)))
    else if exists k :: k in m && k != id && m[k].email == e.email then
      Change(m, Err(TakenError(Email, e.email)))
    else if id !in m then Change(m, Err(MissingKeyError(c)))
    else Change(m[id := e], Ok(e))
  }

  /** Excluding by storage key, `update` keeps usernames and emails unique
      whatever entity it is given. */
  lemma UpdateByKeyKeepsUnique(m: Users, id: Uuid, e: User, c: Copy)
    requires UniqueFields(m)
    ensures UniqueFields(UpdateByKeySpec(m, id, e, c).users)
    ensures KeyedById(m) && e.id == id ==> KeyedById(UpdateByKeySpec(m, id, e, c).users)
  {
  }

  /** On a store keyed by id, the two exclusions agree. */
  lemma UpdateAgreesWhenKeyed(m: Users, id: Uuid, e: User, c: Copy)
    requires KeyedById(m)
    ensures UpdateSpec(m, id, e, c) == UpdateByKeySpec(m, id, e, c)
  {
    forall f: Field, value: string
      ensures DuplicateCheck(m, f, value, Some(id)).Ok? <==>
        forall k :: k in m && k != id ==> FieldOf(m[k], f) != value
    {
    }
  }

  function UserAt(n: U128, username: string, email: string): User {
    User(Uuid(n), username, email, "N", None, "t", "t")
  }

  /** As written, two accepted `update` calls leave two stored users with the
      same username: the first stores a user whose `id` field is 2 under key
      1, and the second, updating key 2, then excludes both users whose `id`
      field is 2 from its check. */
  lemma UpdateBreaksUniqueness()
    ensures var m0 := map[Uuid(1) := UserAt(1, "a", "a@"), Uuid(2) := UserAt(2, "b", "b@")];
      var s1 := UpdateSpec(m0, Uuid(1), UserAt(2, "c", "c@"), Workspace);
      var s2 := UpdateSpec(s1.users, Uuid(2), UserAt(2, "c", "d@"), Workspace);
      && UniqueFields(m0) && KeyedById(m0)
      && s1.result.Ok? && s2.result.Ok?
      && s2.users[Uuid(1)].username == s2.users[Uuid(2)].username
      && !UniqueFields(s2.users)
  {
    var m0 := map[Uuid(1) := UserAt(1, "a", "a@"), Uuid(2) := UserAt(2, "b", "b@")];
    var m1 := FirstUpdate(m0);
    var m2 := SecondUpdate(m1);
    assert Uuid(1) != Uuid(2);
  }

  lemma FirstUpdate(m0: Users) returns (m1: Users)
    requires m0 == map[Uuid(1) := UserAt(1, "a", "a@"), Uuid(2) := UserAt(2, "b", "b@")]
    ensures m1 == m0[Uuid(1) := UserAt(2, "c", "c@")]
    ensures UpdateSpec(m0, Uuid(1), UserAt(2, "c", "c@"), Workspace) == Change(m1, Ok(UserAt(2, "c", "c@")))
  {
    var u := UserAt(2, "c", "c@");
    assert u.email[1] == '@';
    assert forall k :: k in m0 ==> k == Uuid(1) || k == Uuid(2);
    assert DuplicateCheck(m0, Username, "c", Some(Uuid(1))).Ok?;
    assert DuplicateCheck(m0, Email, "c@", Some(Uuid(1))).Ok?;
    m1 := m0[Uuid(1) := u];
  }

  lemma SecondUpdate(m1: Users) returns (m2: Users)
    requires m1 == map[Uuid(1) := UserAt(2, "c", "c@"), Uuid(2) := UserAt(2, "b", "b@")]
    ensures m2 == m1[Uuid(2) := UserAt(2, "c", "d@")]
    ensures UpdateSpec(m1, Uuid(2), UserAt(2, "c", "d@"), Workspace) == Change(m2, Ok(UserAt(2, "c", "d@")))
  {
    var u := UserAt(2, "c", "d@");
    assert u.email[1] == '@';
    assert forall k :: k in m1 ==> k == Uuid(1) || k == Uuid(2);
    assert DuplicateCheck(m1, Username, "c", Some(Uuid(2))).Ok?;
    assert DuplicateCheck(m1, Email, "d@", Some(Uuid(2))).Ok?;
    m2 := m1[Uuid(2) := u];
  }

  /** Position `i` holds the first user with the value in field `f`. */
  predicate FirstAt(users: seq<User>, f: Field, value: string, i: int) {
    && 0 <= i < |users| && FieldOf(users[i], f) == value
    && forall j :: 0 <= j < i ==> FieldOf(users[j], f) != value
  }

  /** The first user with the value in field `f`, in scan order:
      `into_iter().find(...)`. */
  function FindFirst(users: seq<User>, f: Field, value: string): (r: Option<User>)
    ensures r.Some? ==> r.value in users && FieldOf(r.value, f) == value
    ensures r.None? <==> forall u :: u in users ==> FieldOf(u, f) != value
    ensures r.Some? ==> exists i :: FirstAt(users, f, value, i) && users[i] == r.value
  {
    if users == [] then None
    else if FieldOf(users[0], f) == value then Some(users[0])
    else
      var r := FindFirst(users[1..], f, value);
      assert forall u :: u in users ==> u == users[0] || u in users[1..];
      if r.Some? then
        var i :| FirstAt(users[1..], f, value, i) && users[1..][i] == r.value;
        assert users[i + 1] == r.value;
        assert FirstAt(users, f, value, i + 1) by {
          forall j | 0 <= j < i + 1 ensures FieldOf(users[j], f) != value {
            if j > 0 {
              assert users[j] == users[1..][j - 1];
            }
          }
        }
        r
      else r
  }

  /** With unique usernames and emails, the lookup finds the one user holding
      the value, whatever the scan order. */
  lemma FindUnique(m: Users, order: seq<Uuid>, f: Field, value: string)
    requires UniqueFields(m) && Enumerates(order, m.Keys)
    ensures var r := FindFirst(ValuesIn(m, order), f, value);
      && (r.None? <==> forall k :: k in m ==> FieldOf(m[k], f) != value)
      && (forall k :: k in m && FieldOf(m[k], f) == value ==> r == Some(m[k]))
  {
    ValuesOfAll(m, order);
    var r := FindFirst(ValuesIn(m, order), f, value);
    forall k | k in m && FieldOf(m[k], f) == value ensures r == Some(m[k]) {
      assert m[k] in ValuesIn(m, order);
      var k' :| k' in m && m[k'] == r.value;
      assert FieldOf(m[k'], f) == FieldOf(m[k], f);
      assert k' == k;
    }
  }

  predicate AgeWithinRange(age: Option<I32>, min: I32, max: I32) {
    age.Some? && min <= age.value <= max
  }

  /** `find_by_age_range`'s filter: the users with an age within `[min, max]`,
      in scan order; users without an age are left out. */
  function AgeFilter(users: seq<User>, min: I32, max: I32): (r: seq<User>)
    ensures |r| <= |users|
    ensures forall u :: u in r <==> u in users && AgeWithinRange(u.age, min, max)
  {
    if users == [] then []
    else
      var rest := AgeFilter(users[1..], min, max);
      assert forall u :: u in users <==> u == users[0] || u in users[1..];
      if AgeWithinRange(users[0].age, min, max) then [users[0]] + rest else rest
  }

  /** `update_user`'s patch: each field given as `Some` replaces the stored
      one, the rest are kept; an age can be set but not cleared. */
  function Patch(u: User, dto: UpdateUserDto): (p: User)
    ensures p.id == u.id && p.createdAt == u.createdAt && p.updatedAt == u.updatedAt
    ensures p.username == (if dto.username.Some? then dto.username.value else u.username)
    ensures p.email == (if dto.email.Some? then dto.email.value else u.email)
    ensures p.fullName == (if dto.fullName.Some? then dto.fullName.value else u.fullName)
    ensures p.age == (if dto.age.Some? then dto.age else u.age)
    ensures u.age.Some? ==> p.age.Some?
  {
    u.(username := if dto.username.Some? then dto.username.value else u.username,
       email := if dto.email.Some? then dto.email.value else u.email,
       fullName := if dto.fullName.Some? then dto.fullName.value else u.fullName,
       age := if dto.age.Some? then dto.age else u.age)
  }

  /** `update_user`: a missing id is `NotFound(id)`; otherwise the patched
      user goes through `update`. */
  function UpdateUserSpec(m: Users, id: Uuid, dto: UpdateUserDto, c: Copy): Change {
    if id !in m then Change(m, Err(NotFound(id)))
    else UpdateSpec(m, id, Patch(m[id], dto), c)
  }

  /** `update_user` keeps both invariants: the patched user keeps the id it
      is stored under. */
  lemma UpdateUserKeepsInvariants(m: Users, id: Uuid, dto: UpdateUserDto, c: Copy)
    requires UniqueFields(m) && KeyedById(m)
    ensures UniqueFields(UpdateUserSpec(m, id, dto, c).users) && KeyedById(UpdateUserSpec(m, id, dto, c).users)
  {
    if id in m {
      UpdateKeepsInvariants(m, id, Patch(m[id], dto), c);
    }
  }

  class InMemoryUserRepository {
    const base: InMemoryBaseRepository<Uuid, User>

    function Users(): Users
      reads base.storage
    {
      base.storage.items
    }

    /** `new`: an empty repository. */
    constructor (copy: Copy)
      ensures fresh(base.storage) && Users() == map[] && base.copy == copy
    {
      base := new InMemoryBaseRepository(copy);
    }

    /** `with_data`: it ignores the users it is given and starts empty. */
    constructor WithData(copy: Copy, users: seq<User>)
      ensures fresh(base.storage) && Users() == map[] && base.copy == copy
    {
      base := new InMemoryBaseRepository(copy);
    }

    /** The duplicate scan over `get_all`, in the map's order `order`. */
    method CheckDuplicate(f: Field, value: string, exclude: Option<Uuid>, order: seq<Uuid>)
      returns (r: Result<(), RepositoryError>)
      requires Enumerates(order, Users().Keys)
      ensures r == DuplicateCheck(Users(), f, value, exclude)
    {
      ghost var m := Users();
      var all := base.GetAll(order);
      for i := 0 to |all|
        invariant forall j :: 0 <= j < i ==> !Clashes(all[j], f, value, exclude)
      {
        if Clashes(all[i], f, value, exclude) {
          assert order[i] in m && all[i] == m[order[i]];
          return Err(TakenError(f, value));
        }
      }
      forall k | k in m ensures !Clashes(m[k], f, value, exclude) {
        var j :| 0 <= j < |order| && order[j] == k;
        assert all[j] == m[k];
      }
      r := Ok(());
    }

    method FindById(id: Uuid) returns (r: Option<User>)
      ensures r.Some? <==> id in Users()
      ensures r.Some? ==> Users()[id] == r.value
    {
      r := base.Get(id);
    }

    method FindAll(order: seq<Uuid>) returns (r: seq<User>)
      requires Enumerates(order, Users().Keys)
      ensures r == ValuesIn(Users(), order)
    {
      r := base.GetAll(order);
    }

    method Save(e: User, order: seq<Uuid>) returns (r: Result<User, RepositoryError>)
      requires Enumerates(order, Users().Keys)
      modifies base.storage
      ensures Users() == SaveSpec(old(Users()), e, base.copy).users
      ensures r == SaveSpec(old(Users()), e, base.copy).result
    {
      var v := Validate(e);
      if v.Err? {
        return Err(FromString(v.error));
      }
      var du := CheckDuplicate(Username, e.username, None, order);
      if du.Err? {
        return Err(du.error);
      }
      var de := CheckDuplicate(Email, e.email, None, order);
      if de.Err? {
        return Err(de.error);
      }
      var ins := base.Insert(e.id, e);
      if ins.Err? {
        return Err(ins.error);
      }
      r := Ok(e);
    }

    method Update(id: Uuid, e: User, order: seq<Uuid>) returns (r: Result<User, RepositoryError>)
      requires Enumerates(order, Users().Keys)
      modifies base.storage
      ensures Users() == UpdateSpec(old(Users()), id, e, base.copy).users
      ensures r == UpdateSpec(old(Users()), id, e, base.copy).result
    {
      var v := Validate(e);
      if v.Err? {
        return Err(FromString(v.error));
      }
      var du := CheckDuplicate(Username, e.username, Some(id), order);
      if du.Err? {
        return Err(du.error);
      }
      var de := CheckDuplicate(Email, e.email, Some(id), order);
      if de.Err? {
        return Err(de.error);
      }
      r := base.UpdateEntity(id, e);
    }

    method Delete(id: Uuid) returns (removed: bool)
      modifies base.storage
      ensures removed == (id in old(Users()))
      ensures Users() == old(Users()) - {id}
    {
      removed := base.Remove(id);
    }

    method Exists(id: Uuid) returns (b: bool)
      ensures b <==> id in Users()
    {
      b := base.Contains(id);
    }

    method Count() returns (n: nat)
      ensures n == |Users()|
    {
      n := base.CountAll();
    }

    /** `find_by_username` (f = Username) and `find_by_email` (f = Email). */
    method FindBy(f: Field, value: string, order: seq<Uuid>) returns (r: Option<User>)
      requires Enumerates(order, Users().Keys)
      ensures r == FindFirst(ValuesIn(Users(), order), f, value)
    {
      var all := base.GetAll(order);
      r := FindFirst(all, f, value);
    }

    method FindByAgeRange(min: I32, max: I32, order: seq<Uuid>) returns (r: seq<User>)
      requires Enumerates(order, Users().Keys)
      ensures r == AgeFilter(ValuesIn(Users(), order), min, max)
    {
      var all := base.GetAll(order);
      r := AgeFilter(all, min, max);
    }

    /** `create_user`: `User::new` from the request, with the generated id and
        the clock reading as inputs, then `save`. */
    method CreateUser(dto: CreateUserDto, id: Uuid, now: Timestamp, order: seq<Uuid>)
      returns (r: Result<User, RepositoryError>)
      requires Enumerates(order, Users().Keys)
      modifies base.storage
      ensures var u := NewUser(id, dto.username, dto.email, dto.fullName, dto.age, now);
        Users() == SaveSpec(old(Users()), u, base.copy).users && r == SaveSpec(old(Users()), u, base.copy).result
    {
      var user := NewUser(id, dto.username, dto.email, dto.fullName, dto.age, now);
      r := Save(user, order);
    }

    method UpdateUser(id: Uuid, dto: UpdateUserDto, order: seq<Uuid>) returns (r: Result<User, RepositoryError>)
      requires Enumerates(order, Users().Keys)
      modifies base.storage
      ensures Users() == UpdateUserSpec(old(Users()), id, dto, base.copy).users
      ensures r == UpdateUserSpec(old(Users()), id, dto, base.copy).result
    {
      var found := FindById(id);
      if found.None? {
        return Err(NotFound(id));
      }
      var user := found.value;
      if dto.username.Some? {
        user := user.(username := dto.username.value);
      }
      if dto.email.Some? {
        user := user.(email := dto.email.value);
      }
      if dto.fullName.Some? {
        user := user.(fullName := dto.fullName.value);
      }
      if dto.age.Some? {
        user := user.(age := dto.age);
      }
      assert user == Patch(Users()[id], dto);
      r := Update(id, user, order);
    }
  }
}

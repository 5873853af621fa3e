/** `MigrationRunner` of crates/core-db/src/migrations.rs over an abstract
    database. The `_schema_migrations` table is a ledger from `(module, version)`
    to the rest of its row; whether the n-th statement sent to the database
    succeeds, how long it takes and the timestamp it stores are given by an
    oracle, so every execution the real database could produce is covered. */
module Runner {
  import opened Wrappers
  import opened Text
  import opened Numerals
  import opened Errors
  import opened Migrations
  import opened Grouping

  /** A ledger row's key, unique by `UNIQUE(module, version)`. */
  datatype Key = Key(moduleName: string, version: I32)

  /** The rest of a ledger row. */
  datatype Row = Row(name: string, checksum: string, appliedAt: string, executionTimeMs: I32)

  type Ledger = map<Key, Row>

  /** The database's answer to one statement: success, with the time the
      statement took and the current timestamp as `to_char` renders it, or
      failure, with the driver's error text. */
  datatype Reply = Success(elapsedMs: nat, now: string) | Failure(cause: string)

  /** The answer to the n-th statement sent to the database. */
  type Oracle = nat -> Reply

  /** What the database holds: whether the ledger table exists, its rows, and
      how many statements have been sent so far. */
  datatype Store = Store(tableReady: bool, ledger: Ledger, calls: nat)

  /** The new store and the result of one database-touching operation. */
  datatype Answer<T> = Answer(store: Store, result: Result<T, RepositoryError>)

  function KeyOf(m: Migration): Key {
    Key(m.moduleName, m.version)
  }

  function ModuleOf(m: Migration): string {
    m.moduleName
  }

  /** `as i32` on a millisecond count: keeps the low 32 bits, read as two's
      complement. */
  function TruncI32(n: nat): (r: I32)
    ensures n < 0x8000_0000 ==> r == n
    ensures (n - r) % 0x1_0000_0000 == 0
  {
    var low := n % 0x1_0000_0000;
    if low < 0x8000_0000 then low else low - 0x1_0000_0000
  }

  /** The cause PostgreSQL reports when an insert breaks `UNIQUE(module, version)`. */
  const UniqueViolation: string := "duplicate key value violates unique constraint"

  /** One statement is sent; the store only records that it was. */
  function Sent(s: Store): Store {
    s.(calls := s.calls + 1)
  }

  /** `ensure_migrations_table`: `CREATE TABLE IF NOT EXISTS`, which keeps an
      existing ledger as it is. */
  function EnsureTable(o: Oracle, s: Store): Answer<()> {
    match o(s.calls)
    case Failure(c) => Answer(Sent(s), Err(DatabaseError("Failed to create migrations table: " + c)))
    case Success(_, _) => Answer(Sent(s).(tableReady := true), Ok(()))
  }

  /** `get_applied_migrations`: the whole ledger. */
  function ReadApplied(o: Oracle, s: Store): Answer<Ledger> {
    match o(s.calls)
    case Failure(c) => Answer(Sent(s), Err(DatabaseError("Failed to fetch applied migrations: " + c)))
    case Success(_, _) => Answer(Sent(s), Ok(s.ledger))
  }

  /** `is_applied`: whether the ledger counts a row for the migration's pair. */
  function CheckApplied(o: Oracle, s: Store, m: Migration): Answer<bool> {
    match o(s.calls)
    case Failure(c) => Answer(Sent(s), Err(DatabaseError("Failed to check migration status: " + c)))
    case Success(_, _) => Answer(Sent(s), Ok(KeyOf(m) in s.ledger))
  }

  /** `run_migration`: executes the SQL and reports its duration. The schema
      the SQL changes lies outside the ledger. */
  function Execute(o: Oracle, s: Store, m: Migration): Answer<I32> {
    match o(s.calls)
    case Failure(c) => Answer(Sent(s), Err(DatabaseError("Migration " + Id(m) + " failed: " + c)))
    case Success(ms, _) => Answer(Sent(s), Ok(TruncI32(ms)))
  }

  /** `record_migration`: inserts one ledger row; the unique constraint
      rejects a pair that is already there. */
  function Record(o: Oracle, s: Store, m: Migration, ms: I32): Answer<()> {
    match o(s.calls)
    case Failure(c) => Answer(Sent(s), Err(DatabaseError("Failed to record migration: " + c)))
    case Success(_, now) =>
      if KeyOf(m) in s.ledger then
        Answer(Sent(s), Err(DatabaseError("Failed to record migration: " + UniqueViolation)))
      else
        Answer(Sent(s).(ledger := s.ledger[KeyOf(m) := Row(m.name, Checksum(m), now, ms)]), Ok(()))
  }

  /** How far a run has got: the store, the two counters, and the error that
      stopped it, if any. */
  datatype Progress = Progress(store: Store, applied: nat, skipped: nat, failure: Option<RepositoryError>)

  /** One iteration of the inner loop of `run_migrations`. */
  function Step(o: Oracle, p: Progress, m: Migration): Progress {
    if p.failure.Some? then p
    else
      var q := CheckApplied(o, p.store, m);
      match q.result
      case Err(e) => Progress(q.store, p.applied, p.skipped, Some(e))
      case Ok(present) =>
        if present then Progress(q.store, p.applied, p.skipped + 1, None)
        else
          var x := Execute(o, q.store, m);
          match x.result
          case Err(e) => Progress(x.store, p.applied, p.skipped, Some(e))
          case Ok(ms) =>
            var w := Record(o, x.store, m, ms);
            match w.result
            case Err(e) => Progress(w.store, p.applied, p.skipped, Some(e))
            case Ok(_) => Progress(w.store, p.applied + 1, p.skipped, None)
  }

  /** The iterations over a sequence of visited migrations. */
  function Walk(o: Oracle, p: Progress, visits: seq<Migration>): Progress {
    if visits == [] then p
    else Step(o, Walk(o, p, visits[..|visits| - 1]), visits[|visits| - 1])
  }

  /** The order in which `run_migrations` reaches the migrations: module by
      module in the map's order, each module's migrations in input order. */
  function Visits(migrations: seq<Migration>, order: seq<string>): seq<Migration> {
    Concat(order, migrations, ModuleOf)
  }

  /** `run_migrations` as a function of the starting store. */
  function RunSpec(o: Oracle, s: Store, migrations: seq<Migration>, order: seq<string>): Progress {
    var e := EnsureTable(o, s);
    if e.result.Err? then Progress(e.store, 0, 0, Some(e.result.error))
    else
      var a := ReadApplied(o, e.store);
      if a.result.Err? then Progress(a.store, 0, 0, Some(a.result.error))
      else Walk(o, Progress(a.store, 0, 0, None), Visits(migrations, order))
  }

  function RunResult(p: Progress): Result<(), RepositoryError> {
    if p.failure.Some? then Err(p.failure.value) else Ok(())
  }

  /** `MigrationStatus`: one ledger row as `get_status` returns it. */
  datatype MigrationStatus = MigrationStatus(
    moduleName: string, version: I32, name: string, appliedAt: string, executionTimeMs: I32)

  function StatusOf(k: Key, r: Row): MigrationStatus {
    MigrationStatus(k.moduleName, k.version, r.name, r.appliedAt, r.executionTimeMs)
  }

  function StatusKey(st: MigrationStatus): Key {
    Key(st.moduleName, st.version)
  }

  /** `ORDER BY module, version`. */
  predicate KeyLess(a: Key, b: Key) {
    StrLess(a.moduleName, b.moduleName) || (a.moduleName == b.moduleName && a.version < b.version)
  }

  predicate IsLeast(k: Key, keys: set<Key>) {
    k in keys && forall k' :: k' in keys ==> k' == k || KeyLess(k, k')
  }

  lemma KeyLessTransitive(a: Key, b: Key, c: Key)
    requires KeyLess(a, b) && KeyLess(b, c)
    ensures KeyLess(a, c)
  {
    if StrLess(a.moduleName, b.moduleName) && StrLess(b.moduleName, c.moduleName) {
      StrLessTransitive(a.moduleName, b.moduleName, c.moduleName);
    }
  }

  /** Every non-empty finite set of keys has a least element. */
  lemma LeastExists(keys: set<Key>) returns (k: Key)
    requires keys != {}
    ensures IsLeast(k, keys)
    decreases |keys|
  {
    var x :| x in keys;
    if keys == {x} {
      k := x;
    } else {
      var y := LeastExists(keys - {x});
      StrLessTotal(x.moduleName, y.moduleName);
      if KeyLess(x, y) {
        k := x;
        forall k' | k' in keys ensures k' == k || KeyLess(k, k') {
          if k' != x && k' != y {
            KeyLessTransitive(x, y, k');
          }
        }
      } else {
        k := y;
      }
    }
  }

  /** Strictly ascending by `(module, version)`. */
  predicate Ascending(statuses: seq<MigrationStatus>) {
    forall i, j :: 0 <= i < j < |statuses| ==> KeyLess(StatusKey(statuses[i]), StatusKey(statuses[j]))
  }

  function StatusKeys(statuses: seq<MigrationStatus>): set<Key> {
    set st | st in statuses :: StatusKey(st)
  }

  /** Every listed key is below every key still to come. */
  predicate Below(statuses: seq<MigrationStatus>, remaining: set<Key>) {
    forall i, k :: 0 <= i < |statuses| && k in remaining ==> KeyLess(StatusKey(statuses[i]), k)
  }

  /** Each status is its key's ledger row. */
  predicate RowsOf(statuses: seq<MigrationStatus>, ledger: Ledger) {
    forall st :: st in statuses ==> StatusKey(st) in ledger && st == StatusOf(StatusKey(st), ledger[StatusKey(st)])
  }

  lemma StatusKeysAppend(statuses: seq<MigrationStatus>, st: MigrationStatus)
    ensures StatusKeys(statuses + [st]) == StatusKeys(statuses) + {StatusKey(st)}
  {
    assert forall x :: x in statuses + [st] <==> x in statuses || x == st;
  }

  /** Appending the least remaining key keeps the list ascending and below the rest. */
  lemma AppendLeast(statuses: seq<MigrationStatus>, remaining: set<Key>, st: MigrationStatus)
    requires Ascending(statuses) && Below(statuses, remaining)
    requires IsLeast(StatusKey(st), remaining)
    ensures Ascending(statuses + [st]) && Below(statuses + [st], remaining - {StatusKey(st)})
  {
    var s' := statuses + [st];
    forall i, j | 0 <= i < j < |s'| ensures KeyLess(StatusKey(s'[i]), StatusKey(s'[j])) {
      if j < |statuses| {
        assert s'[i] == statuses[i] && s'[j] == statuses[j];
      } else {
        assert s'[i] == statuses[i] && s'[j] == st;
      }
    }
    forall i, k | 0 <= i < |s'| && k in remaining - {StatusKey(st)} ensures KeyLess(StatusKey(s'[i]), k) {
      if i < |statuses| {
        assert s'[i] == statuses[i];
      } else {
        assert s'[i] == st;
      }
    }
  }

  /** What the listing loop keeps: the listed and the remaining keys split
      the ledger, the list is ascending and below what remains, and each listed
      status is its ledger row. */
  predicate Listing(statuses: seq<MigrationStatus>, remaining: set<Key>, ledger: Ledger) {
    && StatusKeys(statuses) + remaining == ledger.Keys
    && StatusKeys(statuses) !! remaining
    && |statuses| + |remaining| == |ledger|
    && Ascending(statuses) && Below(statuses, remaining)
    && RowsOf(statuses, ledger)
  }

  lemma ListingStep(statuses: seq<MigrationStatus>, remaining: set<Key>, ledger: Ledger, k: Key)
    requires Listing(statuses, remaining, ledger) && IsLeast(k, remaining)
    ensures k in ledger
    ensures Listing(statuses + [StatusOf(k, ledger[k])], remaining - {k}, ledger)
  {
    var st := StatusOf(k, ledger[k]);
    assert StatusKey(st) == k;
    StatusKeysAppend(statuses, st);
    MoveKey(StatusKeys(statuses), remaining, ledger.Keys, k);
    AppendLeast(statuses, remaining, st);
    RowsOfAppend(statuses, ledger, k);
  }

  /** Moving one key from the remaining set to the listed set keeps the two
      a partition of the same keys. */
  lemma MoveKey(listed: set<Key>, remaining: set<Key>, keys: set<Key>, k: Key)
    requires listed + remaining == keys && listed !! remaining && k in remaining
    ensures (listed + {k}) + (remaining - {k}) == keys && (listed + {k}) !! (remaining - {k})
    ensures |remaining - {k}| == |remaining| - 1
  {
  }

  lemma RowsOfAppend(statuses: seq<MigrationStatus>, ledger: Ledger, k: Key)
    requires RowsOf(statuses, ledger) && k in ledger
    ensures RowsOf(statuses + [StatusOf(k, ledger[k])], ledger)
  {
    assert forall x :: x in statuses + [StatusOf(k, ledger[k])] ==> x in statuses || x == StatusOf(k, ledger[k]);
  }

  /** The rows of `SELECT ... FROM _schema_migrations ORDER BY module, version`:
      every ledger row once, in ascending key order. */
  method OrderedStatuses(ledger: Ledger) returns (statuses: seq<MigrationStatus>)
    ensures Ascending(statuses)
    ensures StatusKeys(statuses) == ledger.Keys
    ensures |statuses| == |ledger|
    ensures RowsOf(statuses, ledger)
  {
    statuses := [];
    var remaining := ledger.Keys;
    while remaining != {}
      invariant Listing(statuses, remaining, ledger)
      decreases |remaining|
    {
      var least := LeastExists(remaining);
      var k :| k in remaining && IsLeast(k, remaining);
      ListingStep(statuses, remaining, ledger, k);
      statuses := statuses + [StatusOf(k, ledger[k])];
      remaining := remaining - {k};
    }
  }

  class MigrationRunner {
    /** How the database answers the statements sent to it. */
    const oracle: Oracle
    var tableReady: bool
    var ledger: Ledger
    /** Statements sent so far. */
    var calls: nat

    function State(): Store
      reads this
    {
      Store(tableReady, ledger, calls)
    }

    /** There are no rows while there is no table. */
    ghost predicate Valid()
      reads this
    {
      !tableReady ==> ledger == map[]
    }

    /** `MigrationRunner::new(pool)`: a runner over a database in any state. */
    constructor(oracle: Oracle, tableReady: bool, ledger: Ledger)
      requires !tableReady ==> ledger == map[]
      ensures Valid()
      ensures this.oracle == oracle && State() == Store(tableReady, ledger, 0)
    {
      this.oracle := oracle;
      this.tableReady := tableReady;
      this.ledger := ledger;
      this.calls := 0;
    }

    method EnsureMigrationsTable() returns (r: Result<(), RepositoryError>)
      requires Valid()
      modifies this
      ensures Valid()
      ensures var a := EnsureTable(oracle, old(State())); State() == a.store && r == a.result
    {
      var reply := oracle(calls);
      calls := calls + 1;
      match reply
      case Failure(c) =>
        r := Err(DatabaseError("Failed to create migrations table: " + c));
      case Success(_, _) =>
        tableReady := true;
        r := Ok(());
    }

    method GetAppliedMigrations() returns (r: Result<Ledger, RepositoryError>)
      requires Valid()
      modifies this
      ensures Valid()
      ensures var a := ReadApplied(oracle, old(State())); State() == a.store && r == a.result
    {
      var reply := oracle(calls);
      calls := calls + 1;
      match reply
      case Failure(c) =>
        r := Err(DatabaseError("Failed to fetch applied migrations: " + c));
      case Success(_, _) =>
        r := Ok(ledger);
    }

    method IsApplied(m: Migration) returns (r: Result<bool, RepositoryError>)
      requires Valid()
      modifies this
      ensures Valid()
      ensures var a := CheckApplied(oracle, old(State()), m); State() == a.store && r == a.result
    {
      var reply := oracle(calls);
      calls := calls + 1;
      match reply
      case Failure(c) =>
        r := Err(DatabaseError("Failed to check migration status: " + c));
      case Success(_, _) =>
        r := Ok(KeyOf(m) in ledger);
    }

    method RunMigration(m: Migration) returns (r: Result<I32, RepositoryError>)
      requires Valid()
      modifies this
      ensures Valid()
      ensures var a := Execute(oracle, old(State()), m); State() == a.store && r == a.result
    {
      var reply := oracle(calls);
      calls := calls + 1;
      match reply
      case Failure(c) =>
        r := Err(DatabaseError("Migration " + Id(m) + " failed: " + c));
      case Success(elapsed, _) =>
        r := Ok(TruncI32(elapsed));
    }

    method RecordMigration(m: Migration, executionTimeMs: I32) returns (r: Result<(), RepositoryError>)
      requires Valid() && tableReady
      modifies this
      ensures Valid()
      ensures var a := Record(oracle, old(State()), m, executionTimeMs); State() == a.store && r == a.result
    {
      var reply := oracle(calls);
      calls := calls + 1;
      match reply
      case Failure(c) =>
        r := Err(DatabaseError("Failed to record migration: " + c));
      case Success(_, now) =>
        if KeyOf(m) in ledger {
          r := Err(DatabaseError("Failed to record migration: " + UniqueViolation));
        } else {
          ledger := ledger[KeyOf(m) := Row(m.name, Checksum(m), now, executionTimeMs)];
          r := Ok(());
        }
    }

    /** The inner loop of `run_migrations` over one module's migrations,
        carrying the two counters. */
    method RunGroup(group: seq<Migration>, applied0: nat, skipped0: nat)
      returns (applied: nat, skipped: nat, r: Result<(), RepositoryError>)
      requires Valid() && tableReady
      modifies this
      ensures Valid() && tableReady
      ensures Walk(oracle, Progress(old(State()), applied0, skipped0, None), group)
        == Progress(State(), applied, skipped, if r.Ok? then None else Some(r.error))
    {
      ghost var p := Progress(State(), applied0, skipped0, None);
      applied, skipped := applied0, skipped0;
      for j := 0 to |group|
        invariant Valid() && tableReady
        invariant Walk(oracle, p, group[..j]) == Progress(State(), applied, skipped, None)
      {
        var m := group[j];
        assert group[..j + 1][..j] == group[..j] && group[..j + 1][j] == m;
        var isApplied := IsApplied(m);
        if isApplied.Err? {
          WalkStops(oracle, p, group[..j + 1], group);
          return applied, skipped, Err(isApplied.error);
        }
        if isApplied.value {
          skipped := skipped + 1;
        } else {
          var elapsed := RunMigration(m);
          if elapsed.Err? {
            WalkStops(oracle, p, group[..j + 1], group);
            return applied, skipped, Err(elapsed.error);
          }
          var recorded := RecordMigration(m, elapsed.value);
          if recorded.Err? {
            WalkStops(oracle, p, group[..j + 1], group);
            return applied, skipped, Err(recorded.error);
          }
          applied := applied + 1;
        }
      }
      assert group[..|group|] == group;
      r := Ok(());
    }

    /** `run_migrations`. `order` is the order in which the `by_module` map
        yields its keys. */
    method RunMigrations(migrations: seq<Migration>, order: seq<string>) returns (r: Result<(), RepositoryError>)
      requires Valid()
      requires Enumerates(order, KeySet(migrations, ModuleOf))
      modifies this
      ensures Valid()
      ensures var p := RunSpec(oracle, old(State()), migrations, order);
        State() == p.store && r == RunResult(p)
    {
      ghost var s0 := State();
      var created := EnsureMigrationsTable();
      if created.Err? {
        return Err(created.error);
      }
      var applied := GetAppliedMigrations();
      if applied.Err? {
        return Err(applied.error);
      }
      ghost var start := Progress(State(), 0, 0, None);
      ghost var visits := Visits(migrations, order);
      assert RunSpec(oracle, s0, migrations, order) == Walk(oracle, start, visits);

      var byModule := GroupBy(migrations, ModuleOf);
      var totalApplied, totalSkipped := 0, 0;
      ghost var done: seq<Migration> := [];
      for i := 0 to |order|
        invariant Valid() && tableReady
        invariant done == Concat(order[..i], migrations, ModuleOf)
        invariant Walk(oracle, start, done) == Progress(State(), totalApplied, totalSkipped, None)
      {
        var group := byModule[order[i]];
        ConcatNext(order, i, migrations);
        WalkAppend(oracle, start, done, group);
        var result;
        totalApplied, totalSkipped, result := RunGroup(group, totalApplied, totalSkipped);
        if result.Err? {
          WalkStops(oracle, start, done + group, visits);
          return Err(result.error);
        }
        done := done + group;
      }
      assert order[..|order|] == order;
      return Ok(());
    }

    /** `get_status`: creates the table if needed, then lists the ledger. */
    method GetStatus() returns (r: Result<seq<MigrationStatus>, RepositoryError>)
      requires Valid()
      modifies this
      ensures Valid()
      ensures var e := EnsureTable(oracle, old(State()));
        if e.result.Err? then State() == e.store && r == Err(e.result.error)
        else
          && tableReady && ledger == old(ledger) && calls == old(calls) + 2
          && match oracle(old(calls) + 1)
             case Failure(c) => r == Err(DatabaseError("Failed to fetch migration status: " + c))
             case Success(_, _) =>
               && r.Ok?
               && Ascending(r.value)
               && StatusKeys(r.value) == ledger.Keys
               && |r.value| == |ledger|
               && RowsOf(r.value, ledger)
    {
      var created := EnsureMigrationsTable();
      if created.Err? {
        return Err(created.error);
      }
      var reply := oracle(calls);
      calls := calls + 1;
      match reply
      case Failure(c) =>
        r := Err(DatabaseError("Failed to fetch migration status: " + c));
      case Success(_, _) =>
        var statuses := OrderedStatuses(ledger);
        r := Ok(statuses);
    }
  }

  /** Splitting the key order splits the visits. */
  lemma {:induction false} ConcatAppend(a: seq<string>, b: seq<string>, migrations: seq<Migration>)
    ensures Concat(a + b, migrations, ModuleOf) == Concat(a, migrations, ModuleOf) + Concat(b, migrations, ModuleOf)
  {
    if a == [] {
      assert a + b == b;
    } else {
      assert (a + b)[0] == a[0] && (a + b)[1..] == a[1..] + b;
      ConcatAppend(a[1..], b, migrations);
    }
  }

  /** The visits so far grow by one module's group per outer iteration, and
      they are a prefix of all the visits. */
  lemma ConcatNext(order: seq<string>, i: nat, migrations: seq<Migration>)
    requires i < |order|
    ensures Concat(order[..i + 1], migrations, ModuleOf)
      == Concat(order[..i], migrations, ModuleOf) + Filter(migrations, ModuleOf, order[i])
    ensures Concat(order[..i + 1], migrations, ModuleOf) <= Concat(order, migrations, ModuleOf)
  {
    assert order[..i + 1] == order[..i] + [order[i]];
    ConcatAppend(order[..i], [order[i]], migrations);
    assert order == order[..i + 1] + order[i + 1..];
    ConcatAppend(order[..i + 1], order[i + 1..], migrations);
  }

  /** Once a run has failed, later iterations change nothing. */
  lemma {:induction false} WalkAfterFailure(o: Oracle, p: Progress, visits: seq<Migration>)
    requires p.failure.Some?
    ensures Walk(o, p, visits) == p
  {
    if visits != [] {
      WalkAfterFailure(o, p, visits[..|visits| - 1]);
    }
  }

  lemma {:induction false} WalkAppend(o: Oracle, p: Progress, a: seq<Migration>, b: seq<Migration>)
    ensures Walk(o, p, a + b) == Walk(o, Walk(o, p, a), b)
  {
    if b == [] {
      assert a + b == a;
    } else {
      assert (a + b)[..|a + b| - 1] == a + b[..|b| - 1];
      assert (a + b)[|a + b| - 1] == b[|b| - 1];
      WalkAppend(o, p, a, b[..|b| - 1]);
    }
  }

  /** A failure at some point of the visits is the outcome of the whole run:
      no later migration, in any module, is attempted. */
  lemma WalkStops(o: Oracle, p: Progress, prefix: seq<Migration>, visits: seq<Migration>)
    requires prefix <= visits && Walk(o, p, prefix).failure.Some?
    ensures Walk(o, p, visits) == Walk(o, p, prefix)
  {
    assert visits == prefix + visits[|prefix|..];
    WalkAppend(o, p, prefix, visits[|prefix|..]);
    WalkAfterFailure(o, Walk(o, p, prefix), visits[|prefix|..]);
  }
}

/** The server binary (apps/server/src/main.rs): command dispatch, the list of
    migrations handed to the runner, the two migration reports and their SQL
    preview. What the subcommands print, and the HTTP server and demo they
    start, are not part of this model. */
module Server {
  import opened Wrappers
  import opened Text
  import opened Numerals
  import opened Errors
  import opened Migrations
  import opened Grouping
  import opened Runner
  import opened UserMigrations

  datatype Command = Serve | Demo | Migrate | MigrationStatusReport | MigrationList | Unknown(arg: string)

  /** The command names `main` matches on, with what each selects. */
  function CommandFor(arg: string): Command {
    match arg
    case "serve" => Serve
    case "server" => Serve
    case "http" => Serve
    case "cli" => Demo
    case "demo" => Demo
    case "migrate" => Migrate
    case "migrate:status" => MigrationStatusReport
    case "migration:status" => MigrationStatusReport
    case "migrate:list" => MigrationList
    case "migration:list" => MigrationList
    case _ => Unknown(arg)
  }

  /** `main`'s dispatch on `env::args()`: the first argument is the program
      name, and without a second one the HTTP server starts. */
  function Dispatch(args: seq<string>): (c: Command)
    ensures |args| <= 1 ==> c == Serve
    ensures |args| > 1 ==> c == CommandFor(args[1])
  {
    if |args| > 1 then CommandFor(args[1]) else Serve
  }

  /** Every alias, and nothing else, selects its command. */
  lemma DispatchAliases(program: string, arg: string)
    ensures Dispatch([program]) == Serve
    ensures Dispatch([program, arg]) == Serve <==> arg in {"serve", "server", "http"}
    ensures Dispatch([program, arg]) == Demo <==> arg in {"cli", "demo"}
    ensures Dispatch([program, arg]) == Migrate <==> arg == "migrate"
    ensures Dispatch([program, arg]) == MigrationStatusReport <==> arg in {"migrate:status", "migration:status"}
    ensures Dispatch([program, arg]) == MigrationList <==> arg in {"migrate:list", "migration:list"}
    ensures Dispatch([program, arg]).Unknown? <==>
      arg !in {"serve", "server", "http", "cli", "demo", "migrate",
               "migrate:status", "migration:status", "migrate:list", "migration:list"}
  {
  }

  /** What `main` returns: the selected subcommand's result, except that an
      unknown command prints the usage text and still succeeds. */
  function ExitResult(c: Command, subcommand: Result<(), string>): (r: Result<(), string>)
    ensures c.Unknown? ==> r == Ok(())
    ensures !c.Unknown? ==> r == subcommand
  {
    if c.Unknown? then Ok(()) else subcommand
  }

  /** `vec![list, ...].into_iter().flatten()`: the module lists one after the
      other. */
  function Flatten<T>(lists: seq<seq<T>>): seq<T> {
    if lists == [] then [] else lists[0] + Flatten(lists[1..])
  }

  lemma {:induction false} FlattenAppend<T>(a: seq<seq<T>>, b: seq<seq<T>>)
    ensures Flatten(a + b) == Flatten(a) + Flatten(b)
  {
    if a == [] {
      assert a + b == b;
    } else {
      assert (a + b)[0] == a[0] && (a + b)[1..] == a[1..] + b;
      FlattenAppend(a[1..], b);
    }
  }

  /** The list `run_migrations` and `list_migrations` work on. */
  function AllMigrations(): seq<Migration> {
    Flatten([UserMigrationList])
  }

  /** The aggregation keeps each module's list as it is, and here it is the
      users module's list. */
  lemma AllMigrationsIsUsers()
    ensures AllMigrations() == UserMigrationList
    ensures KeySet(AllMigrations(), ModuleOf) == {"users"}
    ensures Enumerates(["users"], KeySet(AllMigrations(), ModuleOf))
  {
    ListContents();
    var l := UserMigrationList;
    assert l == [l[0]];
    FlattenOne(l);
    SingleModule(l[0]);
  }

  lemma FlattenOne<T>(l: seq<T>)
    ensures Flatten([l]) == l
  {
    assert [l][1..] == [];
    assert Flatten([l]) == l + Flatten([]);
  }

  /** A one-migration list has one module, whose group is the list. */
  lemma SingleModule(m: Migration)
    ensures KeySet([m], ModuleOf) == {m.moduleName}
    ensures Filter([m], ModuleOf, m.moduleName) == [m]
  {
    assert [m][..0] == [];
    assert m in [m] && forall x :: x in [m] ==> x == m;
  }

  /** The first line of a text, without its line break. Rust's `lines` also
      drops a `\r` before the break; the preview then trims, which removes
      that `\r` anyway. */
  function FirstLine(s: string): (r: string)
    ensures r <= s && '\n' !in r
    ensures |r| < |s| ==> s[|r|] == '\n'
  {
    if s == [] || s[0] == '\n' then [] else [s[0]] + FirstLine(s[1..])
  }

  /** The SQL preview of `list_migrations`: the first line, trimmed, cut to its
      first 60 bytes when longer (which panics if byte 60 is inside a
      character). */
  function SqlPreview(sql: string): Outcome<string> {
    var line := Trim(FirstLine(sql));
    if Utf8Len(line) > 60 then BytePrefix(line, 60) else Returns(line)
  }

  lemma AsciiPiece(s: string, i: nat, j: nat)
    requires IsAscii(s) && i <= j <= |s|
    ensures IsAscii(s[i..j])
  {
    assert forall k :: 0 <= k < j - i ==> s[i..j][k] == s[i + k];
  }

  /** A preview is a piece of the first line that holds no more than 60 bytes. */
  lemma PreviewBound(sql: string)
    ensures SqlPreview(sql).Returns? ==>
      Utf8Len(SqlPreview(sql).value) <= 60 && SqlPreview(sql).value <= Trim(FirstLine(sql))
  {
  }

  /** The trimmed first line of ASCII SQL is ASCII. */
  lemma AsciiLine(sql: string)
    requires IsAscii(sql)
    ensures IsAscii(Trim(FirstLine(sql)))
  {
    var first := FirstLine(sql);
    assert first == sql[0..|first|];
    AsciiPiece(sql, 0, |first|);
    var line := Trim(first);
    var i: nat :| CutFromWhitespace(first, line, i);
    AsciiPiece(first, i, i + |line|);
  }

  /** On ASCII SQL the preview never panics: it is the trimmed first line or
      its first 60 characters. */
  lemma AsciiPreview(sql: string)
    requires IsAscii(sql)
    ensures var line := Trim(FirstLine(sql));
      SqlPreview(sql) == Returns(if |line| > 60 then line[..60] else line)
  {
    var line := Trim(FirstLine(sql));
    AsciiLine(sql);
    AsciiUtf8Len(line);
    if |line| > 60 {
      AsciiBytePrefix(line, 60);
    }
  }

  /** The users migration's SQL starts with a line break, so its preview is empty. */
  lemma UsersPreviewIsEmpty()
    ensures SqlPreview(CreateUsersTableSql) == Returns([])
  {
    assert CreateUsersTableSql[0] == SqlHead[0];
    PreviewOfLeadingBreak(CreateUsersTableSql);
  }

  /** SQL that starts with a line break has an empty preview. */
  lemma PreviewOfLeadingBreak(sql: string)
    requires sql != [] && sql[0] == '\n'
    ensures SqlPreview(sql) == Returns([])
  {
    assert FirstLine(sql) == [];
    assert Trim([]) == [] by {
      TrimEmpty([]);
    }
  }

  /** One module's entries in a report. */
  datatype Group<T> = Group(moduleName: string, members: seq<T>)

  /** The groups of a `by_module` map in its iteration order. */
  function GroupsInOrder<T(==)>(order: seq<string>, items: seq<T>, key: T -> string): (g: seq<Group<T>>)
    ensures |g| == |order|
    ensures forall i :: 0 <= i < |g| ==> g[i] == Group(order[i], Filter(items, key, order[i]))
  {
    if order == [] then []
    else [Group(order[0], Filter(items, key, order[0]))] + GroupsInOrder(order[1..], items, key)
  }

  function TotalSize<T>(groups: seq<Group<T>>): nat {
    if groups == [] then 0 else |groups[0].members| + TotalSize(groups[1..])
  }

  lemma {:induction false} TotalSizeIsConcat<T>(order: seq<string>, items: seq<T>, key: T -> string)
    ensures TotalSize(GroupsInOrder(order, items, key)) == |Concat(order, items, key)|
  {
    if order != [] {
      var g := GroupsInOrder(order, items, key);
      assert g[1..] == GroupsInOrder(order[1..], items, key);
      TotalSizeIsConcat(order[1..], items, key);
    }
  }

  /** The grouping of a report: each module appears once, every item is in
      its own module's group and in no other, groups keep input order, and the
      group sizes add up to the number of items. */
  lemma GroupsPartition<T>(order: seq<string>, items: seq<T>, key: T -> string)
    requires Enumerates(order, KeySet(items, key))
    ensures var g := GroupsInOrder(order, items, key);
      && (forall i, j :: 0 <= i < j < |g| ==> g[i].moduleName != g[j].moduleName)
      && (forall x, i :: x in items && 0 <= i < |g| ==> (x in g[i].members <==> key(x) == g[i].moduleName))
      && (forall x :: x in items ==> key(x) in order)
      && TotalSize(g) == |items|
  {
    var g := GroupsInOrder(order, items, key);
    forall x, i | x in items && 0 <= i < |g| ensures x in g[i].members <==> key(x) == g[i].moduleName {
      if key(x) == order[i] {
        FilterMember(items, key, x);
      }
    }
    TotalSizeIsConcat(order, items, key);
    ConcatPermutation(order, items, key);
  }

  lemma {:induction false} FilterMember<T>(items: seq<T>, key: T -> string, x: T)
    requires x in items
    ensures x in Filter(items, key, key(x))
  {
    var init := items[..|items| - 1];
    if items[|items| - 1] != x {
      assert items == init + [items[|items| - 1]];
      FilterMember(init, key, x);
    }
  }

  /** Collects the groups of a `by_module` map in its iteration order. */
  method CollectGroups<T(==)>(items: seq<T>, key: T -> string, order: seq<string>) returns (groups: seq<Group<T>>)
    requires Enumerates(order, KeySet(items, key))
    ensures groups == GroupsInOrder(order, items, key)
  {
    var byModule := GroupBy(items, key);
    groups := [];
    for i := 0 to |order|
      invariant groups == GroupsInOrder(order[..i], items, key)
    {
      ghost var before := order[..i];
      assert order[..i + 1] == before + [order[i]];
      GroupsAppend(before, [order[i]], items, key);
      groups := groups + [Group(order[i], byModule[order[i]])];
    }
    assert order[..|order|] == order;
  }

  lemma GroupsAppend<T>(a: seq<string>, b: seq<string>, items: seq<T>, key: T -> string)
    ensures GroupsInOrder(a + b, items, key) == GroupsInOrder(a, items, key) + GroupsInOrder(b, items, key)
  {
    var l, r := GroupsInOrder(a + b, items, key), GroupsInOrder(a, items, key) + GroupsInOrder(b, items, key);
    assert |l| == |r|;
    forall i | 0 <= i < |l| ensures l[i] == r[i] {
      if i < |a| {
        assert (a + b)[i] == a[i];
      } else {
        assert (a + b)[i] == b[i - |a|];
      }
    }
  }

  function StatusModule(st: MigrationStatus): string {
    st.moduleName
  }

  /** What `show_migration_status` reports. */
  datatype StatusReport = NoneApplied | Applied(count: nat, modules: seq<Group<MigrationStatus>>)

  /** `show_migration_status` on what `get_status` returned; `order` is the
      iteration order of its `by_module` map. */
  method ShowMigrationStatus(fetched: Result<seq<MigrationStatus>, RepositoryError>, order: seq<string>)
    returns (r: Result<StatusReport, RepositoryError>)
    requires fetched.Ok? ==> Enumerates(order, KeySet(fetched.value, StatusModule))
    ensures fetched.Err? ==> r == Err(fetched.error)
    ensures fetched.Ok? && fetched.value == [] ==> r == Ok(NoneApplied)
    ensures fetched.Ok? && fetched.value != [] ==>
      r == Ok(Applied(|fetched.value|, GroupsInOrder(order, fetched.value, StatusModule)))
  {
    match fetched
    case Err(e) =>
      r := Err(e);
    case Ok(statuses) =>
      if statuses == [] {
        r := Ok(NoneApplied);
      } else {
        var groups := CollectGroups(statuses, StatusModule, order);
        r := Ok(Applied(|statuses|, groups));
      }
  }

  /** What `list_migrations` prints for one migration. */
  datatype Listing = Listing(version: I32, name: string, id: string, checksum: string, preview: Outcome<string>)

  function Describe(m: Migration): Listing {
    Listing(m.version, m.name, Id(m), Checksum(m), SqlPreview(m.sql))
  }

  /** What `list_migrations` reports. */
  datatype ListReport = NoneFound | Found(count: nat, modules: seq<Group<Migration>>)

  /** `list_migrations`; `order` is the iteration order of its `by_module` map.
      Each member is printed as `Describe` gives it. */
  method ListMigrations(all: seq<Migration>, order: seq<string>) returns (r: ListReport)
    requires Enumerates(order, KeySet(all, ModuleOf))
    ensures all == [] ==> r == NoneFound
    ensures all != [] ==> r == Found(|all|, GroupsInOrder(order, all, ModuleOf))
  {
    if all == [] {
      r := NoneFound;
    } else {
      var groups := CollectGroups(all, ModuleOf, order);
      r := Found(|all|, groups);
    }
  }

  /** Listing the repository's migrations gives one module, users, with its
      one migration, whose preview is empty. */
  lemma ListOfThisRepository()
    ensures var g := GroupsInOrder(["users"], AllMigrations(), ModuleOf);
      && |g| == 1 && g[0] == Group("users", UserMigrationList)
      && Describe(g[0].members[0]).preview == Returns([])
  {
    AllMigrationsIsUsers();
    ListContents();
    var m := UserMigrationList[0];
    SingleModule(m);
    UsersPreviewIsEmpty();
    assert AllMigrations() == [m];
    var g := GroupsInOrder(["users"], [m], ModuleOf);
    assert g[0] == Group("users", [m]);
  }
}

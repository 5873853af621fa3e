/** What `run_migrations` guarantees, proved about its specification `RunSpec`
    (which `MigrationRunner.RunMigrations` meets). */
module RunnerFacts {
  import opened Wrappers
  import opened Errors
  import opened Migrations
  import opened Grouping
  import opened Runner

  /** The `(module, version)` pairs of some migrations. */
  function PairsOf(v: seq<Migration>): set<Key> {
    set m | m in v :: KeyOf(m)
  }

  /** A ledger row recorded for migration `m`. */
  predicate RowFrom(r: Row, m: Migration) {
    r.name == m.name && r.checksum == Checksum(m)
  }

  /** Rows already in `before` are in `after`, unchanged. */
  predicate KeepsRows(before: Ledger, after: Ledger) {
    forall k :: k in before ==> k in after && after[k] == before[k]
  }

  /** One iteration: it never deletes or rewrites a row, and a new row can
      only be the visited migration's. */
  lemma StepFrame(o: Oracle, p: Progress, m: Migration)
    ensures var q := Step(o, p, m);
      && q.store.tableReady == p.store.tableReady
      && KeepsRows(p.store.ledger, q.store.ledger)
      && q.applied >= p.applied && q.skipped >= p.skipped
      && (forall k :: k in q.store.ledger && k !in p.store.ledger ==> k == KeyOf(m) && RowFrom(q.store.ledger[k], m))
  {
    if p.failure.None? {
      var c := CheckApplied(o, p.store, m);
      assert c.store.ledger == p.store.ledger && c.store.tableReady == p.store.tableReady;
      if c.result.Ok? && !c.result.value {
        var x := Execute(o, c.store, m);
        assert x.store.ledger == p.store.ledger && x.store.tableReady == p.store.tableReady;
        if x.result.Ok? {
          var w := Record(o, x.store, m, x.result.value);
          assert w.store.ledger == p.store.ledger ||
            w.store.ledger == p.store.ledger[KeyOf(m) := Row(m.name, Checksum(m), o(x.store.calls).now, x.result.value)];
        }
      }
    }
  }

  /** One iteration that succeeds counts the migration once, as applied
      exactly when it added its row. */
  lemma StepCounts(o: Oracle, p: Progress, m: Migration)
    ensures var q := Step(o, p, m);
      q.failure.None? ==>
        && p.failure.None?
        && q.applied + q.skipped == p.applied + p.skipped + 1
        && q.store.ledger.Keys == p.store.ledger.Keys + {KeyOf(m)}
        && |q.store.ledger.Keys| == |p.store.ledger.Keys| + (q.applied - p.applied)
  {
    if p.failure.None? {
      var c := CheckApplied(o, p.store, m);
      if c.result.Ok? && !c.result.value {
        var x := Execute(o, c.store, m);
        if x.result.Ok? {
          var w := Record(o, x.store, m, x.result.value);
          if w.result.Ok? {
            var row := Row(m.name, Checksum(m), o(x.store.calls).now, x.result.value);
            assert w.store.ledger == p.store.ledger[KeyOf(m) := row];
            assert KeyOf(m) !in p.store.ledger.Keys;
            assert |p.store.ledger.Keys + {KeyOf(m)}| == |p.store.ledger.Keys| + 1;
          }
        }
      }
    }
  }

  lemma PairsOfSnoc(v: seq<Migration>, x: Migration)
    ensures PairsOf(v + [x]) == PairsOf(v) + {KeyOf(x)}
  {
    assert forall m :: m in v + [x] <==> m in v || m == x;
  }

  /** Over any sequence of visits: rows are only ever inserted; every new row
      belongs to a visited migration; and a run that gets through counts every
      visit once and ends with a row for every visited pair, one new row per
      applied migration. */
  lemma WalkFacts(o: Oracle, p: Progress, v: seq<Migration>)
    ensures var w := Walk(o, p, v);
      && w.store.tableReady == p.store.tableReady
      && KeepsRows(p.store.ledger, w.store.ledger)
      && w.applied >= p.applied && w.skipped >= p.skipped
      && (forall k :: k in w.store.ledger && k !in p.store.ledger ==>
            exists m :: m in v && KeyOf(m) == k && RowFrom(w.store.ledger[k], m))
      && (w.failure.None? ==>
            && p.failure.None?
            && w.applied + w.skipped == p.applied + p.skipped + |v|
            && w.store.ledger.Keys == p.store.ledger.Keys + PairsOf(v)
            && |w.store.ledger.Keys| == |p.store.ledger.Keys| + (w.applied - p.applied))
  {
    WalkFrame(o, p, v);
    WalkCounts(o, p, v);
  }

  /** The part of `WalkFacts` that holds whether or not the walk fails. */
  lemma {:induction false} WalkFrame(o: Oracle, p: Progress, v: seq<Migration>)
    ensures var w := Walk(o, p, v);
      && w.store.tableReady == p.store.tableReady
      && KeepsRows(p.store.ledger, w.store.ledger)
      && w.applied >= p.applied && w.skipped >= p.skipped
      && (forall k :: k in w.store.ledger && k !in p.store.ledger ==>
            exists m :: m in v && KeyOf(m) == k && RowFrom(w.store.ledger[k], m))
  {
    if v != [] {
      var v', x := v[..|v| - 1], v[|v| - 1];
      assert v == v' + [x];
      WalkFrame(o, p, v');
      var u := Walk(o, p, v');
      StepFrame(o, u, x);
      var w := Walk(o, p, v);
      forall k | k in w.store.ledger && k !in p.store.ledger
        ensures exists m :: m in v && KeyOf(m) == k && RowFrom(w.store.ledger[k], m)
      {
        if k in u.store.ledger {
          var m :| m in v' && KeyOf(m) == k && RowFrom(u.store.ledger[k], m);
          assert m in v;
        } else {
          assert x in v;
        }
      }
    }
  }

  /** The part of `WalkFacts` about a walk that gets through. */
  lemma {:induction false} WalkCounts(o: Oracle, p: Progress, v: seq<Migration>)
    ensures var w := Walk(o, p, v);
      w.failure.None? ==>
        && p.failure.None?
        && w.applied + w.skipped == p.applied + p.skipped + |v|
        && w.store.ledger.Keys == p.store.ledger.Keys + PairsOf(v)
        && |w.store.ledger.Keys| == |p.store.ledger.Keys| + (w.applied - p.applied)
  {
    if v != [] {
      var v', x := v[..|v| - 1], v[|v| - 1];
      assert v == v' + [x];
      var u := Walk(o, p, v');
      var w := Walk(o, p, v);
      assert w == Step(o, u, x);
      if w.failure.None? {
        StepCounts(o, u, x);
        WalkCounts(o, p, v');
        PairsOfSnoc(v', x);
      }
    }
  }

  /** When every pair visited already has a row, a walk inserts nothing and
      applies nothing, whatever the database answers. */
  lemma {:induction false} WalkAllPresent(o: Oracle, p: Progress, v: seq<Migration>)
    requires forall m :: m in v ==> KeyOf(m) in p.store.ledger
    ensures Walk(o, p, v).store.ledger == p.store.ledger
    ensures Walk(o, p, v).applied == p.applied
  {
    if v != [] {
      var v', x := v[..|v| - 1], v[|v| - 1];
      assert x in v;
      assert forall m :: m in v' ==> m in v;
      WalkAllPresent(o, p, v');
    }
  }

  /** The visit order: a permutation of the input in which each module's
      migrations keep their input order (they are never sorted by version). */
  lemma VisitOrder(migrations: seq<Migration>, order: seq<string>, k: string)
    requires Enumerates(order, KeySet(migrations, ModuleOf))
    ensures multiset(Visits(migrations, order)) == multiset(migrations)
    ensures Filter(Visits(migrations, order), ModuleOf, k) == Filter(migrations, ModuleOf, k)
  {
    ConcatPermutation(order, migrations, ModuleOf);
    FilterOfConcat(order, migrations, ModuleOf, k);
    if k !in order {
      FilterAbsent(migrations, ModuleOf, k);
    }
  }

  lemma PairsOfVisits(migrations: seq<Migration>, order: seq<string>)
    requires Enumerates(order, KeySet(migrations, ModuleOf))
    ensures PairsOf(Visits(migrations, order)) == PairsOf(migrations)
    ensures |Visits(migrations, order)| == |migrations|
  {
    ConcatPermutation(order, migrations, ModuleOf);
    var v := Visits(migrations, order);
    assert forall m :: m in v <==> m in multiset(v);
    assert forall m :: m in migrations <==> m in multiset(migrations);
  }

  /** The table creation and the ledger read change no rows. */
  lemma RunSpecPrelude(o: Oracle, s: Store, migrations: seq<Migration>, order: seq<string>)
    ensures var e := EnsureTable(o, s);
      e.result.Ok? && ReadApplied(o, e.store).result.Ok? ==>
        && ReadApplied(o, e.store).store.ledger == s.ledger
        && RunSpec(o, s, migrations, order)
           == Walk(o, Progress(ReadApplied(o, e.store).store, 0, 0, None), Visits(migrations, order))
    ensures var e := EnsureTable(o, s);
      !(e.result.Ok? && ReadApplied(o, e.store).result.Ok?) ==>
        && RunSpec(o, s, migrations, order).failure.Some?
        && RunSpec(o, s, migrations, order).store.ledger == s.ledger
        && RunSpec(o, s, migrations, order).applied == 0
  {
  }

  /** A successful run counts every input migration once, ends with a row for
      every input pair, and inserts one row per applied migration: the number
      applied is the number of distinct pairs that had no row at the start. */
  lemma RunSucceeds(o: Oracle, s: Store, migrations: seq<Migration>, order: seq<string>)
    requires Enumerates(order, KeySet(migrations, ModuleOf))
    requires RunSpec(o, s, migrations, order).failure.None?
    ensures var p := RunSpec(o, s, migrations, order);
      && p.applied + p.skipped == |migrations|
      && p.store.ledger.Keys == s.ledger.Keys + PairsOf(migrations)
      && p.applied == |PairsOf(migrations) - s.ledger.Keys|
  {
    RunSpecPrelude(o, s, migrations, order);
    var e := EnsureTable(o, s);
    var a := ReadApplied(o, e.store);
    var v := Visits(migrations, order);
    var w := Walk(o, Progress(a.store, 0, 0, None), v);
    assert RunSpec(o, s, migrations, order) == w;
    WalkFacts(o, Progress(a.store, 0, 0, None), v);
    PairsOfVisits(migrations, order);
    UnionSize(s.ledger.Keys, PairsOf(migrations));
  }

  lemma UnionSize<K>(a: set<K>, b: set<K>)
    ensures |a + b| == |a| + |b - a|
  {
    assert a + b == a + (b - a);
    assert a !! (b - a);
  }

  /** Ledger rows are only ever inserted, never updated or deleted, and each
      new row carries the name and checksum of a migration of the input. */
  lemma RunOnlyInserts(o: Oracle, s: Store, migrations: seq<Migration>, order: seq<string>)
    requires Enumerates(order, KeySet(migrations, ModuleOf))
    ensures var p := RunSpec(o, s, migrations, order);
      && KeepsRows(s.ledger, p.store.ledger)
      && forall k :: k in p.store.ledger && k !in s.ledger ==>
           exists m :: m in migrations && KeyOf(m) == k && RowFrom(p.store.ledger[k], m)
  {
    RunSpecPrelude(o, s, migrations, order);
    var e := EnsureTable(o, s);
    var a := ReadApplied(o, e.store);
    if e.result.Ok? && a.result.Ok? {
      var v := Visits(migrations, order);
      WalkFacts(o, Progress(a.store, 0, 0, None), v);
      ConcatPermutation(order, migrations, ModuleOf);
      assert forall m :: m in v ==> m in multiset(v);
      var p := RunSpec(o, s, migrations, order);
      forall k | k in p.store.ledger && k !in s.ledger
        ensures exists m :: m in migrations && KeyOf(m) == k && RowFrom(p.store.ledger[k], m)
      {
        var m :| m in v && KeyOf(m) == k && RowFrom(p.store.ledger[k], m);
        assert m in multiset(migrations);
      }
    }
  }

  /** Running the same migrations again, in any module order and whatever the
      database answers, applies nothing and leaves the ledger as it was. */
  lemma RunAgainAppliesNothing(o: Oracle, o': Oracle, s: Store, migrations: seq<Migration>,
                               order: seq<string>, order': seq<string>)
    requires Enumerates(order, KeySet(migrations, ModuleOf))
    requires Enumerates(order', KeySet(migrations, ModuleOf))
    requires RunSpec(o, s, migrations, order).failure.None?
    ensures var s' := RunSpec(o, s, migrations, order).store;
      && RunSpec(o', s', migrations, order').applied == 0
      && RunSpec(o', s', migrations, order').store.ledger == s'.ledger
  {
    var s' := RunSpec(o, s, migrations, order).store;
    RunSucceeds(o, s, migrations, order);
    RunSpecPrelude(o', s', migrations, order');
    var e := EnsureTable(o', s');
    var a := ReadApplied(o', e.store);
    if e.result.Ok? && a.result.Ok? {
      var v := Visits(migrations, order');
      PairsOfVisits(migrations, order');
      forall m | m in v ensures KeyOf(m) in a.store.ledger {
        assert KeyOf(m) in PairsOf(v);
      }
      WalkAllPresent(o', Progress(a.store, 0, 0, None), v);
    }
  }

  /** The skip decision is the per-migration query: with a row for the pair
      the migration is only counted as skipped and no SQL is sent; without one,
      its SQL is the next statement sent. Stored names and checksums are not
      compared. */
  lemma SkipIffPresent(o: Oracle, p: Progress, m: Migration)
    requires p.failure.None? && o(p.store.calls).Success?
    ensures var q := Step(o, p, m);
      KeyOf(m) in p.store.ledger ==>
        q == Progress(p.store.(calls := p.store.calls + 1), p.applied, p.skipped + 1, None)
    ensures var q := Step(o, p, m);
      KeyOf(m) !in p.store.ledger ==>
        q.skipped == p.skipped && q.store.calls >= p.store.calls + 2
        && (o(p.store.calls + 1).Failure? ==> q.failure.Some? && q.applied == p.applied)
  {
  }

  /** A migration whose SQL fails leaves no ledger row and stops the run with
      `Migration {id} failed: {cause}`. */
  lemma FailedSqlLeavesNoRow(o: Oracle, p: Progress, m: Migration, rest: seq<Migration>)
    requires p.failure.None? && o(p.store.calls).Success? && KeyOf(m) !in p.store.ledger
    requires o(p.store.calls + 1).Failure?
    ensures var w := Walk(o, Step(o, p, m), rest);
      && KeyOf(m) !in w.store.ledger
      && w.store.ledger == p.store.ledger
      && w.failure == Some(DatabaseError("Migration " + Id(m) + " failed: " + o(p.store.calls + 1).cause))
  {
    WalkAfterFailure(o, Step(o, p, m), rest);
  }

  /** A pair met a second time in the same run, after the first visit went
      through, is skipped. */
  lemma RepeatSkipped(o: Oracle, p: Progress, before: seq<Migration>, m: Migration)
    requires Walk(o, p, before).failure.None?
    requires KeyOf(m) in PairsOf(before)
    requires o(Walk(o, p, before).store.calls).Success?
    ensures Step(o, Walk(o, p, before), m).skipped == Walk(o, p, before).skipped + 1
    ensures Step(o, Walk(o, p, before), m).applied == Walk(o, p, before).applied
  {
    WalkFacts(o, p, before);
  }
}

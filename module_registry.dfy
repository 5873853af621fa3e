/** The registry of application modules
    (src/internal/composition/module_registry.rs): a map from a module's name
    to the module, filled by `register`. */
module ModuleRegistry {
  import opened Wrappers
  import opened Grouping
  import opened BaseRepository

  /** What the registry reads of a module: its name. The version travels with
      it unread. */
  datatype AppModule = AppModule(name: string, version: string)

  /** The registry after registering `ms` one by one into an empty one: a
      later module replaces an earlier one of the same name. */
  function Registered(ms: seq<AppModule>): map<string, AppModule> {
    if ms == [] then map[]
    else Registered(ms[..|ms| - 1])[ms[|ms| - 1].name := ms[|ms| - 1]]
  }

  /** The last module of `ms` with the name `n`. */
  function LastNamed(ms: seq<AppModule>, n: string): (r: Option<AppModule>)
    ensures r.None? ==> forall i :: 0 <= i < |ms| ==> ms[i].name != n
    ensures r.Some? ==> r.value.name == n && exists i :: LastAt(ms, n, i) && ms[i] == r.value
  {
    if ms == [] then None
    else if ms[|ms| - 1].name == n then Some(ms[|ms| - 1])
    else
      var r := LastNamed(ms[..|ms| - 1], n);
      if r.Some? then
        var i :| LastAt(ms[..|ms| - 1], n, i) && ms[..|ms| - 1][i] == r.value;
        assert LastAt(ms, n, i);
        r
      else r
  }

  /** Position `i` holds the last module named `n`. */
  predicate LastAt(ms: seq<AppModule>, n: string, i: int) {
    0 <= i < |ms| && ms[i].name == n && forall j :: i < j < |ms| ==> ms[j].name != n
  }

  /** A name is registered exactly when some module of that name was, and it
      finds the last one. */
  lemma {:induction false} RegisteredLookup(ms: seq<AppModule>, n: string)
    ensures n in Registered(ms) <==> LastNamed(ms, n).Some?
    ensures n in Registered(ms) ==> Registered(ms)[n] == LastNamed(ms, n).value
  {
    if ms != [] {
      RegisteredLookup(ms[..|ms| - 1], n);
    }
  }

  function Names(ms: seq<AppModule>): set<string> {
    set m | m in ms :: m.name
  }

  /** The registered names are the names of the modules registered, so
      `count()` is the number of distinct names. */
  lemma {:induction false} RegisteredCount(ms: seq<AppModule>)
    ensures Registered(ms).Keys == Names(ms)
    ensures |Registered(ms)| == |Names(ms)|
  {
    if ms != [] {
      var init := ms[..|ms| - 1];
      RegisteredCount(init);
      assert ms == init + [ms[|ms| - 1]];
      assert Names(ms) == Names(init) + {ms[|ms| - 1].name};
    }
  }

  class ModuleRegistry {
    var modules: map<string, AppModule>
    /** The modules registered so far, in order. */
    ghost var history: seq<AppModule>

    ghost predicate Valid()
      reads this
    {
      modules == Registered(history)
    }

    /** `new()` and `Default`: no modules. */
    constructor()
      ensures Valid() && history == [] && modules == map[]
    {
      modules := map[];
      history := [];
    }

    /** Stores `m` under its name, replacing a module of the same name. */
    method Register(m: AppModule)
      requires Valid()
      modifies this
      ensures Valid() && history == old(history) + [m]
      ensures modules == old(modules)[m.name := m]
      ensures Get(m.name) == Some(m)
      ensures forall n :: n != m.name ==> Get(n) == old(Get(n))
      ensures Count() == old(Count()) + (if old(Get(m.name)).None? then 1 else 0)
    {
      modules := modules[m.name := m];
      history := history + [m];
      assert history[..|history| - 1] == old(history);
    }

    /** `get`: the last module registered under that name, if any. */
    function Get(name: string): (r: Option<AppModule>)
      requires Valid()
      reads this
      ensures r.Some? <==> name in modules
      ensures r.Some? ==> r.value == modules[name]
      ensures r == LastNamed(history, name)
    {
      RegisteredLookup(history, name);
      if name in modules then Some(modules[name]) else None
    }

    /** `list`: one module per registered name, in the map's iteration order
        `order`. */
    method List(order: seq<string>) returns (r: seq<AppModule>)
      requires Valid() && Enumerates(order, modules.Keys)
      ensures r == ValuesIn(modules, order)
      ensures |r| == Count()
      ensures forall v :: v in r <==> v in modules.Values
    {
      r := ValuesIn(modules, order);
      ValuesOfAll(modules, order);
    }

    /** `count`: the number of distinct names registered. */
    function Count(): (n: nat)
      requires Valid()
      reads this
      ensures n == |modules.Keys|
      ensures n == |Names(history)|
    {
      RegisteredCount(history);
      |modules|
    }
  }
}

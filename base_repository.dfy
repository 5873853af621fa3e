/** The in-memory base repository, in its two copies
    (crates/adapters/baserepository/src/lib.rs and
    src/adapters/base_repository/mod.rs): a key to entity map that every clone
    of a repository shares. The copies differ only in the errors they return. */
module BaseRepository {
  import opened Wrappers
  import opened Errors
  import opened Grouping

  /** Which copy of the repository: the workspace crate or the application. */
  datatype Copy = Workspace | Application

  /** The rejection of `insert` on a key that is present. The workspace copy
      reports the nil id, not the key. */
  function DuplicateKeyError(c: Copy): (e: RepositoryError)
    ensures c == Workspace ==> e == AlreadyExists(NilUuid)
    ensures c == Application ==> e == ValidationError("Entity with this ID already exists")
  {
    match c
    case Workspace => AlreadyExists(NilUuid)
    case Application => ValidationError("Entity with this ID already exists")
  }

  /** The rejection of `update_entity` on a key that is absent. */
  function MissingKeyError(c: Copy): (e: RepositoryError)
    ensures c == Workspace ==> e == NotFound(NilUuid)
    ensures c == Application ==> e == ValidationError("Entity not found")
  {
    match c
    case Workspace => NotFound(NilUuid)
    case Application => ValidationError("Entity not found")
  }

  /** The values of `m` in the order of the keys `order`. */
  function ValuesIn<K, V>(m: map<K, V>, order: seq<K>): (r: seq<V>)
    requires forall k :: k in order ==> k in m
    ensures |r| == |order|
    ensures forall i :: 0 <= i < |order| ==> r[i] == m[order[i]]
  {
    if order == [] then [] else [m[order[0]]] + ValuesIn(m, order[1..])
  }

  lemma {:induction false} DistinctCard<K>(order: seq<K>)
    requires Distinct(order)
    ensures |set k | k in order| == |order|
  {
    if order != [] {
      var rest := order[1..];
      DistinctCard(rest);
      assert (set k | k in order) == {order[0]} + (set k | k in rest) by {
        assert order == [order[0]] + rest;
      }
      assert order[0] !in rest by {
        forall i | 0 <= i < |rest| ensures rest[i] != order[0] {
          assert rest[i] == order[i + 1];
        }
      }
    }
  }

  /** `values()` yields one value per key: as many values as keys, and each
      value is the value of some key, every key's value appearing. */
  lemma ValuesOfAll<K, V>(m: map<K, V>, order: seq<K>)
    requires Enumerates(order, m.Keys)
    ensures |ValuesIn(m, order)| == |m|
    ensures forall v :: v in ValuesIn(m, order) <==> exists k :: k in m && m[k] == v
  {
    DistinctCard(order);
    assert (set k | k in order) == m.Keys;
    var r := ValuesIn(m, order);
    forall v | v in r ensures exists k :: k in m && m[k] == v {
      var i :| 0 <= i < |r| && r[i] == v;
      assert m[order[i]] == v;
    }
    forall v | exists k :: k in m && m[k] == v ensures v in r {
      var k :| k in m && m[k] == v;
      var i :| 0 <= i < |order| && order[i] == k;
      assert r[i] == v;
    }
  }

  /** The shared `Arc<RwLock<HashMap>>`. */
  class Storage<K(==), V> {
    var items: map<K, V>

    constructor ()
      ensures items == map[]
    {
      items := map[];
    }
  }

  class InMemoryBaseRepository<K(==), V> {
    const storage: Storage<K, V>
    const copy: Copy

    /** `new` (and `Default`): a repository over fresh, empty storage. */
    constructor (copy: Copy)
      ensures fresh(storage) && storage.items == map[] && this.copy == copy
    {
      storage := new Storage();
      this.copy := copy;
    }

    /** `Clone`: a second handle on the same storage. */
    constructor Clone(other: InMemoryBaseRepository<K, V>)
      ensures storage == other.storage && copy == other.copy
    {
      storage := other.storage;
      copy := other.copy;
    }

    /** Adds `id ↦ entity` when `id` is absent; otherwise fails and changes nothing. */
    method Insert(id: K, entity: V) returns (r: Result<(), RepositoryError>)
      modifies storage
      ensures id in old(storage.items) ==> r == Err(DuplicateKeyError(copy)) && storage.items == old(storage.items)
      ensures id !in old(storage.items) ==> r == Ok(()) && storage.items == old(storage.items)[id := entity]
    {
      if id in storage.items {
        return Err(DuplicateKeyError(copy));
      }
      storage.items := storage.items[id := entity];
      r := Ok(());
    }

    /** `Some(v)` exactly when `id ↦ v` is stored. */
    method Get(id: K) returns (r: Option<V>)
      ensures r.Some? <==> id in storage.items
      ensures r.Some? ==> storage.items[id] == r.value
    {
      if id in storage.items {
        r := Some(storage.items[id]);
      } else {
        r := None;
      }
    }

    /** The stored values in the map's iteration order `order`. */
    method GetAll(order: seq<K>) returns (r: seq<V>)
      requires Enumerates(order, storage.items.Keys)
      ensures r == ValuesIn(storage.items, order)
    {
      r := ValuesIn(storage.items, order);
    }

    /** Replaces the value of a present `id` and returns the new value; an
        absent `id` fails and changes nothing. */
    method UpdateEntity(id: K, entity: V) returns (r: Result<V, RepositoryError>)
      modifies storage
      ensures id !in old(storage.items) ==> r == Err(MissingKeyError(copy)) && storage.items == old(storage.items)
      ensures id in old(storage.items) ==> r == Ok(entity) && storage.items == old(storage.items)[id := entity]
    {
      if id !in storage.items {
        return Err(MissingKeyError(copy));
      }
      storage.items := storage.items[id := entity];
      r := Ok(entity);
    }

    /** Removes `id`, saying whether it was there. */
    method Remove(id: K) returns (removed: bool)
      modifies storage
      ensures removed == (id in old(storage.items))
      ensures storage.items == old(storage.items) - {id}
    {
      removed := id in storage.items;
      storage.items := storage.items - {id};
    }

    method Contains(id: K) returns (b: bool)
      ensures b <==> id in storage.items
    {
      b := id in storage.items;
    }

    method CountAll() returns (n: nat)
      ensures n == |storage.items|
    {
      n := |storage.items|;
    }

    method Clear()
      modifies storage
      ensures storage.items == map[]
    {
      storage.items := map[];
    }
  }

  /** A clone shares the storage: what is inserted through the clone is seen
      through the original. */
  method InsertThroughClone<K(==), V>(original: InMemoryBaseRepository<K, V>, id: K, entity: V)
    returns (seen: Option<V>)
    modifies original.storage
    ensures id !in old(original.storage.items) ==> seen == Some(entity)
    ensures id in old(original.storage.items) ==> seen == Some(old(original.storage.items)[id])
  {
    var clone := new InMemoryBaseRepository.Clone(original);
    var _ := clone.Insert(id, entity);
    seen := original.Get(id);
  }
}

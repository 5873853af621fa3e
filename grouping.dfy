/** Grouping a list by a string key, as the `by_module` loops do: each item is
    pushed onto the end of its key's vector, creating the vector on first use
    (`entry(k).or_insert_with(Vec::new).push(x)`), and the groups are later
    visited one key at a time in some order. */
module Grouping {

  /** The items whose key is `k`, in their original order. */
  function Filter<T(==)>(items: seq<T>, key: T -> string, k: string): (r: seq<T>)
    ensures |r| <= |items|
    ensures forall x :: x in r ==> x in items && key(x) == k
  {
    if items == [] then []
    else
      var init := Filter(items[..|items| - 1], key, k);
      var x := items[|items| - 1];
      if key(x) == k then init + [x] else init
  }

  /** The keys that occur among the items. */
  function KeySet<T(==)>(items: seq<T>, key: T -> string): set<string> {
    set x | x in items :: key(x)
  }

  predicate Distinct<K(==)>(order: seq<K>) {
    forall i, j :: 0 <= i < j < |order| ==> order[i] != order[j]
  }

  /** `order` lists every key of `keys` exactly once: a `HashMap`'s iteration
      order over its keys. */
  predicate Enumerates<K(==)>(order: seq<K>, keys: set<K>) {
    && Distinct(order)
    && (forall k :: k in order ==> k in keys)
    && (forall k :: k in keys ==> k in order)
  }

  /** The groups of `order`'s keys, one after the other. */
  function Concat<T(==)>(order: seq<string>, items: seq<T>, key: T -> string): seq<T> {
    if order == [] then [] else Filter(items, key, order[0]) + Concat(order[1..], items, key)
  }

  /** The items whose key is one of `order`'s, in their original order. */
  function FilterIn<T(==)>(items: seq<T>, key: T -> string, order: seq<string>): seq<T> {
    if items == [] then []
    else
      var init := FilterIn(items[..|items| - 1], key, order);
      var x := items[|items| - 1];
      if key(x) in order then init + [x] else init
  }

  /** The grouping loop: afterwards there is one vector per key that occurs,
      holding exactly the items with that key in input order. */
  method GroupBy<T(==)>(items: seq<T>, key: T -> string) returns (groups: map<string, seq<T>>)
    ensures Grouped(groups, items, key)
  {
    groups := map[];
    for i := 0 to |items|
      invariant Grouped(groups, items[..i], key)
    {
      var x := items[i];
      var k := key(x);
      assert items[..i + 1] == items[..i] + [x];
      GroupedStep(groups, items[..i], x, key);
      if k in groups {
        groups := groups[k := groups[k] + [x]];
      } else {
        groups := groups[k := [x]];
      }
    }
    assert items[..|items|] == items;
  }

  /** The state of the grouping loop: one vector per key that occurs, holding
      exactly the items with that key in input order. */
  predicate Grouped<T(==)>(groups: map<string, seq<T>>, items: seq<T>, key: T -> string) {
    && groups.Keys == KeySet(items, key)
    && (forall k :: k in groups ==> groups[k] == Filter(items, key, k))
  }

  /** One push of the grouping loop keeps its state. */
  lemma GroupedStep<T>(groups: map<string, seq<T>>, items: seq<T>, x: T, key: T -> string)
    requires Grouped(groups, items, key)
    ensures var k := key(x);
      Grouped(groups[k := if k in groups then groups[k] + [x] else [x]], items + [x], key)
  {
    var k := key(x);
    var g := groups[k := if k in groups then groups[k] + [x] else [x]];
    var items' := items + [x];
    assert items'[..|items'| - 1] == items;
    if k !in groups {
      FilterAbsent(items, key, k);
    }
    assert KeySet(items', key) == KeySet(items, key) + {k};
    forall j | j in g ensures g[j] == Filter(items', key, j) {
    }
  }

  /** A key that no item carries has an empty group. */
  lemma FilterAbsent<T>(items: seq<T>, key: T -> string, k: string)
    requires k !in KeySet(items, key)
    ensures Filter(items, key, k) == []
  {
  }

  /** Filtering distributes over concatenation, so it keeps relative order. */
  lemma {:induction false} FilterAppend<T>(a: seq<T>, b: seq<T>, key: T -> string, k: string)
    ensures Filter(a + b, key, k) == Filter(a, key, k) + Filter(b, key, k)
  {
    if b == [] {
      assert a + b == a;
    } else {
      var b' := b[..|b| - 1];
      assert (a + b)[..|a + b| - 1] == a + b';
      assert (a + b)[|a + b| - 1] == b[|b| - 1];
      FilterAppend(a, b', key, k);
    }
  }

  /** Filtering a group again by its own key keeps it; by another key empties it. */
  lemma {:induction false} FilterFilter<T>(items: seq<T>, key: T -> string, j: string, k: string)
    ensures Filter(Filter(items, key, j), key, k) == if j == k then Filter(items, key, j) else []
  {
    if items != [] {
      var init := items[..|items| - 1];
      var x := items[|items| - 1];
      FilterFilter(init, key, j, k);
      if key(x) == j {
        FilterAppend(Filter(init, key, j), [x], key, k);
        assert Filter([x], key, k) == if j == k then [x] else [] by {
          assert [x][..0] == [];
        }
      }
    }
  }

  /** The tail of a list of distinct keys is distinct and misses the head. */
  lemma DistinctTail<K>(order: seq<K>)
    requires Distinct(order) && order != []
    ensures Distinct(order[1..]) && order[0] !in order[1..]
    ensures forall k :: k in order <==> k == order[0] || k in order[1..]
  {
    var rest := order[1..];
    forall i, j | 0 <= i < j < |rest| ensures rest[i] != rest[j] {
      assert rest[i] == order[i + 1] && rest[j] == order[j + 1];
    }
    forall i | 0 <= i < |rest| ensures rest[i] != order[0] {
      assert rest[i] == order[i + 1];
    }
    assert order == [order[0]] + rest;
  }

  /** Taking the group of `k` from the concatenated groups gives back `k`'s
      group: visiting the groups one key at a time keeps each key's items in
      input order. */
  lemma {:induction false} FilterOfConcat<T>(order: seq<string>, items: seq<T>, key: T -> string, k: string)
    requires Distinct(order)
    ensures Filter(Concat(order, items, key), key, k) == if k in order then Filter(items, key, k) else []
  {
    if order != [] {
      FilterAppend(Filter(items, key, order[0]), Concat(order[1..], items, key), key, k);
      FilterFilter(items, key, order[0], k);
      DistinctTail(order);
      FilterOfConcat(order[1..], items, key, k);
    }
  }

  /** When `order` names each key once, one more item adds exactly that item
      to the concatenated groups if its key is listed, and nothing otherwise. */
  lemma {:induction false} ConcatSnoc<T>(order: seq<string>, items: seq<T>, x: T, key: T -> string)
    requires Distinct(order)
    ensures multiset(Concat(order, items + [x], key))
      == multiset(Concat(order, items, key)) + if key(x) in order then multiset{x} else multiset{}
  {
    if order != [] {
      var rest := order[1..];
      DistinctTail(order);
      ConcatSnoc(rest, items, x, key);
      assert (items + [x])[..|items + [x]| - 1] == items;
      var here := Filter(items + [x], key, order[0]);
      assert here == Filter(items, key, order[0]) + if key(x) == order[0] then [x] else [];
      assert Concat(order, items + [x], key) == here + Concat(rest, items + [x], key);
      assert Concat(order, items, key) == Filter(items, key, order[0]) + Concat(rest, items, key);
    }
  }

  /** The concatenated groups are a permutation of the items whose key `order`
      lists. */
  lemma {:induction false} ConcatIsFilterIn<T>(order: seq<string>, items: seq<T>, key: T -> string)
    requires Distinct(order)
    ensures multiset(Concat(order, items, key)) == multiset(FilterIn(items, key, order))
  {
    if items == [] {
      ConcatOfEmpty(order, items, key);
    } else {
      var init := items[..|items| - 1];
      var x := items[|items| - 1];
      assert items == init + [x];
      ConcatIsFilterIn(order, init, key);
      ConcatSnoc(order, init, x, key);
    }
  }

  lemma {:induction false} ConcatOfEmpty<T>(order: seq<string>, items: seq<T>, key: T -> string)
    requires items == []
    ensures Concat(order, items, key) == []
  {
    if order != [] {
      ConcatOfEmpty(order[1..], items, key);
    }
  }

  lemma {:induction false} FilterInAll<T>(items: seq<T>, key: T -> string, order: seq<string>)
    requires forall x :: x in items ==> key(x) in order
    ensures FilterIn(items, key, order) == items
  {
    if items != [] {
      var init := items[..|items| - 1];
      assert items == init + [items[|items| - 1]];
      FilterInAll(init, key, order);
    }
  }

  /** Visiting every group once, in any key order, visits every item exactly
      once: the group sizes add up to the number of items. */
  lemma ConcatPermutation<T>(order: seq<string>, items: seq<T>, key: T -> string)
    requires Enumerates(order, KeySet(items, key))
    ensures multiset(Concat(order, items, key)) == multiset(items)
    ensures |Concat(order, items, key)| == |items|
  {
    ConcatIsFilterIn(order, items, key);
    FilterInAll(items, key, order);
    assert |multiset(Concat(order, items, key))| == |Concat(order, items, key)|;
  }
}

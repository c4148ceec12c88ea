/** The sorted multimap: a list of insertions, sorted once, then searched by bisection. */
module FlatMultiMap {
  import opened Prelude
  import opened Positions

  ghost predicate Sorted(keys: seq<nat>) {
    forall i, j :: 0 <= i <= j < |keys| ==> keys[i] <= keys[j]
  }

  /** The values listed under `key`, in list order. */
  function Under<V>(entries: seq<(nat, V)>, key: nat): seq<V> {
    if entries == [] then []
    else
      var rest := Under(entries[..|entries| - 1], key);
      var last := entries[|entries| - 1];
      if last.0 == key then rest + [last.1] else rest
  }

  lemma {:induction false} UnderInOrder<V>(entries: seq<(nat, V)>, key: nat)
    ensures var own := Filtered(entries, (e: (nat, V)) => e.0 == key);
            Under(entries, key) == seq(|own|, k requires 0 <= k < |own| => own[k].1)
  {
    if entries != [] {
      UnderInOrder(entries[..|entries| - 1], key);
    }
  }

  lemma {:induction false} UnderConcat<V>(a: seq<(nat, V)>, b: seq<(nat, V)>, key: nat)
    ensures Under(a + b, key) == Under(a, key) + Under(b, key)
  {
    if b == [] {
      assert a + b == a;
    } else {
      var n := |b| - 1;
      UnderConcat(a, b[..n], key);
      assert (a + b)[..|a + b| - 1] == a + b[..n];
    }
  }

  lemma {:induction false} UnderNone<V>(entries: seq<(nat, V)>, key: nat)
    ensures Under(entries, key) == [] <==> forall i :: 0 <= i < |entries| ==> entries[i].0 != key
  {
    if entries != [] {
      var n := |entries| - 1;
      UnderNone(entries[..n], key);
      assert entries == entries[..n] + [entries[n]];
    }
  }

  // ----- the library's stable sort, as a function -----

  ghost predicate SortedEntries<V>(entries: seq<(nat, V)>) {
    forall i, j :: 0 <= i <= j < |entries| ==> entries[i].0 <= entries[j].0
  }

  /** Puts `entry` after every entry whose key is not greater. */
  function InsertStably<V>(entries: seq<(nat, V)>, entry: (nat, V)): seq<(nat, V)> {
    var n := |entries| - 1;
    if entries == [] || entries[n].0 <= entry.0 then entries + [entry]
    else InsertStably(entries[..n], entry) + [entries[n]]
  }

  function StableSort<V>(entries: seq<(nat, V)>): seq<(nat, V)> {
    if entries == [] then []
    else InsertStably(StableSort(entries[..|entries| - 1]), entries[|entries| - 1])
  }

  lemma {:induction false} InsertStablySorts<V>(entries: seq<(nat, V)>, entry: (nat, V))
    requires SortedEntries(entries)
    ensures SortedEntries(InsertStably(entries, entry))
    ensures forall i :: 0 <= i < |InsertStably(entries, entry)| ==>
              InsertStably(entries, entry)[i] in entries || InsertStably(entries, entry)[i] == entry
  {
    var n := |entries| - 1;
    if entries != [] && entries[n].0 > entry.0 {
      InsertStablySorts(entries[..n], entry);
    }
  }

  lemma {:induction false} InsertStablyIsStable<V>(entries: seq<(nat, V)>, entry: (nat, V), key: nat)
    requires SortedEntries(entries)
    ensures Under(InsertStably(entries, entry), key) == Under(entries, key) + Under([entry], key)
  {
    var n := |entries| - 1;
    if entries == [] || entries[n].0 <= entry.0 {
      UnderConcat(entries, [entry], key);
    } else {
      var front, last := entries[..n], [entries[n]];
      assert entries == front + last;
      InsertStablyIsStable(front, entry, key);
      UnderConcat(front, last, key);
      UnderConcat(InsertStably(front, entry), last, key);
      assert Under([entry], key) == [] || Under(last, key) == [];
    }
  }

  lemma {:induction false} StableSortSorts<V>(entries: seq<(nat, V)>)
    ensures SortedEntries(StableSort(entries))
  {
    if entries != [] {
      var n := |entries| - 1;
      StableSortSorts(entries[..n]);
      InsertStablySorts(StableSort(entries[..n]), entries[n]);
    }
  }

  lemma {:induction false} StableSortIsStable<V>(entries: seq<(nat, V)>, key: nat)
    ensures SortedEntries(StableSort(entries))
    ensures Under(StableSort(entries), key) == Under(entries, key)
  {
    StableSortSorts(entries);
    if entries != [] {
      var n := |entries| - 1;
      StableSortIsStable(entries[..n], key);
      InsertStablyIsStable(StableSort(entries[..n]), entries[n], key);
      UnderConcat(entries[..n], [entries[n]], key);
      assert entries == entries[..n] + [entries[n]];
    }
  }

  // ----- the builder -----

  class FlatMultiMapBuilder<V> {
    var entries: seq<(nat, V)>

    constructor ()
      ensures entries == []
    {
      entries := [];
    }

    method Insert(key: nat, value: V)
      modifies this
      ensures entries == old(entries) + [(key, value)]
    {
      entries := entries + [(key, value)];
    }

    method Finish() returns (keys: seq<nat>, values: seq<V>)
      ensures Stores(keys, values, entries)
    {
      keys, values := FinishEntries(entries);
    }
  }

  /** Sorting the entries and splitting them into two columns. */
  method FinishEntries<V>(entries: seq<(nat, V)>) returns (keys: seq<nat>, values: seq<V>)
    ensures Stores(keys, values, entries)
  {
    var sorted := StableSort(entries);
    StableSortIsStable(entries, 0);
    keys, values := [], [];
    for i := 0 to |sorted|
      invariant |keys| == |values| == i
      invariant forall j :: 0 <= j < i ==> sorted[j] == (keys[j], values[j])
    {
      keys := keys + [sorted[i].0];
      values := values + [sorted[i].1];
    }
    assert Pairs(keys, values) == sorted;
    forall key: nat ensures Under(Pairs(keys, values), key) == Under(entries, key) {
      StableSortIsStable(entries, key);
    }
  }

  function Pairs<V>(keys: seq<nat>, values: seq<V>): (pairs: seq<(nat, V)>)
    requires |keys| == |values|
  {
    seq(|keys|, i requires 0 <= i < |keys| => (keys[i], values[i]))
  }

  /** The two columns hold, under each key, the insertions under that key in insertion order. */
  ghost predicate Stores<V>(keys: seq<nat>, values: seq<V>, entries: seq<(nat, V)>) {
    && |keys| == |values| && Sorted(keys)
    && forall key: nat :: Under(Pairs(keys, values), key) == Under(entries, key)
  }

  // ----- the view -----

  /** Bisection: the number of leading keys that satisfy the predicate. */
  method PartitionPoint(keys: seq<nat>, pred: nat -> bool) returns (left: nat)
    requires forall i, j :: 0 <= i < j < |keys| && pred(keys[j]) ==> pred(keys[i])
    ensures left <= |keys|
    ensures forall i :: 0 <= i < left ==> pred(keys[i])
    ensures forall i :: left <= i < |keys| ==> !pred(keys[i])
  {
    left := 0;
    var right := |keys|;
    while left < right
      invariant left <= right <= |keys|
      invariant forall i :: 0 <= i < left ==> pred(keys[i])
      invariant forall i :: right <= i < |keys| ==> !pred(keys[i])
    {
      var mid := left + (right - left) / 2;
      if pred(keys[mid]) {
        left := mid + 1;
      } else {
        right := mid;
      }
    }
  }

  /** The values from `index` on, as long as the key stays the same. */
  function Run<V>(keys: seq<nat>, values: seq<V>, key: nat, index: nat): seq<V>
    requires |keys| == |values|
    decreases |keys| - index
  {
    if index < |keys| && keys[index] == key then [values[index]] + Run(keys, values, key, index + 1)
    else []
  }

  lemma {:induction false} RunIsUnder<V>(keys: seq<nat>, values: seq<V>, key: nat, index: nat)
    requires |keys| == |values| && Sorted(keys) && index <= |keys|
    requires forall i :: index <= i < |keys| ==> keys[i] >= key
    ensures Run(keys, values, key, index) == Under(Pairs(keys, values)[index..], key)
    decreases |keys| - index
  {
    var pairs := Pairs(keys, values);
    if index < |keys| && keys[index] == key {
      RunIsUnder(keys, values, key, index + 1);
      assert pairs[index..] == [pairs[index]] + pairs[index + 1..];
      UnderConcat([pairs[index]], pairs[index + 1..], key);
      assert Under([pairs[index]], key) == [values[index]];
    } else {
      UnderNone(pairs[index..], key);
    }
  }

  class FlatMultiMapViewIterator<V> {
    var index: nat
    const key: nat
    const keys: seq<nat>
    const values: seq<V>

    ghost predicate Valid() {
      |keys| == |values|
    }

    /** What the iterator has still to yield. */
    ghost function Remaining(): seq<V>
      reads this
      requires Valid()
    {
      Run(keys, values, key, index)
    }

    constructor (index: nat, key: nat, keys: seq<nat>, values: seq<V>)
      requires |keys| == |values|
      ensures Valid() && Remaining() == Run(keys, values, key, index)
    {
      this.index, this.key, this.keys, this.values := index, key, keys, values;
    }

    method Next() returns (item: Option<V>)
      requires Valid()
      modifies this
      ensures item.None? ==> Remaining() == [] && unchanged(this)
      ensures item.Some? ==> old(Remaining()) == [item.value] + Remaining()
    {
      if index < |keys| && keys[index] == key {
        index := index + 1;
        item := Some(values[index - 1]);
      } else {
        item := None;
      }
    }
  }

  method Get<V>(keys: seq<nat>, values: seq<V>, key: nat, ghost entries: seq<(nat, V)>)
    returns (found: Option<FlatMultiMapViewIterator<V>>)
    requires Stores(keys, values, entries)
    ensures found.None? <==> forall i :: 0 <= i < |entries| ==> entries[i].0 != key
    ensures found.Some? ==>
              && fresh(found.value) && found.value.Valid()
              && found.value.Remaining() == Under(entries, key)
  {
    var index := PartitionPoint(keys, x => x < key);
    var pairs := Pairs(keys, values);
    UnderNone(entries, key);
    UnderNone(pairs, key);
    UnderNone(pairs[..index], key);
    UnderConcat(pairs[..index], pairs[index..], key);
    assert pairs == pairs[..index] + pairs[index..];
    RunIsUnder(keys, values, key, index);
    if index < |keys| && keys[index] == key {
      assert pairs[index].0 == key;
      var cursor := new FlatMultiMapViewIterator(index, key, keys, values);
      found := Some(cursor);
    } else {
      found := None;
    }
  }

  /** Running the iterator to its end. */
  method Collect<V>(keys: seq<nat>, values: seq<V>, key: nat, ghost entries: seq<(nat, V)>) returns (items: seq<V>)
    requires Stores(keys, values, entries)
    ensures items == Under(entries, key)
  {
    UnderNone(entries, key);
    items := [];
    var found := Get(keys, values, key, entries);
    if found.None? {
      return;
    }
    var cursor := found.value;
    var item := cursor.Next();
    while item.Some?
      invariant fresh(cursor) && cursor.Valid()
      invariant item.None? ==> cursor.Remaining() == []
      invariant Under(entries, key) ==
                items + (if item.Some? then [item.value] else []) + cursor.Remaining()
      decreases |cursor.Remaining()| + (if item.Some? then 1 else 0)
    {
      items := items + [item.value];
      item := cursor.Next();
    }
    assert Under(entries, key) == items;
  }

  /** Inserting, finishing and iterating yields the insertions under a key, in order. */
  method Lookup<V>(entries: seq<(nat, V)>, key: nat) returns (items: seq<V>)
    ensures items == Under(entries, key)
  {
    var builder := new FlatMultiMapBuilder<V>();
    for n := 0 to |entries|
      invariant fresh(builder) && builder.entries == entries[..n]
    {
      builder.Insert(entries[n].0, entries[n].1);
    }
    var keys, values := builder.Finish();
    assert entries[..|entries|] == entries;
    items := Collect(keys, values, key, entries);
  }
}

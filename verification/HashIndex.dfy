/**
 * The open-addressing table: a builder that probes, inserts, doubles at 50% load and rehashes,
 * and a read-only view that probes the consumed arrays.
 */
module HashIndex {
  import opened Prelude
  import opened Probing

  /** What the table knows about its keys: the value that marks a free slot, and a hash. */
  datatype KeyKind<!K> = KeyKind(empty: K, hash: K -> nat)

  // ----- what the two arrays mean -----

  /** Probing for `key` stops at `slot`, after `i` steps. */
  ghost predicate FoundAt<K>(kind: KeyKind<K>, keys: seq<K>, key: K, slot: nat, i: nat)
    requires |keys| > 0
  {
    && slot == Slot(kind.hash(key), |keys|, i)
    && (keys[slot] == kind.empty || keys[slot] == key)
    && forall j :: 0 <= j < i ==>
         var visited := keys[Slot(kind.hash(key), |keys|, j)];
         visited != kind.empty && visited != key
  }

  ghost predicate Found<K>(kind: KeyKind<K>, keys: seq<K>, key: K, slot: nat)
    requires |keys| > 0
  {
    exists i: nat :: FoundAt(kind, keys, key, slot, i)
  }

  /** The arrays store exactly the bindings of `m`, each where a later probe will look for it. */
  ghost predicate Represents<K, V>(kind: KeyKind<K>, keys: seq<K>, values: seq<V>, m: map<K, V>) {
    && IsPowerOfTwo(|keys|) && |values| == |keys|
    && (forall s :: 0 <= s < |keys| && keys[s] != kind.empty ==>
          keys[s] in m && m[keys[s]] == values[s] && Found(kind, keys, keys[s], s))
    && (forall key :: key in m ==> key != kind.empty && key in keys)
  }

  lemma FoundIsUnique<K>(kind: KeyKind<K>, keys: seq<K>, key: K, s: nat, t: nat)
    requires |keys| > 0 && Found(kind, keys, key, s) && Found(kind, keys, key, t)
    ensures s == t
  {
    var i: nat :| FoundAt(kind, keys, key, s, i);
    var j: nat :| FoundAt(kind, keys, key, t, j);
  }

  lemma StoredKeysAreDistinct<K, V>(kind: KeyKind<K>, keys: seq<K>, values: seq<V>, m: map<K, V>, s: nat, t: nat)
    requires Represents(kind, keys, values, m)
    requires s < |keys| && t < |keys| && s != t && keys[s] != kind.empty
    ensures keys[s] != keys[t]
  {
    if keys[s] == keys[t] {
      FoundIsUnique(kind, keys, keys[s], s, t);
    }
  }

  /** Fewer bindings than slots: some slot is free, so every probe ends. */
  lemma SomeSlotIsFree<K, V>(kind: KeyKind<K>, keys: seq<K>, values: seq<V>, m: map<K, V>) returns (free: nat)
    requires Represents(kind, keys, values, m) && |m| < |keys|
    ensures free < |keys| && keys[free] == kind.empty
  {
    if forall s :: 0 <= s < |keys| ==> keys[s] != kind.empty {
      forall s, t | 0 <= s < t < |keys| ensures keys[s] != keys[t] {
        StoredKeysAreDistinct(kind, keys, values, m, s, t);
      }
      ElementsCount(keys);
      SubsetCount(Elements(keys), m.Keys);
    }
    free :| free < |keys| && keys[free] == kind.empty;
  }

  /** The keys stored, slot by slot. */
  function OccupiedKeys<K(==)>(empty: K, keys: seq<K>): (stored: seq<K>)
    ensures Elements(stored) == Elements(keys) - {empty}
  {
    if keys == [] then []
    else
      var rest := OccupiedKeys(empty, keys[..|keys| - 1]);
      var last := keys[|keys| - 1];
      assert Elements(keys) == Elements(keys[..|keys| - 1]) + {last} by {
        assert keys == keys[..|keys| - 1] + [last];
      }
      assert Elements(rest + [last]) == Elements(rest) + {last};
      if last == empty then rest else rest + [last]
  }

  predicate Distinct<K(==)>(s: seq<K>) {
    forall i, j :: 0 <= i < j < |s| ==> s[i] != s[j]
  }

  lemma {:induction false} OccupiedKeysAreDistinct<K>(empty: K, keys: seq<K>)
    requires forall s, t :: 0 <= s < t < |keys| && keys[s] != empty ==> keys[s] != keys[t]
    ensures Distinct(OccupiedKeys(empty, keys))
  {
    if keys != [] {
      var n := |keys| - 1;
      OccupiedKeysAreDistinct(empty, keys[..n]);
      var rest := OccupiedKeys(empty, keys[..n]);
      if keys[n] != empty {
        forall s | 0 <= s < |rest| ensures rest[s] != keys[n] {
          assert rest[s] in Elements(rest);
          assert rest[s] in keys[..n];
        }
      }
    }
  }

  /** The number of occupied slots is the number of bindings. */
  lemma OccupiedCount<K, V>(kind: KeyKind<K>, keys: seq<K>, values: seq<V>, m: map<K, V>)
    requires Represents(kind, keys, values, m)
    ensures |OccupiedKeys(kind.empty, keys)| == |m|
  {
    forall s, t | 0 <= s < t < |keys| && keys[s] != kind.empty ensures keys[s] != keys[t] {
      StoredKeysAreDistinct(kind, keys, values, m, s, t);
    }
    OccupiedKeysAreDistinct(kind.empty, keys);
    ElementsCount(OccupiedKeys(kind.empty, keys));
    assert Elements(OccupiedKeys(kind.empty, keys)) == m.Keys;
  }

  /** Writing a binding where the probe for its key stopped binds that key and nothing else. */
  lemma StoreBinds<K, V>(kind: KeyKind<K>, keys: seq<K>, values: seq<V>, m: map<K, V>, key: K, value: V, slot: nat)
    requires Represents(kind, keys, values, m)
    requires key != kind.empty && Found(kind, keys, key, slot)
    ensures Represents(kind, keys[slot := key], values[slot := value], m[key := value])
    ensures keys[slot] == kind.empty <==> key !in m
  {
    var keys', values', m' := keys[slot := key], values[slot := value], m[key := value];
    if key in m {
      var s :| 0 <= s < |keys| && keys[s] == key;
      FoundIsUnique(kind, keys, key, s, slot);
    }
    forall s | 0 <= s < |keys'| && keys'[s] != kind.empty
      ensures keys'[s] in m' && m'[keys'[s]] == values'[s] && Found(kind, keys', keys'[s], s)
    {
      var k := keys'[s];
      assert Found(kind, keys, k, s);
      var i: nat :| FoundAt(kind, keys, k, s, i);
      assert FoundAt(kind, keys', k, s, i);
      if s != slot && k == key {
        FoundIsUnique(kind, keys, key, s, slot);
      }
    }
    forall k | k in m' ensures k != kind.empty && k in keys' {
      if k == key {
        assert keys'[slot] == k;
      } else {
        var s :| 0 <= s < |keys| && keys[s] == k;
        assert keys'[s] == k;
      }
    }
  }

  // ----- rehashing, as a function of the old arrays -----

  /** The slot at which a probe that has made `i` steps will stop. */
  function Search<K(==)>(kind: KeyKind<K>, keys: seq<K>, key: K, i: nat): (slot: nat)
    requires |keys| > 0
    ensures slot < |keys|
    decreases |keys| - i
  {
    var slot := Slot(kind.hash(key), |keys|, i);
    if i >= |keys| || keys[slot] == kind.empty || keys[slot] == key then slot
    else Search(kind, keys, key, i + 1)
  }

  lemma {:induction false} SearchFinds<K>(kind: KeyKind<K>, keys: seq<K>, key: K, slot: nat, i: nat, last: nat)
    requires |keys| > 0 && i <= last < |keys| && FoundAt(kind, keys, key, slot, last)
    ensures Search(kind, keys, key, i) == slot
    decreases last - i
  {
    if i < last {
      SearchFinds(kind, keys, key, slot, i + 1, last);
    }
  }

  /** The new arrays after the first `n` old slots have been moved. */
  function Rehashed<K(==), V>(kind: KeyKind<K>, defaultValue: V, keys: seq<K>, values: seq<V>, n: nat, capacity: nat)
    : (table: (seq<K>, seq<V>))
    requires n <= |keys| == |values| && capacity > 0
    ensures |table.0| == |table.1| == capacity
  {
    if n == 0 then (seq(capacity, _ => kind.empty), seq(capacity, _ => defaultValue))
    else
      var (newKeys, newValues) := Rehashed(kind, defaultValue, keys, values, n - 1, capacity);
      var key := keys[n - 1];
      if key == kind.empty then (newKeys, newValues)
      else
        var slot := Search(kind, newKeys, key, 0);
        (newKeys[slot := key], newValues[slot := values[n - 1]])
  }

  /** The least power of two that is at least `n`, by doubling from `p`. */
  function NextPowerOfTwo(n: nat, p: nat := 1): nat
    requires p > 0
    decreases n - p
  {
    if p >= n then p else NextPowerOfTwo(n, 2 * p)
  }

  lemma {:induction false} NextPowerOfPower(k: nat, j: nat)
    requires j <= k
    ensures Power2(j) <= Power2(k)
    ensures NextPowerOfTwo(Power2(k), Power2(j)) == Power2(k)
    decreases k - j
  {
    if j < k {
      NextPowerOfPower(k, j + 1);
    }
  }

  lemma DoubledCapacity(capacity: nat)
    requires IsPowerOfTwo(capacity)
    ensures IsPowerOfTwo(2 * capacity) && NextPowerOfTwo(capacity * 2) == 2 * capacity
  {
    var k: nat :| capacity == Power2(k);
    assert 2 * capacity == Power2(k + 1);
    NextPowerOfPower(k + 1, 0);
    assert Power2(0) == 1;
  }

  // ----- a whole call, as a function of the table before it -----

  datatype Table<K, V> = Table(keys: seq<K>, values: seq<V>, size: nat)

  datatype Op<K, V> = Insert(key: K, value: V) | GetOrInsert(key: K, value: V)

  ghost predicate IsTable<K, V>(t: Table<K, V>) {
    |t.keys| == |t.values| > 0
  }

  /** Binding a new key: it is put where its probe stops, and the table may grow then. */
  ghost function Grown<K, V>(kind: KeyKind<K>, defaultValue: V, t: Table<K, V>, key: K, value: V): (u: Table<K, V>)
    requires IsTable(t)
    ensures IsTable(u)
  {
    var s := Search(kind, t.keys, key, 0);
    var keys, values := t.keys[s := key], t.values[s := value];
    if (t.size + 1) * 2 <= |keys| then Table(keys, values, t.size + 1)
    else
      var r := Rehashed(kind, defaultValue, keys, values, |keys|, 2 * |keys|);
      Table(r.0, r.1, t.size + 1)
  }

  ghost function Entered<K, V>(kind: KeyKind<K>, defaultValue: V, t: Table<K, V>, op: Op<K, V>): (u: Table<K, V>)
    requires IsTable(t)
    ensures IsTable(u)
  {
    var s := Search(kind, t.keys, op.key, 0);
    if t.keys[s] == kind.empty then Grown(kind, defaultValue, t, op.key, op.value)
    else if op.Insert? then t.(keys := t.keys[s := op.key], values := t.values[s := op.value])
    else t
  }

  ghost function EmptyTable<K, V>(kind: KeyKind<K>, defaultValue: V, capacity: nat): Table<K, V> {
    Table(seq(capacity, _ => kind.empty), seq(capacity, _ => defaultValue), 0)
  }

  // ----- the two probes of the source -----

  /** Probing for a key: stop at a free slot or at the key. */
  method FindKey<K(==), V>(kind: KeyKind<K>, keys: seq<K>, ghost values: seq<V>, key: K, ghost m: map<K, V>)
    returns (slot: nat)
    requires Represents(kind, keys, values, m) && |m| < |keys|
    ensures slot < |keys| && Found(kind, keys, key, slot)
    ensures slot == Search(kind, keys, key, 0)
  {
    var probe := (s: nat) => s < |keys| && (keys[s] == kind.empty || keys[s] == key);
    ghost var free := SomeSlotIsFree(kind, keys, values, m);
    assert probe(free);
    slot := FindSlot(kind.hash(key), |keys|, probe);
    ghost var i: nat :| i < |keys| && IsFirstHitAt(kind.hash(key), |keys|, probe, slot, i);
    assert FoundAt(kind, keys, key, slot, i);
    SearchFinds(kind, keys, key, slot, 0, i);
  }

  /** Probing for room for a key that is not in the table: stop at a free slot. */
  method FindFree<K(==), V>(kind: KeyKind<K>, keys: seq<K>, ghost values: seq<V>, key: K, ghost m: map<K, V>)
    returns (slot: nat)
    requires Represents(kind, keys, values, m) && |m| < |keys| && key !in m && key != kind.empty
    ensures slot < |keys| && keys[slot] == kind.empty && Found(kind, keys, key, slot)
    ensures slot == Search(kind, keys, key, 0)
  {
    var probe := (s: nat) => s < |keys| && keys[s] == kind.empty;
    ghost var free := SomeSlotIsFree(kind, keys, values, m);
    assert probe(free);
    slot := FindSlot(kind.hash(key), |keys|, probe);
    ghost var i: nat :| i < |keys| && IsFirstHitAt(kind.hash(key), |keys|, probe, slot, i);
    assert FoundAt(kind, keys, key, slot, i);
    SearchFinds(kind, keys, key, slot, 0, i);
  }

  // ----- the builder -----

  /** What has been moved, binding by binding, after `n` slots of the old table. */
  ghost predicate MovedUpTo<K, V>(kind: KeyKind<K>, moved: map<K, V>, all: map<K, V>, oldIndexes: seq<K>, n: nat)
    requires n <= |oldIndexes|
  {
    && moved.Keys == Elements(oldIndexes[..n]) - {kind.empty}
    && moved.Keys <= all.Keys && forall k :: k in moved ==> moved[k] == all[k]
  }

  lemma MovedNext<K, V>(kind: KeyKind<K>, moved: map<K, V>, all: map<K, V>, oldIndexes: seq<K>, n: nat)
    requires n < |oldIndexes| && MovedUpTo(kind, moved, all, oldIndexes, n)
    ensures oldIndexes[n] == kind.empty ==> MovedUpTo(kind, moved, all, oldIndexes, n + 1)
    ensures oldIndexes[n] != kind.empty && oldIndexes[n] in all ==>
              MovedUpTo(kind, moved[oldIndexes[n] := all[oldIndexes[n]]], all, oldIndexes, n + 1)
  {
    assert oldIndexes[..n + 1] == oldIndexes[..n] + [oldIndexes[n]];
  }

  lemma MovedAll<K, V>(kind: KeyKind<K>, oldIndexes: seq<K>, oldValues: seq<V>, moved: map<K, V>, all: map<K, V>)
    requires Represents(kind, oldIndexes, oldValues, all) && MovedUpTo(kind, moved, all, oldIndexes, |oldIndexes|)
    ensures moved == all
  {
    assert oldIndexes[..|oldIndexes|] == oldIndexes;
    assert moved.Keys == all.Keys;
  }

  class HashIndexBuilder<K(==), V> {
    const kind: KeyKind<K>
    const defaultValue: V
    var indexes: seq<K>
    var values: seq<V>
    var size: nat
    ghost var contents: map<K, V>

    /** Up to 50% load; `size` counts the occupied slots (see `OccupiedCount`). */
    ghost predicate Valid()
      reads this
    {
      && Represents(kind, indexes, values, contents)
      && size == |contents|
      && size * 2 <= |indexes|
    }

    ghost function AsTable(): Table<K, V>
      reads this
    {
      Table(indexes, values, size)
    }

    constructor NewWithCapacity(kind: KeyKind<K>, defaultValue: V, capacity: nat)
      requires IsPowerOfTwo(capacity)
      ensures Valid() && contents == map[] && |indexes| == capacity
      ensures this.kind == kind && this.defaultValue == defaultValue
      ensures AsTable() == EmptyTable(kind, defaultValue, capacity)
    {
      this.kind, this.defaultValue := kind, defaultValue;
      size, contents := 0, map[];
      indexes := seq(capacity, _ => kind.empty);
      values := seq(capacity, _ => defaultValue);
    }

    /**
     * Binds `key` to `value`. The returned slot is computed before the table may grow: it is the
     * slot of the key only if the table did not grow.
     */
    method Insert(key: K, value: V) returns (slot: nat)
      requires Valid() && key != kind.empty
      modifies this
      ensures Valid()
      ensures contents == old(contents)[key := value]
      ensures slot < |old(indexes)| <= |indexes|
      ensures var keys, vals := old(indexes)[slot := key], old(values)[slot := value];
              if key in old(contents) || (old(size) + 1) * 2 <= |old(indexes)|
              then indexes == keys && values == vals
              else |indexes| == 2 * |keys| && size * 4 > |indexes|
                   && (indexes, values) == Rehashed(kind, defaultValue, keys, vals, |keys|, |indexes|)
      ensures Found(kind, old(indexes), key, slot) && slot == Search(kind, old(indexes), key, 0)
      ensures AsTable() == Entered(kind, defaultValue, old(AsTable()), Op.Insert(key, value))
    {
      slot := FindKey(kind, indexes, values, key, contents);
      StoreBinds(kind, indexes, values, contents, key, value, slot);
      var vacant := indexes[slot] == kind.empty;
      indexes := indexes[slot := key];
      values := values[slot := value];
      contents := contents[key := value];
      if vacant {
        size := size + 1;
        MaybeIncreaseCapacity();
      }
    }

    /** The slot of the existing binding, or whatever `Insert` returns for a new one. */
    method GetOrInsert(key: K, value: V) returns (slot: nat)
      requires Valid() && key != kind.empty
      modifies this
      ensures Valid() && slot < |indexes|
      ensures Found(kind, old(indexes), key, slot) && slot == Search(kind, old(indexes), key, 0)
      ensures AsTable() == Entered(kind, defaultValue, old(AsTable()), Op.GetOrInsert(key, value))
      ensures key in old(contents) ==>
                unchanged(this) && indexes[slot] == key && values[slot] == contents[key]
      ensures key !in old(contents) ==> contents == old(contents)[key := value]
      ensures |indexes| == |old(indexes)| || |indexes| < 4 * size
      ensures key !in old(contents) && (old(size) + 1) * 2 > |old(indexes)| ==>
                var keys, vals := old(indexes)[slot := key], old(values)[slot := value];
                (indexes, values) == Rehashed(kind, defaultValue, keys, vals, |keys|, 2 * |keys|)
      ensures key !in old(contents) && (old(size) + 1) * 2 <= |old(indexes)| ==>
                indexes[slot] == key && values[slot] == value
    {
      slot := FindKey(kind, indexes, values, key, contents);
      StoreBinds(kind, indexes, values, contents, key, value, slot);
      if indexes[slot] != kind.empty {
        return;
      }
      slot := Insert(key, value);
    }

    method MaybeIncreaseCapacity()
      requires Represents(kind, indexes, values, contents) && size == |contents| <= |indexes|
      modifies this
      ensures Valid() && size == old(size) && contents == old(contents)
      ensures size * 2 <= |old(indexes)| ==> indexes == old(indexes) && values == old(values)
      ensures size * 2 > |old(indexes)| ==>
                && |indexes| == 2 * |old(indexes)| && size * 4 > |indexes|
                && (indexes, values)
                   == Rehashed(kind, defaultValue, old(indexes), old(values), |old(indexes)|, |indexes|)
    {
      if size * 2 <= |indexes| {
        return;
      }
      DoubledCapacity(|indexes|);
      var newCapacity := NextPowerOfTwo(|indexes| * 2);
      var oldIndexes, oldValues := indexes, values;
      indexes := seq(newCapacity, _ => kind.empty);
      values := seq(newCapacity, _ => defaultValue);
      MoveAll(oldIndexes, oldValues);
    }

    /** The first `n` slots of the old table have been moved, which bind what `moved` binds. */
    ghost predicate Moving(oldIndexes: seq<K>, oldValues: seq<V>, n: nat, moved: map<K, V>)
      reads this
    {
      && Represents(kind, oldIndexes, oldValues, contents) && |contents| < |indexes|
      && Represents(kind, indexes, values, moved)
      && n <= |oldIndexes| && MovedUpTo(kind, moved, contents, oldIndexes, n)
      && (indexes, values) == Rehashed(kind, defaultValue, oldIndexes, oldValues, n, |indexes|)
    }

    /** The rehashing loop: fills the new, empty table from the old one. */
    method MoveAll(oldIndexes: seq<K>, oldValues: seq<V>)
      requires Moving(oldIndexes, oldValues, 0, map[])
      modifies this`indexes, this`values
      ensures |indexes| == old(|indexes|) && Represents(kind, indexes, values, contents)
      ensures (indexes, values) == Rehashed(kind, defaultValue, oldIndexes, oldValues, |oldIndexes|, |indexes|)
    {
      ghost var moved: map<K, V> := map[];
      var n := 0;
      while n < |oldIndexes|
        invariant n <= |oldIndexes| && |indexes| == old(|indexes|)
        invariant Moving(oldIndexes, oldValues, n, moved)
      {
        moved := MoveSlot(oldIndexes, oldValues, n, moved);
        n := n + 1;
      }
      MovedAll(kind, oldIndexes, oldValues, moved, contents);
    }

    /** One slot of the old table. */
    method MoveSlot(
      oldIndexes: seq<K>, oldValues: seq<V>, n: nat, ghost moved: map<K, V>)
      returns (ghost moved': map<K, V>)
      requires Moving(oldIndexes, oldValues, n, moved) && n < |oldIndexes|
      modifies this`indexes, this`values
      ensures |indexes| == old(|indexes|) && Moving(oldIndexes, oldValues, n + 1, moved')
    {
      MovedNext(kind, moved, contents, oldIndexes, n);
      moved' := moved;
      if oldIndexes[n] != kind.empty {
        moved' := MoveOne(oldIndexes[n], oldValues[n], oldIndexes, oldValues, n, moved);
      }
    }

    /** An occupied slot: the key is new to the table, so any free slot will do. */
    method MoveOne(key: K, value: V, ghost oldIndexes: seq<K>, ghost oldValues: seq<V>, ghost n: nat,
                   ghost moved: map<K, V>) returns (ghost moved': map<K, V>)
      requires Moving(oldIndexes, oldValues, n, moved)
      requires n < |oldIndexes| && key == oldIndexes[n] != kind.empty && value == oldValues[n]
      modifies this`indexes, this`values
      ensures |indexes| == old(|indexes|) && moved' == moved[key := value]
      ensures Represents(kind, indexes, values, moved')
      ensures (indexes, values) == Rehashed(kind, defaultValue, oldIndexes, oldValues, n + 1, |indexes|)
    {
      if key in moved {
        assert key in oldIndexes[..n];
        var s :| 0 <= s < n && oldIndexes[s] == key;
        StoredKeysAreDistinct(kind, oldIndexes, oldValues, contents, s, n);
      }
      SubsetCount(moved.Keys, contents.Keys);
      var slot := FindFree(kind, indexes, values, key, moved);
      StoreBinds(kind, indexes, values, moved, key, value, slot);
      indexes := indexes[slot := key];
      values := values[slot := value];
      moved' := moved[key := value];
    }
  }

  // ----- the use that the cosmetic rules make of the returned slot -----

  function Filed<K, V>(m: map<K, seq<V>>, key: K, item: V): map<K, seq<V>> {
    m[key := (if key in m then m[key] else []) + [item]]
  }

  /** The key whose value a reference to the slot of `key`, computed before the call, leads to after it. */
  ghost function OwnerOfSlot<K, V>(kind: KeyKind<K>, defaultValue: V, t: Table<K, V>, key: K, value: V): K
    requires IsTable(t)
  {
    Entered(kind, defaultValue, t, Op.GetOrInsert(key, value)).keys[Search(kind, t.keys, key, 0)]
  }

  /** The table after the push: the value in the slot that `key` had before the call gets longer. */
  ghost function PushedInto<K, V>(
    kind: KeyKind<K>, defaultValue: seq<V>, t: Table<K, seq<V>>, key: K, item: V): (u: Table<K, seq<V>>)
    requires IsTable(t)
    ensures IsTable(u)
  {
    var s, u := Search(kind, t.keys, key, 0), Entered(kind, defaultValue, t, Op.GetOrInsert(key, []));
    u.(values := u.values[s := u.values[s] + [item]])
  }

  /** The bindings after the push: the item goes to whatever key that slot now holds, or is dropped. */
  ghost function HeldAfter<K, V>(
    kind: KeyKind<K>, defaultValue: seq<V>, t: Table<K, seq<V>>, m: map<K, seq<V>>, key: K, item: V): map<K, seq<V>>
    requires IsTable(t)
  {
    var bound := if key in m then m else m[key := []];
    var owner := OwnerOfSlot(kind, defaultValue, t, key, []);
    if owner != kind.empty && owner in bound then bound[owner := bound[owner] + [item]] else bound
  }

  /**
   * `get_or_insert(key, [])` followed by a push through the reference it returns. The item is filed
   * under its key exactly when the key is present, or the table does not grow, or rehashing happens
   * to leave the key in the slot it had; otherwise it is dropped or filed under another key. All of
   * this is told by the table before the call.
   */
  method PushUnder<K(==), V>(builder: HashIndexBuilder<K, seq<V>>, key: K, item: V) returns (slot: nat)
    requires builder.Valid() && key != builder.kind.empty
    modifies builder
    ensures builder.Valid() && slot < |builder.indexes|
    ensures slot == Search(builder.kind, old(builder.indexes), key, 0)
    ensures builder.indexes[slot] == OwnerOfSlot(builder.kind, builder.defaultValue, old(builder.AsTable()), key, [])
    ensures builder.indexes[slot] == key <==>
              KeepsItsSlot(builder.kind, builder.defaultValue, old(builder.AsTable()), old(builder.contents), key, [])
    ensures builder.contents == Filed(old(builder.contents), key, item) <==>
              KeepsItsSlot(builder.kind, builder.defaultValue, old(builder.AsTable()), old(builder.contents), key, [])
    ensures builder.indexes[slot] == builder.kind.empty ==>
              builder.contents == old(builder.contents)[key := []]
    ensures builder.AsTable() == PushedInto(builder.kind, builder.defaultValue, old(builder.AsTable()), key, item)
    ensures builder.contents ==
              HeldAfter(builder.kind, builder.defaultValue, old(builder.AsTable()), old(builder.contents), key, item)
  {
    HeldMeans(builder.kind, builder.defaultValue, builder.AsTable(), builder.contents, key, item);
    slot := PushExactly(builder, key, item);
  }

  method PushExactly<K(==), V>(builder: HashIndexBuilder<K, seq<V>>, key: K, item: V) returns (slot: nat)
    requires builder.Valid() && key != builder.kind.empty
    modifies builder
    ensures builder.Valid() && slot < |builder.indexes|
    ensures slot == Search(builder.kind, old(builder.indexes), key, 0)
    ensures builder.AsTable() == PushedInto(builder.kind, builder.defaultValue, old(builder.AsTable()), key, item)
    ensures builder.contents ==
              HeldAfter(builder.kind, builder.defaultValue, old(builder.AsTable()), old(builder.contents), key, item)
  {
    ghost var t, m := builder.AsTable(), builder.contents;
    slot := builder.GetOrInsert(key, []);
    ghost var u := builder.AsTable();
    assert builder.contents == if key in m then m else m[key := []];
    PushThrough(builder, key, slot, item);
    PushedIsHeld(builder.kind, builder.defaultValue, t, m, u, key, item);
  }

  lemma PushedIsHeld<K, V>(
    kind: KeyKind<K>, defaultValue: seq<V>, t: Table<K, seq<V>>, m: map<K, seq<V>>, u: Table<K, seq<V>>, key: K,
    item: V)
    requires IsTable(t) && u == Entered(kind, defaultValue, t, Op.GetOrInsert(key, []))
    requires Search(kind, t.keys, key, 0) < |u.keys|
    requires Represents(kind, u.keys, u.values, if key in m then m else m[key := []])
    ensures var bound, s := if key in m then m else m[key := []], Search(kind, t.keys, key, 0);
            Pushed(kind, u.keys, bound, s, item) == HeldAfter(kind, defaultValue, t, m, key, item)
  {
  }

  lemma HeldMeans<K, V>(
    kind: KeyKind<K>, defaultValue: seq<V>, t: Table<K, seq<V>>, m: map<K, seq<V>>, key: K, item: V)
    requires IsTable(t) && Represents(kind, t.keys, t.values, m) && t.size == |m| && t.size * 2 <= |t.keys|
    requires key != kind.empty
    ensures var held := HeldAfter(kind, defaultValue, t, m, key, item);
            var owner := OwnerOfSlot(kind, defaultValue, t, key, []);
            && (held == Filed(m, key, item) <==> KeepsItsSlot(kind, defaultValue, t, m, key, []))
            && (owner == key <==> KeepsItsSlot(kind, defaultValue, t, m, key, []))
            && (owner == kind.empty ==> held == m[key := []])
  {
    OwnerExactly(kind, defaultValue, t, m, key, []);
    FiledEither(m, key, item);
    var bound, owner := if key in m then m else m[key := []], OwnerOfSlot(kind, defaultValue, t, key, []);
    if owner != key {
      assert HeldAfter(kind, defaultValue, t, m, key, item)[key] == bound[key] != Filed(m, key, item)[key];
    }
  }

  lemma FiledEither<K, V>(m: map<K, seq<V>>, key: K, item: V)
    ensures key !in m ==> Filed(m[key := []], key, item) == Filed(m, key, item)
  {
  }

  /** A reference computed before the call leads to the key after it: told by the table before the call. */
  ghost predicate KeepsItsSlot<K, V>(
    kind: KeyKind<K>, defaultValue: V, t: Table<K, V>, m: map<K, V>, key: K, value: V)
    requires IsTable(t)
  {
    || key in m
    || (t.size + 1) * 2 <= |t.keys|
    || (var s, n := Search(kind, t.keys, key, 0), |t.keys|;
        Rehashed(kind, defaultValue, t.keys[s := key], t.values[s := value], n, 2 * n).0[s] == key)
  }

  lemma OwnerExactly<K, V>(kind: KeyKind<K>, defaultValue: V, t: Table<K, V>, m: map<K, V>, key: K, value: V)
    requires IsTable(t) && Represents(kind, t.keys, t.values, m) && t.size == |m| && t.size * 2 <= |t.keys|
    requires key != kind.empty
    ensures OwnerOfSlot(kind, defaultValue, t, key, value) == key <==>
              KeepsItsSlot(kind, defaultValue, t, m, key, value)
  {
    var s := FoundBySearch(kind, t.keys, t.values, m, key);
    StoreBinds(kind, t.keys, t.values, m, key, value, s);
  }

  /** In a table that is not full the search for a key stops where a probe for it does. */
  lemma FoundBySearch<K, V>(kind: KeyKind<K>, keys: seq<K>, values: seq<V>, m: map<K, V>, key: K) returns (s: nat)
    requires Represents(kind, keys, values, m) && |m| < |keys|
    ensures s == Search(kind, keys, key, 0) && Found(kind, keys, key, s)
  {
    var free := SomeSlotIsFree(kind, keys, values, m);
    var last := ProbesCoverTable(kind.hash(key), |keys|, free);
    s := Search(kind, keys, key, 0);
    SearchStops(kind, keys, key, 0, last);
  }

  lemma {:induction false} SearchStops<K>(kind: KeyKind<K>, keys: seq<K>, key: K, i: nat, last: nat)
    requires |keys| > 0 && i <= last < |keys|
    requires var slot := keys[Slot(kind.hash(key), |keys|, last)]; slot == kind.empty || slot == key
    requires forall j :: 0 <= j < i ==>
               var visited := keys[Slot(kind.hash(key), |keys|, j)]; visited != kind.empty && visited != key
    ensures Found(kind, keys, key, Search(kind, keys, key, i))
    decreases last - i
  {
    var slot := Slot(kind.hash(key), |keys|, i);
    if keys[slot] == kind.empty || keys[slot] == key {
      assert FoundAt(kind, keys, key, slot, i);
    } else {
      SearchStops(kind, keys, key, i + 1, last);
    }
  }

  /** The push through the reference, after the table may have grown. */
  method PushThrough<K(==), V>(builder: HashIndexBuilder<K, seq<V>>, ghost key: K, slot: nat, item: V)
    requires builder.Valid() && slot < |builder.indexes| && key in builder.contents
    modifies builder`values, builder`contents
    ensures builder.Valid()
    ensures builder.values == old(builder.values)[slot := old(builder.values)[slot] + [item]]
    ensures builder.contents ==
              Pushed(builder.kind, builder.indexes, old(builder.contents), slot, item)
    ensures builder.contents == Filed(old(builder.contents), key, item) <==> builder.indexes[slot] == key
  {
    var pushed := builder.values[slot] + [item];
    PushMeans(builder.kind, builder.indexes, builder.values, builder.contents, key, slot, item);
    builder.contents := Pushed(builder.kind, builder.indexes, builder.contents, slot, item);
    builder.values := builder.values[slot := pushed];
  }

  /** The bindings after a push through the reference to `slot`. */
  function Pushed<K(==), V>(kind: KeyKind<K>, keys: seq<K>, m: map<K, seq<V>>, slot: nat, item: V): map<K, seq<V>>
    requires slot < |keys|
    requires keys[slot] != kind.empty ==> keys[slot] in m
  {
    if keys[slot] == kind.empty then m else m[keys[slot] := m[keys[slot]] + [item]]
  }

  lemma PushMeans<K, V>(
    kind: KeyKind<K>, keys: seq<K>, values: seq<seq<V>>, m: map<K, seq<V>>, key: K, slot: nat, item: V)
    requires Represents(kind, keys, values, m) && slot < |keys| && key in m
    ensures Represents(kind, keys, values[slot := values[slot] + [item]], Pushed(kind, keys, m, slot, item))
    ensures Pushed(kind, keys, m, slot, item).Keys == m.Keys
    ensures Pushed(kind, keys, m, slot, item) == Filed(m, key, item) <==> keys[slot] == key
  {
    var owner := keys[slot];
    if owner != kind.empty {
      StoreBinds(kind, keys, values, m, owner, values[slot] + [item], slot);
      assert keys[slot := owner] == keys;
    }
    if owner != key {
      assert |Pushed(kind, keys, m, slot, item)[key]| == |m[key]| < |Filed(m, key, item)[key]|;
    }
  }

  // ----- the view -----

  /** Looking a key up in the consumed arrays. */
  method GetSingle<K(==), V>(kind: KeyKind<K>, indexes: seq<K>, values: seq<V>, key: K, ghost m: map<K, V>)
    returns (found: Option<V>)
    requires Represents(kind, indexes, values, m) && |m| < |indexes|
    ensures found == if key in m then Some(m[key]) else None
  {
    var slot := FindKey(kind, indexes, values, key, m);
    if key in m {
      ghost var s :| 0 <= s < |indexes| && indexes[s] == key;
      FoundIsUnique(kind, indexes, key, s, slot);
    }
    if indexes[slot] == kind.empty {
      found := None;
    } else {
      found := Some(values[slot]);
    }
  }

  // ----- whole runs -----

  /** What a run of builder calls is supposed to store. */
  function Meaning<K, V>(ops: seq<Op<K, V>>): map<K, V> {
    if ops == [] then map[] else After(Meaning(ops[..|ops| - 1]), ops[|ops| - 1])
  }

  function After<K, V>(m: map<K, V>, op: Op<K, V>): map<K, V> {
    if op.GetOrInsert? && op.key in m then m else m[op.key := op.value]
  }

  /** The table that a run builds, slot by slot. */
  ghost function Built<K, V>(kind: KeyKind<K>, defaultValue: V, ops: seq<Op<K, V>>): (t: Table<K, V>)
    ensures IsTable(t)
  {
    if ops == [] then EmptyTable(kind, defaultValue, 4)
    else Entered(kind, defaultValue, Built(kind, defaultValue, ops[..|ops| - 1]), ops[|ops| - 1])
  }

  method Apply<K(==), V>(builder: HashIndexBuilder<K, V>, op: Op<K, V>)
    requires builder.Valid() && op.key != builder.kind.empty
    modifies builder
    ensures builder.Valid() && builder.contents == After(old(builder.contents), op)
    ensures builder.AsTable() == Entered(builder.kind, builder.defaultValue, old(builder.AsTable()), op)
    ensures |builder.indexes| == old(|builder.indexes|) || |builder.indexes| < 4 * builder.size
    ensures old(builder.size) <= builder.size
  {
    match op {
      case Insert(key, value) =>
        var _ := builder.Insert(key, value);
      case GetOrInsert(key, value) =>
        var _ := builder.GetOrInsert(key, value);
    }
  }

  /**
   * Any sequence of insertions of non-empty keys, with all the growth it causes, followed by
   * `consume`: the arrays represent exactly the bindings the sequence stands for, and a later
   * probe for any key ends (see `GetSingle`).
   */
  method BuildTable<K(==), V>(kind: KeyKind<K>, defaultValue: V, ops: seq<Op<K, V>>)
    returns (indexes: seq<K>, values: seq<V>)
    requires forall i :: 0 <= i < |ops| ==> ops[i].key != kind.empty
    ensures Represents(kind, indexes, values, Meaning(ops))
    ensures var t := Built(kind, defaultValue, ops); indexes == t.keys && values == t.values
    ensures 2 * |Meaning(ops)| <= |indexes|
    ensures |OccupiedKeys(kind.empty, indexes)| == |Meaning(ops)|
    ensures |indexes| == 4 || |indexes| < 4 * |Meaning(ops)|
  {
    assert Power2(2) == 2 * Power2(1) == 4;
    var builder := new HashIndexBuilder.NewWithCapacity(kind, defaultValue, 4);
    for n := 0 to |ops|
      invariant fresh(builder) && builder.Valid() && builder.kind == kind && builder.defaultValue == defaultValue
      invariant builder.AsTable() == Built(kind, defaultValue, ops[..n])
      invariant builder.contents == Meaning(ops[..n])
      invariant |builder.indexes| == 4 || |builder.indexes| < 4 * builder.size
    {
      assert ops[..n + 1][..n] == ops[..n];
      Apply(builder, ops[n]);
    }
    assert ops[..|ops|] == ops;
    indexes, values := builder.indexes, builder.values;
    OccupiedCount(kind, indexes, values, builder.contents);
  }

  // ----- the slot returned by a growing insertion -----

  /** Natural-number keys that hash to themselves; 0 marks a free slot. */
  const Numbers: KeyKind<nat> := KeyKind(0, (n: nat) => n)

  /** The keys 1 .. k, each in its home slot. */
  function Homes(c: nat, k: nat): (keys: seq<nat>) {
    seq(c, (s: nat) => if s <= k then s else 0)
  }

  function Same<V>(c: nat, v: V): (values: seq<V>) {
    seq(c, _ => v)
  }

  /** The run that inserts 1 .. k. */
  function Filling<V>(k: nat, v: V): (ops: seq<Op<nat, V>>)
    ensures |ops| == k
  {
    seq(k, (i: nat) => Op.GetOrInsert(i + 1, v))
  }

  /** The capacity after that run. */
  function Capacity(k: nat): nat {
    if k == 0 then 4
    else
      var c := Capacity(k - 1);
      if 2 * k <= c then c else 2 * c
  }

  lemma {:induction false} CapacityFits(k: nat)
    ensures IsPowerOfTwo(Capacity(k)) && Capacity(k) >= 4 && 2 * k <= Capacity(k)
    ensures Capacity(k) == 4 || Capacity(k) < 4 * k
  {
    if k == 0 {
      assert Power2(2) == 2 * Power2(1) == 4;
    } else {
      CapacityFits(k - 1);
      DoubledCapacity(Capacity(k - 1));
    }
  }

  lemma {:induction false} PowersAreApart(a: nat, b: nat)
    requires Power2(b) <= Power2(a) < 2 * Power2(b)
    ensures a == b
    decreases a
  {
    if a > 0 && b > 0 {
      PowersAreApart(a - 1, b - 1);
    }
  }

  /** Every capacity from four on is reached, with the table half full. */
  lemma CapacityIsReached(half: nat)
    requires IsPowerOfTwo(2 * half) && half >= 2
    ensures Capacity(half) == 2 * half
  {
    CapacityFits(half);
    var b: nat :| 2 * half == Power2(b);
    var a: nat :| Capacity(half) == Power2(a);
    PowersAreApart(a, b);
  }

  lemma HomeSlot(key: nat, c: nat)
    requires key < c
    ensures Slot(key, c, 0) == key
  {
    assert Triangular(0) == 0;
    ModUnique(key, c, 0, key);
  }

  lemma {:induction false} RehashedHomes<V>(c: nat, k: nat, v: V, n: nat)
    requires c > 0 && n <= c
    ensures Rehashed(Numbers, v, Homes(c, k), Same(c, v), n, 2 * c)
            == (Homes(2 * c, if n == 0 then 0 else if n - 1 < k then n - 1 else k), Same(2 * c, v))
  {
    if n == 0 {
      var table := Rehashed(Numbers, v, Homes(c, k), Same(c, v), 0, 2 * c);
      assert table.0 == Homes(2 * c, 0) && table.1 == Same(2 * c, v);
    } else {
      RehashedHomes(c, k, v, n - 1);
      OneHomeMoved(c, k, v, n);
    }
  }

  lemma OneHomeMoved<V>(c: nat, k: nat, v: V, n: nat)
    requires c > 0 && 0 < n <= c
    requires var m := n - 1;
             Rehashed(Numbers, v, Homes(c, k), Same(c, v), m, 2 * c)
             == (Homes(2 * c, if m == 0 then 0 else if m - 1 < k then m - 1 else k), Same(2 * c, v))
    ensures Rehashed(Numbers, v, Homes(c, k), Same(c, v), n, 2 * c)
            == (Homes(2 * c, if n - 1 < k then n - 1 else k), Same(2 * c, v))
  {
    var key := n - 1;
    if 0 < key <= k {
      var keys := Homes(2 * c, key - 1);
      HomeSlot(key, 2 * c);
      assert keys[key] == 0 && Search(Numbers, keys, key, 0) == key;
      assert Homes(2 * c, key) == keys[key := key];
      assert Same(2 * c, v)[key := v] == Same(2 * c, v);
    }
  }

  /** What inserting 1 .. k builds, through all the growth it causes. */
  lemma {:induction false} FillingBuilds<V>(k: nat, v: V)
    ensures Built(Numbers, v, Filling(k, v)) == Table(Homes(Capacity(k), k), Same(Capacity(k), v), k)
  {
    if k == 0 {
      assert Homes(4, 0) == seq(4, _ => Numbers.empty);
    } else {
      FillingBuilds(k - 1, v);
      FillingLonger(k, v);
      CapacityFits(k - 1);
      OneMoreHome(Capacity(k - 1), k, v);
    }
  }

  lemma FillingLonger<V>(k: nat, v: V)
    requires k > 0
    ensures Filling(k, v)[..k - 1] == Filling(k - 1, v) && Filling(k, v)[k - 1] == Op.GetOrInsert(k, v)
  {
  }

  lemma OneMoreHome<V>(c: nat, k: nat, v: V)
    requires c >= 4 && 0 < k && 2 * (k - 1) <= c
    ensures Entered(Numbers, v, Table(Homes(c, k - 1), Same(c, v), k - 1), Op.GetOrInsert(k, v))
            == if 2 * k <= c then Table(Homes(c, k), Same(c, v), k) else Table(Homes(2 * c, k), Same(2 * c, v), k)
  {
    HomeSlot(k, c);
    assert Search(Numbers, Homes(c, k - 1), k, 0) == k;
    assert Homes(c, k - 1)[k := k] == Homes(c, k) && Same(c, v)[k := v] == Same(c, v);
    RehashedHomes(c, k, v, c);
  }

  /** The key that makes the half-full table grow; it and `half + 1` have the same home before growth. */
  function Intruder(half: nat): nat { 3 * half + 1 }

  function WithIntruder(half: nat, n: nat): (keys: seq<nat>) {
    seq(4 * half, (s: nat) =>
      if 0 < s < n && s <= half then s else if s == Intruder(half) && n > half + 1 then s else 0)
  }

  lemma {:induction false} RehashedWithIntruder<V>(half: nat, v: V, n: nat)
    requires half >= 2 && n <= 2 * half
    ensures Rehashed(Numbers, v, Homes(2 * half, half)[half + 1 := Intruder(half)], Same(2 * half, v), n, 4 * half)
            == (WithIntruder(half, n), Same(4 * half, v))
  {
    var keys := Homes(2 * half, half)[half + 1 := Intruder(half)];
    if n == 0 {
      var table := Rehashed(Numbers, v, keys, Same(2 * half, v), 0, 4 * half);
      assert table.0 == WithIntruder(half, 0) && table.1 == Same(4 * half, v);
    } else {
      RehashedWithIntruder(half, v, n - 1);
      var key := keys[n - 1];
      if key == 0 {
        assert WithIntruder(half, n) == WithIntruder(half, n - 1);
      } else {
        HomeSlot(key, 4 * half);
        assert Search(Numbers, WithIntruder(half, n - 1), key, 0) == key;
        assert WithIntruder(half, n) == WithIntruder(half, n - 1)[key := key];
        assert Same(4 * half, v)[key := v] == Same(4 * half, v);
      }
    }
  }

  /** Half full, and the insertion of `key` returns a slot that is free after growth. */
  ghost predicate ReturnsForeignSlot<V>(capacity: nat, t: Table<nat, V>, key: nat, v: V) {
    && IsTable(t) && |t.keys| == capacity && 2 * t.size == capacity && key !in t.keys
    && OwnerOfSlot(Numbers, v, t, key, v) == Numbers.empty
  }

  /**
   * At every capacity from four on there is a run that leaves the table half full, and a key whose
   * insertion then returns a slot that does not hold the key: after growth it is a free slot.
   */
  lemma GrowthReturnsForeignSlot<V>(half: nat, v: V)
    requires IsPowerOfTwo(2 * half) && half >= 2
    ensures ReturnsForeignSlot(2 * half, Built(Numbers, v, Filling(half, v)), Intruder(half), v)
  {
    CapacityIsReached(half);
    FillingBuilds(half, v);
    IntruderIsMoved(half, v);
  }

  lemma IntruderStops(half: nat)
    requires half >= 2
    ensures Intruder(half) !in Homes(2 * half, half)
    ensures Search(Numbers, Homes(2 * half, half), Intruder(half), 0) == half + 1
  {
    assert Triangular(0) == 0;
    ModUnique(Intruder(half), 2 * half, 1, half + 1);
    assert Homes(2 * half, half)[half + 1] == 0;
  }

  lemma IntruderIsMoved<V>(half: nat, v: V)
    requires half >= 2
    ensures ReturnsForeignSlot(2 * half, Table(Homes(2 * half, half), Same(2 * half, v), half), Intruder(half), v)
  {
    IntruderStops(half);
    assert Same(2 * half, v)[half + 1 := v] == Same(2 * half, v);
    RehashedWithIntruder(half, v, 2 * half);
    assert WithIntruder(half, 2 * half)[half + 1] == 0;
  }

  /** The run itself. */
  method Fill<V>(k: nat, ghost v: seq<V>) returns (builder: HashIndexBuilder<nat, seq<V>>)
    requires v == []
    ensures fresh(builder) && builder.Valid() && builder.kind == Numbers && builder.defaultValue == []
    ensures builder.AsTable() == Built(Numbers, v, Filling(k, v))
  {
    assert Power2(2) == 2 * Power2(1) == 4;
    builder := new HashIndexBuilder.NewWithCapacity(Numbers, [], 4);
    for n := 0 to k
      invariant fresh(builder) && builder.Valid() && builder.kind == Numbers && builder.defaultValue == []
      invariant builder.AsTable() == Built(Numbers, v, Filling(n, v))
    {
      var _ := builder.GetOrInsert(n + 1, []);
      assert Filling(n + 1, v)[..n] == Filling(n, v);
    }
  }

  /** At every capacity from four on there is a run of the builder that loses an item. */
  method LosesItem<V>(half: nat, item: V) returns (builder: HashIndexBuilder<nat, seq<V>>)
    requires IsPowerOfTwo(2 * half) && half >= 2
    ensures fresh(builder) && builder.Valid()
    ensures Intruder(half) in builder.contents && builder.contents[Intruder(half)] == []
  {
    builder := Fill(half, []);
    GrowthReturnsForeignSlot<seq<V>>(half, []);
    var _ := PushUnder(builder, Intruder(half), item);
  }
}

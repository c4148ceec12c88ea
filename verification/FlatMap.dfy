/** The sorted map: a hash map's bindings, sorted by key, then searched by bisection. */
module FlatMap {
  import opened Prelude
  import opened FlatMultiMap

  /** The two columns hold exactly the bindings of the map. */
  ghost predicate Holds<V>(keys: seq<nat>, values: seq<V>, m: map<nat, V>) {
    && |keys| == |values| && Sorted(keys)
    && forall key: nat :: Under(Pairs(keys, values), key) == Bound(m, key)
  }

  /** A hash map may list its bindings in any order; sorting makes the order irrelevant. */
  method Finish<V>(m: map<nat, V>) returns (keys: seq<nat>, values: seq<V>)
    ensures Holds(keys, values, m)
  {
    var entries: seq<(nat, V)>, rest := [], m;
    ghost var taken: map<nat, V> := map[];
    while rest != map[]
      invariant taken + rest == m && taken.Keys !! rest.Keys
      invariant forall key: nat :: Under(entries, key) == Bound(taken, key)
      decreases |rest|
    {
      var next :| next in rest;
      TakeOne(entries, taken, rest, next);
      entries, taken, rest := entries + [(next, rest[next])], taken[next := rest[next]], rest - {next};
    }
    assert taken == m;
    keys, values := FinishEntries(entries);
  }

  lemma TakeOne<V>(entries: seq<(nat, V)>, taken: map<nat, V>, rest: map<nat, V>, next: nat)
    requires next in rest && taken.Keys !! rest.Keys
    requires forall key: nat :: Under(entries, key) == Bound(taken, key)
    ensures forall key: nat :: Under(entries + [(next, rest[next])], key) == Bound(taken[next := rest[next]], key)
    ensures taken[next := rest[next]] + (rest - {next}) == taken + rest
  {
    forall key: nat ensures Under(entries + [(next, rest[next])], key) == Bound(taken[next := rest[next]], key) {
      UnderConcat(entries, [(next, rest[next])], key);
    }
  }

  /** The binding of `key`, if there is one, as a list. */
  function Bound<V>(m: map<nat, V>, key: nat): seq<V> {
    if key in m then [m[key]] else []
  }

  method Get<V>(keys: seq<nat>, values: seq<V>, key: nat, ghost m: map<nat, V>) returns (found: Option<V>)
    requires Holds(keys, values, m)
    ensures found == if key in m then Some(m[key]) else None
  {
    var index := PartitionPoint(keys, x => x < key);
    var pairs := Pairs(keys, values);
    assert pairs == pairs[..index] + pairs[index..];
    UnderConcat(pairs[..index], pairs[index..], key);
    UnderNone(pairs[..index], key);
    RunIsUnder(keys, values, key, index);
    assert Run(keys, values, key, index) == Bound(m, key);
    assert key in m ==> |Bound(m, key)| == 1;
    if index < |keys| && keys[index] == key {
      assert Run(keys, values, key, index)[0] == values[index];
      found := Some(values[index]);
    } else {
      found := None;
    }
  }
}

/** Domain hashes are stored once; filters keep sorted lists of their indices. */
module Interning {
  import opened Prelude

  // ----- the interned table -----

  /** The map gives each listed hash its one index, and lists nothing else. */
  ghost predicate Inverse(hashes: seq<Hash>, indexes: map<Hash, nat>) {
    && (forall i :: 0 <= i < |hashes| ==> hashes[i] in indexes && indexes[hashes[i]] == i)
    && (forall h :: h in indexes ==> indexes[h] < |hashes| && hashes[indexes[h]] == h)
  }

  /** `later` gives every index that `earlier` gave. */
  ghost predicate Extends(later: map<Hash, nat>, earlier: map<Hash, nat>) {
    forall h :: h in earlier ==> h in later && later[h] == earlier[h]
  }

  class EngineFlatBuilder {
    var uniqueDomainsHashes: seq<Hash>
    var uniqueDomainsHashesMap: map<Hash, nat>

    ghost predicate Valid()
      reads this
    {
      Inverse(uniqueDomainsHashes, uniqueDomainsHashesMap)
    }

    constructor ()
      ensures Valid() && uniqueDomainsHashes == []
    {
      uniqueDomainsHashes, uniqueDomainsHashesMap := [], map[];
    }

    method GetOrInsertUniqueDomainHash(h: Hash) returns (index: nat)
      requires Valid()
      modifies this
      ensures Valid() && Extends(uniqueDomainsHashesMap, old(uniqueDomainsHashesMap))
      ensures h in uniqueDomainsHashesMap && uniqueDomainsHashesMap[h] == index
      ensures uniqueDomainsHashesMap.Keys == old(uniqueDomainsHashesMap).Keys + {h}
    {
      if h in uniqueDomainsHashesMap {
        return uniqueDomainsHashesMap[h];
      }
      index := |uniqueDomainsHashes|;
      uniqueDomainsHashes := uniqueDomainsHashes + [h];
      uniqueDomainsHashesMap := uniqueDomainsHashesMap[h := index];
    }

    /** The index list of a domain option: interned, sorted, without repetitions. */
    method InternDomains(domains: Option<seq<Hash>>) returns (indexes: Option<seq<nat>>)
      requires Valid()
      modifies this
      ensures Valid() && Extends(uniqueDomainsHashesMap, old(uniqueDomainsHashesMap))
      ensures Interned(domains, indexes, uniqueDomainsHashesMap)
    {
      if domains.None? {
        return None;
      }
      var collected: seq<nat> := [];
      for i := 0 to |domains.value|
        invariant Valid() && Extends(uniqueDomainsHashesMap, old(uniqueDomainsHashesMap))
        invariant |collected| == i
        invariant forall j :: 0 <= j < i ==>
                    domains.value[j] in uniqueDomainsHashesMap
                    && uniqueDomainsHashesMap[domains.value[j]] == collected[j]
      {
        var index := GetOrInsertUniqueDomainHash(domains.value[i]);
        collected := collected + [index];
      }
      SortDedupKeeps(collected);
      indexes := Some(SortDedup(collected));
    }
  }

  /** The index list is sorted and lists exactly the indices of the domains. */
  ghost predicate Interned(domains: Option<seq<Hash>>, indexes: Option<seq<nat>>, m: map<Hash, nat>) {
    && (domains.None? <==> indexes.None?)
    && (domains.Some? ==>
          && StrictlySorted(indexes.value)
          && (forall i :: 0 <= i < |domains.value| ==>
                domains.value[i] in m && m[domains.value[i]] in indexes.value)
          && (forall x :: x in indexes.value ==>
                exists i :: 0 <= i < |domains.value| && domains.value[i] in m && m[domains.value[i]] == x))
  }

  lemma InternedLater(domains: Option<seq<Hash>>, indexes: Option<seq<nat>>, m: map<Hash, nat>, later: map<Hash, nat>)
    requires Interned(domains, indexes, m) && Extends(later, m)
    ensures Interned(domains, indexes, later)
  {
    if domains.Some? {
      forall x | x in indexes.value
        ensures exists i :: 0 <= i < |domains.value| && domains.value[i] in later && later[domains.value[i]] == x
      {
        var i :| 0 <= i < |domains.value| && domains.value[i] in m && m[domains.value[i]] == x;
        assert later[domains.value[i]] == x;
      }
    }
  }

  /** Loading: the map is rebuilt by inserting every listed hash with its position. */
  method RebuildMap(hashes: seq<Hash>, ghost original: map<Hash, nat>) returns (rebuilt: map<Hash, nat>)
    requires Inverse(hashes, original)
    ensures rebuilt == original
  {
    rebuilt := map[];
    for index := 0 to |hashes|
      invariant forall h :: h in rebuilt <==> h in hashes[..index]
      invariant forall h :: h in rebuilt ==> h in original && rebuilt[h] == original[h]
    {
      rebuilt := rebuilt[hashes[index] := index];
      assert hashes[..index + 1] == hashes[..index] + [hashes[index]];
    }
    forall h | h in original ensures h in rebuilt {
      assert hashes[original[h]] == h;
    }
  }

  // ----- sort and dedup, bisection -----

  ghost predicate StrictlySorted(s: seq<nat>) {
    forall i, j :: 0 <= i < j < |s| ==> s[i] < s[j]
  }

  function InsertOnce(s: seq<nat>, x: nat): seq<nat> {
    var n := |s| - 1;
    if s == [] || s[n] < x then s + [x]
    else if s[n] == x then s
    else InsertOnce(s[..n], x) + [s[n]]
  }

  function SortDedup(s: seq<nat>): seq<nat> {
    if s == [] then [] else InsertOnce(SortDedup(s[..|s| - 1]), s[|s| - 1])
  }

  lemma {:induction false} InsertOnceKeeps(s: seq<nat>, x: nat)
    requires StrictlySorted(s)
    ensures StrictlySorted(InsertOnce(s, x))
    ensures forall y :: y in InsertOnce(s, x) <==> y in s || y == x
  {
    if s != [] {
      var n := |s| - 1;
      assert s == s[..n] + [s[n]];
      if s[n] > x {
        InsertOnceKeeps(s[..n], x);
        forall i | 0 <= i < |InsertOnce(s[..n], x)| ensures InsertOnce(s[..n], x)[i] < s[n] {
          assert InsertOnce(s[..n], x)[i] in InsertOnce(s[..n], x);
        }
      }
    }
  }

  lemma {:induction false} SortDedupKeeps(s: seq<nat>)
    ensures StrictlySorted(SortDedup(s))
    ensures forall y :: y in SortDedup(s) <==> y in s
  {
    if s != [] {
      var n := |s| - 1;
      SortDedupKeeps(s[..n]);
      InsertOnceKeeps(SortDedup(s[..n]), s[n]);
      assert s == s[..n] + [s[n]];
    }
  }

  /** Binary search for membership. */
  function BinLookup(s: seq<nat>, x: nat): bool
    decreases |s|
  {
    if s == [] then false
    else
      var mid := |s| / 2;
      if s[mid] == x then true
      else if s[mid] < x then BinLookup(s[mid + 1..], x)
      else BinLookup(s[..mid], x)
  }

  lemma {:induction false} BinLookupIsMembership(s: seq<nat>, x: nat)
    requires StrictlySorted(s)
    ensures BinLookup(s, x) <==> x in s
    decreases |s|
  {
    if s != [] {
      var mid := |s| / 2;
      assert s == s[..mid] + [s[mid]] + s[mid + 1..];
      BinLookupIsMembership(s[mid + 1..], x);
      BinLookupIsMembership(s[..mid], x);
      assert s[mid] < x ==> x !in s[..mid];
      assert s[mid] > x ==> x !in s[mid + 1..];
    }
  }

  // ----- the domain checks -----

  /** The rule about included domains, on the hashes themselves. */
  predicate IncludedDomain(domains: Option<seq<Hash>>, sources: Option<seq<Hash>>) {
    domains.Some? ==> sources.Some? && exists h :: h in sources.value && h in domains.value
  }

  /** The rule about excluded domains: without a source, the filter applies anyway. */
  predicate ExcludedDomain(domains: Option<seq<Hash>>, sources: Option<seq<Hash>>) {
    domains.Some? && sources.Some? && exists h :: h in sources.value && h in domains.value
  }

  predicate Listed(h: Hash, indexes: seq<nat>, mapping: map<Hash, nat>) {
    h in mapping && BinLookup(indexes, mapping[h])
  }

  predicate CheckIncludedMapped(indexes: Option<seq<nat>>, sources: Option<seq<Hash>>, mapping: map<Hash, nat>) {
    if indexes.None? then true
    else if sources.None? then false
    else !(forall i :: 0 <= i < |sources.value| ==> !Listed(sources.value[i], indexes.value, mapping))
  }

  predicate CheckExcludedMapped(indexes: Option<seq<nat>>, sources: Option<seq<Hash>>, mapping: map<Hash, nat>) {
    if indexes.None? then true
    else if sources.None? then true
    else !(exists i :: 0 <= i < |sources.value| && Listed(sources.value[i], indexes.value, mapping))
  }

  lemma ListedIsMembership(h: Hash, domains: seq<Hash>, indexes: seq<nat>, hashes: seq<Hash>, mapping: map<Hash, nat>)
    requires Inverse(hashes, mapping) && Interned(Some(domains), Some(indexes), mapping)
    ensures Listed(h, indexes, mapping) <==> h in domains
  {
    if h in mapping {
      BinLookupIsMembership(indexes, mapping[h]);
      if mapping[h] in indexes {
        var i :| 0 <= i < |domains| && domains[i] in mapping && mapping[domains[i]] == mapping[h];
        assert hashes[mapping[h]] == h && hashes[mapping[domains[i]]] == domains[i];
      }
    }
  }

  /** The checks over indices agree with the checks over hashes, for every request. */
  lemma MappedChecksAgree(
    domains: Option<seq<Hash>>, indexes: Option<seq<nat>>, hashes: seq<Hash>, mapping: map<Hash, nat>,
    sources: Option<seq<Hash>>)
    requires Inverse(hashes, mapping) && Interned(domains, indexes, mapping)
    ensures CheckIncludedMapped(indexes, sources, mapping) <==> IncludedDomain(domains, sources)
    ensures CheckExcludedMapped(indexes, sources, mapping) <==> !ExcludedDomain(domains, sources)
  {
    if domains.Some? && sources.Some? {
      forall h ensures Listed(h, indexes.value, mapping) <==> h in domains.value {
        ListedIsMembership(h, domains.value, indexes.value, hashes, mapping);
      }
      forall i | 0 <= i < |sources.value| ensures sources.value[i] in sources.value {
      }
      if h :| h in sources.value && h in domains.value {
        var i :| 0 <= i < |sources.value| && sources.value[i] == h;
        assert Listed(sources.value[i], indexes.value, mapping);
      }
    }
  }
}

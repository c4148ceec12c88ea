/** Storing a list of filters under tokens, and looking requests up in it. */
module FilterList {
  import opened Prelude
  import opened Network
  import opened RegexManagement
  import opened Interning
  import opened Matching
  import opened FilterTokens
  import opened FlatMultiMap
  import opened Optimizer
  import opened TokenChoice

  /** Serialized entries, entry by entry, say what the placement says. */
  ghost predicate Represents(entries: seq<(nat, FlatNetworkFilter)>, placed: Placement, mapping: map<Hash, nat>) {
    && |entries| == |placed|
    && forall i :: 0 <= i < |entries| ==>
         entries[i].0 == placed[i].0 && Serializes(entries[i].1, placed[i].1, mapping)
  }

  lemma SerializesLater(flat: FlatNetworkFilter, f: NetworkFilter, m: map<Hash, nat>, later: map<Hash, nat>)
    requires Serializes(flat, f, m) && Extends(later, m)
    ensures Serializes(flat, f, later)
  {
    InternedLater(f.optDomains, flat.optDomains, m, later);
    InternedLater(f.optNotDomains, flat.optNotDomains, m, later);
  }

  lemma RepresentsLater(
    entries: seq<(nat, FlatNetworkFilter)>, placed: Placement, m: map<Hash, nat>, later: map<Hash, nat>)
    requires Represents(entries, placed, m) && Extends(later, m)
    ensures Represents(entries, placed, later)
  {
    forall i | 0 <= i < |entries| ensures Serializes(entries[i].1, placed[i].1, later) {
      SerializesLater(entries[i].1, placed[i].1, m, later);
    }
  }

  // ----- which filters wait to be optimized -----

  predicate Waits(optimize: bool, f: NetworkFilter) {
    optimize && IsOptimizableByPatterns(f)
  }

  /** The calls that insert at once. */
  function Direct(calls: Placement, optimize: bool): Placement {
    if calls == [] then []
    else
      var n := |calls| - 1;
      if Waits(optimize, calls[n].1) then Direct(calls[..n], optimize) else Direct(calls[..n], optimize) + [calls[n]]
  }

  /** The calls that put a filter into a bucket that waits. */
  function Waiting(calls: Placement, optimize: bool): Placement {
    if calls == [] then []
    else
      var n := |calls| - 1;
      if Waits(optimize, calls[n].1) then Waiting(calls[..n], optimize) + [calls[n]] else Waiting(calls[..n], optimize)
  }

  function WaitingUnder(buckets: map<nat, seq<NetworkFilter>>, token: nat): seq<NetworkFilter> {
    if token in buckets then buckets[token] else []
  }

  lemma {:induction false} NothingWaits(calls: Placement)
    ensures Direct(calls, false) == calls && Waiting(calls, false) == []
  {
    if calls != [] {
      NothingWaits(calls[..|calls| - 1]);
    }
  }

  lemma OneMoreCall(calls: Placement, optimize: bool, call: (nat, NetworkFilter))
    ensures var waits, direct, waiting := Waits(optimize, call.1), Direct(calls, optimize), Waiting(calls, optimize);
            && Direct(calls + [call], optimize) == (if waits then direct else direct + [call])
            && Waiting(calls + [call], optimize) == (if waits then waiting + [call] else waiting)
  {
    assert (calls + [call])[..|calls|] == calls;
  }

  /** While storing: every call made an entry or put its filter where it waits, in order. */
  ghost predicate InStep(
    calls: Placement, optimize: bool, placed: Placement, waiting: map<nat, seq<NetworkFilter>>)
  {
    && placed == Direct(calls, optimize)
    && forall t :: WaitingUnder(waiting, t) == Under(Waiting(calls, optimize), t)
  }

  lemma EntryIsMade(
    calls: Placement, optimize: bool, placed: Placement, waiting: map<nat, seq<NetworkFilter>>,
    call: (nat, NetworkFilter))
    requires InStep(calls, optimize, placed, waiting) && !Waits(optimize, call.1)
    ensures InStep(calls + [call], optimize, placed + [call], waiting)
  {
    OneMoreCall(calls, optimize, call);
  }

  lemma FilterIsKept(
    calls: Placement, optimize: bool, placed: Placement, waiting: map<nat, seq<NetworkFilter>>,
    call: (nat, NetworkFilter))
    requires InStep(calls, optimize, placed, waiting) && Waits(optimize, call.1)
    ensures InStep(
              calls + [call], optimize, placed, waiting[call.0 := WaitingUnder(waiting, call.0) + [call.1]])
  {
    OneMoreCall(calls, optimize, call);
    forall t {
      UnderLast(Waiting(calls, optimize), call, t);
    }
  }

  lemma UnderLast<V>(entries: seq<(nat, V)>, last: (nat, V), key: nat)
    ensures Under(entries + [last], key) ==
            if last.0 == key then Under(entries, key) + [last.1] else Under(entries, key)
  {
    assert (entries + [last])[..|entries|] == entries;
  }

  /** A filter is in a bucket if it was inserted there or waits there. */
  lemma {:induction false} BucketParts(calls: Placement, optimize: bool, token: nat, f: NetworkFilter)
    ensures f in Under(calls, token) <==>
              f in Under(Direct(calls, optimize), token) || f in Under(Waiting(calls, optimize), token)
    ensures f in Under(Direct(calls, optimize), token) ==> !Waits(optimize, f)
    ensures f in Under(Waiting(calls, optimize), token) ==> Waits(optimize, f)
  {
    if calls != [] {
      var n := |calls| - 1;
      BucketParts(calls[..n], optimize, token, f);
      UnderLast(Direct(calls[..n], optimize), calls[n], token);
      UnderLast(Waiting(calls[..n], optimize), calls[n], token);
    }
  }

  /** The groups of a bucket are those of the filters that wait in it. */
  lemma {:induction false} GroupsOfBucket(calls: Placement, token: nat, mask: Mask)
    ensures GroupOf(Under(calls, token), mask) == GroupOf(Under(Waiting(calls, true), token), mask)
  {
    if calls != [] {
      var n := |calls| - 1;
      var f := calls[n].1;
      var bucket, waiting := Under(calls[..n], token), Under(Waiting(calls[..n], true), token);
      GroupsOfBucket(calls[..n], token, mask);
      UnderLast(Waiting(calls[..n], true), calls[n], token);
      GroupOfLast(bucket, f, mask);
      GroupOfLast(waiting, f, mask);
    }
  }

  lemma GroupOfLast(filters: seq<NetworkFilter>, f: NetworkFilter, mask: Mask)
    ensures GroupOf(filters + [f], mask) ==
            if IsOptimizableByPatterns(f) && f.mask == mask then GroupOf(filters, mask) + [f]
            else GroupOf(filters, mask)
  {
    assert (filters + [f])[..|filters|] == filters;
    assert GroupOf(filters, mask) + [] == GroupOf(filters, mask);
  }

  /** What the entries of a list are, bucket by bucket. */
  ghost predicate Indexes(calls: Placement, optimize: bool, placed: Placement) {
    if optimize then forall token :: AreOptimized(Under(calls, token), Under(placed, token)) else placed == calls
  }

  /** What was inserted at once, and what optimizing made of the rest. */
  lemma BucketIsOptimized(calls: Placement, token: nat, made: seq<NetworkFilter>, bucket: seq<NetworkFilter>)
    requires AreOptimized(Under(Waiting(calls, true), token), made)
    requires forall g :: g in bucket <==> g in Under(Direct(calls, true), token) || g in made
    ensures AreOptimized(Under(calls, token), bucket)
  {
    var all, waiting := Under(calls, token), Under(Waiting(calls, true), token);
    forall mask ensures GroupOf(all, mask) == GroupOf(waiting, mask) {
      GroupsOfBucket(calls, token, mask);
    }
    forall g ensures g in bucket <==> LeftAlone(all, g) || IsFusedGroup(all, g) {
      BucketParts(calls, true, token, g);
      assert IsFusedGroup(all, g) <==> IsFusedGroup(waiting, g);
      assert LeftAlone(all, g) <==> g in Under(Direct(calls, true), token) || LeftAlone(waiting, g);
    }
  }

  /** Keys are locations: two stored filters at one location are the same. */
  ghost predicate KeysAreLocations(entries: seq<(nat, FlatNetworkFilter)>, next: nat) {
    && (forall i :: 0 <= i < |entries| ==> entries[i].1.key < next)
    && forall i, j :: 0 <= i < |entries| && 0 <= j < |entries| && entries[i].1.key == entries[j].1.key ==>
         entries[i].1 == entries[j].1
  }

  // ----- serializing a list -----

  /** The state of `serialize`: multimap entries, and the buckets that wait for optimization. */
  class ListSerializer {
    const engine: EngineFlatBuilder
    const optimize: bool
    var entries: seq<(nat, FlatNetworkFilter)>
    var nextKey: nat
    var optimizable: map<nat, seq<NetworkFilter>>
    /** What the entries stand for. */
    ghost var placed: Placement
    /** Every `store_filter` call so far. */
    ghost var calls: Placement

    ghost predicate Valid()
      reads this, engine
    {
      && engine.Valid()
      && Represents(entries, placed, engine.uniqueDomainsHashesMap)
      && KeysAreLocations(entries, nextKey)
    }

    ghost predicate Storing()
      reads this
    {
      InStep(calls, optimize, placed, optimizable)
    }

    constructor (engine: EngineFlatBuilder, optimize: bool)
      requires engine.Valid()
      ensures Valid() && Storing() && this.engine == engine && this.optimize == optimize
      ensures entries == [] && placed == [] && calls == []
    {
      this.engine, this.optimize := engine, optimize;
      entries, placed, calls, optimizable, nextKey := [], [], [], map[], 0;
    }

    method SerializeFilter(f: NetworkFilter) returns (flat: FlatNetworkFilter)
      requires Valid()
      modifies this, engine
      ensures Valid() && Serializes(flat, f, engine.uniqueDomainsHashesMap)
      ensures unchanged(`entries, `placed, `calls, `optimizable)
      ensures nextKey == old(nextKey) + 1 && flat.key == old(nextKey)
    {
      ghost var m0 := engine.uniqueDomainsHashesMap;
      var domains := engine.InternDomains(f.optDomains);
      ghost var m1 := engine.uniqueDomainsHashesMap;
      var notDomains := engine.InternDomains(f.optNotDomains);
      ghost var m2 := engine.uniqueDomainsHashesMap;
      InternedLater(f.optDomains, domains, m1, m2);
      RepresentsLater(entries, placed, m0, m2);
      flat := FlatNetworkFilter(
        nextKey, f.mask, Patterns(f.part), domains, notDomains, f.modifierOption, f.hostname, f.tag, f.rawLine);
      nextKey := nextKey + 1;
    }

    method InsertFlat(token: nat, flat: FlatNetworkFilter, ghost f: NetworkFilter)
      requires Valid() && Serializes(flat, f, engine.uniqueDomainsHashesMap) && flat.key < nextKey
      requires forall i :: 0 <= i < |entries| && entries[i].1.key == flat.key ==> entries[i].1 == flat
      modifies `entries, `placed
      ensures Valid() && placed == old(placed) + [(token, f)]
      ensures entries == old(entries) + [(token, flat)]
    {
      entries := entries + [(token, flat)];
      placed := placed + [(token, f)];
    }

    /** A filter that does not wait is serialized once, and inserted as often as it is stored. */
    ghost predicate Ready(f: NetworkFilter, flat: Option<FlatNetworkFilter>)
      reads this, engine
    {
      && (flat.None? <==> Waits(optimize, f))
      && (flat.Some? ==>
            && Serializes(flat.value, f, engine.uniqueDomainsHashesMap) && flat.value.key < nextKey
            && forall k :: 0 <= k < |entries| && entries[k].1.key == flat.value.key ==> entries[k].1 == flat.value)
    }

    /** The `store_filter` closure, called for each target token. */
    method StoreFilter(f: NetworkFilter, flat: Option<FlatNetworkFilter>, targets: seq<Hash>)
      requires Valid() && Storing() && Ready(f, flat)
      modifies `entries, `placed, `calls, `optimizable
      ensures Valid() && Storing() && calls == old(calls) + Addressed(f, targets)
    {
      for i := 0 to |targets|
        invariant Valid() && Storing() && Ready(f, flat)
        invariant calls == old(calls) + Addressed(f, targets[..i])
      {
        assert Addressed(f, targets[..i + 1]) == Addressed(f, targets[..i]) + [(ToShortHash(targets[i]), f)];
        StoreUnder(ToShortHash(targets[i]), f, flat);
      }
      assert targets[..|targets|] == targets;
    }

    /** One call of the closure: an entry now, or a place in a bucket that waits. */
    method StoreUnder(token: nat, f: NetworkFilter, flat: Option<FlatNetworkFilter>)
      requires Valid() && Storing() && Ready(f, flat)
      modifies `entries, `placed, `calls, `optimizable
      ensures Valid() && Storing() && Ready(f, flat) && calls == old(calls) + [(token, f)]
    {
      if flat.Some? {
        StoreAtOnce(token, f, flat.value);
      } else {
        StoreForLater(token, f);
      }
    }

    method StoreAtOnce(token: nat, ghost f: NetworkFilter, flat: FlatNetworkFilter)
      requires Valid() && Storing() && Ready(f, Some(flat))
      modifies `entries, `placed, `calls
      ensures Valid() && Storing() && Ready(f, Some(flat)) && calls == old(calls) + [(token, f)]
    {
      EntryIsMade(calls, optimize, placed, optimizable, (token, f));
      InsertFlat(token, flat, f);
      calls := calls + [(token, f)];
    }

    method StoreForLater(token: nat, f: NetworkFilter)
      requires Storing() && Waits(optimize, f)
      modifies `calls, `optimizable
      ensures Storing() && calls == old(calls) + [(token, f)]
    {
      FilterIsKept(calls, optimize, placed, optimizable, (token, f));
      var bucket := if token in optimizable then optimizable[token] else [];
      optimizable := optimizable[token := bucket + [f]];
      calls := calls + [(token, f)];
    }

    /** The tokens a filter is stored under, with the usage counts kept up to date. */
    method ChooseTargets(hash: string -> Hash, f: NetworkFilter, selector: TokenSelector) returns (targets: seq<Hash>)
      modifies selector
      ensures targets == Targets(hash, old(selector.usage), f)
      ensures selector.usage == UsagesWith(hash, old(selector.usage), f)
    {
      var groups, _ := GetTokens(hash, f);
      match groups {
        case Empty =>
          targets := [0];
        case OptDomains(domains) =>
          for i := 0 to |domains|
            invariant selector.usage == RecordedAll(old(selector.usage), domains[..i])
          {
            selector.RecordUsage(domains[i]);
            assert domains[..i + 1][..i] == domains[..i];
          }
          assert domains[..|domains|] == domains;
          targets := domains;
        case Other(tokens) =>
          var best := selector.SelectLeastUsedToken(tokens);
          selector.RecordUsage(best);
          targets := [best];
      }
    }

    /** One round of the loop over the filters. */
    method StoreOne(hash: string -> Hash, f: NetworkFilter, selector: TokenSelector)
      requires Valid() && Storing()
      modifies this, engine, selector
      ensures Valid() && Storing()
      ensures calls == old(calls) + Addressed(f, Targets(hash, old(selector.usage), f))
      ensures selector.usage == UsagesWith(hash, old(selector.usage), f)
    {
      var flat := None;
      if !optimize || !IsOptimizableByPatterns(f) {
        var serialized := SerializeFilter(f);
        flat := Some(serialized);
      }
      var targets := ChooseTargets(hash, f, selector);
      StoreFilter(f, flat, targets);
    }

    method StoreAll(hash: string -> Hash, filters: seq<NetworkFilter>)
      requires Valid() && Storing() && calls == []
      modifies this, engine
      ensures Valid() && Storing() && calls == Distribution(hash, filters)
    {
      var selector := new TokenSelector(hash);
      for n := 0 to |filters|
        invariant Valid() && Storing() && fresh(selector)
        invariant calls == Distribution(hash, filters[..n]) && selector.usage == UsagesAfter(hash, filters[..n])
      {
        assert filters[..n + 1][..n] == filters[..n];
        StoreOne(hash, filters[n], selector);
      }
      assert filters[..|filters|] == filters;
    }

    method InsertOne(token: nat, f: NetworkFilter)
      requires Valid()
      modifies this, engine
      ensures Valid() && unchanged(`calls, `optimizable) && placed == old(placed) + [(token, f)]
    {
      var flat := SerializeFilter(f);
      InsertFlat(token, flat, f);
    }

    /** The optimized filters of one bucket become entries of that bucket. */
    method InsertOptimized(token: nat, optimized: seq<NetworkFilter>)
      requires Valid()
      modifies this, engine
      ensures Valid() && unchanged(`calls, `optimizable) && placed == old(placed) + Filed(token, optimized)
    {
      for i := 0 to |optimized|
        invariant Valid() && unchanged(`calls, `optimizable)
        invariant placed == old(placed) + Filed(token, optimized[..i])
      {
        assert Filed(token, optimized[..i + 1]) == Filed(token, optimized[..i]) + [(token, optimized[i])];
        InsertOne(token, optimized[i]);
      }
      assert optimized[..|optimized|] == optimized;
    }

    /** Optimizing every waiting bucket, in the order of the tokens. */
    method OptimizeBuckets(ghost lib: RegexLibrary)
      requires Valid() && Storing() && optimize
      modifies this, engine
      ensures Valid() && unchanged(`calls) && Indexes(calls, true, placed)
    {
      var pending := optimizable.Keys;
      ghost var direct := placed;
      ghost var done: map<nat, seq<NetworkFilter>> := map[];
      while pending != {}
        invariant Valid() && unchanged(`calls, `optimizable) && pending <= optimizable.Keys
        invariant done.Keys == optimizable.Keys - pending
        invariant Elements(placed) == Elements(direct) + Buckets(done)
        invariant AllOptimized(optimizable, done)
        decreases pending
      {
        ghost var least := LeastOf(pending);
        var token :| token in pending && forall u :: u in pending ==> token <= u;
        var optimized := Optimize(optimizable[token], lib);
        ghost var before := placed;
        InsertOptimized(token, optimized);
        BucketsAdded(Elements(direct), done, before, token, optimized);
        done := done[token := optimized];
        pending := pending - {token};
      }
      IndexIsOptimized(calls, optimizable, done, placed);
    }
  }

  /** Of each waiting bucket, what optimizing made of it. */
  ghost predicate AllOptimized(waiting: map<nat, seq<NetworkFilter>>, done: map<nat, seq<NetworkFilter>>) {
    forall t :: t in done ==> t in waiting && AreOptimized(waiting[t], done[t])
  }

  lemma IndexIsOptimized(
    calls: Placement, waiting: map<nat, seq<NetworkFilter>>, done: map<nat, seq<NetworkFilter>>, placed: Placement)
    requires forall t :: WaitingUnder(waiting, t) == Under(Waiting(calls, true), t)
    requires done.Keys == waiting.Keys && AllOptimized(waiting, done)
    requires Elements(placed) == Elements(Direct(calls, true)) + Buckets(done)
    ensures Indexes(calls, true, placed)
  {
    forall token ensures AreOptimized(Under(calls, token), Under(placed, token)) {
      var made := WaitingUnder(done, token);
      assert WaitingUnder(waiting, token) == Under(Waiting(calls, true), token);
      if token !in waiting {
        NothingOptimized();
      }
      forall g ensures g in Under(placed, token) <==> g in Under(Direct(calls, true), token) || g in made {
        UnderMember(placed, token, g);
        UnderMember(Direct(calls, true), token, g);
        assert (token, g) in Elements(placed) <==> (token, g) in Elements(Direct(calls, true)) || g in made;
      }
      BucketIsOptimized(calls, token, made, Under(placed, token));
    }
  }

  lemma NothingOptimized()
    ensures AreOptimized([], [])
  {
  }

  lemma {:induction false} LeastOf(s: set<nat>) returns (least: nat)
    requires s != {}
    ensures least in s && forall y :: y in s ==> least <= y
  {
    var x :| x in s;
    var rest := s - {x};
    assert s == rest + {x};
    if rest == {} {
      least := x;
    } else {
      var y := LeastOf(rest);
      least := if x <= y then x else y;
    }
  }

  function Filed(token: nat, bucket: seq<NetworkFilter>): Placement {
    seq(|bucket|, i requires 0 <= i < |bucket| => (token, bucket[i]))
  }

  ghost function Buckets(buckets: map<nat, seq<NetworkFilter>>): Stored {
    set t, f | t in buckets && f in buckets[t] :: (t, f)
  }

  lemma BucketsAdded(
    direct: Stored, buckets: map<nat, seq<NetworkFilter>>, placed: Placement, token: nat, bucket: seq<NetworkFilter>)
    requires token !in buckets && Elements(placed) == direct + Buckets(buckets)
    ensures Elements(placed + Filed(token, bucket)) == direct + Buckets(buckets[token := bucket])
  {
    var all, more := buckets[token := bucket], Filed(token, bucket);
    forall p ensures p in placed + more <==> p in direct + Buckets(all) {
      FiledHold(token, bucket, p);
      BucketsHold(buckets, p);
      BucketsHold(all, p);
      assert p in Elements(placed) <==> p in placed;
    }
  }

  lemma FiledHold(token: nat, bucket: seq<NetworkFilter>, p: (nat, NetworkFilter))
    ensures p in Filed(token, bucket) <==> p.0 == token && p.1 in bucket
  {
    if p.0 == token && p.1 in bucket {
      var i :| 0 <= i < |bucket| && bucket[i] == p.1;
      assert Filed(token, bucket)[i] == (p.0, p.1) == p;
    }
  }

  lemma BucketsHold(buckets: map<nat, seq<NetworkFilter>>, p: (nat, NetworkFilter))
    ensures p in Buckets(buckets) <==> p.0 in buckets && p.1 in buckets[p.0]
  {
    assert p == (p.0, p.1);
  }

  // ----- looking a request up -----

  datatype StoredList = StoredList(keys: seq<nat>, values: seq<FlatNetworkFilter>)

  datatype CheckResult = CheckResult(filterMask: Mask, modifierOption: Option<string>, rawLine: Option<string>)

  function ResultOf(f: NetworkFilter): CheckResult {
    CheckResult(f.mask, f.modifierOption, f.rawLine)
  }

  /** The results of the filters of a bucket that match and have an active tag, in order. */
  function BucketHits(lib: RegexLibrary, bucket: seq<NetworkFilter>, r: Request, tags: set<string>): seq<CheckResult>
    requires Sized(r)
  {
    if bucket == [] then []
    else BucketHits(lib, bucket[..|bucket| - 1], r, tags) + OneHit(lib, bucket[|bucket| - 1], r, tags)
  }

  function OneHit(lib: RegexLibrary, f: NetworkFilter, r: Request, tags: set<string>): seq<CheckResult>
    requires Sized(r)
  {
    if FilterMatches(lib, f, r) && TagActive(f.tag, tags) then [ResultOf(f)] else []
  }

  /** The results for a list of tokens, bucket after bucket. */
  function Hits(
    lib: RegexLibrary, placed: Placement, tokens: seq<Hash>, r: Request, tags: set<string>): seq<CheckResult>
    requires Sized(r)
  {
    if tokens == [] then []
    else
      Hits(lib, placed, tokens[..|tokens| - 1], r, tags)
      + BucketHits(lib, Under(placed, ToShortHash(tokens[|tokens| - 1])), r, tags)
  }

  lemma OneHitAccepts(lib: RegexLibrary, f: NetworkFilter, r: Request, tags: set<string>)
    requires Sized(r)
    ensures OneHit(lib, f, r, tags) != [] <==> Accepted(lib, [f], r, tags)
  {
    assert [f][0] == f;
    if OneHit(lib, f, r, tags) != [] {
      assert Accepts(lib, [f], r, tags, f.mask);
    }
  }

  /** Some filter of the bucket matches and has an active tag. */
  ghost predicate Accepted(lib: RegexLibrary, bucket: seq<NetworkFilter>, r: Request, tags: set<string>)
    requires Sized(r)
  {
    exists mask :: Accepts(lib, bucket, r, tags, mask)
  }

  lemma AcceptsConcat(
    lib: RegexLibrary, a: seq<NetworkFilter>, b: seq<NetworkFilter>, r: Request, tags: set<string>, mask: Mask)
    requires Sized(r)
    ensures Accepts(lib, a + b, r, tags, mask) <==>
              Accepts(lib, a, r, tags, mask) || Accepts(lib, b, r, tags, mask)
  {
    AcceptsAs(lib, a, r, tags, mask);
    AcceptsAs(lib, b, r, tags, mask);
    AcceptsAs(lib, a + b, r, tags, mask);
  }

  lemma AcceptedOneMore(
    lib: RegexLibrary, bucket: seq<NetworkFilter>, f: NetworkFilter, r: Request, tags: set<string>)
    requires Sized(r)
    ensures Accepted(lib, bucket + [f], r, tags) <==> Accepted(lib, bucket, r, tags) || Accepted(lib, [f], r, tags)
  {
    forall mask ensures Accepts(lib, bucket + [f], r, tags, mask) <==>
                          Accepts(lib, bucket, r, tags, mask) || Accepts(lib, [f], r, tags, mask)
    {
      AcceptsConcat(lib, bucket, [f], r, tags, mask);
    }
  }

  lemma {:induction false} BucketHitsExist(lib: RegexLibrary, bucket: seq<NetworkFilter>, r: Request, tags: set<string>)
    requires Sized(r)
    ensures BucketHits(lib, bucket, r, tags) != [] <==> Accepted(lib, bucket, r, tags)
  {
    if bucket != [] {
      var n := |bucket| - 1;
      var front, last := bucket[..n], bucket[n];
      assert bucket == front + [last];
      BucketHitsExist(lib, front, r, tags);
      OneHitAccepts(lib, last, r, tags);
      AcceptedOneMore(lib, front, last, r, tags);
    }
  }

  ghost predicate AcceptedUnder(lib: RegexLibrary, placed: Placement, tokens: seq<Hash>, r: Request, tags: set<string>)
    requires Sized(r)
  {
    exists t :: t in tokens && Accepted(lib, Under(placed, ToShortHash(t)), r, tags)
  }

  lemma {:induction false} HitsExist(
    lib: RegexLibrary, placed: Placement, tokens: seq<Hash>, r: Request, tags: set<string>)
    requires Sized(r)
    ensures Hits(lib, placed, tokens, r, tags) != [] <==> AcceptedUnder(lib, placed, tokens, r, tags)
  {
    if tokens != [] {
      var n := |tokens| - 1;
      HitsExist(lib, placed, tokens[..n], r, tags);
      BucketHitsExist(lib, Under(placed, ToShortHash(tokens[n])), r, tags);
      AcceptedOneMoreToken(lib, placed, tokens, r, tags);
    }
  }

  lemma AcceptedOneMoreToken(
    lib: RegexLibrary, placed: Placement, tokens: seq<Hash>, r: Request, tags: set<string>)
    requires Sized(r) && tokens != []
    ensures var n := |tokens| - 1;
            AcceptedUnder(lib, placed, tokens, r, tags) <==>
              || AcceptedUnder(lib, placed, tokens[..n], r, tags)
              || Accepted(lib, Under(placed, ToShortHash(tokens[n])), r, tags)
  {
    var n := |tokens| - 1;
    assert tokens == tokens[..n] + [tokens[n]];
  }

  /** The manager knows each stored filter by its key. */
  ghost predicate Known(naming: nat -> Subject, entries: seq<(nat, FlatNetworkFilter)>) {
    forall i :: 0 <= i < |entries| ==>
      naming(entries[i].1.key) == Subject(entries[i].1.mask, entries[i].1.patterns)
  }

  /** Serialized and plain buckets agree, filter by filter. */
  lemma {:induction false} BucketsAgree(
    entries: seq<(nat, FlatNetworkFilter)>, placed: Placement, mapping: map<Hash, nat>, naming: nat -> Subject,
    token: nat)
    requires Represents(entries, placed, mapping) && Known(naming, entries)
    ensures |Under(entries, token)| == |Under(placed, token)|
    ensures forall k :: 0 <= k < |Under(entries, token)| ==>
              var flat := Under(entries, token)[k];
              Serializes(flat, Under(placed, token)[k], mapping)
              && naming(flat.key) == Subject(flat.mask, flat.patterns)
  {
    if entries != [] {
      var n := |entries| - 1;
      BucketsAgree(entries[..n], placed[..n], mapping, naming, token);
    }
  }

  /** Everything `check` relies on: the loaded list, the rebuilt map, and the regex manager. */
  ghost predicate Loaded(
    list: StoredList, mapping: map<Hash, nat>, entries: seq<(nat, FlatNetworkFilter)>, placed: Placement,
    hashes: seq<Hash>, naming: nat -> Subject)
  {
    && Stores(list.keys, list.values, entries) && Represents(entries, placed, mapping)
    && Inverse(hashes, mapping) && Known(naming, entries)
  }

  lemma {:induction false} NothingStored(
    lib: RegexLibrary, list: StoredList, mapping: map<Hash, nat>, entries: seq<(nat, FlatNetworkFilter)>,
    placed: Placement, hashes: seq<Hash>, naming: nat -> Subject, tokens: seq<Hash>, r: Request, tags: set<string>)
    requires Sized(r) && Loaded(list, mapping, entries, placed, hashes, naming) && list.keys == []
    ensures Hits(lib, placed, tokens, r, tags) == []
  {
    if tokens != [] {
      var n := |tokens| - 1;
      var short := ToShortHash(tokens[n]);
      NothingStored(lib, list, mapping, entries, placed, hashes, naming, tokens[..n], r, tags);
      BucketsAgree(entries, placed, mapping, naming, short);
      assert Under(entries, short) == Under(Pairs(list.keys, list.values), short) == [];
    }
  }

  lemma {:induction false} HitsExtend(
    lib: RegexLibrary, placed: Placement, tokens: seq<Hash>, n: nat, r: Request, tags: set<string>)
    requires Sized(r) && n <= |tokens|
    ensures Hits(lib, placed, tokens[..n], r, tags) <= Hits(lib, placed, tokens, r, tags)
    decreases |tokens|
  {
    if n == |tokens| {
      assert tokens[..n] == tokens;
    } else {
      HitsExtend(lib, placed, tokens[..|tokens| - 1], n, r, tags);
      assert tokens[..|tokens| - 1][..n] == tokens[..n];
    }
  }

  lemma {:induction false} BucketHitsExtend(
    lib: RegexLibrary, bucket: seq<NetworkFilter>, n: nat, r: Request, tags: set<string>)
    requires Sized(r) && n <= |bucket|
    ensures BucketHits(lib, bucket[..n], r, tags) <= BucketHits(lib, bucket, r, tags)
    decreases |bucket|
  {
    if n == |bucket| {
      assert bucket[..n] == bucket;
    } else {
      BucketHitsExtend(lib, bucket[..|bucket| - 1], n, r, tags);
      assert bucket[..|bucket| - 1][..n] == bucket[..n];
    }
  }

  lemma BucketHitsStep(lib: RegexLibrary, bucket: seq<NetworkFilter>, n: nat, r: Request, tags: set<string>)
    requires Sized(r) && n < |bucket|
    ensures BucketHits(lib, bucket[..n + 1], r, tags)
            == BucketHits(lib, bucket[..n], r, tags) + OneHit(lib, bucket[n], r, tags)
  {
    assert bucket[..n + 1][..n] == bucket[..n];
  }

  /** The inner loop: the hits of one bucket, or only the first of them. */
  method CheckBucket(
    list: StoredList, token: nat, r: Request, tags: set<string>, manager: RegexManager, mapping: map<Hash, nat>,
    firstOnly: bool, ghost entries: seq<(nat, FlatNetworkFilter)>, ghost placed: Placement, ghost hashes: seq<Hash>)
    returns (found: seq<CheckResult>)
    requires Sized(r) && manager.Valid() && Loaded(list, mapping, entries, placed, hashes, manager.naming)
    modifies manager
    ensures manager.Valid()
    ensures var hits := BucketHits(manager.lib, Under(placed, token), r, tags);
            found == if firstOnly && hits != [] then [hits[0]] else hits
  {
    found := [];
    BucketsAgree(entries, placed, mapping, manager.naming, token);
    ghost var bucket := Under(placed, token);
    var flats := Collect(list.keys, list.values, token, entries);
    for n := 0 to |flats|
      invariant manager.Valid() && found == BucketHits(manager.lib, bucket[..n], r, tags)
      invariant firstOnly ==> found == []
    {
      BucketHitsStep(manager.lib, bucket, n, r, tags);
      var hit := CheckOne(flats[n], r, tags, manager, mapping, bucket[n], hashes);
      found := found + hit;
      if firstOnly && hit != [] {
        BucketHitsExtend(manager.lib, bucket, n + 1, r, tags);
        return;
      }
    }
    assert bucket[..|flats|] == bucket;
  }

  /** One stored filter: it must match and, if tagged, have an active tag. */
  method CheckOne(
    flat: FlatNetworkFilter, r: Request, tags: set<string>, manager: RegexManager, mapping: map<Hash, nat>,
    ghost f: NetworkFilter, ghost hashes: seq<Hash>)
    returns (hit: seq<CheckResult>)
    requires Sized(r) && manager.Valid() && manager.naming(flat.key) == Subject(flat.mask, flat.patterns)
    requires Inverse(hashes, mapping) && Serializes(flat, f, mapping)
    modifies manager
    ensures manager.Valid() && hit == OneHit(manager.lib, f, r, tags)
  {
    var matched := FlatFilterMatches(flat, r, mapping, manager, f, hashes);
    if matched && TagActive(flat.tag, tags) {
      hit := [CheckResult(flat.mask, flat.modifierOption, flat.rawLine)];
    } else {
      hit := [];
    }
  }

  /** All results, in the order of the tokens and, under a token, of the entries. */
  method CheckAll(
    list: StoredList, r: Request, tags: set<string>, manager: RegexManager, mapping: map<Hash, nat>,
    ghost entries: seq<(nat, FlatNetworkFilter)>, ghost placed: Placement, ghost hashes: seq<Hash>)
    returns (found: seq<CheckResult>)
    requires Sized(r) && manager.Valid() && Loaded(list, mapping, entries, placed, hashes, manager.naming)
    modifies manager
    ensures manager.Valid() && found == Hits(manager.lib, placed, TokensForMatch(r), r, tags)
  {
    found := [];
    var tokens := TokensForMatch(r);
    if list.keys == [] {
      NothingStored(manager.lib, list, mapping, entries, placed, hashes, manager.naming, tokens, r, tags);
      return;
    }
    for n := 0 to |tokens|
      invariant manager.Valid() && found == Hits(manager.lib, placed, tokens[..n], r, tags)
    {
      var more := CheckBucket(list, ToShortHash(tokens[n]), r, tags, manager, mapping, false, entries, placed, hashes);
      assert tokens[..n + 1][..n] == tokens[..n];
      found := found + more;
    }
    assert tokens[..|tokens|] == tokens;
  }

  /** The first result, if there is any. */
  method Check(
    list: StoredList, r: Request, tags: set<string>, manager: RegexManager, mapping: map<Hash, nat>,
    ghost entries: seq<(nat, FlatNetworkFilter)>, ghost placed: Placement, ghost hashes: seq<Hash>)
    returns (found: Option<CheckResult>)
    requires Sized(r) && manager.Valid() && Loaded(list, mapping, entries, placed, hashes, manager.naming)
    modifies manager
    ensures manager.Valid()
    ensures var hits := Hits(manager.lib, placed, TokensForMatch(r), r, tags);
            found == if hits == [] then None else Some(hits[0])
  {
    var tokens := TokensForMatch(r);
    if list.keys == [] {
      NothingStored(manager.lib, list, mapping, entries, placed, hashes, manager.naming, tokens, r, tags);
      return None;
    }
    found := CheckTokens(list, tokens, r, tags, manager, mapping, entries, placed, hashes);
  }

  method CheckTokens(
    list: StoredList, tokens: seq<Hash>, r: Request, tags: set<string>, manager: RegexManager, mapping: map<Hash, nat>,
    ghost entries: seq<(nat, FlatNetworkFilter)>, ghost placed: Placement, ghost hashes: seq<Hash>)
    returns (found: Option<CheckResult>)
    requires Sized(r) && manager.Valid() && Loaded(list, mapping, entries, placed, hashes, manager.naming)
    modifies manager
    ensures manager.Valid()
    ensures var hits := Hits(manager.lib, placed, tokens, r, tags);
            found == if hits == [] then None else Some(hits[0])
  {
    for n := 0 to |tokens|
      invariant manager.Valid() && Hits(manager.lib, placed, tokens[..n], r, tags) == []
    {
      var first := CheckBucket(list, ToShortHash(tokens[n]), r, tags, manager, mapping, true, entries, placed, hashes);
      assert tokens[..n + 1][..n] == tokens[..n];
      if first != [] {
        HitsExtend(manager.lib, placed, tokens, n + 1, r, tags);
        return Some(first[0]);
      }
    }
    assert tokens[..|tokens|] == tokens;
    return None;
  }
}

/** The token index answers as a scan of the whole list would. */
module IndexedScan {
  import opened Prelude
  import opened Network
  import opened RegexManagement
  import opened Interning
  import opened Matching
  import opened FilterTokens
  import opened TokenSoundness
  import opened FlatMultiMap
  import opened Optimizer
  import opened TokenChoice
  import opened FilterList

  /** Test every filter: does one match that is untagged or has an active tag? */
  predicate ScanAccepts(lib: RegexLibrary, filters: seq<NetworkFilter>, r: Request, tags: set<string>)
    requires Sized(r)
  {
    exists i :: 0 <= i < |filters| && FilterMatches(lib, filters[i], r) && TagActive(filters[i].tag, tags)
  }

  /** Does the scan find a filter with this mask? */
  predicate ScanAcceptsAs(lib: RegexLibrary, filters: seq<NetworkFilter>, r: Request, tags: set<string>, mask: Mask)
    requires Sized(r)
  {
    exists i :: 0 <= i < |filters| && filters[i].mask == mask && FilterMatches(lib, filters[i], r)
      && TagActive(filters[i].tag, tags)
  }

  /** The tokens of every filter that matches are tokens of the request (see `TokensAreSound`). */
  ghost predicate TokensReach(hash: string -> Hash, lib: RegexLibrary, filters: seq<NetworkFilter>, r: Request)
    requires Sized(r)
  {
    && 0 in TokensForMatch(r)
    && forall i :: 0 <= i < |filters| && FilterMatches(lib, filters[i], r) ==> Reached(hash, filters[i], r)
  }

  ghost predicate Reached(hash: string -> Hash, f: NetworkFilter, r: Request) {
    match TokensOf(hash, f)
    case Empty => true
    case OptDomains(domains) => exists h :: h in domains && h in TokensForMatch(r)
    case Other(tokens) => forall h :: h in tokens ==> h in TokensForMatch(r)
  }

  /** No token, several domains, or one domain and nothing else to go by. */
  predicate GoesByDomain(hash: string -> Hash, f: NetworkFilter) {
    match TokensOf(hash, f)
    case Empty => true
    case OptDomains(_) => true
    case Other(tokens) => forall h :: h in tokens ==> h in DomainToken(f)
  }

  /** Such filters need no proviso: whatever the URL and the pattern, a match is reached. */
  lemma ReachedByDomain(hash: string -> Hash, lib: RegexLibrary, f: NetworkFilter, r: Request)
    requires Sized(r) && FilterMatches(lib, f, r) && GoesByDomain(hash, f)
    ensures Reached(hash, f, r)
  {
    match TokensOf(hash, f)
    case Empty =>
    case OptDomains(domains) =>
      var h :| h in r.sourceHashes.value && h in domains;
      assert h in TokensForMatch(r);
    case Other(tokens) =>
      forall h | h in tokens ensures h in TokensForMatch(r) {
        DomainTokenIsFound(f, r, h);
      }
  }

  /** The token proviso, filter by filter where it is needed at all, is enough. */
  lemma TokensReachByProviso(hash: string -> Hash, lib: RegexLibrary, filters: seq<NetworkFilter>, r: Request)
    requires Sized(r) && 0 in r.tokens
    requires forall i :: 0 <= i < |filters| && FilterMatches(lib, filters[i], r) ==>
               || GoesByDomain(hash, filters[i])
               || (Proviso(hash, lib, filters[i], r) && !FallsBackToParam(hash, filters[i]))
    ensures TokensReach(hash, lib, filters, r)
  {
    forall i | 0 <= i < |filters| && FilterMatches(lib, filters[i], r) ensures Reached(hash, filters[i], r) {
      if GoesByDomain(hash, filters[i]) {
        ReachedByDomain(hash, lib, filters[i], r);
      } else {
        TokensAreSound(hash, lib, filters[i], r);
      }
    }
  }

  /** A matching filter is stored in a bucket that the lookup visits. */
  lemma BucketIsVisited(hash: string -> Hash, f: NetworkFilter, r: Request, stored: Stored) returns (t: Hash)
    requires StoredFor(hash, f, stored) && Reached(hash, f, r) && 0 in TokensForMatch(r)
    ensures t in TokensForMatch(r) && (ToShortHash(t), f) in stored
  {
    match TokensOf(hash, f) {
      case Empty =>
        t := 0;
      case OptDomains(domains) =>
        t :| t in domains && t in TokensForMatch(r);
      case Other(tokens) =>
        t :| (t == 0 || t in tokens) && (ToShortHash(t), f) in stored;
    }
  }

  // ----- what the index accepts -----

  /** What a bucket accepts; optimized, what it leaves alone and each group as one filter. */
  ghost predicate Answers(
    lib: RegexLibrary, bucket: seq<NetworkFilter>, optimize: bool, r: Request, tags: set<string>, mask: Mask)
    requires Sized(r)
  {
    if optimize then
      AloneAccepts(lib, bucket, r, tags, mask) || FusedAccepts(lib, GroupOf(bucket, mask), r, tags)
    else Accepts(lib, bucket, r, tags, mask)
  }

  /** The filters that share a bucket which the lookup visits for one token. */
  function Visited(hash: string -> Hash, filters: seq<NetworkFilter>, token: Hash): seq<NetworkFilter> {
    BucketOf(hash, filters, ToShortHash(token))
  }

  /** Does a bucket that the lookup visits accept with this mask? Nothing but list and request decide. */
  ghost predicate IndexAccepts(
    hash: string -> Hash, lib: RegexLibrary, filters: seq<NetworkFilter>, optimize: bool, r: Request,
    tags: set<string>, mask: Mask)
    requires Sized(r)
  {
    exists t :: t in TokensForMatch(r) && Answers(lib, Visited(hash, filters, t), optimize, r, tags, mask)
  }

  ghost predicate IndexFinds(
    hash: string -> Hash, lib: RegexLibrary, filters: seq<NetworkFilter>, optimize: bool, r: Request,
    tags: set<string>)
    requires Sized(r)
  {
    exists mask :: IndexAccepts(hash, lib, filters, optimize, r, tags, mask)
  }

  lemma PlacedAnswers(
    lib: RegexLibrary, calls: Placement, optimize: bool, placed: Placement, token: nat, r: Request,
    tags: set<string>, mask: Mask)
    requires Sized(r) && Indexes(calls, optimize, placed)
    ensures Accepts(lib, Under(placed, token), r, tags, mask) <==>
              Answers(lib, Under(calls, token), optimize, r, tags, mask)
  {
    if optimize {
      OptimizedByParts(lib, Under(calls, token), Under(placed, token), r, tags, mask);
    }
  }

  /** The lookup has hits exactly when a visited bucket accepts. */
  lemma HitsAreAnswers(
    hash: string -> Hash, lib: RegexLibrary, filters: seq<NetworkFilter>, optimize: bool, placed: Placement,
    r: Request, tags: set<string>)
    requires Sized(r) && Indexes(Distribution(hash, filters), optimize, placed)
    ensures Hits(lib, placed, TokensForMatch(r), r, tags) != [] <==>
              IndexFinds(hash, lib, filters, optimize, r, tags)
  {
    var calls := Distribution(hash, filters);
    HitsExist(lib, placed, TokensForMatch(r), r, tags);
    forall t: Hash, mask ensures Accepts(lib, Under(placed, ToShortHash(t)), r, tags, mask) <==>
                             Answers(lib, Visited(hash, filters, t), optimize, r, tags, mask)
    {
      PlacedAnswers(lib, calls, optimize, placed, ToShortHash(t), r, tags, mask);
    }
    if AcceptedUnder(lib, placed, TokensForMatch(r), r, tags) {
      var t :| t in TokensForMatch(r) && Accepted(lib, Under(placed, ToShortHash(t)), r, tags);
      var mask :| Accepts(lib, Under(placed, ToShortHash(t)), r, tags, mask);
      assert IndexAccepts(hash, lib, filters, optimize, r, tags, mask);
    }
    if mask :| IndexAccepts(hash, lib, filters, optimize, r, tags, mask) {
      var t :| t in TokensForMatch(r) && Answers(lib, Visited(hash, filters, t), optimize, r, tags, mask);
      assert Accepted(lib, Under(placed, ToShortHash(t)), r, tags);
    }
  }

  // ----- the index against the scan -----

  /** Some filter in a visited bucket has this mask, matches and has an active tag. */
  ghost predicate VisitedAccepts(
    hash: string -> Hash, lib: RegexLibrary, filters: seq<NetworkFilter>, r: Request, tags: set<string>, mask: Mask)
    requires Sized(r)
  {
    exists t :: t in TokensForMatch(r) && Accepts(lib, Visited(hash, filters, t), r, tags, mask)
  }

  /** What a filter of a visited bucket accepts, a filter of the list does. */
  lemma VisitedIsListed(
    hash: string -> Hash, lib: RegexLibrary, filters: seq<NetworkFilter>, r: Request, tags: set<string>, mask: Mask)
    requires Sized(r) && VisitedAccepts(hash, lib, filters, r, tags, mask)
    ensures ScanAcceptsAs(lib, filters, r, tags, mask)
  {
    var t :| t in TokensForMatch(r) && Accepts(lib, Visited(hash, filters, t), r, tags, mask);
    AcceptsAs(lib, Visited(hash, filters, t), r, tags, mask);
    var f :| f in Visited(hash, filters, t) && f.mask == mask && FilterMatches(lib, f, r) && TagActive(f.tag, tags);
    BucketIsListed(hash, filters, ToShortHash(t), f);
    var i :| 0 <= i < |filters| && filters[i] == f;
  }

  lemma BucketIsListed(hash: string -> Hash, filters: seq<NetworkFilter>, token: nat, f: NetworkFilter)
    requires f in BucketOf(hash, filters, token)
    ensures f in filters
  {
    UnderMember(Distribution(hash, filters), token, f);
    DistributionDistributes(hash, filters);
    assert (token, f).1 in filters;
  }

  /** If tokens are sound, every filter that the scan accepts is in a visited bucket. */
  lemma ListedIsVisited(
    hash: string -> Hash, lib: RegexLibrary, filters: seq<NetworkFilter>, r: Request, tags: set<string>, mask: Mask)
    requires Sized(r) && TokensReach(hash, lib, filters, r) && ScanAcceptsAs(lib, filters, r, tags, mask)
    ensures VisitedAccepts(hash, lib, filters, r, tags, mask)
  {
    var i :| 0 <= i < |filters| && filters[i].mask == mask && FilterMatches(lib, filters[i], r)
      && TagActive(filters[i].tag, tags);
    var f := filters[i];
    DistributionDistributes(hash, filters);
    var t := BucketIsVisited(hash, f, r, Elements(Distribution(hash, filters)));
    UnderMember(Distribution(hash, filters), ToShortHash(t), f);
    AcceptsAs(lib, Visited(hash, filters, t), r, tags, mask);
  }

  /** In every visited bucket, filters that would share a group have one tag and patterns that compile. */
  ghost predicate BucketsOptimizable(
    hash: string -> Hash, lib: RegexLibrary, filters: seq<NetworkFilter>, r: Request)
  {
    forall t :: t in TokensForMatch(r) ==> Optimizable(lib, Visited(hash, filters, t))
  }

  lemma OptimizableBuckets(hash: string -> Hash, lib: RegexLibrary, filters: seq<NetworkFilter>, r: Request)
    requires Optimizable(lib, filters)
    ensures BucketsOptimizable(hash, lib, filters, r)
  {
    forall t | t in TokensForMatch(r) ensures Optimizable(lib, Visited(hash, filters, t)) {
      forall f | f in Visited(hash, filters, t) ensures f in filters {
        BucketIsListed(hash, filters, ToShortHash(t), f);
      }
      OptimizableParts(lib, filters, Visited(hash, filters, t));
    }
  }

  lemma OptimizableParts(lib: RegexLibrary, filters: seq<NetworkFilter>, part: seq<NetworkFilter>)
    requires Optimizable(lib, filters) && forall f :: f in part ==> f in filters
    ensures Optimizable(lib, part)
  {
    forall i | 0 <= i < |part| ensures exists a :: 0 <= a < |filters| && filters[a] == part[i] {
      assert part[i] in part;
    }
  }

  lemma BucketAnswersAsStored(
    lib: RegexLibrary, bucket: seq<NetworkFilter>, optimize: bool, r: Request, tags: set<string>, mask: Mask)
    requires Sized(r) && (optimize ==> Optimizable(lib, bucket))
    ensures Answers(lib, bucket, optimize, r, tags, mask) <==> Accepts(lib, bucket, r, tags, mask)
  {
    if optimize {
      AcceptsByParts(lib, bucket, r, tags, mask);
      var group := GroupOf(bucket, mask);
      if |group| > 1 {
        GroupIsGroup(lib, bucket, mask);
        GroupIsKept(bucket, mask);
        FusionKeepsMeaning(lib, group, r);
      }
    }
  }

  /**
   * The buckets visited accept, with the same masks, exactly what the scan does: if tokens are sound,
   * and, with optimization, if the filters that would share a group in a visited bucket have one tag
   * and patterns that compile. Short hashes that collide add and lose nothing.
   */
  lemma IndexEqualsScan(
    hash: string -> Hash, lib: RegexLibrary, filters: seq<NetworkFilter>, optimize: bool, r: Request,
    tags: set<string>, mask: Mask)
    requires Sized(r) && (optimize ==> BucketsOptimizable(hash, lib, filters, r))
    ensures IndexAccepts(hash, lib, filters, optimize, r, tags, mask) ==> ScanAcceptsAs(lib, filters, r, tags, mask)
    ensures TokensReach(hash, lib, filters, r) ==>
              (IndexAccepts(hash, lib, filters, optimize, r, tags, mask) <==>
               ScanAcceptsAs(lib, filters, r, tags, mask))
  {
    forall t | t in TokensForMatch(r)
      ensures Answers(lib, Visited(hash, filters, t), optimize, r, tags, mask) <==>
                Accepts(lib, Visited(hash, filters, t), r, tags, mask)
    {
      BucketAnswersAsStored(lib, Visited(hash, filters, t), optimize, r, tags, mask);
    }
    if IndexAccepts(hash, lib, filters, optimize, r, tags, mask) {
      VisitedIsListed(hash, lib, filters, r, tags, mask);
    }
    if TokensReach(hash, lib, filters, r) && ScanAcceptsAs(lib, filters, r, tags, mask) {
      ListedIsVisited(hash, lib, filters, r, tags, mask);
    }
  }

  lemma ScanAcceptsAsSome(lib: RegexLibrary, filters: seq<NetworkFilter>, r: Request, tags: set<string>)
    requires Sized(r)
    ensures ScanAccepts(lib, filters, r, tags) <==> exists mask :: ScanAcceptsAs(lib, filters, r, tags, mask)
  {
    if i :| 0 <= i < |filters| && FilterMatches(lib, filters[i], r) && TagActive(filters[i].tag, tags) {
      assert ScanAcceptsAs(lib, filters, r, tags, filters[i].mask);
    }
  }

  /** The same, whatever the mask. */
  lemma IndexFindsAsScan(
    hash: string -> Hash, lib: RegexLibrary, filters: seq<NetworkFilter>, optimize: bool, r: Request, tags: set<string>)
    requires Sized(r) && (optimize ==> BucketsOptimizable(hash, lib, filters, r))
    requires TokensReach(hash, lib, filters, r)
    ensures IndexFinds(hash, lib, filters, optimize, r, tags) <==> ScanAccepts(lib, filters, r, tags)
  {
    ScanAcceptsAsSome(lib, filters, r, tags);
    forall mask ensures IndexAccepts(hash, lib, filters, optimize, r, tags, mask) <==>
                          ScanAcceptsAs(lib, filters, r, tags, mask)
    {
      IndexEqualsScan(hash, lib, filters, optimize, r, tags, mask);
    }
  }

  // ----- exactly when optimizing leaves the lookup right -----

  /** A group of two or more in a bucket that the lookup visits. */
  ghost predicate VisitedGroup(hash: string -> Hash, filters: seq<NetworkFilter>, r: Request, t: Hash, mask: Mask) {
    t in TokensForMatch(r) && |GroupOf(Visited(hash, filters, t), mask)| > 1
  }

  /** A filter that no optimization touches, in a visited bucket, matches and has an active tag. */
  ghost predicate VisitedAlone(
    hash: string -> Hash, lib: RegexLibrary, filters: seq<NetworkFilter>, r: Request, tags: set<string>)
    requires Sized(r)
  {
    exists t, mask :: t in TokensForMatch(r) && AloneAccepts(lib, Visited(hash, filters, t), r, tags, mask)
  }

  /** A group that answers as one filter: not silenced, its first tag active, and some member matches. */
  ghost predicate GroupAnswers(lib: RegexLibrary, group: seq<NetworkFilter>, r: Request, tags: set<string>)
    requires Sized(r) && group != []
  {
    !Silenced(lib, group) && TagActive(group[0].tag, tags) && SomeMatches(lib, group, r)
  }

  ghost predicate MemberIsDue(lib: RegexLibrary, group: seq<NetworkFilter>, r: Request, tags: set<string>)
    requires Sized(r)
  {
    exists i :: 0 <= i < |group| && FilterMatches(lib, group[i], r) && TagActive(group[i].tag, tags)
  }

  ghost predicate SomeGroupAnswers(
    hash: string -> Hash, lib: RegexLibrary, filters: seq<NetworkFilter>, r: Request, tags: set<string>)
    requires Sized(r)
  {
    exists t, mask :: VisitedGroup(hash, filters, r, t, mask)
      && GroupAnswers(lib, GroupOf(Visited(hash, filters, t), mask), r, tags)
  }

  ghost predicate SomeMemberIsDue(
    hash: string -> Hash, lib: RegexLibrary, filters: seq<NetworkFilter>, r: Request, tags: set<string>)
    requires Sized(r)
  {
    exists t, mask :: VisitedGroup(hash, filters, r, t, mask)
      && MemberIsDue(lib, GroupOf(Visited(hash, filters, t), mask), r, tags)
  }

  lemma BucketHasAlternatives(hash: string -> Hash, filters: seq<NetworkFilter>, t: Hash)
    requires Alternatives(filters)
    ensures Alternatives(Visited(hash, filters, t))
  {
    var bucket := Visited(hash, filters, t);
    forall i | 0 <= i < |bucket| ensures exists a :: 0 <= a < |filters| && filters[a] == bucket[i] {
      assert bucket[i] in bucket;
      BucketIsListed(hash, filters, ToShortHash(t), bucket[i]);
    }
  }

  lemma GroupAnswersAs(
    hash: string -> Hash, lib: RegexLibrary, filters: seq<NetworkFilter>, r: Request, tags: set<string>, t: Hash,
    mask: Mask)
    requires Sized(r) && Alternatives(filters) && VisitedGroup(hash, filters, r, t, mask)
    ensures var group := GroupOf(Visited(hash, filters, t), mask);
            && (FusedAccepts(lib, group, r, tags) <==> GroupAnswers(lib, group, r, tags))
            && (Accepts(lib, group, r, tags, mask) <==> MemberIsDue(lib, group, r, tags))
  {
    var group := GroupOf(Visited(hash, filters, t), mask);
    BucketHasAlternatives(hash, filters, t);
    GroupHasOneMask(Visited(hash, filters, t), mask);
    FusionMeans(lib, group, r);
  }

  lemma FindsByParts(
    hash: string -> Hash, lib: RegexLibrary, filters: seq<NetworkFilter>, r: Request, tags: set<string>)
    requires Sized(r) && Alternatives(filters)
    ensures IndexFinds(hash, lib, filters, true, r, tags) <==>
              VisitedAlone(hash, lib, filters, r, tags) || SomeGroupAnswers(hash, lib, filters, r, tags)
  {
    if mask :| IndexAccepts(hash, lib, filters, true, r, tags, mask) {
      var t :| t in TokensForMatch(r) && Answers(lib, Visited(hash, filters, t), true, r, tags, mask);
      if !AloneAccepts(lib, Visited(hash, filters, t), r, tags, mask) {
        GroupAnswersAs(hash, lib, filters, r, tags, t, mask);
      }
    }
    if t, mask :| t in TokensForMatch(r) && AloneAccepts(lib, Visited(hash, filters, t), r, tags, mask) {
      assert IndexAccepts(hash, lib, filters, true, r, tags, mask);
    }
    if t, mask :|
      VisitedGroup(hash, filters, r, t, mask) && GroupAnswers(lib, GroupOf(Visited(hash, filters, t), mask), r, tags) {
      GroupAnswersAs(hash, lib, filters, r, tags, t, mask);
      assert IndexAccepts(hash, lib, filters, true, r, tags, mask);
    }
  }

  lemma VisitedByParts(
    hash: string -> Hash, lib: RegexLibrary, filters: seq<NetworkFilter>, r: Request, tags: set<string>)
    requires Sized(r) && Alternatives(filters)
    ensures (exists mask :: VisitedAccepts(hash, lib, filters, r, tags, mask)) <==>
              VisitedAlone(hash, lib, filters, r, tags) || SomeMemberIsDue(hash, lib, filters, r, tags)
  {
    if mask :| VisitedAccepts(hash, lib, filters, r, tags, mask) {
      var t :| t in TokensForMatch(r) && Accepts(lib, Visited(hash, filters, t), r, tags, mask);
      AcceptsByParts(lib, Visited(hash, filters, t), r, tags, mask);
      if !AloneAccepts(lib, Visited(hash, filters, t), r, tags, mask) {
        GroupAnswersAs(hash, lib, filters, r, tags, t, mask);
      }
    }
    if t, mask :| t in TokensForMatch(r) && AloneAccepts(lib, Visited(hash, filters, t), r, tags, mask) {
      AcceptsByParts(lib, Visited(hash, filters, t), r, tags, mask);
      assert VisitedAccepts(hash, lib, filters, r, tags, mask);
    }
    if t, mask :|
      VisitedGroup(hash, filters, r, t, mask) && MemberIsDue(lib, GroupOf(Visited(hash, filters, t), mask), r, tags) {
      GroupAnswersAs(hash, lib, filters, r, tags, t, mask);
      AcceptsByParts(lib, Visited(hash, filters, t), r, tags, mask);
      assert VisitedAccepts(hash, lib, filters, r, tags, mask);
    }
  }

  /**
   * A filter left alone in a visited bucket is found anyway; or, if some group there answers (not
   * silenced, its first tag active, a member matches), a member that matches has an active tag in some
   * group there; and if none answers, no member that matches has an active tag.
   */
  ghost predicate AnswersRight(
    hash: string -> Hash, lib: RegexLibrary, filters: seq<NetworkFilter>, r: Request, tags: set<string>)
    requires Sized(r)
  {
    || VisitedAlone(hash, lib, filters, r, tags)
    || if SomeGroupAnswers(hash, lib, filters, r, tags)
       then SomeMemberIsDue(hash, lib, filters, r, tags)
       else !SomeMemberIsDue(hash, lib, filters, r, tags)
  }

  /** With optimization, this is exactly when the lookup finds a filter if and only if the scan does. */
  lemma IndexIsScanExactlyWhen(
    hash: string -> Hash, lib: RegexLibrary, filters: seq<NetworkFilter>, r: Request, tags: set<string>)
    requires Sized(r) && Alternatives(filters) && TokensReach(hash, lib, filters, r)
    ensures (IndexFinds(hash, lib, filters, true, r, tags) <==> ScanAccepts(lib, filters, r, tags))
            <==> AnswersRight(hash, lib, filters, r, tags)
  {
    FindsByParts(hash, lib, filters, r, tags);
    VisitedByParts(hash, lib, filters, r, tags);
    ScanAcceptsAsSome(lib, filters, r, tags);
    if mask :| VisitedAccepts(hash, lib, filters, r, tags, mask) {
      VisitedIsListed(hash, lib, filters, r, tags, mask);
    }
    if mask :| ScanAcceptsAs(lib, filters, r, tags, mask) {
      ListedIsVisited(hash, lib, filters, r, tags, mask);
    }
  }

  // ----- the whole way: serialize, load, look up -----

  /** A name for each stored key: keys are locations, so there is one. */
  ghost function NamingOf(entries: seq<(nat, FlatNetworkFilter)>): nat -> Subject {
    (key: nat) =>
      if exists i :: 0 <= i < |entries| && entries[i].1.key == key then
        var i :| 0 <= i < |entries| && entries[i].1.key == key;
        Subject(entries[i].1.mask, entries[i].1.patterns)
      else Subject({}, [])
  }

  lemma NamingIsKnown(entries: seq<(nat, FlatNetworkFilter)>, next: nat)
    requires KeysAreLocations(entries, next)
    ensures Known(NamingOf(entries), entries)
  {
  }

  // ----- all hits of an index -----

  /** Is `h` the result of a stored filter in a visited bucket that matches and has an active tag? */
  ghost predicate IsHit(
    lib: RegexLibrary, stored: Stored, tokens: seq<Hash>, r: Request, tags: set<string>, h: CheckResult)
    requires Sized(r)
  {
    exists t :: t in tokens && HitUnder(lib, stored, ToShortHash(t), r, tags, h)
  }

  ghost predicate HitUnder(lib: RegexLibrary, stored: Stored, token: nat, r: Request, tags: set<string>, h: CheckResult)
    requires Sized(r)
  {
    exists f :: HitOf(lib, stored, token, f, r, tags, h)
  }

  predicate HitOf(
    lib: RegexLibrary, stored: Stored, token: nat, f: NetworkFilter, r: Request, tags: set<string>, h: CheckResult)
    requires Sized(r)
  {
    (token, f) in stored && FilterMatches(lib, f, r) && TagActive(f.tag, tags) && h == ResultOf(f)
  }

  lemma {:induction false} BucketHitsAre(
    lib: RegexLibrary, bucket: seq<NetworkFilter>, r: Request, tags: set<string>, h: CheckResult)
    requires Sized(r)
    ensures h in BucketHits(lib, bucket, r, tags) <==> HitIn(lib, bucket, r, tags, h)
  {
    if bucket != [] {
      var n := |bucket| - 1;
      var front, last := bucket[..n], bucket[n];
      var some, one := BucketHits(lib, front, r, tags), OneHit(lib, last, r, tags);
      BucketHitsAre(lib, front, r, tags, h);
      HitInOneMore(lib, front, last, r, tags, h);
      assert bucket == front + [last] && BucketHits(lib, bucket, r, tags) == some + one;
      InConcat(some, one, h);
    }
  }

  /** Some filter of the bucket gives this hit. */
  ghost predicate HitIn(
    lib: RegexLibrary, bucket: seq<NetworkFilter>, r: Request, tags: set<string>, h: CheckResult)
    requires Sized(r)
  {
    exists f :: f in bucket && h in OneHit(lib, f, r, tags)
  }

  lemma HitInOneMore(
    lib: RegexLibrary, bucket: seq<NetworkFilter>, last: NetworkFilter, r: Request, tags: set<string>, h: CheckResult)
    requires Sized(r)
    ensures HitIn(lib, bucket + [last], r, tags, h) <==>
              HitIn(lib, bucket, r, tags, h) || h in OneHit(lib, last, r, tags)
  {
    assert forall f :: f in bucket + [last] <==> f in bucket || f == last;
  }

  lemma InConcat<T>(a: seq<T>, b: seq<T>, x: T)
    ensures x in a + b <==> x in a || x in b
  {
  }

  lemma OneHitIs(lib: RegexLibrary, f: NetworkFilter, r: Request, tags: set<string>, h: CheckResult)
    requires Sized(r)
    ensures h in OneHit(lib, f, r, tags) <==> FilterMatches(lib, f, r) && TagActive(f.tag, tags) && h == ResultOf(f)
  {
  }

  lemma BucketHitsAreStored(
    lib: RegexLibrary, placed: Placement, token: nat, r: Request, tags: set<string>, h: CheckResult)
    requires Sized(r)
    ensures h in BucketHits(lib, Under(placed, token), r, tags) <==> HitUnder(lib, Elements(placed), token, r, tags, h)
  {
    var bucket := Under(placed, token);
    BucketHitsAre(lib, bucket, r, tags, h);
    if f :| f in bucket && h in OneHit(lib, f, r, tags) {
      UnderMember(placed, token, f);
      OneHitIs(lib, f, r, tags, h);
      assert HitOf(lib, Elements(placed), token, f, r, tags, h);
    }
    if f :| HitOf(lib, Elements(placed), token, f, r, tags, h) {
      UnderMember(placed, token, f);
      OneHitIs(lib, f, r, tags, h);
    }
  }

  /** The same, token by token. */
  ghost predicate HitByTokens(
    lib: RegexLibrary, stored: Stored, tokens: seq<Hash>, r: Request, tags: set<string>, h: CheckResult)
    requires Sized(r)
  {
    if tokens == [] then false
    else
      var n := |tokens| - 1;
      HitByTokens(lib, stored, tokens[..n], r, tags, h) || HitUnder(lib, stored, ToShortHash(tokens[n]), r, tags, h)
  }

  lemma {:induction false} HitByTokensMeans(
    lib: RegexLibrary, stored: Stored, tokens: seq<Hash>, r: Request, tags: set<string>, h: CheckResult)
    requires Sized(r)
    ensures HitByTokens(lib, stored, tokens, r, tags, h) <==> IsHit(lib, stored, tokens, r, tags, h)
  {
    if tokens != [] {
      var n := |tokens| - 1;
      HitByTokensMeans(lib, stored, tokens[..n], r, tags, h);
      IsHitOneMore(lib, stored, tokens[..n], tokens[n], r, tags, h);
      assert tokens == tokens[..n] + [tokens[n]];
    }
  }

  lemma {:induction false} HitsAreByTokens(
    lib: RegexLibrary, placed: Placement, tokens: seq<Hash>, r: Request, tags: set<string>, h: CheckResult)
    requires Sized(r)
    ensures h in Hits(lib, placed, tokens, r, tags) <==> HitByTokens(lib, Elements(placed), tokens, r, tags, h)
  {
    if tokens != [] {
      var n := |tokens| - 1;
      HitsAreByTokens(lib, placed, tokens[..n], r, tags, h);
      BucketHitsAreStored(lib, placed, ToShortHash(tokens[n]), r, tags, h);
      InConcat(
        Hits(lib, placed, tokens[..n], r, tags), BucketHits(lib, Under(placed, ToShortHash(tokens[n])), r, tags), h);
    }
  }

  lemma HitsAre(
    lib: RegexLibrary, placed: Placement, tokens: seq<Hash>, r: Request, tags: set<string>, h: CheckResult)
    requires Sized(r)
    ensures h in Hits(lib, placed, tokens, r, tags) <==> IsHit(lib, Elements(placed), tokens, r, tags, h)
  {
    HitsAreByTokens(lib, placed, tokens, r, tags, h);
    HitByTokensMeans(lib, Elements(placed), tokens, r, tags, h);
  }

  lemma IsHitOneMore(
    lib: RegexLibrary, stored: Stored, tokens: seq<Hash>, last: Hash, r: Request, tags: set<string>, h: CheckResult)
    requires Sized(r)
    ensures IsHit(lib, stored, tokens + [last], r, tags, h) <==>
              IsHit(lib, stored, tokens, r, tags, h) || HitUnder(lib, stored, ToShortHash(last), r, tags, h)
  {
    assert last in tokens + [last];
    assert forall t :: t in tokens ==> t in tokens + [last];
  }

  /** Every rule that matches and has an active tag is hit, and nothing else is. */
  lemma HitsAreMatches(
    hash: string -> Hash, lib: RegexLibrary, filters: seq<NetworkFilter>, placed: Placement, r: Request,
    tags: set<string>, h: CheckResult)
    requires Sized(r) && Distributed(hash, filters, Elements(placed)) && TokensReach(hash, lib, filters, r)
    ensures h in Hits(lib, placed, TokensForMatch(r), r, tags) <==>
              exists f :: f in filters && FilterMatches(lib, f, r) && TagActive(f.tag, tags) && h == ResultOf(f)
  {
    HitsAre(lib, placed, TokensForMatch(r), r, tags, h);
    if f :| f in filters && FilterMatches(lib, f, r) && TagActive(f.tag, tags) && h == ResultOf(f) {
      var i :| 0 <= i < |filters| && filters[i] == f;
      var t := BucketIsVisited(hash, f, r, Elements(placed));
      assert HitOf(lib, Elements(placed), ToShortHash(t), f, r, tags, h);
    }
    if t :| t in TokensForMatch(r) && HitUnder(lib, Elements(placed), ToShortHash(t), r, tags, h) {
      var f :| HitOf(lib, Elements(placed), ToShortHash(t), f, r, tags, h);
      assert (ToShortHash(t), f).1 in filters;
    }
  }

  /** Serializing a list of filters, optimized or not. */
  method SerializeList(
    hash: string -> Hash, filters: seq<NetworkFilter>, optimize: bool, engine: EngineFlatBuilder,
    ghost lib: RegexLibrary)
    returns (list: StoredList, ghost entries: seq<(nat, FlatNetworkFilter)>, ghost placed: Placement, ghost next: nat)
    requires engine.Valid()
    modifies engine
    ensures engine.Valid() && Stores(list.keys, list.values, entries)
    ensures Represents(entries, placed, engine.uniqueDomainsHashesMap) && KeysAreLocations(entries, next)
    ensures Indexes(Distribution(hash, filters), optimize, placed)
    ensures !optimize ==> Distributed(hash, filters, Elements(placed))
  {
    var serializer := new ListSerializer(engine, optimize);
    serializer.StoreAll(hash, filters);
    if optimize {
      serializer.OptimizeBuckets(lib);
    } else {
      NothingWaits(serializer.calls);
    }
    DistributionDistributes(hash, filters);
    var keys, values := FinishEntries(serializer.entries);
    list := StoredList(keys, values);
    entries, placed, next := serializer.entries, serializer.placed, serializer.nextKey;
  }

  lemma HitIsAnswer(
    hash: string -> Hash, lib: RegexLibrary, filters: seq<NetworkFilter>, optimize: bool, placed: Placement,
    r: Request, tags: set<string>, h: CheckResult)
    requires Sized(r) && Indexes(Distribution(hash, filters), optimize, placed)
    requires h in Hits(lib, placed, TokensForMatch(r), r, tags)
    ensures IndexAccepts(hash, lib, filters, optimize, r, tags, h.filterMask)
  {
    HitsAre(lib, placed, TokensForMatch(r), r, tags, h);
    var t :| t in TokensForMatch(r) && HitUnder(lib, Elements(placed), ToShortHash(t), r, tags, h);
    var f :| HitOf(lib, Elements(placed), ToShortHash(t), f, r, tags, h);
    UnderMember(placed, ToShortHash(t), f);
    AcceptsAs(lib, Under(placed, ToShortHash(t)), r, tags, f.mask);
    PlacedAnswers(lib, Distribution(hash, filters), optimize, placed, ToShortHash(t), r, tags, f.mask);
    assert Answers(lib, Visited(hash, filters, t), optimize, r, tags, f.mask);
  }

  /**
   * Serializing a list, loading it and checking a request finds a filter exactly when a visited bucket
   * accepts, and what it finds carries the mask of such an answer. Where the index answers as the scan
   * does (`IndexEqualsScan`), it finds a filter exactly when the scan does.
   */
  method CheckRules(
    hash: string -> Hash, lib: RegexLibrary, filters: seq<NetworkFilter>, optimize: bool, r: Request,
    tags: set<string>, now: nat, policy: Policy)
    returns (found: Option<CheckResult>)
    requires Sized(r)
    ensures found.Some? <==> IndexFinds(hash, lib, filters, optimize, r, tags)
    ensures found.Some? ==> IndexAccepts(hash, lib, filters, optimize, r, tags, found.value.filterMask)
    ensures TokensReach(hash, lib, filters, r) && (optimize ==> BucketsOptimizable(hash, lib, filters, r)) ==>
              (found.Some? <==> ScanAccepts(lib, filters, r, tags))
    ensures (optimize ==> BucketsOptimizable(hash, lib, filters, r)) && found.Some? ==>
              ScanAcceptsAs(lib, filters, r, tags, found.value.filterMask)
  {
    var engine := new EngineFlatBuilder();
    var list;
    ghost var entries, placed, next;
    list, entries, placed, next := SerializeList(hash, filters, optimize, engine, lib);
    var mapping := RebuildMap(engine.uniqueDomainsHashes, engine.uniqueDomainsHashesMap);
    NamingIsKnown(entries, next);
    var manager := new RegexManager(lib, NamingOf(entries), now, now, policy);
    found := Check(list, r, tags, manager, mapping, entries, placed, engine.uniqueDomainsHashes);
    HitsAreAnswers(hash, lib, filters, optimize, placed, r, tags);
    if found.Some? {
      HitIsAnswer(hash, lib, filters, optimize, placed, r, tags, found.value);
    }
    if optimize ==> BucketsOptimizable(hash, lib, filters, r) {
      if TokensReach(hash, lib, filters, r) {
        IndexFindsAsScan(hash, lib, filters, optimize, r, tags);
      }
      if found.Some? {
        IndexEqualsScan(hash, lib, filters, optimize, r, tags, found.value.filterMask);
      }
    }
  }

  /** All results of an unoptimized list: those of exactly the filters that the scan accepts. */
  method CheckAllRules(
    hash: string -> Hash, lib: RegexLibrary, filters: seq<NetworkFilter>, r: Request, tags: set<string>,
    now: nat, policy: Policy)
    returns (found: seq<CheckResult>)
    requires Sized(r) && TokensReach(hash, lib, filters, r)
    ensures forall h :: h in found <==>
              exists f :: f in filters && FilterMatches(lib, f, r) && TagActive(f.tag, tags) && h == ResultOf(f)
  {
    var engine := new EngineFlatBuilder();
    var list;
    ghost var entries, placed, next;
    list, entries, placed, next := SerializeList(hash, filters, false, engine, lib);
    var mapping := RebuildMap(engine.uniqueDomainsHashes, engine.uniqueDomainsHashesMap);
    NamingIsKnown(entries, next);
    var manager := new RegexManager(lib, NamingOf(entries), now, now, policy);
    found := CheckAll(list, r, tags, manager, mapping, entries, placed, engine.uniqueDomainsHashes);
    forall h ensures h in found <==>
              exists f :: f in filters && FilterMatches(lib, f, r) && TagActive(f.tag, tags) && h == ResultOf(f) {
      HitsAreMatches(hash, lib, filters, placed, r, tags, h);
    }
  }
}

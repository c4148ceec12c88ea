/** Which token a filter is stored under, and so which bucket it shares with which others. */
module TokenChoice {
  import opened Prelude
  import opened Network
  import opened FilterTokens
  import opened FlatMultiMap

  const USIZE_MAX: nat := 0xFFFF_FFFF_FFFF_FFFF
  const WORST_TOKEN_USAGE: nat := USIZE_MAX / 2
  const BAD_TOKEN_USAGE: nat := USIZE_MAX / 4

  const WORST_TOKENS: seq<string> := ["https", "http", "www", "com"]
  const BAD_TOKENS: seq<string> := [
    "uk", "net", "org", "io", "de", "fr", "es", "it", "nl", "se", "ru", "pl", "co", "js", "css", "img", "jpg",
    "html", "png", "cdn", "static", "images", "api", "wp", "ad", "ads", "content", "doubleclick", "analytics",
    "assets", "id", "min", "amazon", "google", "googlesyndication", "googleapis"]

  // ----- the choice, as a function of the usage counts -----

  type Usages = map<ShortHash, nat>

  /** The counts that the selector starts with: later words overwrite earlier ones of the same short hash. */
  function Started(hash: string -> Hash, usages: Usages, words: seq<string>, count: nat): Usages {
    if words == [] then usages
    else
      var n := |words| - 1;
      Started(hash, usages, words[..n], count)[ToShortHash(hash(words[n])) := count]
  }

  function StartUsages(hash: string -> Hash): Usages {
    Started(hash, Started(hash, map[], WORST_TOKENS, WORST_TOKEN_USAGE), BAD_TOKENS, BAD_TOKEN_USAGE)
  }

  predicate Unseen(usages: Usages, token: Hash) {
    ToShortHash(token) !in usages
  }

  function UsageOf(usages: Usages, token: Hash): nat {
    if Unseen(usages, token) then 0 else usages[ToShortHash(token)]
  }

  function Recorded(usages: Usages, token: Hash): Usages {
    usages[ToShortHash(token) := UsageOf(usages, token) + 1]
  }

  function FirstUnseen(usages: Usages, tokens: seq<Hash>): Option<Hash> {
    if tokens == [] then None
    else
      var n := |tokens| - 1;
      var found := FirstUnseen(usages, tokens[..n]);
      if found.None? && tokens[n] != 0 && Unseen(usages, tokens[n]) then Some(tokens[n]) else found
  }

  /** The first of the least used tokens, and its count; 0 if none is used less than can be counted. */
  function LeastUsed(usages: Usages, tokens: seq<Hash>): (Hash, nat) {
    if tokens == [] then (0, USIZE_MAX)
    else
      var n := |tokens| - 1;
      var least := LeastUsed(usages, tokens[..n]);
      if tokens[n] != 0 && UsageOf(usages, tokens[n]) < least.1 then (tokens[n], UsageOf(usages, tokens[n])) else least
  }

  /** The first token never used before, or else a least used one; 0 if there is none. */
  function Selected(usages: Usages, tokens: seq<Hash>): Hash {
    var unseen := FirstUnseen(usages, tokens);
    if unseen.Some? then unseen.value else LeastUsed(usages, tokens).0
  }

  /** The token chosen is one of the list and none is used less; 0 only if all are used beyond counting. */
  lemma SelectedIsLeast(usages: Usages, tokens: seq<Hash>)
    ensures var best := Selected(usages, tokens);
            && (best != 0 ==> best in tokens)
            && (best != 0 ==> forall t :: t in tokens && t != 0 ==> UsageOf(usages, best) <= UsageOf(usages, t))
            && (best == 0 ==> forall t :: t in tokens && t != 0 ==> UsageOf(usages, t) >= USIZE_MAX)
  {
    FirstUnseenIs(usages, tokens);
    LeastUsedIs(usages, tokens);
  }

  lemma {:induction false} FirstUnseenIs(usages: Usages, tokens: seq<Hash>)
    ensures var found := FirstUnseen(usages, tokens);
            && (found.Some? ==> found.value in tokens && found.value != 0 && Unseen(usages, found.value))
            && (found.None? ==> forall t :: t in tokens && t != 0 ==> !Unseen(usages, t))
  {
    if tokens != [] {
      var n := |tokens| - 1;
      FirstUnseenIs(usages, tokens[..n]);
      assert tokens == tokens[..n] + [tokens[n]];
    }
  }

  lemma {:induction false} LeastUsedIs(usages: Usages, tokens: seq<Hash>)
    ensures var (best, used) := LeastUsed(usages, tokens);
            && (best == 0 ==> used == USIZE_MAX)
            && (best != 0 ==> best in tokens && used == UsageOf(usages, best))
            && forall t :: t in tokens && t != 0 ==> used <= UsageOf(usages, t)
  {
    if tokens != [] {
      var n := |tokens| - 1;
      LeastUsedIs(usages, tokens[..n]);
      assert tokens == tokens[..n] + [tokens[n]];
    }
  }

  lemma {:induction false} FirstUnseenStays(usages: Usages, tokens: seq<Hash>, n: nat)
    requires n <= |tokens| && FirstUnseen(usages, tokens[..n]).Some?
    ensures FirstUnseen(usages, tokens) == FirstUnseen(usages, tokens[..n])
    decreases |tokens|
  {
    if n == |tokens| {
      assert tokens[..n] == tokens;
    } else {
      var front := tokens[..|tokens| - 1];
      assert front[..n] == tokens[..n];
      FirstUnseenStays(usages, front, n);
    }
  }

  // ----- the selector -----

  class TokenSelector {
    var usage: Usages

    constructor (hash: string -> Hash)
      ensures usage == StartUsages(hash)
    {
      usage := map[];
      new;
      for i := 0 to |WORST_TOKENS|
        invariant usage == Started(hash, map[], WORST_TOKENS[..i], WORST_TOKEN_USAGE)
      {
        usage := usage[ToShortHash(hash(WORST_TOKENS[i])) := WORST_TOKEN_USAGE];
        assert WORST_TOKENS[..i + 1][..i] == WORST_TOKENS[..i];
      }
      assert WORST_TOKENS[..|WORST_TOKENS|] == WORST_TOKENS;
      ghost var worst := usage;
      for i := 0 to |BAD_TOKENS|
        invariant usage == Started(hash, worst, BAD_TOKENS[..i], BAD_TOKEN_USAGE)
      {
        usage := usage[ToShortHash(hash(BAD_TOKENS[i])) := BAD_TOKEN_USAGE];
        assert BAD_TOKENS[..i + 1][..i] == BAD_TOKENS[..i];
      }
      assert BAD_TOKENS[..|BAD_TOKENS|] == BAD_TOKENS;
    }

    /** The loop leaves at the first token never used before. */
    method SelectLeastUsedToken(tokens: seq<Hash>) returns (best: Hash)
      ensures best == Selected(usage, tokens)
      ensures best != 0 ==> best in tokens
      ensures best != 0 ==> forall t :: t in tokens && t != 0 ==> UsageOf(usage, best) <= UsageOf(usage, t)
      ensures best == 0 ==> forall t :: t in tokens && t != 0 ==> UsageOf(usage, t) >= USIZE_MAX
    {
      SelectedIsLeast(usage, tokens);
      best := 0;
      var bestUsed := USIZE_MAX;
      for i := 0 to |tokens|
        invariant FirstUnseen(usage, tokens[..i]) == None
        invariant (best, bestUsed) == LeastUsed(usage, tokens[..i])
      {
        var token := tokens[i];
        assert tokens[..i + 1][..i] == tokens[..i];
        if token != 0 {
          if Unseen(usage, token) {
            FirstUnseenStays(usage, tokens, i + 1);
            return token;
          }
          var count := usage[ToShortHash(token)];
          if count < bestUsed {
            bestUsed := count;
            best := token;
          }
        }
      }
      assert tokens[..|tokens|] == tokens;
    }

    method RecordUsage(token: Hash)
      modifies this
      ensures usage == Recorded(old(usage), token)
    {
      var short := ToShortHash(token);
      usage := usage[short := (if short in usage then usage[short] else 0) + 1];
    }
  }

  // ----- where filters are stored -----

  /** Entries of the multimap, read as filters. */
  type Placement = seq<(nat, NetworkFilter)>

  /** Which filter is to be found under which short token. */
  type Stored = set<(nat, NetworkFilter)>

  /** The tokens a filter is stored under. */
  function Targets(hash: string -> Hash, usages: Usages, f: NetworkFilter): seq<Hash> {
    match TokensOf(hash, f)
    case Empty => [0]
    case OptDomains(domains) => domains
    case Other(tokens) => [Selected(usages, tokens)]
  }

  function RecordedAll(usages: Usages, tokens: seq<Hash>): Usages {
    if tokens == [] then usages
    else Recorded(RecordedAll(usages, tokens[..|tokens| - 1]), tokens[|tokens| - 1])
  }

  /** The counts after a filter was stored. */
  function UsagesWith(hash: string -> Hash, usages: Usages, f: NetworkFilter): Usages {
    match TokensOf(hash, f)
    case Empty => usages
    case OptDomains(domains) => RecordedAll(usages, domains)
    case Other(tokens) => Recorded(usages, Selected(usages, tokens))
  }

  function UsagesAfter(hash: string -> Hash, filters: seq<NetworkFilter>): Usages {
    if filters == [] then StartUsages(hash)
    else
      var n := |filters| - 1;
      UsagesWith(hash, UsagesAfter(hash, filters[..n]), filters[n])
  }

  function Addressed(f: NetworkFilter, targets: seq<Hash>): Placement {
    seq(|targets|, i requires 0 <= i < |targets| => (ToShortHash(targets[i]), f))
  }

  /** The calls of `store_filter` for the last filter of a list. */
  function LastCalls(hash: string -> Hash, filters: seq<NetworkFilter>): Placement
    requires filters != []
  {
    var n := |filters| - 1;
    Addressed(filters[n], Targets(hash, UsagesAfter(hash, filters[..n]), filters[n]))
  }

  /** Every call of `store_filter` for a list, in order. */
  function Distribution(hash: string -> Hash, filters: seq<NetworkFilter>): Placement {
    if filters == [] then []
    else Distribution(hash, filters[..|filters| - 1]) + LastCalls(hash, filters)
  }

  /** The filters that share a bucket, in list order. */
  function BucketOf(hash: string -> Hash, filters: seq<NetworkFilter>, token: nat): seq<NetworkFilter> {
    Under(Distribution(hash, filters), token)
  }

  /** The filter is stored in a bucket of each domain, or of one of its tokens, or in bucket 0. */
  ghost predicate StoredFor(hash: string -> Hash, f: NetworkFilter, stored: Stored) {
    match TokensOf(hash, f)
    case Empty => (0, f) in stored
    case OptDomains(domains) => forall d :: d in domains ==> (ToShortHash(d), f) in stored
    case Other(tokens) => exists b: Hash :: (b == 0 || b in tokens) && (ToShortHash(b), f) in stored
  }

  // ----- the usage counts -----

  /** A listed word starts with the count of its list, any other token with none. */
  lemma StartCounts(hash: string -> Hash, token: Hash)
    ensures UsageOf(StartUsages(hash), token) ==
            if exists w :: w in BAD_TOKENS && ToShortHash(hash(w)) == ToShortHash(token) then USIZE_MAX / 4
            else if exists w :: w in WORST_TOKENS && ToShortHash(hash(w)) == ToShortHash(token) then USIZE_MAX / 2
            else 0
  {
    StartedCounts(hash, map[], WORST_TOKENS, WORST_TOKEN_USAGE, token);
    StartedCounts(hash, Started(hash, map[], WORST_TOKENS, WORST_TOKEN_USAGE), BAD_TOKENS, BAD_TOKEN_USAGE, token);
  }

  lemma {:induction false} StartedCounts(
    hash: string -> Hash, usages: Usages, words: seq<string>, count: nat, token: Hash)
    ensures UsageOf(Started(hash, usages, words, count), token) ==
            if exists w :: w in words && ToShortHash(hash(w)) == ToShortHash(token) then count
            else UsageOf(usages, token)
  {
    if words != [] {
      var n := |words| - 1;
      StartedCounts(hash, usages, words[..n], count, token);
      assert words == words[..n] + [words[n]];
    }
  }

  /** How many of the tokens have this short form. */
  function Occurrences(tokens: seq<Hash>, short: nat): nat {
    if tokens == [] then 0
    else Occurrences(tokens[..|tokens| - 1], short) + if ToShortHash(tokens[|tokens| - 1]) == short then 1 else 0
  }

  lemma {:induction false} RecordedCounts(usages: Usages, tokens: seq<Hash>, token: Hash)
    ensures UsageOf(RecordedAll(usages, tokens), token)
            == UsageOf(usages, token) + Occurrences(tokens, ToShortHash(token))
  {
    if tokens != [] {
      RecordedCounts(usages, tokens[..|tokens| - 1], token);
    }
  }

  lemma {:induction false} AddressedUnder(f: NetworkFilter, targets: seq<Hash>, short: nat)
    ensures |Under(Addressed(f, targets), short)| == Occurrences(targets, short)
  {
    if targets != [] {
      var n := |targets| - 1;
      AddressedUnder(f, targets[..n], short);
      assert Addressed(f, targets)[..n] == Addressed(f, targets[..n]);
    }
  }

  lemma BucketGrows(hash: string -> Hash, filters: seq<NetworkFilter>, short: nat)
    requires filters != []
    ensures var n := |filters| - 1;
            |BucketOf(hash, filters, short)| == |BucketOf(hash, filters[..n], short)|
              + Occurrences(Targets(hash, UsagesAfter(hash, filters[..n]), filters[n]), short)
  {
    var n := |filters| - 1;
    UnderConcat(Distribution(hash, filters[..n]), LastCalls(hash, filters), short);
    AddressedUnder(filters[n], Targets(hash, UsagesAfter(hash, filters[..n]), filters[n]), short);
  }

  lemma TargetsAreRecorded(hash: string -> Hash, usages: Usages, f: NetworkFilter, token: Hash)
    requires ToShortHash(token) != 0
    ensures UsageOf(UsagesWith(hash, usages, f), token)
            == UsageOf(usages, token) + Occurrences(Targets(hash, usages, f), ToShortHash(token))
  {
    match TokensOf(hash, f)
    case Empty =>
      OneOccurrence(0, ToShortHash(token));
    case OptDomains(domains) =>
      RecordedCounts(usages, domains, token);
    case Other(tokens) =>
      OneOccurrence(Selected(usages, tokens), ToShortHash(token));
  }

  lemma OneOccurrence(t: Hash, short: nat)
    ensures Occurrences([t], short) == if ToShortHash(t) == short then 1 else 0
  {
    assert [t][..0] == [];
  }

  /** The count of a token is what it started with and the size of its bucket. */
  lemma {:induction false} UsageIsBucketSize(hash: string -> Hash, filters: seq<NetworkFilter>, token: Hash)
    requires ToShortHash(token) != 0
    ensures UsageOf(UsagesAfter(hash, filters), token)
            == UsageOf(StartUsages(hash), token) + |BucketOf(hash, filters, ToShortHash(token))|
  {
    if filters != [] {
      var n := |filters| - 1;
      UsageIsBucketSize(hash, filters[..n], token);
      BucketGrows(hash, filters, ToShortHash(token));
      TargetsAreRecorded(hash, UsagesAfter(hash, filters[..n]), filters[n], token);
    }
  }

  /** Every filter is stored where its tokens say, and nothing else is. */
  ghost predicate Distributed(hash: string -> Hash, filters: seq<NetworkFilter>, stored: Stored) {
    && (forall p :: p in stored ==> p.1 in filters)
    && forall i :: 0 <= i < |filters| ==> StoredFor(hash, filters[i], stored)
  }

  lemma StoredForGrows(hash: string -> Hash, f: NetworkFilter, before: Stored, after: Stored)
    requires StoredFor(hash, f, before) && before <= after
    ensures StoredFor(hash, f, after)
  {
  }

  lemma AddressedIsStored(hash: string -> Hash, usages: Usages, f: NetworkFilter)
    ensures StoredFor(hash, f, Elements(Addressed(f, Targets(hash, usages, f))))
  {
    var targets := Targets(hash, usages, f);
    var stored := Elements(Addressed(f, targets));
    forall t | t in targets ensures (ToShortHash(t), f) in stored {
      var i :| 0 <= i < |targets| && targets[i] == t;
      assert Addressed(f, targets)[i] == (ToShortHash(t), f);
    }
    if TokensOf(hash, f).Other? {
      SelectedIsLeast(usages, TokensOf(hash, f).tokens);
    }
    assert ToShortHash(0) == 0;
  }

  lemma {:induction false} DistributionDistributes(hash: string -> Hash, filters: seq<NetworkFilter>)
    ensures Distributed(hash, filters, Elements(Distribution(hash, filters)))
  {
    if filters != [] {
      var n := |filters| - 1;
      var front, f := filters[..n], filters[n];
      var before, more := Distribution(hash, front), LastCalls(hash, filters);
      DistributionDistributes(hash, front);
      LastCallsStore(hash, filters);
      DistributedOneMore(hash, front, f, before, more);
      assert filters == front + [f] && Distribution(hash, filters) == before + more;
    }
  }

  lemma LastCallsStore(hash: string -> Hash, filters: seq<NetworkFilter>)
    requires filters != []
    ensures var f := filters[|filters| - 1];
            && StoredFor(hash, f, Elements(LastCalls(hash, filters)))
            && forall p :: p in LastCalls(hash, filters) ==> p.1 == f
  {
    var n := |filters| - 1;
    AddressedIsStored(hash, UsagesAfter(hash, filters[..n]), filters[n]);
  }

  lemma DistributedOneMore(
    hash: string -> Hash, filters: seq<NetworkFilter>, f: NetworkFilter, before: Placement, more: Placement)
    requires Distributed(hash, filters, Elements(before)) && StoredFor(hash, f, Elements(more))
    requires forall p :: p in more ==> p.1 == f
    ensures Distributed(hash, filters + [f], Elements(before + more))
  {
    var all := filters + [f];
    assert Elements(before + more) == Elements(before) + Elements(more);
    forall i | 0 <= i < |all| ensures StoredFor(hash, all[i], Elements(before + more)) {
      StoredForGrows(hash, all[i], if i < |filters| then Elements(before) else Elements(more), Elements(before + more));
    }
  }

  lemma {:induction false} UnderMember<V>(entries: seq<(nat, V)>, key: nat, v: V)
    ensures v in Under(entries, key) <==> (key, v) in entries
  {
    if entries != [] {
      var n := |entries| - 1;
      UnderMember(entries[..n], key, v);
      assert entries == entries[..n] + [entries[n]];
    }
  }
}

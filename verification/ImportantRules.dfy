/** Important rules with a tag: idle without optimization, and exactly what they change with it. */
module ImportantRules {
  import opened Prelude
  import opened Text
  import opened Network
  import opened Tokenizer
  import opened FilterTokens
  import opened RegexManagement
  import opened Matching
  import opened TokenSoundness
  import opened TokenGaps
  import opened FlatMultiMap
  import opened Optimizer
  import opened TokenChoice
  import opened FilterList
  import opened IndexedScan
  import opened Blocker

  // ----- the lists with and without one rule -----

  lemma {:induction false} ChosenConcat(
    a: seq<NetworkFilter>, b: seq<NetworkFilter>, filterId: NetworkFilter -> Hash, bad: set<Hash>, id: ListId)
    ensures Chosen(a + b, filterId, bad, id) == Chosen(a, filterId, bad, id) + Chosen(b, filterId, bad, id)
  {
    if b == [] {
      assert a + b == a;
    } else {
      var n := |b| - 1;
      ChosenConcat(a, b[..n], filterId, bad, id);
      assert (a + b)[..|a + b| - 1] == a + b[..n];
    }
  }

  lemma SameBadFilters(
    before: seq<NetworkFilter>, f: NetworkFilter, after: seq<NetworkFilter>, filterId: NetworkFilter -> Hash)
    requires BadFilter !in f.mask
    ensures BadFilterIds(before + [f] + after, filterId) == BadFilterIds(before + after, filterId)
  {
    var rules, rest := before + [f] + after, before + after;
    assert forall g :: g in rules <==> g in rest || g == f;
    forall id ensures id in BadFilterIds(rules, filterId) <==> id in BadFilterIds(rest, filterId) {
      BadFilterIdsMean(rules, filterId, id);
      BadFilterIdsMean(rest, filterId, id);
    }
  }

  /** A rule changes only the lists it goes to, and there adds at most itself. */
  lemma ListWithout(
    before: seq<NetworkFilter>, f: NetworkFilter, after: seq<NetworkFilter>, filterId: NetworkFilter -> Hash,
    id: ListId)
    requires BadFilter !in f.mask
    ensures var with, without := ListFor(before + [f] + after, filterId, id), ListFor(before + after, filterId, id);
            && (!Goes(f, id) ==> with == without)
            && (forall g :: g in without ==> g in with)
            && forall g :: g in with ==> g in without || g == f
  {
    var bad := BadFilterIds(before + after, filterId);
    SameBadFilters(before, f, after, filterId);
    ChosenConcat(before + [f], after, filterId, bad, id);
    ChosenConcat(before, [f], filterId, bad, id);
    ChosenConcat(before, after, filterId, bad, id);
    assert [f][..0] == [];
    var one := Chosen([f], filterId, bad, id);
    assert one == [] || (one == [f] && Goes(f, id));
  }

  // ----- verdicts that agree -----

  /** The same verdicts follow from both. */
  ghost predicate JudgedSame(one: Findings, other: Findings, matchedRule: bool, forceCheckExceptions: bool) {
    forall b :: Judged(b, one, matchedRule, forceCheckExceptions) <==>
                Judged(b, other, matchedRule, forceCheckExceptions)
  }

  /** Of two findings that differ at most in important rules: the verdicts agree when these do. */
  lemma JudgedAlike(one: Findings, other: Findings, matchedRule: bool, forceCheckExceptions: bool)
    requires one.(important := other.important) == other
    ensures JudgedSame(one, other, matchedRule, forceCheckExceptions) <==> one.important == other.important
  {
    var plain, h := !matchedRule && (one.tagged || one.filters), CheckResult({}, None, None);
    var b := BlockerResult(
      one.important || ((matchedRule || plain) && !one.excepted), one.important,
      if !one.important && (matchedRule || forceCheckExceptions || plain) && one.excepted then Some(h) else None,
      if one.important || plain then Some(h) else None);
    assert Judged(b, one, matchedRule, forceCheckExceptions);
  }

  /** Verdicts of the rules with and without one that only goes to the important ones. */
  lemma VerdictsDifferByImportants(
    hash: string -> Hash, lib: RegexLibrary, before: seq<NetworkFilter>, f: NetworkFilter, after: seq<NetworkFilter>,
    filterId: NetworkFilter -> Hash, optimize: bool, r: Request, tagsEnabled: set<string>, matchedRule: bool,
    forceCheckExceptions: bool)
    requires Sized(r) && ListOf(f) == Some(Importants) && BadFilter !in f.mask
    ensures SameVerdicts(hash, lib, before + [f] + after, before + after, filterId, optimize, r, tagsEnabled,
                         matchedRule, forceCheckExceptions)
            <==> (Found(hash, lib, before + [f] + after, filterId, Importants, optimize, r, {}) <==>
                  Found(hash, lib, before + after, filterId, Importants, optimize, r, {}))
  {
    var with, without := before + [f] + after, before + after;
    SameElsewhere(hash, lib, before, f, after, filterId, optimize, r, tagsEnabled);
    JudgedAlike(
      IndexFindings(hash, lib, with, filterId, optimize, r, tagsEnabled),
      IndexFindings(hash, lib, without, filterId, optimize, r, tagsEnabled), matchedRule, forceCheckExceptions);
  }

  lemma SameElsewhere(
    hash: string -> Hash, lib: RegexLibrary, before: seq<NetworkFilter>, f: NetworkFilter, after: seq<NetworkFilter>,
    filterId: NetworkFilter -> Hash, optimize: bool, r: Request, tagsEnabled: set<string>)
    requires Sized(r) && ListOf(f) == Some(Importants) && BadFilter !in f.mask
    ensures var with := IndexFindings(hash, lib, before + [f] + after, filterId, optimize, r, tagsEnabled);
            var without := IndexFindings(hash, lib, before + after, filterId, optimize, r, tagsEnabled);
            with.(important := without.important) == without
  {
    ListWithout(before, f, after, filterId, TaggedFiltersAll);
    ListWithout(before, f, after, filterId, Filters);
    ListWithout(before, f, after, filterId, Exceptions);
  }

  /** The two rule lists lead to the same verdicts on a supported request. */
  ghost predicate SameVerdicts(
    hash: string -> Hash, lib: RegexLibrary, one: seq<NetworkFilter>, other: seq<NetworkFilter>,
    filterId: NetworkFilter -> Hash, optimize: bool, r: Request, tagsEnabled: set<string>, matchedRule: bool,
    forceCheckExceptions: bool)
    requires Sized(r)
  {
    JudgedSame(
      IndexFindings(hash, lib, one, filterId, optimize, r, tagsEnabled),
      IndexFindings(hash, lib, other, filterId, optimize, r, tagsEnabled), matchedRule, forceCheckExceptions)
  }

  /** The scan for important rules never accepts one that has a tag. */
  lemma ScanIgnoresTagged(
    lib: RegexLibrary, before: seq<NetworkFilter>, f: NetworkFilter, after: seq<NetworkFilter>,
    filterId: NetworkFilter -> Hash, r: Request)
    requires Sized(r) && f.tag.Some? && BadFilter !in f.mask
    ensures ScanAccepts(lib, ListFor(before + [f] + after, filterId, Importants), r, {}) <==>
              ScanAccepts(lib, ListFor(before + after, filterId, Importants), r, {})
  {
    var with := ListFor(before + [f] + after, filterId, Importants);
    var without := ListFor(before + after, filterId, Importants);
    ListWithout(before, f, after, filterId, Importants);
    if i :| 0 <= i < |with| && FilterMatches(lib, with[i], r) && TagActive(with[i].tag, {}) {
      assert with[i] in with && with[i] != f;
      var j :| 0 <= j < |without| && without[j] == with[i];
    }
    if i :| 0 <= i < |without| && FilterMatches(lib, without[i], r) && TagActive(without[i].tag, {}) {
      assert without[i] in without;
      var j :| 0 <= j < |with| && with[j] == without[i];
    }
  }

  lemma PartReaches(
    hash: string -> Hash, lib: RegexLibrary, all: seq<NetworkFilter>, part: seq<NetworkFilter>, r: Request)
    requires Sized(r) && TokensReach(hash, lib, all, r) && forall g :: g in part ==> g in all
    ensures TokensReach(hash, lib, part, r)
  {
    forall i | 0 <= i < |part| && FilterMatches(lib, part[i], r) ensures Reached(hash, part[i], r) {
      assert part[i] in part;
      var j :| 0 <= j < |all| && all[j] == part[i];
    }
  }

  /**
   * Important rules are asked for without any tag. Without optimization an important rule that has a
   * tag changes no verdict, wherever it stands and whatever tags are enabled. With optimization it
   * changes none exactly when the index of the important rules still answers right with it: it may be
   * fused with rules of other tags, and then hand them its tag or take theirs.
   */
  lemma TaggedImportantIsIdleExactlyWhen(
    hash: string -> Hash, lib: RegexLibrary, before: seq<NetworkFilter>, f: NetworkFilter, after: seq<NetworkFilter>,
    filterId: NetworkFilter -> Hash, optimize: bool, r: Request, tagsEnabled: set<string>, matchedRule: bool,
    forceCheckExceptions: bool)
    requires Sized(r) && ListOf(f) == Some(Importants) && f.tag.Some? && BadFilter !in f.mask
    requires var with := ListFor(before + [f] + after, filterId, Importants);
             TokensReach(hash, lib, with, r) && Alternatives(with)
    requires optimize ==> BucketsOptimizable(hash, lib, ListFor(before + after, filterId, Importants), r)
    ensures SameVerdicts(hash, lib, before + [f] + after, before + after, filterId, optimize, r, tagsEnabled,
                         matchedRule, forceCheckExceptions)
            <==>
            !optimize || AnswersRight(hash, lib, ListFor(before + [f] + after, filterId, Importants), r, {})
  {
    var with := ListFor(before + [f] + after, filterId, Importants);
    var without := ListFor(before + after, filterId, Importants);
    VerdictsDifferByImportants(
      hash, lib, before, f, after, filterId, optimize, r, tagsEnabled, matchedRule, forceCheckExceptions);
    ScanIgnoresTagged(lib, before, f, after, filterId, r);
    ListWithout(before, f, after, filterId, Importants);
    PartReaches(hash, lib, with, without, r);
    IndexFindsAsScan(hash, lib, without, optimize, r, {});
    if optimize {
      IndexIsScanExactlyWhen(hash, lib, with, r, {});
    } else {
      IndexFindsAsScan(hash, lib, with, false, r, {});
    }
  }

  /** In particular with optimization, if no other important rule that may be fused has the rule's mask. */
  lemma TaggedImportantIsIdle(
    hash: string -> Hash, lib: RegexLibrary, before: seq<NetworkFilter>, f: NetworkFilter, after: seq<NetworkFilter>,
    filterId: NetworkFilter -> Hash, optimize: bool, r: Request, tagsEnabled: set<string>, matchedRule: bool,
    forceCheckExceptions: bool)
    requires Sized(r) && ListOf(f) == Some(Importants) && f.tag.Some? && BadFilter !in f.mask
    requires TokensReach(hash, lib, ListFor(before + [f] + after, filterId, Importants), r)
    requires optimize ==>
               && Optimizable(lib, ListFor(before + after, filterId, Importants))
               && (IsOptimizableByPatterns(f) ==> Fusable(lib, f) && SoleOfMask(before + after, filterId, f.mask))
    ensures SameVerdicts(hash, lib, before + [f] + after, before + after, filterId, optimize, r, tagsEnabled,
                         matchedRule, forceCheckExceptions)
  {
    var with := ListFor(before + [f] + after, filterId, Importants);
    var without := ListFor(before + after, filterId, Importants);
    VerdictsDifferByImportants(
      hash, lib, before, f, after, filterId, optimize, r, tagsEnabled, matchedRule, forceCheckExceptions);
    ScanIgnoresTagged(lib, before, f, after, filterId, r);
    ListWithout(before, f, after, filterId, Importants);
    PartReaches(hash, lib, with, without, r);
    if optimize {
      SoleIsOptimizable(lib, without, with, f);
      OptimizableBuckets(hash, lib, with, r);
      OptimizableBuckets(hash, lib, without, r);
    }
    IndexFindsAsScan(hash, lib, without, optimize, r, {});
    IndexFindsAsScan(hash, lib, with, optimize, r, {});
  }

  /** No important rule that may be fused has this mask. */
  ghost predicate SoleOfMask(rules: seq<NetworkFilter>, filterId: NetworkFilter -> Hash, mask: Mask) {
    forall g :: g in ListFor(rules, filterId, Importants) && IsOptimizableByPatterns(g) ==> g.mask != mask
  }

  lemma SoleIsOptimizable(
    lib: RegexLibrary, without: seq<NetworkFilter>, with: seq<NetworkFilter>, f: NetworkFilter)
    requires Optimizable(lib, without) && forall g :: g in with ==> g in without || g == f
    requires IsOptimizableByPatterns(f) ==>
               Fusable(lib, f) && forall g :: g in without && IsOptimizableByPatterns(g) ==> g.mask != f.mask
    ensures Optimizable(lib, with)
  {
    forall i | 0 <= i < |with|
      ensures with[i] == f || exists a :: 0 <= a < |without| && without[a] == with[i]
    {
      assert with[i] in with;
    }
  }

  // ----- two pairs of rules that share a bucket -----

  /** `|http://a.$script,important,tag=t` and its like. */
  function ImportantRule(prefix: string, tag: Option<string>, id: Hash): NetworkFilter {
    var f := PrefixRule(prefix, tag, id);
    f.(mask := f.mask + {IsImportant})
  }

  /** "http://", one letter, and a dot. */
  predicate IsSitePrefix(p: string) {
    |p| == 9 && p[..7] == "http://" && IsTokenChar(p[7]) && p[8] == '.'
  }

  /** The one token of such a pattern is "http": the letter alone is too short. */
  lemma SitePrefixTokens(hash: string -> Hash, p: string, h: Hash)
    requires IsSitePrefix(p)
    ensures h in Tokens(hash, p, UNANCHORED) <==> h == hash("http")
  {
    assert forall k :: 0 <= k < 7 ==> p[k] == p[..7][k] == "http://"[k];
    assert p[0..4] == "http" && p[4] == ':' && p[5] == '/' && p[6] == '/';
    assert !IsTokenChar(p[4]) && !IsTokenChar(p[5]) && !IsTokenChar(p[6]) && !IsTokenChar(p[8]);
    assert IsToken(p, UNANCHORED, 0, 4);
    forall a, b | IsToken(p, UNANCHORED, a, b) ensures p[a..b] == "http" {
      var k := if a <= 4 then 4 else if a <= 6 then 6 else 8;
      assert b <= k;
    }
    TokensAreTheKeptRuns(hash, p, UNANCHORED, |p|, h);
  }

  /** The rule has tokens, and all of them are that one. */
  predicate OnlyToken(hash: string -> Hash, f: NetworkFilter, h: Hash) {
    var groups := TokensOf(hash, f);
    groups.Other? && groups.tokens != [] && forall t :: t in groups.tokens ==> t == h
  }

  lemma ImportantRuleTokens(hash: string -> Hash, p: string, tag: Option<string>, id: Hash)
    requires IsSitePrefix(p)
    ensures OnlyToken(hash, ImportantRule(p, tag, id), hash("http"))
  {
    var f := ImportantRule(p, tag, id);
    var own := Tokens(hash, p, UNANCHORED);
    assert PatternTokens(hash, f) == own;
    assert TokensUpto(hash, "", ALL_RUNS, 0) == [];
    SitePrefixTokens(hash, p, hash("http"));
    assert Add([], own) != [];
    assert OwnTokens(hash, f) == Add(Add([], own), []);
    forall t | t in OwnTokens(hash, f) ensures t == hash("http") {
      SitePrefixTokens(hash, p, t);
    }
  }

  /** If all tokens are the same, that one is selected, unless it was used beyond counting. */
  lemma {:induction false} OneTokenIsLeast(usages: Usages, tokens: seq<Hash>, h: Hash)
    requires tokens != [] && (forall t :: t in tokens ==> t == h) && h != 0 && UsageOf(usages, h) < USIZE_MAX
    ensures LeastUsed(usages, tokens) == (h, UsageOf(usages, h))
  {
    var n := |tokens| - 1;
    assert tokens[n] in tokens;
    if n > 0 {
      assert forall t :: t in tokens[..n] ==> t in tokens;
      OneTokenIsLeast(usages, tokens[..n], h);
    }
  }

  lemma OneTokenIsSelected(usages: Usages, tokens: seq<Hash>, h: Hash)
    requires tokens != [] && (forall t :: t in tokens ==> t == h) && UsageOf(usages, h) < USIZE_MAX
    ensures Selected(usages, tokens) == h
  {
    SelectedIsLeast(usages, tokens);
    FirstUnseenIs(usages, tokens);
    if h != 0 {
      OneTokenIsLeast(usages, tokens, h);
    }
  }

  lemma {:induction false} StartedAtMost(hash: string -> Hash, usages: Usages, words: seq<string>, count: nat, h: Hash)
    requires UsageOf(usages, h) <= WORST_TOKEN_USAGE && count <= WORST_TOKEN_USAGE
    ensures UsageOf(Started(hash, usages, words, count), h) <= WORST_TOKEN_USAGE
  {
    if words != [] {
      StartedAtMost(hash, usages, words[..|words| - 1], count, h);
    }
  }

  lemma OneCall(hash: string -> Hash, front: seq<NetworkFilter>, f: NetworkFilter, h: Hash)
    requires Targets(hash, UsagesAfter(hash, front), f) == [h]
    ensures Distribution(hash, front + [f]) == Distribution(hash, front) + [(ToShortHash(h), f)]
  {
    assert (front + [f])[..|front|] == front;
    OneAddress(f, h);
  }

  lemma OneAddress(f: NetworkFilter, h: Hash)
    ensures Addressed(f, [h]) == [(ToShortHash(h), f)]
  {
  }

  lemma OneTarget(hash: string -> Hash, usages: Usages, f: NetworkFilter, h: Hash)
    requires OnlyToken(hash, f, h) && UsageOf(usages, h) < USIZE_MAX
    ensures Targets(hash, usages, f) == [h] && UsagesWith(hash, usages, f) == Recorded(usages, h)
  {
    OneTokenIsSelected(usages, TokensOf(hash, f).tokens, h);
  }

  lemma StartsCountable(hash: string -> Hash, h: Hash)
    ensures UsageOf(StartUsages(hash), h) <= WORST_TOKEN_USAGE
  {
    StartedAtMost(hash, map[], WORST_TOKENS, WORST_TOKEN_USAGE, h);
    StartedAtMost(hash, Started(hash, map[], WORST_TOKENS, WORST_TOKEN_USAGE), BAD_TOKENS, BAD_TOKEN_USAGE, h);
  }

  lemma FirstCall(hash: string -> Hash, a: NetworkFilter, h: Hash)
    requires OnlyToken(hash, a, h)
    ensures Distribution(hash, [a]) == [(ToShortHash(h), a)]
    ensures UsagesAfter(hash, [a]) == Recorded(StartUsages(hash), h)
  {
    StartsCountable(hash, h);
    OneTarget(hash, StartUsages(hash), a, h);
    OneCall(hash, [], a, h);
    assert [] + [a] == [a] && [a][..0] == [];
  }

  lemma SecondCall(hash: string -> Hash, a: NetworkFilter, b: NetworkFilter, h: Hash)
    requires OnlyToken(hash, a, h) && OnlyToken(hash, b, h)
    ensures Distribution(hash, [a, b]) == [(ToShortHash(h), a)] + [(ToShortHash(h), b)]
  {
    FirstCall(hash, a, h);
    StartsCountable(hash, h);
    OneTarget(hash, Recorded(StartUsages(hash), h), b, h);
    OneCall(hash, [a], b, h);
    assert [a] + [b] == [a, b];
  }

  /** Rules with one and the same token share the one bucket that is not empty. */
  ghost predicate OneBucket(hash: string -> Hash, filters: seq<NetworkFilter>, h: Hash) {
    forall t :: Visited(hash, filters, t) == if ToShortHash(t) == ToShortHash(h) then filters else []
  }

  lemma SingleHasBucket(hash: string -> Hash, a: NetworkFilter, h: Hash)
    requires OnlyToken(hash, a, h)
    ensures OneBucket(hash, [a], h)
  {
    FirstCall(hash, a, h);
    forall t: Hash ensures Visited(hash, [a], t) == if ToShortHash(t) == ToShortHash(h) then [a] else [] {
      UnderLast([], (ToShortHash(h), a), ToShortHash(t));
    }
  }

  lemma PairSharesBucket(hash: string -> Hash, a: NetworkFilter, b: NetworkFilter, h: Hash)
    requires OnlyToken(hash, a, h) && OnlyToken(hash, b, h)
    ensures OneBucket(hash, [a, b], h)
  {
    var s := ToShortHash(h);
    SecondCall(hash, a, b, h);
    forall t: Hash ensures Visited(hash, [a, b], t) == if ToShortHash(t) == s then [a, b] else [] {
      UnderLast([], (s, a), ToShortHash(t));
      UnderLast([(s, a)], (s, b), ToShortHash(t));
    }
  }

  // ----- what the index makes of such rules -----

  lemma FoundInOneBucket(
    hash: string -> Hash, lib: RegexLibrary, filters: seq<NetworkFilter>, h: Hash, r: Request, tags: set<string>)
    requires Sized(r) && OneBucket(hash, filters, h) && h in TokensForMatch(r)
    ensures IndexFinds(hash, lib, filters, true, r, tags) <==>
              exists mask :: Answers(lib, filters, true, r, tags, mask)
  {
    if mask :| IndexAccepts(hash, lib, filters, true, r, tags, mask) {
      var t :| t in TokensForMatch(r) && Answers(lib, Visited(hash, filters, t), true, r, tags, mask);
      NothingAnswers(lib, r, tags, mask);
    }
    if mask :| Answers(lib, filters, true, r, tags, mask) {
      assert Answers(lib, Visited(hash, filters, h), true, r, tags, mask);
      assert IndexAccepts(hash, lib, filters, true, r, tags, mask);
    }
  }

  lemma NothingAnswers(lib: RegexLibrary, r: Request, tags: set<string>, mask: Mask)
    requires Sized(r)
    ensures !Answers(lib, [], true, r, tags, mask)
  {
  }

  lemma SingleAnswers(lib: RegexLibrary, a: NetworkFilter, r: Request, tags: set<string>, mask: Mask)
    requires Sized(r)
    ensures Answers(lib, [a], true, r, tags, mask) <==>
              mask == a.mask && FilterMatches(lib, a, r) && TagActive(a.tag, tags)
  {
    assert [a][..0] == [] && |GroupOf([a], mask)| <= 1;
    forall f ensures LeftAlone([a], f) <==> f == a {
      assert f in [a] <==> f == a;
      assert IsOptimizableByPatterns(a) ==> GroupOf([a], a.mask) == [a];
    }
  }

  /** A single rule is found exactly when it matches and has an active tag, optimized or not. */
  lemma SingleIsFound(hash: string -> Hash, lib: RegexLibrary, a: NetworkFilter, h: Hash, r: Request, tags: set<string>)
    requires Sized(r) && OnlyToken(hash, a, h) && h in TokensForMatch(r)
    ensures IndexFinds(hash, lib, [a], true, r, tags) <==> FilterMatches(lib, a, r) && TagActive(a.tag, tags)
  {
    SingleHasBucket(hash, a, h);
    FoundInOneBucket(hash, lib, [a], h, r, tags);
    SingleAnswers(lib, a, r, tags, a.mask);
    if mask :| Answers(lib, [a], true, r, tags, mask) {
      SingleAnswers(lib, a, r, tags, mask);
    }
  }

  /** Of a pair in one bucket, fused, the second rule is found exactly when the tag of the first is active. */
  lemma PairIsFoundByFirstTag(
    hash: string -> Hash, lib: RegexLibrary, a: NetworkFilter, b: NetworkFilter, h: Hash, r: Request,
    tags: set<string>)
    requires Sized(r) && OnlyToken(hash, a, h) && OnlyToken(hash, b, h) && h in TokensForMatch(r)
    requires IsOptimizableByPatterns(a) && IsOptimizableByPatterns(b) && a.mask == b.mask && !UsesRegex(a.mask)
    requires a.part.Simple? && b.part.Simple? && !FilterMatches(lib, a, r) && FilterMatches(lib, b, r)
    ensures IndexFinds(hash, lib, [a, b], true, r, tags) <==> TagActive(a.tag, tags)
  {
    PairSharesBucket(hash, a, b, h);
    FoundInOneBucket(hash, lib, [a, b], h, r, tags);
    PairAnswers(lib, a, b, r, tags, a.mask);
    if mask :| Answers(lib, [a, b], true, r, tags, mask) {
      PairAnswers(lib, a, b, r, tags, mask);
    }
  }

  lemma PairAnswers(
    lib: RegexLibrary, a: NetworkFilter, b: NetworkFilter, r: Request, tags: set<string>, mask: Mask)
    requires Sized(r)
    requires IsOptimizableByPatterns(a) && IsOptimizableByPatterns(b) && a.mask == b.mask && !UsesRegex(a.mask)
    requires a.part.Simple? && b.part.Simple? && !FilterMatches(lib, a, r) && FilterMatches(lib, b, r)
    ensures Answers(lib, [a, b], true, r, tags, mask) <==> mask == a.mask && TagActive(a.tag, tags)
  {
    var pair := [a, b];
    assert pair[0] == a && pair[1] == b;
    PairIsAGroup(a, b);
    if mask == a.mask {
      FusionMeans(lib, pair, r);
    } else if GroupOf(pair, mask) != [] {
      GroupOfMeans(pair, mask, GroupOf(pair, mask)[0]);
    }
  }

  // ----- the request -----

  function SiteBWith(hash: string -> Hash): Request {
    SiteB.(tokens := UrlTokens(hash, "http://b.com/"))
  }

  lemma HttpIsVisited(hash: string -> Hash)
    ensures hash("http") in TokensForMatch(SiteBWith(hash))
  {
    var url := "http://b.com/";
    FewTokens(hash, url, ALL_RUNS, |url|);
    assert "http" + ":" == url[0..5];
    SchemeIsToken(hash, "http", url);
    assert hash("http") in UrlTokens(hash, url);
  }

  lemma ImportantRuleMatches(lib: RegexLibrary, hash: string -> Hash, prefix: string, tag: Option<string>, id: Hash)
    ensures Sized(SiteBWith(hash))
    ensures FilterMatches(lib, ImportantRule(prefix, tag, id), SiteBWith(hash)) <==> StartsWith("http://b.com/", prefix)
  {
    var f, r := ImportantRule(prefix, tag, id), SiteBWith(hash);
    assert Patterns(f.part) == [prefix] && [prefix][0] == prefix;
    UnanchoredMatch(lib, f, r);
    assert CheckOptions(f.mask, r);
    assert PlainPatternMatches(f.mask, "", prefix, r) <==> StartsWith(r.url, prefix);
  }

  lemma SitesAreApart(lib: RegexLibrary, hash: string -> Hash, tagA: Option<string>, tagB: Option<string>)
    ensures Sized(SiteBWith(hash))
    ensures !FilterMatches(lib, ImportantRule("http://a.", tagA, 1), SiteBWith(hash))
    ensures FilterMatches(lib, ImportantRule("http://b.", tagB, 2), SiteBWith(hash))
  {
    ImportantRuleMatches(lib, hash, "http://a.", tagA, 1);
    ImportantRuleMatches(lib, hash, "http://b.", tagB, 2);
    PrefixesAreApart();
  }

  lemma PrefixesAreApart()
    ensures !StartsWith("http://b.com/", "http://a.") && StartsWith("http://b.com/", "http://b.")
    ensures IsSitePrefix("http://a.") && IsSitePrefix("http://b.")
  {
    assert "http://b.com/"[0..9][7] == 'b';
  }

  lemma SitesHaveOneToken(hash: string -> Hash, tagA: Option<string>, tagB: Option<string>)
    ensures OnlyToken(hash, ImportantRule("http://a.", tagA, 1), hash("http"))
    ensures OnlyToken(hash, ImportantRule("http://b.", tagB, 2), hash("http"))
    ensures hash("http") in TokensForMatch(SiteBWith(hash))
  {
    PrefixesAreApart();
    ImportantRuleTokens(hash, "http://a.", tagA, 1);
    ImportantRuleTokens(hash, "http://b.", tagB, 2);
    HttpIsVisited(hash);
  }

  // ----- the two pairs as rule lists -----

  lemma SingleList(a: NetworkFilter, filterId: NetworkFilter -> Hash)
    requires ListOf(a) == Some(Importants) && BadFilter !in a.mask
    ensures BadFilterIds([a], filterId) == {} && ListFor([a], filterId, Importants) == [a]
  {
    assert [a][..0] == [];
    assert BadFilterIds([a], filterId) == {};
    assert Chosen([a], filterId, {}, Importants) == [a];
  }

  lemma PairList(a: NetworkFilter, b: NetworkFilter, filterId: NetworkFilter -> Hash)
    requires ListOf(a) == ListOf(b) == Some(Importants) && BadFilter !in a.mask && BadFilter !in b.mask
    ensures ListFor([a, b], filterId, Importants) == [a, b]
  {
    SingleList(a, filterId);
    assert [a, b][..1] == [a];
    assert BadFilterIds([a, b], filterId) == {};
  }

  /** Two important rules in one bucket with one mask, the second of which matches. */
  lemma PairIsJudged(
    hash: string -> Hash, lib: RegexLibrary, filterId: NetworkFilter -> Hash, a: NetworkFilter, b: NetworkFilter,
    h: Hash, r: Request)
    requires ListOf(a) == ListOf(b) == Some(Importants) && BadFilter !in a.mask && BadFilter !in b.mask
    requires Sized(r) && OnlyToken(hash, a, h) && OnlyToken(hash, b, h) && h in TokensForMatch(r)
    requires IsOptimizableByPatterns(a) && IsOptimizableByPatterns(b) && a.mask == b.mask && !UsesRegex(a.mask)
    requires a.part.Simple? && b.part.Simple? && !FilterMatches(lib, a, r) && FilterMatches(lib, b, r)
    ensures Found(hash, lib, [a, b], filterId, Importants, true, r, {}) <==> a.tag.None?
    ensures Found(hash, lib, [b], filterId, Importants, true, r, {}) <==> b.tag.None?
    ensures !Found(hash, lib, [a], filterId, Importants, true, r, {})
    ensures Matched(lib, [a, b], filterId, Importants, r, {}) <==> b.tag.None?
  {
    SingleIsJudged(hash, lib, filterId, a, h, r);
    SingleIsJudged(hash, lib, filterId, b, h, r);
    PairList(a, b, filterId);
    PairIsFoundByFirstTag(hash, lib, a, b, h, r, {});
    PairIsScanned(lib, filterId, a, b, r);
  }

  lemma SingleIsJudged(
    hash: string -> Hash, lib: RegexLibrary, filterId: NetworkFilter -> Hash, a: NetworkFilter, h: Hash, r: Request)
    requires ListOf(a) == Some(Importants) && BadFilter !in a.mask
    requires Sized(r) && OnlyToken(hash, a, h) && h in TokensForMatch(r)
    ensures Found(hash, lib, [a], filterId, Importants, true, r, {}) <==> FilterMatches(lib, a, r) && a.tag.None?
  {
    SingleList(a, filterId);
    SingleIsFound(hash, lib, a, h, r, {});
  }

  lemma PairIsScanned(
    lib: RegexLibrary, filterId: NetworkFilter -> Hash, a: NetworkFilter, b: NetworkFilter, r: Request)
    requires ListOf(a) == ListOf(b) == Some(Importants) && BadFilter !in a.mask && BadFilter !in b.mask
    requires Sized(r) && !FilterMatches(lib, a, r) && FilterMatches(lib, b, r)
    ensures Matched(lib, [a, b], filterId, Importants, r, {}) <==> b.tag.None?
  {
    PairList(a, b, filterId);
    MatchedByScan(lib, [a, b], filterId, Importants, r, {});
    var pair := [a, b];
    assert pair[0] == a && pair[1] == b;
  }

  const ImportantMask: Mask := ImportantRule("", None, 0).mask

  lemma ImportantRuleIs(prefix: string, tag: Option<string>, id: Hash)
    ensures var f := ImportantRule(prefix, tag, id);
            && ListOf(f) == Some(Importants) && BadFilter !in f.mask && IsOptimizableByPatterns(f)
            && !UsesRegex(f.mask) && f.part.Simple? && f.tag == tag && f.mask == ImportantMask
  {
  }

  lemma SitesAreJudged(
    hash: string -> Hash, lib: RegexLibrary, filterId: NetworkFilter -> Hash, tagA: Option<string>,
    tagB: Option<string>)
    ensures var a, b, r := ImportantRule("http://a.", tagA, 1), ImportantRule("http://b.", tagB, 2), SiteBWith(hash);
            && Sized(r)
            && (Found(hash, lib, [a, b], filterId, Importants, true, r, {}) <==> tagA.None?)
            && (Found(hash, lib, [b], filterId, Importants, true, r, {}) <==> tagB.None?)
            && !Found(hash, lib, [a], filterId, Importants, true, r, {})
            && (Matched(lib, [a, b], filterId, Importants, r, {}) <==> tagB.None?)
  {
    var a, b, r := ImportantRule("http://a.", tagA, 1), ImportantRule("http://b.", tagB, 2), SiteBWith(hash);
    SitesAreApart(lib, hash, tagA, tagB);
    SitesHaveOneToken(hash, tagA, tagB);
    ImportantRuleIs("http://a.", tagA, 1);
    ImportantRuleIs("http://b.", tagB, 2);
    PairIsJudged(hash, lib, filterId, a, b, hash("http"), r);
  }

  /** With the tagged rule first, optimizing takes the untagged rule down with it. */
  lemma TaggedRuleTakesAnotherDown(
    hash: string -> Hash, lib: RegexLibrary, filterId: NetworkFilter -> Hash, tag: string)
    ensures var a, b, r :=
              ImportantRule("http://a.", Some(tag), 1), ImportantRule("http://b.", None, 2), SiteBWith(hash);
            && Sized(r)
            && Matched(lib, [a, b], filterId, Importants, r, {})
            && Found(hash, lib, [b], filterId, Importants, true, r, {})
            && !Found(hash, lib, [a, b], filterId, Importants, true, r, {})
  {
    SitesAreJudged(hash, lib, filterId, Some(tag), None);
  }

  /** With the tagged rule second, optimizing makes it apply without its tag. */
  lemma TaggedRuleAppliesUntagged(
    hash: string -> Hash, lib: RegexLibrary, filterId: NetworkFilter -> Hash, tag: string)
    ensures var a, b, r :=
              ImportantRule("http://a.", None, 1), ImportantRule("http://b.", Some(tag), 2), SiteBWith(hash);
            && Sized(r)
            && !Matched(lib, [a, b], filterId, Importants, r, {})
            && !Found(hash, lib, [a], filterId, Importants, true, r, {})
            && Found(hash, lib, [a, b], filterId, Importants, true, r, {})
  {
    SitesAreJudged(hash, lib, filterId, None, Some(tag));
  }
}

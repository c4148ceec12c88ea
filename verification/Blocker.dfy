/** Sorting rules into lists, the verdict on a request, and the choice among redirects. */
module Blocker {
  import opened Prelude
  import opened Text
  import opened Network
  import opened RegexManagement
  import opened Matching
  import opened Optimizer
  import opened TokenChoice
  import opened FilterList
  import opened IndexedScan
  import opened RedirectNames

  // ----- sorting the rules -----

  datatype ListId =
    | CspList | Exceptions | Importants | Redirects | RemoveParamList | Filters | GenericHideList | TaggedFiltersAll

  /** The one list that decides what a rule does, besides redirecting. */
  function ListOf(f: NetworkFilter): Option<ListId> {
    if IsCsp in f.mask then Some(CspList)
    else if IsRemoveParam in f.mask then Some(RemoveParamList)
    else if GenericHide in f.mask then Some(GenericHideList)
    else if IsException in f.mask then Some(Exceptions)
    else if IsImportant in f.mask then Some(Importants)
    else if f.tag.Some? && IsRedirect !in f.mask then Some(TaggedFiltersAll)
    else if IsRedirect !in f.mask || AlsoBlockRedirect in f.mask then Some(Filters)
    else None
  }

  predicate Goes(f: NetworkFilter, id: ListId) {
    ListOf(f) == Some(id) || (id == Redirects && IsRedirect in f.mask)
  }

  function WithoutBadFilter(f: NetworkFilter): NetworkFilter {
    f.(mask := SetFlag(f.mask, BadFilter, false))
  }

  /** A rule is dead when it is a `badfilter` rule or one of those has the same identity otherwise. */
  ghost predicate Live(rules: seq<NetworkFilter>, filterId: NetworkFilter -> Hash, f: NetworkFilter) {
    && BadFilter !in f.mask
    && forall b :: b in rules && BadFilter in b.mask ==> filterId(WithoutBadFilter(b)) != filterId(f)
  }

  function BadFilterIds(rules: seq<NetworkFilter>, filterId: NetworkFilter -> Hash): set<Hash> {
    if rules == [] then {}
    else
      var f := rules[|rules| - 1];
      BadFilterIds(rules[..|rules| - 1], filterId)
      + (if BadFilter in f.mask then {filterId(WithoutBadFilter(f))} else {})
  }

  lemma {:induction false} BadFilterIdsMean(rules: seq<NetworkFilter>, filterId: NetworkFilter -> Hash, id: Hash)
    ensures id in BadFilterIds(rules, filterId) <==>
              exists b :: b in rules && BadFilter in b.mask && filterId(WithoutBadFilter(b)) == id
  {
    if rules != [] {
      var n := |rules| - 1;
      BadFilterIdsMean(rules[..n], filterId, id);
      assert rules == rules[..n] + [rules[n]];
    }
  }

  /** The rules that one list receives, in rule order. */
  function Chosen(
    rules: seq<NetworkFilter>, filterId: NetworkFilter -> Hash, bad: set<Hash>, id: ListId): seq<NetworkFilter>
  {
    if rules == [] then []
    else
      var f := rules[|rules| - 1];
      Chosen(rules[..|rules| - 1], filterId, bad, id)
      + (if BadFilter !in f.mask && filterId(f) !in bad && Goes(f, id) then [f] else [])
  }

  lemma {:induction false} ChosenMeans(
    rules: seq<NetworkFilter>, filterId: NetworkFilter -> Hash, bad: set<Hash>, id: ListId, f: NetworkFilter)
    ensures f in Chosen(rules, filterId, bad, id) <==>
              f in rules && BadFilter !in f.mask && filterId(f) !in bad && Goes(f, id)
  {
    if rules != [] {
      var n := |rules| - 1;
      ChosenMeans(rules[..n], filterId, bad, id, f);
      assert rules == rules[..n] + [rules[n]];
    }
  }

  function ListFor(rules: seq<NetworkFilter>, filterId: NetworkFilter -> Hash, id: ListId): seq<NetworkFilter> {
    Chosen(rules, filterId, BadFilterIds(rules, filterId), id)
  }

  /** A list holds the live rules that belong there, and no others. */
  lemma ListForMeans(rules: seq<NetworkFilter>, filterId: NetworkFilter -> Hash, id: ListId, f: NetworkFilter)
    ensures f in ListFor(rules, filterId, id) <==> f in rules && Live(rules, filterId, f) && Goes(f, id)
  {
    ChosenMeans(rules, filterId, BadFilterIds(rules, filterId), id, f);
    BadFilterIdsMean(rules, filterId, filterId(f));
  }

  type Lists = map<ListId, seq<NetworkFilter>>

  /** The eight lists of a rule list. */
  ghost predicate AreLists(lists: Lists, rules: seq<NetworkFilter>, filterId: NetworkFilter -> Hash) {
    forall id: ListId :: id in lists && lists[id] == ListFor(rules, filterId, id)
  }

  method FromRules(rules: seq<NetworkFilter>, filterId: NetworkFilter -> Hash) returns (lists: Lists)
    ensures AreLists(lists, rules, filterId)
  {
    var bad: set<Hash> := {};
    for n := 0 to |rules|
      invariant bad == BadFilterIds(rules[..n], filterId)
    {
      if BadFilter in rules[n].mask {
        bad := bad + {filterId(WithoutBadFilter(rules[n]))};
      }
      assert rules[..n + 1][..n] == rules[..n];
    }
    assert rules[..|rules|] == rules;
    lists := SortRules(rules, filterId, bad);
  }

  method SortRules(rules: seq<NetworkFilter>, filterId: NetworkFilter -> Hash, bad: set<Hash>) returns (lists: Lists)
    ensures forall id: ListId :: id in lists && lists[id] == Chosen(rules, filterId, bad, id)
  {
    lists := map[CspList := [], Exceptions := [], Importants := [], Redirects := [], RemoveParamList := [],
                 Filters := [], GenericHideList := [], TaggedFiltersAll := []];
    forall id: ListId ensures id in lists && lists[id] == [] {
      match id
      case CspList | Exceptions | Importants | Redirects =>
      case RemoveParamList | Filters | GenericHideList | TaggedFiltersAll =>
    }
    for n := 0 to |rules|
      invariant forall id: ListId :: id in lists && lists[id] == Chosen(rules[..n], filterId, bad, id)
    {
      var f := rules[n];
      assert rules[..n + 1][..n] == rules[..n];
      if filterId(f) in bad || BadFilter in f.mask {
        continue;
      }
      if IsRedirect in f.mask {
        lists := lists[Redirects := lists[Redirects] + [f]];
      }
      var list := ListOf(f);
      if list.Some? {
        lists := lists[list.value := lists[list.value] + [f]];
      }
    }
    assert rules[..|rules|] == rules;
  }

  // ----- the verdict -----

  /** Does a live rule of the list match and have its tag active? */
  ghost predicate Matched(
    lib: RegexLibrary, rules: seq<NetworkFilter>, filterId: NetworkFilter -> Hash, id: ListId, r: Request,
    tags: set<string>)
    requires Sized(r)
  {
    exists f :: f in rules && Live(rules, filterId, f) && Goes(f, id) && FilterMatches(lib, f, r)
      && TagActive(f.tag, tags)
  }

  lemma MatchedByScan(
    lib: RegexLibrary, rules: seq<NetworkFilter>, filterId: NetworkFilter -> Hash, id: ListId, r: Request,
    tags: set<string>)
    requires Sized(r)
    ensures ScanAccepts(lib, ListFor(rules, filterId, id), r, tags) <==> Matched(lib, rules, filterId, id, r, tags)
  {
    var list := ListFor(rules, filterId, id);
    forall f: NetworkFilter ensures f in list <==> f in rules && Live(rules, filterId, f) && Goes(f, id) {
      ListForMeans(rules, filterId, id, f);
    }
    if Matched(lib, rules, filterId, id, r, tags) {
      var f :| f in rules && Live(rules, filterId, f) && Goes(f, id) && FilterMatches(lib, f, r)
        && TagActive(f.tag, tags);
      assert f in list;
    }
    if ScanAccepts(lib, list, r, tags) {
      var i :| 0 <= i < |list| && FilterMatches(lib, list[i], r) && TagActive(list[i].tag, tags);
      assert list[i] in list;
    }
  }

  /** The first four fields of the answer, and the mask of the rule behind it. */
  datatype BlockerResult = BlockerResult(
    matched: bool, important: bool, exception: Option<CheckResult>, filter: Option<CheckResult>)

  /** The lists that the verdict depends on. */
  predicate Asked(id: ListId) {
    id == Importants || id == TaggedFiltersAll || id == Filters || id == Exceptions
  }

  /** What the index needs to answer as a scan does, for every list asked. */
  ghost predicate Indexed(
    hash: string -> Hash, lib: RegexLibrary, rules: seq<NetworkFilter>, filterId: NetworkFilter -> Hash,
    optimize: bool, r: Request)
    requires Sized(r)
  {
    forall id :: Asked(id) ==> ListIndexed(hash, lib, ListFor(rules, filterId, id), optimize, r)
  }

  ghost predicate ListIndexed(
    hash: string -> Hash, lib: RegexLibrary, list: seq<NetworkFilter>, optimize: bool, r: Request)
    requires Sized(r)
  {
    TokensReach(hash, lib, list, r) && (optimize ==> BucketsOptimizable(hash, lib, list, r))
  }

  /** Does the index of a list find a rule? */
  ghost predicate Found(
    hash: string -> Hash, lib: RegexLibrary, rules: seq<NetworkFilter>, filterId: NetworkFilter -> Hash, id: ListId,
    optimize: bool, r: Request, tags: set<string>)
    requires Sized(r)
  {
    IndexFinds(hash, lib, ListFor(rules, filterId, id), optimize, r, tags)
  }

  /** Asking one list. */
  method Ask(
    hash: string -> Hash, lib: RegexLibrary, rules: seq<NetworkFilter>, filterId: NetworkFilter -> Hash,
    list: seq<NetworkFilter>, id: ListId, optimize: bool, r: Request, tags: set<string>, now: nat, policy: Policy)
    returns (found: Option<CheckResult>)
    requires Sized(r) && list == ListFor(rules, filterId, id) && Asked(id)
    ensures found.Some? <==> Found(hash, lib, rules, filterId, id, optimize, r, tags)
    ensures found.Some? && id != Exceptions ==> (IsImportant in found.value.filterMask <==> id == Importants)
  {
    found := CheckRules(hash, lib, list, optimize, r, tags, now, policy);
    if found.Some? && id != Exceptions {
      ImportanceOfList(hash, lib, rules, filterId, id, optimize, r, tags, found.value.filterMask);
    }
  }

  /** Of the three lists that block, only one holds important rules. */
  lemma ImportanceOfList(
    hash: string -> Hash, lib: RegexLibrary, rules: seq<NetworkFilter>, filterId: NetworkFilter -> Hash, id: ListId,
    optimize: bool, r: Request, tags: set<string>, mask: Mask)
    requires Sized(r) && Asked(id) && id != Exceptions
    requires IndexAccepts(hash, lib, ListFor(rules, filterId, id), optimize, r, tags, mask)
    ensures IsImportant in mask <==> id == Importants
  {
    var f := AnswerHasMask(hash, lib, ListFor(rules, filterId, id), optimize, r, tags, mask);
    ListForMeans(rules, filterId, id, f);
    ImportanceByList(f, id);
  }

  lemma ImportanceByList(f: NetworkFilter, id: ListId)
    requires Goes(f, id) && Asked(id) && id != Exceptions
    ensures IsImportant in f.mask <==> id == Importants
  {
  }

  /** Whatever the index answers, some filter of the list has the mask of the answer. */
  lemma AnswerHasMask(
    hash: string -> Hash, lib: RegexLibrary, list: seq<NetworkFilter>, optimize: bool, r: Request, tags: set<string>,
    mask: Mask)
    returns (f: NetworkFilter)
    requires Sized(r) && IndexAccepts(hash, lib, list, optimize, r, tags, mask)
    ensures f in list && f.mask == mask
  {
    var t :| t in TokensForMatch(r) && Answers(lib, Visited(hash, list, t), optimize, r, tags, mask);
    var bucket := Visited(hash, list, t);
    if !optimize {
      AcceptsAs(lib, bucket, r, tags, mask);
      f :| f in bucket && f.mask == mask;
    } else if AloneAccepts(lib, bucket, r, tags, mask) {
      f :| LeftAlone(bucket, f) && f.mask == mask;
    } else {
      f := GroupOf(bucket, mask)[0];
      GroupOfMeans(bucket, mask, f);
    }
    BucketIsListed(hash, list, ToShortHash(t), f);
  }

  /** With tokens that are sound and buckets that optimizing does not change, the index finds what the scan does. */
  lemma FoundIsMatched(
    hash: string -> Hash, lib: RegexLibrary, rules: seq<NetworkFilter>, filterId: NetworkFilter -> Hash, id: ListId,
    optimize: bool, r: Request, tags: set<string>)
    requires Sized(r) && ListIndexed(hash, lib, ListFor(rules, filterId, id), optimize, r)
    ensures Found(hash, lib, rules, filterId, id, optimize, r, tags) <==>
              Matched(lib, rules, filterId, id, r, tags)
  {
    IndexFindsAsScan(hash, lib, ListFor(rules, filterId, id), optimize, r, tags);
    MatchedByScan(lib, rules, filterId, id, r, tags);
  }

  /** Which of the lists find a rule. */
  datatype Findings = Findings(important: bool, tagged: bool, filters: bool, excepted: bool)

  /** The verdict, by which lists find a rule. */
  predicate Judged(b: BlockerResult, found: Findings, matchedRule: bool, forceCheckExceptions: bool) {
    var plain := !matchedRule && (found.tagged || found.filters);
    && (b.matched <==> found.important || ((matchedRule || plain) && !found.excepted))
    && (b.important <==> found.important)
    && (b.filter.Some? <==> found.important || plain)
    && (b.exception.Some? <==>
          !found.important && (matchedRule || forceCheckExceptions || plain) && found.excepted)
  }

  ghost function ScanFindings(
    lib: RegexLibrary, rules: seq<NetworkFilter>, filterId: NetworkFilter -> Hash, r: Request,
    tagsEnabled: set<string>): Findings
    requires Sized(r)
  {
    Findings(
      Matched(lib, rules, filterId, Importants, r, {}),
      Matched(lib, rules, filterId, TaggedFiltersAll, r, tagsEnabled),
      Matched(lib, rules, filterId, Filters, r, {}),
      Matched(lib, rules, filterId, Exceptions, r, tagsEnabled))
  }

  ghost function IndexFindings(
    hash: string -> Hash, lib: RegexLibrary, rules: seq<NetworkFilter>, filterId: NetworkFilter -> Hash,
    optimize: bool, r: Request, tagsEnabled: set<string>): Findings
    requires Sized(r)
  {
    Findings(
      Found(hash, lib, rules, filterId, Importants, optimize, r, {}),
      Found(hash, lib, rules, filterId, TaggedFiltersAll, optimize, r, tagsEnabled),
      Found(hash, lib, rules, filterId, Filters, optimize, r, {}),
      Found(hash, lib, rules, filterId, Exceptions, optimize, r, tagsEnabled))
  }

  /** The verdict as a formula over the rules. */
  ghost predicate Verdict(
    b: BlockerResult, lib: RegexLibrary, rules: seq<NetworkFilter>, filterId: NetworkFilter -> Hash, r: Request,
    tagsEnabled: set<string>, matchedRule: bool, forceCheckExceptions: bool)
    requires Sized(r)
  {
    Judged(b, ScanFindings(lib, rules, filterId, r, tagsEnabled), matchedRule, forceCheckExceptions)
  }

  /** The verdict by what the indexes of the lists find, soundness of tokens and of optimizing aside. */
  ghost predicate IndexVerdict(
    b: BlockerResult, hash: string -> Hash, lib: RegexLibrary, rules: seq<NetworkFilter>,
    filterId: NetworkFilter -> Hash, optimize: bool, r: Request, tagsEnabled: set<string>, matchedRule: bool,
    forceCheckExceptions: bool)
    requires Sized(r)
  {
    var found := IndexFindings(hash, lib, rules, filterId, optimize, r, tagsEnabled);
    Judged(b, found, matchedRule, forceCheckExceptions)
  }

  lemma VerdictByIndex(
    b: BlockerResult, hash: string -> Hash, lib: RegexLibrary, rules: seq<NetworkFilter>,
    filterId: NetworkFilter -> Hash, optimize: bool, r: Request, tagsEnabled: set<string>, matchedRule: bool,
    forceCheckExceptions: bool)
    requires Sized(r) && Indexed(hash, lib, rules, filterId, optimize, r)
    ensures IndexVerdict(b, hash, lib, rules, filterId, optimize, r, tagsEnabled, matchedRule, forceCheckExceptions)
            <==> Verdict(b, lib, rules, filterId, r, tagsEnabled, matchedRule, forceCheckExceptions)
  {
    FoundIsMatched(hash, lib, rules, filterId, Importants, optimize, r, {});
    FoundIsMatched(hash, lib, rules, filterId, TaggedFiltersAll, optimize, r, tagsEnabled);
    FoundIsMatched(hash, lib, rules, filterId, Filters, optimize, r, {});
    FoundIsMatched(hash, lib, rules, filterId, Exceptions, optimize, r, tagsEnabled);
  }

  /** The lists are asked in turn, and each only when the earlier answers leave it open. */
  method CheckParameterised(
    hash: string -> Hash, lib: RegexLibrary, rules: seq<NetworkFilter>, filterId: NetworkFilter -> Hash, optimize: bool,
    r: Request, tagsEnabled: set<string>, matchedRule: bool, forceCheckExceptions: bool, now: nat, policy: Policy)
    returns (b: BlockerResult)
    requires Sized(r)
    ensures !r.isSupported ==> b == BlockerResult(false, false, None, None)
    ensures r.isSupported ==>
              IndexVerdict(b, hash, lib, rules, filterId, optimize, r, tagsEnabled, matchedRule, forceCheckExceptions)
    ensures r.isSupported && Indexed(hash, lib, rules, filterId, optimize, r) ==>
              Verdict(b, lib, rules, filterId, r, tagsEnabled, matchedRule, forceCheckExceptions)
  {
    if !r.isSupported {
      return BlockerResult(false, false, None, None);
    }
    var lists := FromRules(rules, filterId);
    var filter := Ask(hash, lib, rules, filterId, lists[Importants], Importants, optimize, r, {}, now, policy);
    var isImportant := filter.Some?;
    if filter.None? && !matchedRule {
      filter := Ask(
        hash, lib, rules, filterId, lists[TaggedFiltersAll], TaggedFiltersAll, optimize, r, tagsEnabled, now, policy);
      if filter.None? {
        filter := Ask(hash, lib, rules, filterId, lists[Filters], Filters, optimize, r, {}, now, policy);
      }
    }
    var important := filter.Some? && IsImportant in filter.value.filterMask;
    assert important == isImportant;
    var exception := None;
    if (filter.None? && (matchedRule || forceCheckExceptions)) || (filter.Some? && !important) {
      exception := Ask(
        hash, lib, rules, filterId, lists[Exceptions], Exceptions, optimize, r, tagsEnabled, now, policy);
    }
    b := BlockerResult(exception.None? && (filter.Some? || matchedRule), important, exception, filter);
    if Indexed(hash, lib, rules, filterId, optimize, r) {
      VerdictByIndex(b, hash, lib, rules, filterId, optimize, r, tagsEnabled, matchedRule, forceCheckExceptions);
    }
  }

  // ----- redirects -----

  predicate IsExcepted(results: seq<CheckResult>, redirect: string) {
    exists i :: 0 <= i < |results| && IsException in results[i].filterMask
      && results[i].modifierOption == Some(redirect)
  }

  /** A blocking rule with a redirect that no exception names. */
  predicate IsCandidate(results: seq<CheckResult>, i: nat)
    requires i < |results|
  {
    && IsException !in results[i].filterMask && results[i].modifierOption.Some?
    && !IsExcepted(results, results[i].modifierOption.value)
  }

  function Priority(results: seq<CheckResult>, i: nat): int
    requires i < |results| && IsCandidate(results, i)
  {
    ParseRedirect(results[i].modifierOption.value).1
  }

  /** The candidate of highest priority, the first of them among equals. */
  predicate Wins(results: seq<CheckResult>, i: nat, upTo: nat)
    requires upTo <= |results|
  {
    && i < upTo && IsCandidate(results, i)
    && forall j :: 0 <= j < upTo && IsCandidate(results, j) ==>
         Priority(results, j) < Priority(results, i) || (i <= j && Priority(results, j) == Priority(results, i))
  }

  /** The priorities of the candidates, in order. */
  function Offers(results: seq<CheckResult>): seq<Option<int>> {
    seq(|results|, i requires 0 <= i < |results| =>
      if IsCandidate(results, i) then Some(Priority(results, i)) else None)
  }

  /** The first of the highest offers, if there is any. */
  ghost predicate IsBest(offers: seq<Option<int>>, upTo: nat, winner: Option<nat>)
    requires upTo <= |offers|
  {
    if winner.None? then forall j :: 0 <= j < upTo ==> offers[j].None?
    else
      var w := winner.value;
      && w < upTo && offers[w].Some?
      && forall j :: 0 <= j < upTo && offers[j].Some? ==>
           offers[j].value < offers[w].value || (w <= j && offers[j].value == offers[w].value)
  }

  /** The better of the best so far and the next offer. */
  ghost function Better(offers: seq<Option<int>>, i: nat, winner: Option<nat>): Option<nat>
    requires i < |offers| && IsBest(offers, i, winner)
  {
    if offers[i].None? || (winner.Some? && offers[i].value <= offers[winner.value].value) then winner else Some(i)
  }

  lemma BetterIsBest(offers: seq<Option<int>>, i: nat, winner: Option<nat>)
    requires i < |offers| && IsBest(offers, i, winner)
    ensures IsBest(offers, i + 1, Better(offers, i, winner))
  {
  }

  lemma BestWins(results: seq<CheckResult>, winner: Option<nat>)
    requires IsBest(Offers(results), |results|, winner)
    ensures winner.None? ==> forall i :: 0 <= i < |results| ==> !IsCandidate(results, i)
    ensures winner.Some? ==> Wins(results, winner.value, |results|)
  {
    var offers := Offers(results);
    forall j | 0 <= j < |results| && IsCandidate(results, j)
      ensures winner.Some? && IsCandidate(results, winner.value)
      ensures Priority(results, j) < Priority(results, winner.value)
              || (winner.value <= j && Priority(results, j) == Priority(results, winner.value))
    {
      assert offers[j].Some?;
    }
  }

  lemma OfferIs(results: seq<CheckResult>, i: nat, exceptions: set<string>)
    requires i < |results| && forall x :: x in exceptions <==> IsExcepted(results, x)
    ensures var option := results[i].modifierOption;
            Offers(results)[i] ==
            if IsException !in results[i].filterMask && option.Some? && option.value !in exceptions
            then Some(ParseRedirect(option.value).1) else None
  {
  }

  method ChooseRedirect(results: seq<CheckResult>) returns (resource: Option<string>, ghost winner: nat)
    ensures resource.None? <==> forall i :: 0 <= i < |results| ==> !IsCandidate(results, i)
    ensures resource.Some? ==>
              && Wins(results, winner, |results|)
              && resource.value == ParseRedirect(results[winner].modifierOption.value).0
  {
    var exceptions: set<string> := {};
    for i := 0 to |results|
      invariant forall x :: x in exceptions <==> IsExcepted(results[..i], x)
    {
      ghost var before := exceptions;
      if IsException in results[i].filterMask && results[i].modifierOption.Some? {
        exceptions := exceptions + {results[i].modifierOption.value};
      }
      ExceptedOneMore(results, i);
    }
    assert results[..|results|] == results;
    var best: Option<(string, int)> := None;
    ghost var offers, first: Option<nat> := Offers(results), None;
    for i := 0 to |results|
      invariant IsBest(offers, i, first)
      invariant best == if first.None? then None else Some(ParseRedirect(results[first.value].modifierOption.value))
      invariant best.Some? ==> offers[first.value] == Some(best.value.1)
    {
      OfferIs(results, i, exceptions);
      BetterIsBest(offers, i, first);
      first := Better(offers, i, first);
      if IsException !in results[i].filterMask && results[i].modifierOption.Some? {
        var redirect := results[i].modifierOption.value;
        if redirect !in exceptions {
          var parsed := ParseRedirect(redirect);
          if best.None? || parsed.1 > best.value.1 {
            best := Some(parsed);
          }
        }
      }
    }
    BestWins(results, first);
    winner := if first.Some? then first.value else 0;
    resource := if best.Some? then Some(best.value.0) else None;
  }

  lemma ExceptedOneMore(results: seq<CheckResult>, n: nat)
    requires n < |results|
    ensures forall x :: IsExcepted(results[..n + 1], x) <==>
              || IsExcepted(results[..n], x)
              || (IsException in results[n].filterMask && results[n].modifierOption == Some(x))
  {
    var longer := results[..n + 1];
    assert longer[n] == results[n] && forall i :: 0 <= i < n ==> longer[i] == results[..n][i];
  }

  // ----- the redirect, in terms of the rules -----

  ghost predicate RedirectMatches(lib: RegexLibrary, list: seq<NetworkFilter>, r: Request, f: NetworkFilter)
    requires Sized(r)
  {
    f in list && FilterMatches(lib, f, r) && TagActive(f.tag, {})
  }

  ghost predicate ExceptedByRule(lib: RegexLibrary, list: seq<NetworkFilter>, r: Request, redirect: string)
    requires Sized(r)
  {
    exists g :: RedirectMatches(lib, list, r, g) && IsException in g.mask && g.modifierOption == Some(redirect)
  }

  /** A matching redirect rule that no matching exception names. */
  ghost predicate CandidateRule(lib: RegexLibrary, list: seq<NetworkFilter>, r: Request, f: NetworkFilter)
    requires Sized(r)
  {
    && RedirectMatches(lib, list, r, f) && IsException !in f.mask && f.modifierOption.Some?
    && !ExceptedByRule(lib, list, r, f.modifierOption.value)
  }

  /** The results of the rules that match, in any order and any number of times. */
  ghost predicate AreResults(lib: RegexLibrary, list: seq<NetworkFilter>, r: Request, results: seq<CheckResult>)
    requires Sized(r)
  {
    forall h :: h in results <==> exists f :: RedirectMatches(lib, list, r, f) && h == ResultOf(f)
  }

  lemma ExceptedAgrees(
    lib: RegexLibrary, list: seq<NetworkFilter>, r: Request, results: seq<CheckResult>, redirect: string)
    requires Sized(r) && AreResults(lib, list, r, results)
    ensures IsExcepted(results, redirect) <==> ExceptedByRule(lib, list, r, redirect)
  {
    if i :| 0 <= i < |results| && IsException in results[i].filterMask && results[i].modifierOption == Some(redirect) {
      assert results[i] in results;
      var f :| RedirectMatches(lib, list, r, f) && results[i] == ResultOf(f);
    }
    if g :| RedirectMatches(lib, list, r, g) && IsException in g.mask && g.modifierOption == Some(redirect) {
      assert ResultOf(g) in results;
      var i :| 0 <= i < |results| && results[i] == ResultOf(g);
    }
  }

  lemma CandidateAgrees(lib: RegexLibrary, list: seq<NetworkFilter>, r: Request, results: seq<CheckResult>, i: nat)
    returns (f: NetworkFilter)
    requires Sized(r) && AreResults(lib, list, r, results) && i < |results| && IsCandidate(results, i)
    ensures CandidateRule(lib, list, r, f) && f.modifierOption == results[i].modifierOption
  {
    assert results[i] in results;
    f :| RedirectMatches(lib, list, r, f) && results[i] == ResultOf(f);
    ExceptedAgrees(lib, list, r, results, f.modifierOption.value);
  }

  lemma CandidateIsFound(
    lib: RegexLibrary, list: seq<NetworkFilter>, r: Request, results: seq<CheckResult>, f: NetworkFilter)
    returns (i: nat)
    requires Sized(r) && AreResults(lib, list, r, results) && CandidateRule(lib, list, r, f)
    ensures i < |results| && IsCandidate(results, i) && f.modifierOption == results[i].modifierOption
  {
    assert ResultOf(f) in results;
    i :| i < |results| && results[i] == ResultOf(f);
    ExceptedAgrees(lib, list, r, results, f.modifierOption.value);
  }

  function PriorityOf(f: NetworkFilter): int
    requires f.modifierOption.Some?
  {
    ParseRedirect(f.modifierOption.value).1
  }

  /**
   * The redirect of a request: none exactly when no rule asks for one, and otherwise the resource of
   * a rule of the highest priority.
   */
  method RedirectFor(
    hash: string -> Hash, lib: RegexLibrary, list: seq<NetworkFilter>, r: Request, now: nat, policy: Policy)
    returns (resource: Option<string>)
    requires Sized(r) && TokensReach(hash, lib, list, r)
    ensures resource.None? <==> forall f :: !CandidateRule(lib, list, r, f)
    ensures resource.Some? ==>
              exists f :: CandidateRule(lib, list, r, f) && ParseRedirect(f.modifierOption.value).0 == resource.value
                && forall g :: CandidateRule(lib, list, r, g) ==> PriorityOf(g) <= PriorityOf(f)
  {
    var results := CheckAllRules(hash, lib, list, r, {}, now, policy);
    ghost var winner;
    resource, winner := ChooseRedirect(results);
    forall g | CandidateRule(lib, list, r, g)
      ensures exists i :: 0 <= i < |results| && IsCandidate(results, i) && Priority(results, i) == PriorityOf(g)
    {
      var i := CandidateIsFound(lib, list, r, results, g);
    }
    if resource.Some? {
      var f := CandidateAgrees(lib, list, r, results, winner);
    }
  }
}

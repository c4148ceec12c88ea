/** Which list a rule goes to and what the verdict is, told by the flags and tags of the rules. */
module VerdictMeaning {
  import opened Prelude
  import opened Network
  import opened Positions
  import opened RegexManagement
  import opened Matching
  import opened Blocker

  // ----- what a rule is for -----

  /** Rules for a page's policy, its URL or its generic hiding, which never block. */
  predicate IsSpecial(f: NetworkFilter) {
    IsCsp in f.mask || IsRemoveParam in f.mask || GenericHide in f.mask
  }

  predicate Excepts(f: NetworkFilter) {
    !IsSpecial(f) && IsException in f.mask
  }

  predicate Blocks(f: NetworkFilter) {
    !IsSpecial(f) && IsException !in f.mask
  }

  /** Blocks whatever the exceptions say. */
  predicate BlocksAnyway(f: NetworkFilter) {
    Blocks(f) && IsImportant in f.mask
  }

  /** Blocks while its tag is enabled. */
  predicate BlocksUnderTag(f: NetworkFilter) {
    Blocks(f) && IsImportant !in f.mask && IsRedirect !in f.mask && f.tag.Some?
  }

  /** Blocks without a tag, or besides redirecting. */
  predicate BlocksPlainly(f: NetworkFilter) {
    Blocks(f) && IsImportant !in f.mask && if IsRedirect in f.mask then AlsoBlockRedirect in f.mask else f.tag.None?
  }

  predicate OnlyRedirects(f: NetworkFilter) {
    Blocks(f) && IsImportant !in f.mask && IsRedirect in f.mask && AlsoBlockRedirect !in f.mask
  }

  predicate IsFor(f: NetworkFilter, id: ListId) {
    match id
    case CspList => IsCsp in f.mask
    case RemoveParamList => IsRemoveParam in f.mask && IsCsp !in f.mask
    case GenericHideList => GenericHide in f.mask && IsCsp !in f.mask && IsRemoveParam !in f.mask
    case Exceptions => Excepts(f)
    case Importants => BlocksAnyway(f)
    case TaggedFiltersAll => BlocksUnderTag(f)
    case Filters => BlocksPlainly(f)
    case Redirects => IsRedirect in f.mask
  }

  lemma GoesByFlags(f: NetworkFilter, id: ListId)
    ensures Goes(f, id) <==> IsFor(f, id)
  {
  }

  /** The rules of a list, in rule order. */
  lemma ListInOrder(rules: seq<NetworkFilter>, filterId: NetworkFilter -> Hash, id: ListId)
    ensures ListFor(rules, filterId, id)
            == Filtered(rules, f => Blocker.Live(rules, filterId, f) && IsFor(f, id))
  {
    var bad := BadFilterIds(rules, filterId);
    forall f: NetworkFilter ensures BadFilter !in f.mask && filterId(f) !in bad && Goes(f, id)
                     <==> Blocker.Live(rules, filterId, f) && IsFor(f, id)
    {
      BadFilterIdsMean(rules, filterId, filterId(f));
      GoesByFlags(f, id);
    }
    ChosenInOrder(rules, rules, filterId, bad, id);
  }

  lemma {:induction false} ChosenInOrder(
    some: seq<NetworkFilter>, rules: seq<NetworkFilter>, filterId: NetworkFilter -> Hash, bad: set<Hash>, id: ListId)
    requires forall f: NetworkFilter :: BadFilter !in f.mask && filterId(f) !in bad && Goes(f, id)
                         <==> Blocker.Live(rules, filterId, f) && IsFor(f, id)
    ensures Chosen(some, filterId, bad, id)
            == Filtered(some, f => Blocker.Live(rules, filterId, f) && IsFor(f, id))
  {
    if some != [] {
      ChosenInOrder(some[..|some| - 1], rules, filterId, bad, id);
    }
  }

  /** Which live rules a list holds. */
  lemma ListHolds(rules: seq<NetworkFilter>, filterId: NetworkFilter -> Hash, id: ListId, f: NetworkFilter)
    ensures f in ListFor(rules, filterId, id) <==> f in rules && Blocker.Live(rules, filterId, f) && IsFor(f, id)
  {
    ListForMeans(rules, filterId, id, f);
    GoesByFlags(f, id);
  }

  ghost predicate BesidesRedirects(
    rules: seq<NetworkFilter>, filterId: NetworkFilter -> Hash, f: NetworkFilter, id: ListId)
  {
    id != Redirects && f in ListFor(rules, filterId, id)
  }

  /** Besides the redirects a live rule is in exactly one list, or in none if it only redirects. */
  lemma OneList(rules: seq<NetworkFilter>, filterId: NetworkFilter -> Hash, f: NetworkFilter)
    requires f in rules && Blocker.Live(rules, filterId, f)
    ensures OnlyRedirects(f) <==> forall id :: !BesidesRedirects(rules, filterId, f, id)
    ensures forall id, other ::
              BesidesRedirects(rules, filterId, f, id) && BesidesRedirects(rules, filterId, f, other) ==> id == other
  {
    forall id ensures BesidesRedirects(rules, filterId, f, id) <==> id != Redirects && IsFor(f, id) {
      ListHolds(rules, filterId, id, f);
    }
    if forall id :: !BesidesRedirects(rules, filterId, f, id) {
      assert !BesidesRedirects(rules, filterId, f, CspList) && !BesidesRedirects(rules, filterId, f, RemoveParamList);
      assert !BesidesRedirects(rules, filterId, f, GenericHideList);
      assert !BesidesRedirects(rules, filterId, f, Exceptions);
      assert !BesidesRedirects(rules, filterId, f, Importants) && !BesidesRedirects(rules, filterId, f, Filters);
      assert !BesidesRedirects(rules, filterId, f, TaggedFiltersAll);
    }
  }

  /** An exception is in the list of exceptions and in none that blocks. */
  lemma ExceptionNeverBlocks(rules: seq<NetworkFilter>, filterId: NetworkFilter -> Hash, f: NetworkFilter)
    requires f in rules && Blocker.Live(rules, filterId, f) && IsException in f.mask && !IsSpecial(f)
    ensures f in ListFor(rules, filterId, Exceptions)
    ensures f !in ListFor(rules, filterId, Importants) && f !in ListFor(rules, filterId, TaggedFiltersAll)
    ensures f !in ListFor(rules, filterId, Filters)
  {
    ListHolds(rules, filterId, Exceptions, f);
    ListHolds(rules, filterId, Importants, f);
    ListHolds(rules, filterId, TaggedFiltersAll, f);
    ListHolds(rules, filterId, Filters, f);
  }

  // ----- the verdict -----

  /** A live rule that matches the request. */
  ghost predicate Hits(
    lib: RegexLibrary, rules: seq<NetworkFilter>, filterId: NetworkFilter -> Hash, r: Request, f: NetworkFilter)
    requires Sized(r)
  {
    f in rules && Blocker.Live(rules, filterId, f) && FilterMatches(lib, f, r)
  }

  /** It has no tag, or an enabled one. */
  predicate IsEnabled(f: NetworkFilter, tags: set<string>) {
    f.tag.None? || f.tag.value in tags
  }

  ghost predicate BlockedAnyway(
    lib: RegexLibrary, rules: seq<NetworkFilter>, filterId: NetworkFilter -> Hash, r: Request)
    requires Sized(r)
  {
    exists f :: Hits(lib, rules, filterId, r, f) && BlocksAnyway(f) && f.tag.None?
  }

  ghost predicate BlockedPlainly(
    lib: RegexLibrary, rules: seq<NetworkFilter>, filterId: NetworkFilter -> Hash, r: Request, tags: set<string>)
    requires Sized(r)
  {
    || (exists f :: Hits(lib, rules, filterId, r, f) && BlocksUnderTag(f) && IsEnabled(f, tags))
    || (exists f :: Hits(lib, rules, filterId, r, f) && BlocksPlainly(f) && f.tag.None?)
  }

  ghost predicate Excepted(
    lib: RegexLibrary, rules: seq<NetworkFilter>, filterId: NetworkFilter -> Hash, r: Request, tags: set<string>)
    requires Sized(r)
  {
    exists f :: Hits(lib, rules, filterId, r, f) && Excepts(f) && IsEnabled(f, tags)
  }

  ghost predicate SomeHits(
    lib: RegexLibrary, rules: seq<NetworkFilter>, filterId: NetworkFilter -> Hash, id: ListId, r: Request,
    tags: set<string>)
    requires Sized(r)
  {
    exists f :: Hits(lib, rules, filterId, r, f) && IsFor(f, id) && IsEnabled(f, tags)
  }

  lemma MatchedByFlags(
    lib: RegexLibrary, rules: seq<NetworkFilter>, filterId: NetworkFilter -> Hash, id: ListId, r: Request,
    tags: set<string>)
    requires Sized(r)
    ensures Matched(lib, rules, filterId, id, r, tags) <==> SomeHits(lib, rules, filterId, id, r, tags)
  {
    if f :| f in rules && Blocker.Live(rules, filterId, f) && Goes(f, id) && FilterMatches(lib, f, r)
            && TagActive(f.tag, tags) {
      GoesByFlags(f, id);
      assert Hits(lib, rules, filterId, r, f);
    }
    if f :| Hits(lib, rules, filterId, r, f) && IsFor(f, id) && IsEnabled(f, tags) {
      GoesByFlags(f, id);
    }
  }

  lemma FindingsByFlags(
    lib: RegexLibrary, rules: seq<NetworkFilter>, filterId: NetworkFilter -> Hash, r: Request, tags: set<string>)
    requires Sized(r)
    ensures var found := ScanFindings(lib, rules, filterId, r, tags);
            && (found.important <==> BlockedAnyway(lib, rules, filterId, r))
            && (found.tagged || found.filters <==> BlockedPlainly(lib, rules, filterId, r, tags))
            && (found.excepted <==> Excepted(lib, rules, filterId, r, tags))
  {
    MatchedByFlags(lib, rules, filterId, Importants, r, {});
    MatchedByFlags(lib, rules, filterId, Exceptions, r, tags);
    MatchedByFlags(lib, rules, filterId, TaggedFiltersAll, r, tags);
    MatchedByFlags(lib, rules, filterId, Filters, r, {});
    PlainByFlags(lib, rules, filterId, r, tags);
  }

  lemma PlainByFlags(
    lib: RegexLibrary, rules: seq<NetworkFilter>, filterId: NetworkFilter -> Hash, r: Request, tags: set<string>)
    requires Sized(r)
    ensures SomeHits(lib, rules, filterId, TaggedFiltersAll, r, tags) || SomeHits(lib, rules, filterId, Filters, r, {})
            <==> BlockedPlainly(lib, rules, filterId, r, tags)
  {
  }

  /**
   * An important rule blocks anyway. Otherwise the request is blocked when it already was, or some rule
   * blocks it, and no exception applies; exceptions are asked for only then, or when that is forced.
   */
  lemma VerdictMeans(
    b: BlockerResult, lib: RegexLibrary, rules: seq<NetworkFilter>, filterId: NetworkFilter -> Hash, r: Request,
    tags: set<string>, matchedRule: bool, forceCheckExceptions: bool)
    requires Sized(r)
    ensures Verdict(b, lib, rules, filterId, r, tags, matchedRule, forceCheckExceptions) <==>
              var anyway := BlockedAnyway(lib, rules, filterId, r);
              var blocked := !matchedRule && BlockedPlainly(lib, rules, filterId, r, tags);
              var excepted := Excepted(lib, rules, filterId, r, tags);
              && (b.important <==> anyway)
              && (b.matched <==> anyway || ((matchedRule || blocked) && !excepted))
              && (b.filter.Some? <==> anyway || blocked)
              && (b.exception.Some? <==> !anyway && excepted && (matchedRule || forceCheckExceptions || blocked))
  {
    FindingsByFlags(lib, rules, filterId, r, tags);
  }

  /** An exception that matches lets the request through, unless an important rule matches. */
  lemma ExceptionLetsThrough(
    b: BlockerResult, lib: RegexLibrary, rules: seq<NetworkFilter>, filterId: NetworkFilter -> Hash, r: Request,
    tags: set<string>, matchedRule: bool, forceCheckExceptions: bool, f: NetworkFilter)
    requires Sized(r) && Verdict(b, lib, rules, filterId, r, tags, matchedRule, forceCheckExceptions)
    requires f in rules && Blocker.Live(rules, filterId, f) && IsException in f.mask && !IsSpecial(f)
    requires FilterMatches(lib, f, r) && (f.tag.None? || f.tag.value in tags)
    requires forall g :: g in rules && IsImportant in g.mask && g.tag.None? && FilterMatches(lib, g, r) ==>
               !Blocker.Live(rules, filterId, g) || IsSpecial(g) || IsException in g.mask
    ensures !b.matched && !b.important
    ensures matchedRule || forceCheckExceptions || BlockedPlainly(lib, rules, filterId, r, tags) ==> b.exception.Some?
  {
    VerdictMeans(b, lib, rules, filterId, r, tags, matchedRule, forceCheckExceptions);
    assert Hits(lib, rules, filterId, r, f) && Excepts(f);
  }
}

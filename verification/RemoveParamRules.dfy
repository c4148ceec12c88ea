/** `removeparam` rules through the token index rewrite a URL as all matching rules would. */
module RemoveParamRules {
  import opened Prelude
  import opened Text
  import opened Network
  import opened RegexManagement
  import opened Interning
  import opened Matching
  import opened Tokenizer
  import opened FilterTokens
  import opened TokenSoundness
  import opened TokenChoice
  import opened FilterList
  import opened IndexedScan
  import opened RemoveParam
  import opened UrlParser
  import opened OriginalUrl

  // ----- a parameter whose tokens are missing is not in the query -----

  /** If a token of the lower-cased name is no token of the parsed URL, no piece of the given query has that name. */
  lemma MissingTokenMeansNoPiece(hash: string -> Hash, text: string, url: string, name: string, h: Hash)
    requires SameTail(text, url) && '*' !in Lower(url) && PartsOf(text).Some?
    requires h in Tokens(hash, Lower(name), ALL_RUNS) && h !in Tokens(hash, Lower(url), ALL_RUNS)
    ensures !AnyRemoved(Split(PartsOf(text).value.query, '&'), {name})
  {
    var pieces := Split(PartsOf(text).value.query, '&');
    if k :| 0 <= k < |pieces| && Removed(pieces[k], {name}) {
      var at := PieceInUrl(text, url, name, k);
      LowerIsLower(name);
      NamedInLower(url, name, at);
      NamedHasToken(hash, Lower(url), Lower(name), at, h);
    }
  }

  /** Where the name of a removed piece stands in the parsed URL. */
  lemma PieceInUrl(text: string, url: string, name: string, k: nat) returns (at: nat)
    requires SameTail(text, url) && PartsOf(text).Some?
    requires k < |Split(PartsOf(text).value.query, '&')| && Removed(Split(PartsOf(text).value.query, '&')[k], {name})
    ensures NamedAt(url, name, at)
  {
    var question := |PartsOf(text).value.prefix|;
    QueryIsPlaced(text);
    var place := NamedPieceIsPlaced(text, PartsOf(text).value.query, question + 1, name, k);
    at := TailHolds(text, url, name, place, question);
  }

  lemma NamedHasToken(hash: string -> Hash, url: string, name: string, at: nat, h: Hash)
    requires IsLower(name) && '*' !in url && NamedAt(url, name, at) && h in Tokens(hash, name, ALL_RUNS)
    ensures h in Tokens(hash, url, ALL_RUNS)
  {
    ParamTokensAreFound(hash, name, url, at, h);
  }

  // ----- the index and the scan -----

  /** The names carried by all rules that match and need no tag. */
  ghost function ScanNames(lib: RegexLibrary, filters: seq<NetworkFilter>, r: Request): set<string>
    requires Sized(r)
  {
    set f | f in filters && FilterMatches(lib, f, r) && TagActive(f.tag, {}) && f.modifierOption.Some?
      :: f.modifierOption.value
  }

  function OptionsOf(results: seq<CheckResult>): (options: seq<Option<string>>)
    ensures |options| == |results| && forall i :: 0 <= i < |results| ==> options[i] == results[i].modifierOption
  {
    seq(|results|, i requires 0 <= i < |results| => results[i].modifierOption)
  }

  /** What is asked of a matching rule: a token property, or no token but those of its parameter. */
  ghost predicate Findable(hash: string -> Hash, lib: RegexLibrary, f: NetworkFilter, r: Request)
    requires Sized(r)
  {
    GoesByDomain(hash, f) || FallsBackToParam(hash, f) || Proviso(hash, lib, f, r)
  }

  ghost predicate PlainRequest(hash: string -> Hash, r: Request)
    requires Sized(r)
  {
    && WellFormedRequest(hash, r) && (r.isHttp || r.isHttps)
    && '*' !in r.urlLower && |Tokens(hash, r.urlLower, ALL_RUNS)| < 255
    && SameTail(r.originalUrl, r.url)
  }

  /** A rule that the index misses has a name that removes nothing. */
  lemma MissedIsIdle(hash: string -> Hash, lib: RegexLibrary, f: NetworkFilter, r: Request, stored: Stored)
    requires Sized(r) && PlainRequest(hash, r) && FilterMatches(lib, f, r) && Findable(hash, lib, f, r)
    requires StoredFor(hash, f, stored)
    requires forall t :: t in TokensForMatch(r) ==> (ToShortHash(t), f) !in stored
    ensures FallsBackToParam(hash, f)
    ensures PartsOf(r.originalUrl).Some? ==>
              !AnyRemoved(Split(PartsOf(r.originalUrl).value.query, '&'), {f.modifierOption.value})
  {
    assert 0 in TokensForMatch(r) by {
      assert r.tokens[|r.tokens| - 1] == 0;
    }
    if !FallsBackToParam(hash, f) {
      if GoesByDomain(hash, f) {
        ReachedByDomain(hash, lib, f, r);
      } else {
        TokensAreSound(hash, lib, f, r);
      }
      var t := BucketIsVisited(hash, f, r, stored);
      assert false;
    } else if TokensOf(hash, f).Other? {
      var b: Hash :| (b == 0 || b in TokensOf(hash, f).tokens) && (ToShortHash(b), f) in stored;
      if b in ProtocolToken(hash, f) {
        ProtocolTokenIsFound(hash, f, r, b);
        UrlTokensAreMatched(hash, r, b);
      }
      assert b in Tokens(hash, Lower(f.modifierOption.value), ALL_RUNS);
      if b in Tokens(hash, r.urlLower, ALL_RUNS) {
        UrlTokensAreMatched(hash, r, b);
      }
      if PartsOf(r.originalUrl).Some? {
        MissingTokenMeansNoPiece(hash, r.originalUrl, r.url, f.modifierOption.value, b);
      }
    } else {
      assert GoesByDomain(hash, f);
      ReachedByDomain(hash, lib, f, r);
      var t := BucketIsVisited(hash, f, r, stored);
      assert false;
    }
  }

  /** A name that the index finds is carried by a rule that the scan finds. */
  lemma IndexNameIsScanned(
    lib: RegexLibrary, filters: seq<NetworkFilter>, placed: Placement, r: Request, x: string)
    requires Sized(r) && forall p :: p in Elements(placed) ==> p.1 in filters
    requires x in Names(OptionsOf(Hits(lib, placed, TokensForMatch(r), r, {})))
    ensures x in ScanNames(lib, filters, r)
  {
    var found := Hits(lib, placed, TokensForMatch(r), r, {});
    var i :| 0 <= i < |found| && OptionsOf(found)[i] == Some(x);
    HitsAre(lib, placed, TokensForMatch(r), r, {}, found[i]);
    var t :| t in TokensForMatch(r) && HitUnder(lib, Elements(placed), ToShortHash(t), r, {}, found[i]);
    var f :| HitOf(lib, Elements(placed), ToShortHash(t), f, r, {}, found[i]);
    assert (ToShortHash(t), f).1 in filters;
  }

  /** A name that only the scan finds removes nothing. */
  lemma MissedNameIsIdle(
    hash: string -> Hash, lib: RegexLibrary, filters: seq<NetworkFilter>, placed: Placement, r: Request, x: string)
    requires Sized(r) && PlainRequest(hash, r) && Distributed(hash, filters, Elements(placed))
    requires forall f :: f in filters && FilterMatches(lib, f, r) ==> Findable(hash, lib, f, r)
    requires x in ScanNames(lib, filters, r) && x !in Names(OptionsOf(Hits(lib, placed, TokensForMatch(r), r, {})))
    ensures PartsOf(r.originalUrl).Some? ==> !AnyRemoved(Split(PartsOf(r.originalUrl).value.query, '&'), {x})
  {
    var f :| f in filters && FilterMatches(lib, f, r) && TagActive(f.tag, {}) && f.modifierOption == Some(x);
    var n :| 0 <= n < |filters| && filters[n] == f;
    forall t | t in TokensForMatch(r) ensures (ToShortHash(t), f) !in Elements(placed) {
      NotFoundIsNotStored(lib, placed, r, f, t);
    }
    MissedIsIdle(hash, lib, f, r, Elements(placed));
  }

  lemma NotFoundIsNotStored(lib: RegexLibrary, placed: Placement, r: Request, f: NetworkFilter, t: Hash)
    requires Sized(r) && FilterMatches(lib, f, r) && TagActive(f.tag, {}) && f.modifierOption.Some?
    requires f.modifierOption.value !in Names(OptionsOf(Hits(lib, placed, TokensForMatch(r), r, {})))
    requires t in TokensForMatch(r)
    ensures (ToShortHash(t), f) !in Elements(placed)
  {
    var found := Hits(lib, placed, TokensForMatch(r), r, {});
    assert ResultOf(f) !in found by {
      assert forall i :: 0 <= i < |found| ==> OptionsOf(found)[i] != f.modifierOption;
    }
    HitsAre(lib, placed, TokensForMatch(r), r, {}, ResultOf(f));
    assert !HitUnder(lib, Elements(placed), ToShortHash(t), r, {}, ResultOf(f));
    assert !HitOf(lib, Elements(placed), ToShortHash(t), f, r, {}, ResultOf(f));
  }

  lemma IndexNamesSuffice(
    hash: string -> Hash, lib: RegexLibrary, filters: seq<NetworkFilter>, placed: Placement, r: Request)
    requires Sized(r) && PlainRequest(hash, r) && Distributed(hash, filters, Elements(placed))
    requires forall f :: f in filters && FilterMatches(lib, f, r) ==> Findable(hash, lib, f, r)
    ensures Rewritten(r.originalUrl, Names(OptionsOf(Hits(lib, placed, TokensForMatch(r), r, {}))))
            == Rewritten(r.originalUrl, ScanNames(lib, filters, r))
  {
    var indexed, scanned := Names(OptionsOf(Hits(lib, placed, TokensForMatch(r), r, {}))), ScanNames(lib, filters, r);
    forall x | x in indexed ensures x in scanned {
      IndexNameIsScanned(lib, filters, placed, r, x);
    }
    var missed := scanned - indexed;
    forall x | x in missed && PartsOf(r.originalUrl).Some?
      ensures !AnyRemoved(Split(PartsOf(r.originalUrl).value.query, '&'), {x})
    {
      MissedNameIsIdle(hash, lib, filters, placed, r, x);
    }
    IdleNames(r.originalUrl, indexed, missed);
    assert indexed + missed == scanned;
  }

  /**
   * Rewriting a URL, as it was given, through the token index of the parsed one, although the index
   * may miss rules, is rewriting it by all the rules that match. The list is never optimized.
   */
  method RewriteByRules(
    hash: string -> Hash, lib: RegexLibrary, filters: seq<NetworkFilter>, r: Request, now: nat, policy: Policy)
    returns (rewritten: Option<string>)
    requires Sized(r) && PlainRequest(hash, r)
    requires forall f :: f in filters && FilterMatches(lib, f, r) ==> Findable(hash, lib, f, r)
    ensures rewritten == Rewritten(r.originalUrl, ScanNames(lib, filters, r))
  {
    var engine := new EngineFlatBuilder();
    var list;
    ghost var entries, placed, next;
    list, entries, placed, next := SerializeList(hash, filters, false, engine, lib);
    var mapping := RebuildMap(engine.uniqueDomainsHashes, engine.uniqueDomainsHashesMap);
    NamingIsKnown(entries, next);
    var manager := new RegexManager(lib, NamingOf(entries), now, now, policy);
    var found := CheckAll(list, r, {}, manager, mapping, entries, placed, engine.uniqueDomainsHashes);
    rewritten := ApplyRemoveParam(r.originalUrl, OptionsOf(found));
    IndexNamesSuffice(hash, lib, filters, placed, r);
  }
}

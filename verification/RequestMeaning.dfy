/** The request made from two URLs, told by the pieces of their texts. */
module RequestMeaning {
  import opened Prelude
  import opened Text
  import opened UrlParser
  import opened UrlFixedPoint
  import opened UrlGrammar
  import opened Network
  import opened FilterTokens
  import opened RequestBuilding

  // ----- the source host -----

  /** The host, or what follows one of its dots, unless that is nothing. */
  ghost predicate IsEnclosing(host: string, text: string) {
    || text == host
    || (text != "" && |text| < |host| && host[|host| - |text|..] == text && host[|host| - |text| - 1] == '.')
  }

  ghost predicate IsEnclosingHash(hash: string -> Hash, host: string, h: Hash) {
    exists text :: IsEnclosing(host, text) && h == hash(text)
  }

  ghost predicate IsSuffixHash(hash: string -> Hash, host: string, n: nat, h: Hash)
    requires n <= |host|
  {
    h == hash(host) || exists k :: 0 < k <= n && FollowsDotAt(host, k) && h == hash(host[k..])
  }

  predicate FollowsDotAt(host: string, k: int) {
    0 < k < |host| && host[k - 1] == '.'
  }

  lemma {:induction false} SuffixHashesAre(hash: string -> Hash, host: string, n: nat, h: Hash)
    requires n <= |host|
    ensures h in SuffixHashes(hash, host, n) <==> IsSuffixHash(hash, host, n, h)
  {
    if n > 0 {
      SuffixHashesAre(hash, host, n - 1, h);
      OneMoreSuffix(hash, host, n, h);
    }
  }

  lemma OneMoreSuffix(hash: string -> Hash, host: string, n: nat, h: Hash)
    requires 0 < n <= |host|
    ensures IsSuffixHash(hash, host, n, h) <==>
              IsSuffixHash(hash, host, n - 1, h) || (FollowsDotAt(host, n) && h == hash(host[n..]))
  {
    if FollowsDotAt(host, n) && h == hash(host[n..]) {
      assert IsSuffixHash(hash, host, n, h);
    }
  }

  /** The hashes of a source host: its own, and those of the domains around it. */
  lemma SuffixHashesMean(hash: string -> Hash, host: string, h: Hash)
    ensures h in SuffixHashes(hash, host, |host|) <==> IsEnclosingHash(hash, host, h)
  {
    SuffixHashesAre(hash, host, |host|, h);
    assert IsEnclosing(host, host);
    if k :| 0 < k <= |host| && FollowsDotAt(host, k) && h == hash(host[k..]) {
      SuffixEncloses(host, k);
    }
    if IsEnclosingHash(hash, host, h) {
      var text :| IsEnclosing(host, text) && h == hash(text);
      if text != host {
        EnclosingIsSuffix(host, text);
      }
    }
  }

  lemma SuffixEncloses(host: string, k: nat)
    requires FollowsDotAt(host, k)
    ensures IsEnclosing(host, host[k..])
  {
    assert |host| - |host[k..]| == k;
  }

  lemma EnclosingIsSuffix(host: string, text: string)
    requires IsEnclosing(host, text) && text != host
    ensures var k := |host| - |text|; FollowsDotAt(host, k) && host[k..] == text
  {
  }

  // ----- the request -----

  /** The text is cut into these pieces, and so has a host. */
  ghost predicate IsCutInto(url: string, p: Pieces) {
    WellCut(p) && Whole(p) == url
  }

  predicate IsWebsocket(scheme: string) {
    scheme == "ws" || scheme == "wss"
  }

  /** What the URL alone says about the request. */
  ghost predicate IsFor(r: Request, lib: Library, requestType: RequestType, url: string, p: Pieces) {
    var scheme := Lower(p.scheme);
    && (r.isHttp <==> scheme == "http") && (r.isHttps <==> scheme == "https")
    && (r.isSupported <==> scheme in {"http", "https", "ws", "wss"})
    && r.requestType == (if IsWebsocket(scheme) then Websocket else requestType)
    && r.hostname == p.host && r.originalUrl == url && r.urlLower == Lower(r.url)
    && exists shown :: ShownAs(lib, p.userinfo, shown) && r.url == scheme + "://" + shown + (p.host + p.rest)
  }

  /** What it says together with the host of its source. */
  ghost predicate ComesFrom(
    r: Request, hash: string -> Hash, domain: string -> string, host: string, source: string)
  {
    && (r.isThirdParty <==> domain(source) != domain(host))
    && r.sourceHashes.Some? && forall h :: h in r.sourceHashes.value <==> IsEnclosingHash(hash, source, h)
  }

  lemma ParsedIsMade(lib: Library, url: string, p: Pieces) returns (shown: string)
    requires PlainInput(url) && IsCutInto(url, p)
    ensures ShownAs(lib, p.userinfo, shown) && ParsedUrl(lib, url) == Some(Made(p, shown))
    ensures HostOf(Made(p, shown)) == p.host
    ensures Made(p, shown).serialization[..Made(p, shown).schemeEnd] == Lower(p.scheme)
  {
    shown := PiecesParse(lib, p);
    MadeParts(p, shown);
  }

  lemma MadeParts(p: Pieces, shown: string)
    ensures var h := Made(p, shown);
            && h.serialization[h.hostStart..h.hostEnd] == p.host
            && h.serialization[..h.schemeEnd] == Lower(p.scheme)
  {
  }

  lemma NotParsed(lib: Library, url: string)
    requires PlainInput(url) && forall p :: !IsCutInto(url, p)
    ensures ParsedUrl(lib, url) == None
  {
    if ParsedUrl(lib, url).Some? {
      var p := ParsedIsCut(lib, url);
      assert IsCutInto(url, p);
    }
  }

  /** A request is made exactly from a URL with a host, and says what the URL says. */
  lemma RequestMeans(
    hash: string -> Hash, lib: Library, domain: string -> string, url: string, sourceUrl: string,
    requestType: RequestType)
    requires PlainInput(url)
    ensures var made := NewRequest(hash, lib, domain, url, sourceUrl, requestType);
            && (made.Err? <==> forall p :: !IsCutInto(url, p))
            && forall p :: IsCutInto(url, p) ==> IsFor(made.value, lib, requestType, url, p)
  {
    if forall p :: !IsCutInto(url, p) {
      NotParsed(lib, url);
    }
    forall p | IsCutInto(url, p)
      ensures NewRequest(hash, lib, domain, url, sourceUrl, requestType).Ok?
      ensures IsFor(NewRequest(hash, lib, domain, url, sourceUrl, requestType).value, lib, requestType, url, p)
    {
      var shown := ParsedIsMade(lib, url, p);
    }
  }

  /**
   * A request whose source has a host is a third party's exactly when the registrable domains differ,
   * and has the hashes of the source host; without a source it is a third party's and has none.
   */
  lemma SourceMeans(
    hash: string -> Hash, lib: Library, domain: string -> string, url: string, sourceUrl: string,
    requestType: RequestType, p: Pieces)
    requires PlainInput(url) && PlainInput(sourceUrl) && IsCutInto(url, p)
    ensures NewRequest(hash, lib, domain, url, sourceUrl, requestType).Ok?
    ensures var r := NewRequest(hash, lib, domain, url, sourceUrl, requestType).value;
            && ((forall q :: !IsCutInto(sourceUrl, q)) ==> r.isThirdParty && r.sourceHashes.None?)
            && forall q :: IsCutInto(sourceUrl, q) ==> ComesFrom(r, hash, domain, p.host, q.host)
  {
    var shown := ParsedIsMade(lib, url, p);
    if forall q :: !IsCutInto(sourceUrl, q) {
      NotParsed(lib, sourceUrl);
    }
    forall q | IsCutInto(sourceUrl, q)
      ensures ComesFrom(NewRequest(hash, lib, domain, url, sourceUrl, requestType).value, hash, domain, p.host, q.host)
    {
      var other := ParsedIsMade(lib, sourceUrl, q);
      forall h ensures h in SuffixHashes(hash, q.host, |q.host|) <==> IsEnclosingHash(hash, q.host, h) {
        SuffixHashesMean(hash, q.host, h);
      }
    }
  }
}

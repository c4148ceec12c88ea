/** Building a request from URLs, and what that guarantees to the token proofs. */
module RequestBuilding {
  import opened Prelude
  import opened Text
  import opened UrlParser
  import opened UrlFixedPoint
  import opened OriginalUrl
  import opened Network
  import opened FilterTokens
  import opened TokenSoundness
  import opened Matching

  datatype RequestError = HostnameParseError

  function HostOf(h: Hostname): string
    requires h.hostStart <= h.hostEnd <= |h.serialization|
  {
    h.serialization[h.hostStart..h.hostEnd]
  }

  /** A parsed URL counts only if it has a host. */
  function ParsedUrl(lib: Library, url: string): (parsed: Option<Hostname>)
    ensures parsed.Some? ==>
              parsed.value.schemeEnd < parsed.value.hostStart < parsed.value.hostEnd <= |parsed.value.serialization|
  {
    var r := ParseUrl(lib, url);
    if r.Ok? && r.value.hostEnd > r.value.hostStart then Some(r.value) else None
  }

  function FromParameters(
    hash: string -> Hash, requestType: RequestType, url: string, schema: string, hostname: string,
    sourceHostname: string, thirdParty: bool, originalUrl: string): Request
  {
    var isHttp := schema == "http";
    var isHttps := schema == "" || schema == "https";
    var isWebsocket := schema == "ws" || schema == "wss";
    var lower := Lower(url);
    Request(
      if isWebsocket then Websocket else requestType,
      isHttp, isHttps, isHttp || isHttps || isWebsocket, thirdParty, url, lower, hostname,
      if sourceHostname == "" then None else Some(SuffixHashes(hash, sourceHostname, |sourceHostname|)),
      UrlTokens(hash, lower), originalUrl)
  }

  /** `domain` is the registrable domain of a host, from the public suffix list. */
  function NewRequest(
    hash: string -> Hash, lib: Library, domain: string -> string, url: string, sourceUrl: string,
    requestType: RequestType)
    : Result<Request, RequestError>
  {
    var parsed := ParsedUrl(lib, url);
    if parsed.None? then Err(HostnameParseError)
    else
      var u := parsed.value;
      var source := ParsedUrl(lib, sourceUrl);
      var sourceHost := if source.Some? then HostOf(source.value) else "";
      var thirdParty := if source.Some? then domain(sourceHost) != domain(HostOf(u)) else true;
      var schema := u.serialization[..u.schemeEnd];
      Ok(FromParameters(hash, requestType, u.serialization, schema, HostOf(u), sourceHost, thirdParty, url))
  }

  /**
   * Requests made from plain ASCII URLs have their host between characters of no token, and share
   * what follows it with the text of the URL as it was given.
   */
  lemma NewRequestIsWellFormed(
    hash: string -> Hash, lib: Library, domain: string -> string, url: string, sourceUrl: string,
    requestType: RequestType)
    requires PlainInput(url) && NewRequest(hash, lib, domain, url, sourceUrl, requestType).Ok?
    ensures var r := NewRequest(hash, lib, domain, url, sourceUrl, requestType).value;
            WellFormedRequest(hash, r) && Sized(r) && SameTail(r.originalUrl, r.url)
  {
    TailIsKept(lib, url);
    HostIsBounded(lib, url);
    var r := NewRequest(hash, lib, domain, url, sourceUrl, requestType).value;
    var source := ParsedUrl(lib, sourceUrl);
    var sourceHost := if source.Some? then HostOf(source.value) else "";
    FromBoundedHost(hash, requestType, ParsedUrl(lib, url).value, sourceHost, r.isThirdParty, url);
  }

  lemma SchemeInLower(s: string, n: nat)
    requires n + 3 <= |s| && s[n..n + 3] == "://" && IsLower(s[..n])
    ensures StartsWith(Lower(s), s[..n] + ":")
  {
    assert s[n] == s[n..n + 3][0] == ':';
    assert s[..n + 1] == s[..n] + ":";
    OccursInLower(s, s[..n] + ":", 0);
  }

  lemma HostIsPlaced(r: Request, h: Hostname)
    requires HostBounded(h) && r.url == h.serialization && r.hostname == HostOf(h)
    ensures HostAt(r, h.hostStart)
  {
  }

  lemma FromBoundedHost(
    hash: string -> Hash, requestType: RequestType, h: Hostname, sourceHost: string, thirdParty: bool,
    originalUrl: string)
    requires HostBounded(h) && h.hostStart < h.hostEnd
    ensures var s := h.serialization;
            var schema := s[..h.schemeEnd];
            var r := FromParameters(hash, requestType, s, schema, HostOf(h), sourceHost, thirdParty, originalUrl);
            WellFormedRequest(hash, r) && Sized(r)
  {
    var s, n := h.serialization, h.schemeEnd;
    var r := FromParameters(hash, requestType, s, s[..n], HostOf(h), sourceHost, thirdParty, originalUrl);
    HostIsPlaced(r, h);
    if s[..n] == "http" || s[..n] == "https" {
      SchemeInLower(s, n);
    }
  }
}

/** When a filter matches a request, told by the flags it has and the places where its patterns stand in the URL. */
module MatchMeaning {
  import opened Prelude
  import opened Text
  import opened Network
  import opened Interning
  import opened RegexManagement
  import opened Matching

  // ----- options -----

  /** The types that a flag admits. */
  function AdmittedBy(flag: Flag): set<RequestType> {
    match flag
    case FromPing => {RequestType.Beacon, RequestType.Ping}
    case FromOther => {RequestType.Dtd, RequestType.Fetch, RequestType.Other, RequestType.Xlst}
    case FromDocument => {RequestType.Document}
    case FromFont => {RequestType.Font}
    case FromImage => {RequestType.Image}
    case FromMedia => {RequestType.Media}
    case FromObject => {RequestType.Object}
    case FromScript => {RequestType.Script}
    case FromStylesheet => {RequestType.Stylesheet}
    case FromSubdocument => {RequestType.Subdocument}
    case FromWebsocket => {RequestType.Websocket}
    case FromXmlHttpRequest => {RequestType.Xmlhttprequest}
    case Unmatched => {RequestType.Csp}
    case _ => {}
  }

  /** The type of the request is admitted by some flag of the mask; an exception admits documents anyway. */
  ghost predicate Admitted(mask: Mask, requestType: RequestType) {
    || (exists flag :: flag in mask && requestType in AdmittedBy(flag))
    || (requestType.Document? && IsException in mask)
  }

  /** The flags that the protocol and the party of a request call for. */
  function CalledFor(r: Request): set<Flag> {
    (if r.isHttps then {FromHttps} else {}) + (if r.isHttp then {FromHttp} else {})
    + {if r.isThirdParty then ThirdParty else FirstParty}
  }

  /** One of the hashes is that of the source host or of a domain that encloses it. */
  ghost predicate FromOneOf(r: Request, domains: seq<Hash>) {
    r.sourceHashes.Some? && exists h :: h in r.sourceHashes.value && h in domains
  }

  /** What a filter demands of a request apart from its URL. */
  ghost predicate Applies(f: NetworkFilter, r: Request) {
    && BadFilter !in f.mask
    && Admitted(f.mask, r.requestType) && CalledFor(r) <= f.mask
    && (f.optDomains.Some? ==> FromOneOf(r, f.optDomains.value))
    && (f.optNotDomains.Some? ==> !FromOneOf(r, f.optNotDomains.value))
  }

  lemma TypeFlagAdmits(requestType: RequestType, flag: Flag)
    ensures TypeFlag(requestType) == flag <==> requestType in AdmittedBy(flag)
  {
  }

  lemma OptionsMean(f: NetworkFilter, r: Request)
    ensures CheckOptions(f.mask, r)
            && IncludedDomain(f.optDomains, r.sourceHashes) && !ExcludedDomain(f.optNotDomains, r.sourceHashes)
            <==> Applies(f, r)
  {
    TypeFlagAdmits(r.requestType, TypeFlag(r.requestType));
    if flag :| flag in f.mask && r.requestType in AdmittedBy(flag) {
      TypeFlagAdmits(r.requestType, flag);
    }
    TypeFlagAdmits(r.requestType, FromDocument);
  }

  // ----- places -----

  ghost predicate FirstAt(text: string, part: string, i: nat) {
    OccursAt(text, part, i) && forall k :: 0 <= k < i ==> !OccursAt(text, part, k)
  }

  ghost predicate Nowhere(text: string, part: string) {
    forall k :: 0 <= k <= |text| ==> !OccursAt(text, part, k)
  }

  lemma FirstIsFound(text: string, part: string)
    ensures var found := Find(text, part);
            if found.Some? then FirstAt(text, part, found.value) else Nowhere(text, part)
  {
  }

  /** Behind the first place of the name, or at `otherwise` if the name stands nowhere. */
  ghost predicate Behind(url: string, name: string, otherwise: nat, e: nat) {
    || (e >= |name| && FirstAt(url, name, e - |name|))
    || (e == otherwise && Nowhere(url, name))
  }

  lemma BehindIsOne(url: string, name: string, otherwise: nat, e: nat)
    ensures Behind(url, name, otherwise, e) <==>
              e == if Find(url, name).Some? then Find(url, name).value + |name| else otherwise
  {
    FirstIsFound(url, name);
    var found := Find(url, name);
    if found.Some? {
      assert !Nowhere(url, name);
      if e >= |name| && FirstAt(url, name, e - |name|) {
        assert !(found.value < e - |name|);
      }
    }
  }

  /** The pattern stands at `k`, not before `from`, and where the anchors bind it. */
  predicate StandsAt(mask: Mask, url: string, from: nat, p: string, k: nat) {
    && from <= k && OccursAt(url, p, k)
    && (IsLeftAnchor in mask ==> k == from)
    && (IsRightAnchor in mask ==> k + |p| == |url|)
  }

  ghost predicate Stands(mask: Mask, url: string, from: nat, p: string) {
    exists k :: StandsAt(mask, url, from, p, k)
  }

  /** Where a pattern may stand: behind the host name, unless it is bound to the end of the URL alone. */
  function Start(mask: Mask, e: nat): nat {
    if IsHostnameAnchor !in mask || (IsRightAnchor in mask && IsLeftAnchor !in mask) then 0 else e
  }

  lemma OccursBehind(url: string, e: nat, p: string, j: nat)
    requires e <= |url|
    ensures OccursAt(url[e..], p, j) <==> OccursAt(url, p, e + j)
  {
    if e + j + |p| <= |url| {
      assert url[e..][j..j + |p|] == url[e + j..e + j + |p|];
    }
  }

  lemma FoundBehind(url: string, e: nat, p: string)
    requires e <= |url|
    ensures Find(url[e..], p).Some? <==> exists k :: e <= k && OccursAt(url, p, k)
  {
    var found := Find(url[e..], p);
    if found.Some? {
      OccursBehind(url, e, p, found.value);
      assert OccursAt(url, p, e + found.value);
    }
    if k :| e <= k && OccursAt(url, p, k) {
      OccursBehind(url, e, p, k - e);
    }
  }

  lemma StandsAlone(mask: Mask, url: string, from: nat, p: string)
    requires from <= |url|
    ensures IsLeftAnchor in mask && IsRightAnchor in mask ==>
              (Stands(mask, url, from, p) <==> url[from..] == p)
    ensures IsLeftAnchor in mask && IsRightAnchor !in mask ==>
              (Stands(mask, url, from, p) <==> StartsWith(url[from..], p))
  {
    OccursBehind(url, from, p, 0);
    assert StandsAt(mask, url, from, p, from) ==> Stands(mask, url, from, p);
    if |url| - from == |p| {
      assert url[from..from + |p|] == url[from..];
    }
  }

  lemma StandsFreely(mask: Mask, url: string, from: nat, p: string)
    requires from <= |url| && IsLeftAnchor !in mask
    ensures IsRightAnchor !in mask ==> (Stands(mask, url, from, p) <==> Find(url[from..], p).Some?)
    ensures IsRightAnchor in mask ==> (Stands(mask, url, 0, p) <==> EndsWith(url, p))
  {
    FoundBehind(url, from, p);
    if IsRightAnchor in mask && EndsWith(url, p) {
      assert StandsAt(mask, url, 0, p, |url| - |p|);
    }
    if IsRightAnchor !in mask {
      if k :| from <= k && OccursAt(url, p, k) {
        assert StandsAt(mask, url, from, p, k);
      }
    }
  }

  /** One plain pattern, for every combination of anchors. */
  lemma PlainPatternMeans(mask: Mask, name: string, p: string, r: Request, url: string, e: nat)
    requires url == (if MatchCase in mask then r.url else r.urlLower) && |name| <= |url|
    requires IsHostnameAnchor in mask ==> Behind(url, name, |url|, e)
    ensures PlainPatternMatches(mask, name, p, r) <==> Stands(mask, url, Start(mask, e), p)
  {
    if IsHostnameAnchor in mask {
      BehindIsOne(url, name, |url|, e);
    }
    assert url[0..] == url;
    var from := Start(mask, e);
    StandsAlone(mask, url, from, p);
    if IsLeftAnchor !in mask {
      StandsFreely(mask, url, from, p);
    }
  }

  // ----- regexes -----

  /** A filter of regexes: an empty pattern matches all, one that does not compile silences the others. */
  ghost predicate SomeRegexMatches(lib: RegexLibrary, mask: Mask, patterns: seq<string>, text: string) {
    || patterns == [] || "" in patterns
    || ((forall p :: p in patterns ==> lib.compiles(p, AnchorsOf(mask)))
        && exists p :: p in patterns && lib.isMatch(p, AnchorsOf(mask), text))
  }

  lemma RegexMeans(lib: RegexLibrary, mask: Mask, patterns: seq<string>, text: string)
    requires UsesRegex(mask)
    ensures MatchesAfresh(lib, mask, patterns, text) <==> SomeRegexMatches(lib, mask, patterns, text)
  {
    var anchors := AnchorsOf(mask);
    if patterns != [] && "" !in patterns {
      assert (forall p :: p in patterns ==> lib.compiles(p, anchors))
        <==> forall i :: 0 <= i < |patterns| ==> lib.compiles(patterns[i], anchors);
      assert (exists p :: p in patterns && lib.isMatch(p, anchors, text))
        <==> exists i :: 0 <= i < |patterns| && lib.isMatch(patterns[i], anchors, text);
    }
  }

  // ----- host names -----

  /**
   * The name is empty, or its first place in the host begins a label; and a label ends behind it, or,
   * if that place is neither at the beginning nor at the end of the host, at the length of the name.
   */
  ghost predicate Anchored(name: string, host: string, wildcard: bool) {
    name == "" || exists m :: FirstAt(host, name, m) && StartsLabel(name, host, m)
                              && EndsLabelAt(name, host, wildcard, LookedAt(name, host, m))
  }

  function LookedAt(name: string, host: string, m: nat): nat {
    if 0 < m < |host| - |name| then |name| else m + |name|
  }

  lemma AnchoredMeans(name: string, host: string, wildcard: bool)
    ensures IsAnchoredByHostname(name, host, wildcard) <==> Anchored(name, host, wildcard)
  {
    FirstIsFound(host, name);
    if name != "" && |name| <= |host| {
      if FoundInside(name, host) {
        InsideIsLookedAt(name, host, wildcard);
      } else {
        EdgesAreLookedAt(name, host, wildcard);
      }
    }
  }

  // ----- filters -----

  /** What is asked of the URL from a place on, for a filter without host anchor from its beginning. */
  ghost predicate PatternsMatch(lib: RegexLibrary, f: NetworkFilter, url: string, e: nat) {
    var patterns := Patterns(f.part);
    if IsRegex in f.mask || (IsCompleteRegex in f.mask && IsHostnameAnchor !in f.mask) then
      e <= |url| && SomeRegexMatches(lib, f.mask, patterns, url[e..])
    else patterns == [] || exists p :: p in patterns && Stands(f.mask, url, Start(f.mask, e), p)
  }

  /** Without patterns, a host name that is only anchored to the right must end the host. */
  ghost predicate HostMatches(f: NetworkFilter, name: string, host: string) {
    && Anchored(name, host, IsHostnameRegex in f.mask)
    && (Patterns(f.part) == [] && IsRegex !in f.mask && IsRightAnchor in f.mask && IsLeftAnchor !in f.mask ==>
          OccursAt(host, name, |host| - |name|))
  }

  ghost predicate UrlMatches(lib: RegexLibrary, f: NetworkFilter, r: Request) {
    var url := if MatchCase in f.mask then r.url else r.urlLower;
    if IsHostnameAnchor !in f.mask then PatternsMatch(lib, f, url, 0)
    else
      && f.hostname.Some?
      && HostMatches(f, f.hostname.value, r.hostname)
      && MatchesBehind(lib, f, f.hostname.value, url)
  }

  /** The patterns are looked for behind the host name; if it stands nowhere, a regex skips its length. */
  ghost predicate MatchesBehind(lib: RegexLibrary, f: NetworkFilter, name: string, url: string) {
    exists e :: Behind(url, name, Otherwise(f, name, url), e) && PatternsMatch(lib, f, url, e)
  }

  function Otherwise(f: NetworkFilter, name: string, url: string): nat {
    if IsRegex in f.mask then |name| else |url|
  }

  /**
   * Which requests a filter matches: its flags and domains admit the request, its host name is anchored
   * in the host, and its patterns stand in the URL where the anchors bind them.
   */
  lemma FilterMatchesMeans(lib: RegexLibrary, f: NetworkFilter, r: Request)
    requires Sized(r)
    ensures FilterMatches(lib, f, r) <==> Applies(f, r) && UrlMatches(lib, f, r)
  {
    OptionsMean(f, r);
    if IsHostnameAnchor !in f.mask {
      FreeUrlMeans(lib, f, r);
    } else if f.hostname.Some? {
      HostUrlMeans(lib, f, f.hostname.value, r);
    }
  }

  lemma FreeUrlMeans(lib: RegexLibrary, f: NetworkFilter, r: Request)
    requires Sized(r) && IsHostnameAnchor !in f.mask
    ensures CheckPattern(lib, f.mask, Patterns(f.part), None, r) <==> UrlMatches(lib, f, r)
  {
    var url := GetUrl(r, MatchCase in f.mask);
    assert url[0..] == url;
    if UsesRegex(f.mask) {
      RegexMeans(lib, f.mask, Patterns(f.part), url);
    } else {
      AnyPlainMeans(f.mask, "", Patterns(f.part), r, url, 0);
    }
  }

  lemma AnyPlainMeans(mask: Mask, name: string, patterns: seq<string>, r: Request, url: string, e: nat)
    requires url == (if MatchCase in mask then r.url else r.urlLower) && |name| <= |url|
    requires IsHostnameAnchor in mask ==> Behind(url, name, |url|, e)
    ensures AnyPlainPatternMatches(mask, name, patterns, r) <==>
              exists p :: p in patterns && Stands(mask, url, Start(mask, e), p)
  {
    forall p ensures PlainPatternMatches(mask, name, p, r) <==> Stands(mask, url, Start(mask, e), p) {
      PlainPatternMeans(mask, name, p, r, url, e);
    }
    if p :| p in patterns && Stands(mask, url, Start(mask, e), p) {
      var i :| 0 <= i < |patterns| && patterns[i] == p;
      assert PlainPatternMatches(mask, name, patterns[i], r);
    }
  }

  lemma HostUrlMeans(lib: RegexLibrary, f: NetworkFilter, name: string, r: Request)
    requires Sized(r) && IsHostnameAnchor in f.mask && f.hostname == Some(name)
    ensures CheckPattern(lib, f.mask, Patterns(f.part), f.hostname, r) <==> UrlMatches(lib, f, r)
  {
    var url := GetUrl(r, MatchCase in f.mask);
    AnchoredMeans(name, r.hostname, IsHostnameRegex in f.mask);
    if Anchored(name, r.hostname, IsHostnameRegex in f.mask) {
      var e := MatchesBehindOne(lib, f, name, url);
      PatternsBehind(lib, f, name, r, url, e);
    }
  }

  lemma MatchesBehindOne(lib: RegexLibrary, f: NetworkFilter, name: string, url: string) returns (e: nat)
    ensures Behind(url, name, Otherwise(f, name, url), e)
    ensures MatchesBehind(lib, f, name, url) <==> PatternsMatch(lib, f, url, e)
  {
    var otherwise := Otherwise(f, name, url);
    e := if Find(url, name).Some? then Find(url, name).value + |name| else otherwise;
    forall k: nat ensures Behind(url, name, otherwise, k) <==> k == e {
      BehindIsOne(url, name, otherwise, k);
    }
  }

  lemma PatternsBehind(lib: RegexLibrary, f: NetworkFilter, name: string, r: Request, url: string, e: nat)
    requires Sized(r) && IsHostnameAnchor in f.mask && f.hostname == Some(name)
    requires url == GetUrl(r, MatchCase in f.mask) && |name| <= |r.hostname|
    requires IsAnchoredByHostname(name, r.hostname, IsHostnameRegex in f.mask)
    requires Behind(url, name, Otherwise(f, name, url), e)
    ensures CheckPattern(lib, f.mask, Patterns(f.part), f.hostname, r) <==>
              HostMatches(f, name, r.hostname) && PatternsMatch(lib, f, url, e)
  {
    AnchoredMeans(name, r.hostname, IsHostnameRegex in f.mask);
    if IsRegex in f.mask {
      BehindIsOne(url, name, |name|, e);
      RegexMeans(lib, f.mask, Patterns(f.part), url[e..]);
    } else {
      AnyPlainMeans(f.mask, name, Patterns(f.part), r, url, e);
    }
  }
}

/** Where the tokens of a filter are not those of a URL it matches: exact conditions and failing requests. */
module TokenGaps {
  import opened Prelude
  import opened Text
  import opened Network
  import opened Tokenizer
  import opened FilterTokens
  import opened RegexManagement
  import opened Matching
  import opened TokenSoundness

  // ----- the first token of an unanchored pattern -----

  /** Some other kept run of the pattern has the same text as the run that ends at `b`. */
  ghost predicate Repeated(p: string, flags: Flags, b: nat)
    requires b <= |p|
  {
    exists c, d :: c > 0 && IsToken(p, flags, c, d) && p[c..d] == p[..b]
  }

  /** The text is that of some token of the URL. */
  ghost predicate TokenText(url: string, t: string) {
    exists c, d :: IsToken(url, ALL_RUNS, c, d) && url[c..d] == t
  }

  const UNANCHORED := Flags(false, true)

  /** A request for a web page or what belongs to it. */
  ghost predicate WebRequest(hash: string -> Hash, r: Request) {
    WellFormedRequest(hash, r) && Sized(r) && (r.isHttp || r.isHttps) && '*' !in r.urlLower
  }

  /**
   * An unanchored plain pattern that begins with a token: every request whose URL the pattern occurs
   * in has that token, exactly when the same token occurs again further on in the pattern, or when the
   * pattern occurs in no such URL at all because it is not lower-cased or holds a '*'.
   */
  lemma UnanchoredFirstToken(hash: string -> Hash, p: string, b: nat)
    requires IsToken(p, UNANCHORED, 0, b)
    ensures (forall r :: WebRequest(hash, r) && Find(r.urlLower, p).Some? ==> TokenText(r.urlLower, p[..b]))
            <==> '*' in p || !IsLower(p) || Repeated(p, UNANCHORED, b)
  {
    if '*' in p || !IsLower(p) || Repeated(p, UNANCHORED, b) {
      forall r | WebRequest(hash, r) && Find(r.urlLower, p).Some? ensures TokenText(r.urlLower, p[..b]) {
        LowerIsLower(r.url);
        FirstTokenIsFound(p, b, r.urlLower);
      }
    } else {
      var r := SiteRequest(hash, SchemeBut(p[..b]), Surrounded(p, b));
      SurroundedHasNoToken(p, b);
      SurroundedIsLower(p, b);
      SiteRequestIsWeb(hash, SchemeBut(p[..b]), Surrounded(p, b));
      SiteHasNoToken(p[..b], Surrounded(p, b));
      OccursBehind(SchemeBut(p[..b]) + "://b/", Surrounded(p, b), p, 1);
    }
  }

  lemma FirstTokenIsFound(p: string, b: nat, url: string)
    requires IsToken(p, UNANCHORED, 0, b) && '*' !in url && IsLower(url) && Find(url, p).Some?
    requires '*' in p || !IsLower(p) || Repeated(p, UNANCHORED, b)
    ensures TokenText(url, p[..b])
  {
    var i := Find(url, p).value;
    forall k | 0 <= k < |p| ensures p[k] != '*' && LowerChar(p[k]) == p[k] {
      assert url[i + k] == url[i..i + |p|][k] == p[k];
    }
    var c, d :| c > 0 && IsToken(p, UNANCHORED, c, d) && p[c..d] == p[..b];
    PlacedByOccurrence(p, c, d, url, i);
    PlacedIsRun(p, c, d, url, i + c);
  }

  // ----- a request whose URL goes on with any text -----

  /** The one of the two schemes that is not this token. */
  function SchemeBut(t: string): string {
    if t == "http" then "https" else "http"
  }

  function SiteRequest(hash: string -> Hash, scheme: string, rest: string): Request {
    var url := scheme + "://b/" + rest;
    Request(Script, scheme == "http", scheme == "https", true, true, url, Lower(url), "b", None,
            UrlTokens(hash, Lower(url)), url)
  }

  lemma LowerOfLower(s: string)
    requires IsLower(s)
    ensures Lower(s) == s
  {
  }

  lemma LowerConcat(a: string, b: string)
    requires IsLower(a) && IsLower(b) && '*' !in a && '*' !in b
    ensures IsLower(a + b) && '*' !in a + b
  {
  }

  /** The parts of the URL of a site: scheme, separator, one-letter host, and the rest. */
  lemma SiteUrl(scheme: string, rest: string)
    requires scheme == "http" || scheme == "https"
    ensures var url, n := scheme + "://b/" + rest, |scheme|;
            && StartsWith(url, scheme + ":")
            && |url| > n + 4 && url[n + 2] == '/' && url[n + 3] == 'b' && url[n + 4] == '/'
  {
    var url, n := scheme + "://b/" + rest, |scheme|;
    assert url[0..n + 1] == scheme + ":";
  }

  lemma SiteRequestIsWeb(hash: string -> Hash, scheme: string, rest: string)
    requires scheme == "http" || scheme == "https"
    requires IsLower(rest) && '*' !in rest
    ensures WebRequest(hash, SiteRequest(hash, scheme, rest))
    ensures SiteRequest(hash, scheme, rest).urlLower == scheme + "://b/" + rest
  {
    var r, url, n := SiteRequest(hash, scheme, rest), scheme + "://b/" + rest, |scheme|;
    SiteUrl(scheme, rest);
    LowerConcat(scheme + "://b/", rest);
    LowerOfLower(url);
    SiteHost(r, n + 3);
  }

  lemma SiteHost(r: Request, start: nat)
    requires r.hostname == "b" && 0 < start && start + 1 < |r.url|
    requires r.url[start - 1] == '/' && r.url[start] == 'b' && r.url[start + 1] == '/'
    ensures HostAt(r, start)
  {
    assert r.url[start..start + 1] == "b";
  }

  lemma OccursBehind(front: string, text: string, part: string, i: nat)
    requires OccursAt(text, part, i)
    ensures OccursAt(front + text, part, |front| + i)
  {
    assert (front + text)[|front| + i..|front| + i + |part|] == text[i..i + |part|];
  }

  /** Before the text stand only the scheme and a host too short for a token. */
  lemma SiteHasNoToken(t: string, text: string)
    requires !TokenText(text, t)
    ensures !TokenText(SchemeBut(t) + "://b/" + text, t)
  {
    var scheme := SchemeBut(t);
    var front, n := scheme + "://b/", |scheme|;
    var url := front + text;
    forall c, d | IsToken(url, ALL_RUNS, c, d) ensures url[c..d] != t {
      if c < n {
        SchemeRun(scheme, text, c, d);
      } else {
        RunBehind(front, text, c, d);
      }
    }
  }

  lemma SchemeRun(scheme: string, text: string, c: nat, d: nat)
    requires (scheme == "http" || scheme == "https") && c < |scheme|
    requires IsToken(scheme + "://b/" + text, ALL_RUNS, c, d)
    ensures (scheme + "://b/" + text)[c..d] == scheme
  {
    var url, n := scheme + "://b/" + text, |scheme|;
    assert forall k :: 0 <= k < n ==> IsTokenChar(url[k]);
    assert !IsTokenChar(url[n]);
    assert c == 0 && d == n;
  }

  lemma RunBehind(front: string, text: string, c: nat, d: nat)
    requires |front| >= 5 && front[|front| - 5..] == "://b/" && |front| - 5 <= c
    requires IsToken(front + text, ALL_RUNS, c, d)
    ensures |front| <= c && IsToken(text, ALL_RUNS, c - |front|, d - |front|)
    ensures (front + text)[c..d] == text[c - |front|..d - |front|]
  {
    var url, n := front + text, |front|;
    assert forall k :: 0 <= k < 5 ==> url[n - 5 + k] == front[n - 5..][k] == "://b/"[k];
    assert !IsTokenChar(url[n - 5]) && !IsTokenChar(url[n - 4]) && !IsTokenChar(url[n - 3]) && !IsTokenChar(url[n - 1]);
    assert n <= c;
    assert forall k :: 0 <= k < |text| ==> text[k] == url[n + k];
  }

  lemma StarIsCarried(p: string, url: string, i: nat)
    requires '*' in p && OccursAt(url, p, i)
    ensures '*' in url
  {
    var k :| 0 <= k < |p| && p[k] == '*';
    assert url[i + k] == url[i..i + |p|][k];
  }

  /** The pattern, with a letter put before and one after it. */
  function Surrounded(p: string, b: nat): string
    requires 0 < b <= |p|
  {
    ['a'] + p + [if p[b - 1] == 'a' then 'b' else 'a']
  }

  lemma SurroundedHasNoToken(p: string, b: nat)
    requires IsToken(p, UNANCHORED, 0, b) && '*' !in p && !Repeated(p, UNANCHORED, b)
    ensures !TokenText(Surrounded(p, b), p[..b]) && '*' !in Surrounded(p, b)
    ensures OccursAt(Surrounded(p, b), p, 1)
  {
    var url := Surrounded(p, b);
    assert url[1..1 + |p|] == p;
    assert forall k :: 0 <= k < |p| ==> url[k + 1] == p[k];
    forall c, d | IsToken(url, ALL_RUNS, c, d) ensures url[c..d] != p[..b] {
      if d == |url| {
        assert url[c..d][|url[c..d]| - 1] == url[d - 1] != p[b - 1] == p[..b][b - 1];
      } else {
        RunOfSurrounded(p, b, c, d);
      }
    }
  }

  lemma SurroundedIsLower(p: string, b: nat)
    requires 0 < b <= |p| && IsLower(p)
    ensures IsLower(Surrounded(p, b))
  {
  }

  /** The first run of the surrounded pattern is longer than that of the pattern; the others stay. */
  lemma RunOfSurrounded(p: string, b: nat, c: nat, d: nat)
    requires IsToken(p, UNANCHORED, 0, b) && d < |Surrounded(p, b)| && IsToken(Surrounded(p, b), ALL_RUNS, c, d)
    ensures c == 0 ==> d == b + 1
    ensures c > 0 ==> c > 1 && IsToken(p, UNANCHORED, c - 1, d - 1) && p[c - 1..d - 1] == Surrounded(p, b)[c..d]
  {
    var url := Surrounded(p, b);
    assert forall k :: 0 <= k < |p| ==> p[k] == url[k + 1];
    assert url[0] == 'a' && url[1] == p[0];
    if c == 0 {
      assert b < |p|;
      assert !IsTokenChar(url[b + 1]) && forall k :: 1 <= k <= b ==> IsTokenChar(url[k]);
    } else {
      assert p[c - 1..d - 1] == url[c..d];
    }
  }

  // ----- the last token of a host name -----

  /**
   * A host name without wildcard: every host that it is anchored in holds all its tokens, exactly
   * when it does not end in a token, or holds that token further ahead as well.
   */
  lemma HostnameTokensInHosts(name: string)
    requires name != ""
    ensures (forall host, a, b ::
               '*' !in host && IsAnchoredByHostname(name, host, false) && IsToken(name, ALL_RUNS, a, b) ==>
                 TokenText(host, name[a..b]))
            <==> '*' in name || EndTokenRepeats(name)
  {
    if '*' in name {
      forall host | IsAnchoredByHostname(name, host, false) ensures '*' in host {
        var m := AnchoredSomewhere(name, host, false);
        StarIsCarried(name, host, m);
      }
    } else if EndTokenRepeats(name) {
      forall host, a, b | '*' !in host && IsAnchoredByHostname(name, host, false) && IsToken(name, ALL_RUNS, a, b)
        ensures TokenText(host, name[a..b])
      {
        HostHoldsToken(name, host, a, b);
      }
    } else {
      var a :| IsToken(name, ALL_RUNS, a, |name|) &&
        forall c, d :: d < |name| && IsToken(name, ALL_RUNS, c, d) ==> name[c..d] != name[a..];
      LongerAnchors(name);
      LongerHasNoToken(name, a);
      assert name[a..|name|] == name[a..];
    }
  }

  lemma HostHoldsToken(name: string, host: string, a: nat, b: nat)
    requires name != "" && '*' !in host && IsAnchoredByHostname(name, host, false)
    requires IsToken(name, ALL_RUNS, a, b) && EndTokenRepeats(name)
    ensures TokenText(host, name[a..b])
  {
    var m := AnchoredSomewhere(name, host, false);
    var c, d := TokenAhead(name, a, b);
    InnerTokenIsHeld(name, host, m, c, d);
  }

  lemma InnerTokenIsHeld(name: string, host: string, m: nat, c: nat, d: nat)
    requires IsToken(name, ALL_RUNS, c, d) && d < |name| && OccursAt(host, name, m) && '*' !in host
    requires m == 0 || name[0] == '.' || host[m - 1] == '.'
    ensures TokenText(host, name[c..d])
  {
    PlacedByOccurrence(name, c, d, host, m);
    assert c == 0 ==> IsTokenChar(name[0]);
    PlacedIsRun(name, c, d, host, m + c);
  }

  /** A letter other than the last character of the name. */
  function OtherLetter(name: string): char
    requires name != ""
  {
    if name[|name| - 1] == 'a' then 'b' else 'a'
  }

  /** A host in which the name begins a label that goes on, such as "bbb.adsb" for "ads". */
  function Longer(name: string): string
    requires name != ""
  {
    var c := OtherLetter(name);
    seq(|name|, _ => c) + ['.'] + name + [c]
  }

  lemma LongerIs(name: string)
    requires name != ""
    ensures var host, n := Longer(name), |name|;
            && |host| == 2 * n + 2 && OccursAt(host, name, n + 1)
            && (forall k :: 0 <= k < n ==> host[k] == OtherLetter(name))
            && host[n] == '.' && host[2 * n + 1] == OtherLetter(name)
            && (forall k :: 0 <= k < n ==> host[n + 1 + k] == name[k])
  {
    var host, n := Longer(name), |name|;
    assert host[n + 1..n + 1 + n] == name;
  }

  /** A name that is met before is made of the other letter and dots, and does not end as it does. */
  lemma {:induction false} MetBefore(name: string, i: nat, k: nat)
    requires name != "" && i < |name| + 1 && OccursAt(Longer(name), name, i) && k < |name|
    ensures name[k] == OtherLetter(name) || name[k] == '.'
    decreases k
  {
    LongerIs(name);
    var host, n := Longer(name), |name|;
    assert name[k] == host[i..i + n][k] == host[i + k];
    if i + k > n {
      MetBefore(name, i, i + k - n - 1);
    }
  }

  lemma LongerAnchors(name: string)
    requires name != "" && IsTokenChar(name[|name| - 1])
    ensures IsAnchoredByHostname(name, Longer(name), false)
  {
    LongerIs(name);
    var host, n := Longer(name), |name|;
    FoundAfterDot(name);
    assert host[n..][..1] == host[n..n + 1] == ".";
    InsideIsLookedAt(name, host, false);
  }

  lemma FoundAfterDot(name: string)
    requires name != "" && IsTokenChar(name[|name| - 1])
    ensures Find(Longer(name), name) == Some(|name| + 1)
  {
    LongerIs(name);
    forall i: nat | i < |name| + 1 ensures !OccursAt(Longer(name), name, i) {
      if OccursAt(Longer(name), name, i) {
        MetBefore(name, i, |name| - 1);
      }
    }
  }

  lemma LongerHasNoToken(name: string, a: nat)
    requires name != "" && IsToken(name, ALL_RUNS, a, |name|) && '*' !in name
    requires forall c, d :: d < |name| && IsToken(name, ALL_RUNS, c, d) ==> name[c..d] != name[a..]
    ensures '*' !in Longer(name) && !TokenText(Longer(name), name[a..])
  {
    LongerIs(name);
    var host, n, t := Longer(name), |name|, name[a..];
    forall c, d | IsToken(host, ALL_RUNS, c, d) ensures host[c..d] != t {
      if d <= n || d == |host| {
        assert host[c..d][d - c - 1] == host[d - 1] == OtherLetter(name) != t[|t| - 1];
      } else {
        RunOfLonger(name, c, d);
      }
    }
  }

  /** Beyond its first label, and short of its end, the longer host has the tokens of the name. */
  lemma RunOfLonger(name: string, c: nat, d: nat)
    requires name != "" && IsTokenChar(name[|name| - 1])
    requires |name| < d < |Longer(name)| && IsToken(Longer(name), ALL_RUNS, c, d)
    ensures var n := |name|;
            && n < c && d - n - 1 < n && IsToken(name, ALL_RUNS, c - n - 1, d - n - 1)
            && Longer(name)[c..d] == name[c - n - 1..d - n - 1]
  {
    LongerIs(name);
    var host, n := Longer(name), |name|;
    assert IsTokenChar(OtherLetter(name));
    assert n < c;
    assert host[c..d] == name[c - n - 1..d - n - 1];
    assert forall k :: c - n - 1 <= k < d - n - 1 ==> name[k] == host[n + 1 + k];
  }

  // ----- two filters and requests -----

  /** A hash that tells one text from all others. */
  function Marking(t: string): string -> Hash {
    s => if s == t then 1 else 2
  }

  const AdsFilter := NetworkFilter(
    {IsHostnameAnchor, FromScript, FromHttp, FromHttps, ThirdParty},
    FilterPart.Empty, None, None, None, Some("ads"), None, None, 0)

  const AdServerRequest := Request(
    Script, true, false, true, true, "http://cdn.adserver.com/", "http://cdn.adserver.com/", "cdn.adserver.com", None,
    UrlTokens(Marking("ads"), "http://cdn.adserver.com/"), "http://cdn.adserver.com/")

  /** A text that occurs once, followed by a token character, is no token. */
  lemma MarkedIsAbsent(url: string, t: string, i: nat)
    requires i + |t| < |url| && IsTokenChar(url[i + |t|])
    requires forall k: nat :: OccursAt(url, t, k) ==> k == i
    ensures 1 !in UrlTokens(Marking(t), url)
  {
    TokensAreTheKeptRuns(Marking(t), url, ALL_RUNS, |url|, 1);
    forall a, b | IsToken(url, ALL_RUNS, a, b) ensures url[a..b] != t {
      assert url[a..b] == t ==> OccursAt(url, t, a);
    }
  }

  lemma AdServerTokens()
    ensures 1 !in TokensForMatch(AdServerRequest)
  {
    var url := "http://cdn.adserver.com/";
    forall k: nat | OccursAt(url, "ads", k) ensures k == 11 {
      assert url[k] == url[k..k + 3][0] == 'a';
    }
    MarkedIsAbsent(url, "ads", 11);
  }

  lemma AdsTokens()
    ensures 1 in OwnTokens(Marking("ads"), AdsFilter)
  {
    var hash, name := Marking("ads"), "ads";
    assert name[0..3] == name;
    assert IsToken(name, ALL_RUNS, 0, 3);
    TokensAreTheKeptRuns(hash, name, ALL_RUNS, 3, 1);
    assert |Tokens(hash, name, ALL_RUNS)| <= 4;
  }

  lemma AdsPatternMatches(lib: RegexLibrary, mask: Mask, r: Request)
    requires Sized(r) && r.hostname == "cdn.adserver.com"
    requires IsHostnameAnchor in mask && IsHostnameRegex !in mask && IsRegex !in mask && IsRightAnchor !in mask
    ensures CheckPattern(lib, mask, [], Some("ads"), r)
  {
    AnchoredWithinALabel();
  }

  lemma AdsFilterMatches(lib: RegexLibrary)
    ensures Sized(AdServerRequest) && FilterMatches(lib, AdsFilter, AdServerRequest)
  {
    assert CheckOptions(AdsFilter.mask, AdServerRequest);
    AdsPatternMatches(lib, AdsFilter.mask, AdServerRequest);
  }

  lemma AdsTokenIsOpen()
    ensures !HostnameTokensClosed(AdsFilter, AdServerRequest)
  {
    AnchoredWithinALabel();
    assert !EndsLabel("ads", "cdn.adserver.com", 4);
    OneTokenDoesNotRepeat("ads");
  }

  lemma OneTokenDoesNotRepeat(name: string)
    requires |name| > 1 && forall i :: 0 <= i < |name| ==> IsTokenChar(name[i])
    ensures !EndTokenRepeats(name)
  {
    assert IsToken(name, ALL_RUNS, 0, |name|);
    assert forall c, d :: d < |name| ==> !IsRun(name, c, d);
  }

  /** Anchoring within a label lets a filter match a URL without the filter's host name token. */
  lemma HostnameTokenMissing(lib: RegexLibrary)
    ensures Sized(AdServerRequest) && FilterMatches(lib, AdsFilter, AdServerRequest)
    ensures 1 in OwnTokens(Marking("ads"), AdsFilter) && 1 !in TokensForMatch(AdServerRequest)
    ensures !HostnameTokensClosed(AdsFilter, AdServerRequest)
  {
    AdsFilterMatches(lib);
    AdsTokenIsOpen();
    AdsTokens();
    AdServerTokens();
  }

  /** `ads/banner$script` */
  const BannerFilter := NetworkFilter(
    {FromScript, FromHttp, FromHttps, FirstParty, ThirdParty},
    Simple("ads/banner"), None, None, None, None, None, None, 0)

  /** The request for "http://b/myads/banner". */
  function BannerRequest(): Request {
    SiteRequest(Marking("ads"), "http", "myads/banner")
  }

  /** A plain filter without anchors, domains and host name. */
  predicate IsPlainFilter(f: NetworkFilter) {
    && f.part.Simple? && f.optDomains.None? && f.optNotDomains.None? && !UsesRegex(f.mask)
    && IsHostnameAnchor !in f.mask && IsLeftAnchor !in f.mask && IsRightAnchor !in f.mask && MatchCase !in f.mask
  }

  lemma PlainFilterMatches(lib: RegexLibrary, f: NetworkFilter, r: Request)
    requires Sized(r) && IsPlainFilter(f)
    ensures FilterMatches(lib, f, r) <==> CheckOptions(f.mask, r) && Find(r.urlLower, f.part.pattern).Some?
  {
    var p := f.part.pattern;
    assert Patterns(f.part) == [p] && [p][0] == p;
    assert PlainPatternMatches(f.mask, "", p, r) <==> Find(r.urlLower, p).Some?;
  }

  lemma SiteMatches(
    hash: string -> Hash, lib: RegexLibrary, f: NetworkFilter, scheme: string, rest: string, i: nat)
    requires (scheme == "http" || scheme == "https") && IsLower(rest) && '*' !in rest
    requires IsPlainFilter(f) && CheckOptions(f.mask, SiteRequest(hash, scheme, rest))
    requires OccursAt(rest, f.part.pattern, i)
    ensures WebRequest(hash, SiteRequest(hash, scheme, rest)) && FilterMatches(lib, f, SiteRequest(hash, scheme, rest))
  {
    SiteRequestIsWeb(hash, scheme, rest);
    OccursBehind(scheme + "://b/", rest, f.part.pattern, i);
    PlainFilterMatches(lib, f, SiteRequest(hash, scheme, rest));
  }

  lemma BannerMatches(lib: RegexLibrary)
    ensures WebRequest(Marking("ads"), BannerRequest()) && FilterMatches(lib, BannerFilter, BannerRequest())
  {
    BannerOptions(BannerRequest());
    BannerOccurs();
    SiteMatches(Marking("ads"), lib, BannerFilter, "http", "myads/banner", 2);
  }

  lemma BannerOccurs()
    ensures OccursAt("myads/banner", BannerFilter.part.pattern, 2)
    ensures IsLower("myads/banner") && '*' !in "myads/banner"
  {
    assert "myads/banner"[2..12] == "ads/banner";
  }

  lemma BannerOptions(r: Request)
    requires r.requestType == Script && r.isHttp && !r.isHttps && r.isThirdParty
    ensures CheckOptions(BannerFilter.mask, r) && IsPlainFilter(BannerFilter)
  {
  }

  lemma BannerHasToken()
    ensures 1 in OwnTokens(Marking("ads"), BannerFilter)
  {
    var hash, p := Marking("ads"), "ads/banner";
    assert p[0..3] == "ads";
    assert IsToken(p, UNANCHORED, 0, 3);
    TokensAreTheKeptRuns(hash, p, UNANCHORED, |p|, 1);
    assert |Tokens(hash, p, UNANCHORED)| <= |p| + 1 by { FewTokens(hash, p, UNANCHORED, |p|); }
    assert PatternTokens(hash, BannerFilter) == Tokens(hash, p, UNANCHORED);
  }

  lemma {:induction false} FewTokens(hash: string -> Hash, s: string, flags: Flags, n: nat)
    requires n <= |s|
    ensures |TokensUpto(hash, s, flags, n)| <= n + 1
  {
    if n > 0 {
      FewTokens(hash, s, flags, n - 1);
    }
  }

  /** A token that the rest of the URL does not hold is no token of the request. */
  lemma SiteLacks(t: string, rest: string)
    requires IsLower(rest) && '*' !in rest && !TokenText(rest, t)
    ensures 1 !in TokensForMatch(SiteRequest(Marking(t), SchemeBut(t), rest))
  {
    var url := SchemeBut(t) + "://b/" + rest;
    SiteRequestIsWeb(Marking(t), SchemeBut(t), rest);
    SiteHasNoToken(t, rest);
    TokensAreTheKeptRuns(Marking(t), url, ALL_RUNS, |url|, 1);
  }

  lemma BannerText()
    ensures !TokenText("myads/banner", "ads")
  {
    var text := "myads/banner";
    assert !IsTokenChar(text[5]);
    forall c, d | IsToken(text, ALL_RUNS, c, d) ensures text[c..d] != "ads" {
      assert c == 0 || c == 6;
      assert text[c] != 'a';
    }
  }

  lemma BannerTokens()
    ensures 1 !in TokensForMatch(BannerRequest())
  {
    BannerText();
    BannerScheme();
    BannerOccurs();
    SiteLacks("ads", "myads/banner");
  }

  lemma BannerScheme()
    ensures SchemeBut("ads") == "http"
  {
    assert "ads"[0] != "http"[0];
  }

  /** A filter whose first token is not bound matches a request without that token. */
  lemma UnanchoredTokenMissing(lib: RegexLibrary)
    ensures WebRequest(Marking("ads"), BannerRequest()) && FilterMatches(lib, BannerFilter, BannerRequest())
    ensures 1 in OwnTokens(Marking("ads"), BannerFilter) && 1 !in TokensForMatch(BannerRequest())
    ensures !FirstTokenBound(BannerFilter)
  {
    BannerMatches(lib);
    BannerIsOpen();
    BannerHasToken();
    BannerTokens();
  }

  lemma BannerIsOpen()
    ensures !FirstTokenBound(BannerFilter)
  {
    assert "ads/banner"[0] == 'a';
  }
}

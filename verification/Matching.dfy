/** Matching one filter against one request. */
module Matching {
  import opened Prelude
  import opened Text
  import opened Network
  import opened Interning
  import opened RegexManagement

  /** The host of a request is a part of its URL, and lower-casing keeps lengths. */
  ghost predicate Sized(request: Request) {
    |request.hostname| <= |request.url| == |request.urlLower|
  }

  /** What follows the first occurrence of the host name (or of its length, from the end). */
  function UrlAfterHostname(url: string, hostname: string): string
    requires |hostname| <= |url|
  {
    var found := Find(url, hostname);
    var start := if found.Some? then found.value else |url| - |hostname|;
    url[start + |hostname|..]
  }

  predicate IsAnchoredByHostname(filterHostname: string, hostname: string, wildcard: bool) {
    var f, n := |filterHostname|, |hostname|;
    if f == 0 then true
    else if f > n then false
    else if f == n then filterHostname == hostname
    else
      var found := Find(hostname, filterHostname);
      if found.None? then false
      else
        var m := found.value;
        // The end of the label is looked for at the length of the filter's host name, also when
        // the host name was found further on.
        var endsLabel := wildcard || EndsWith(filterHostname, ".") || StartsWith(hostname[f..], ".");
        var startsLabel := StartsWith(filterHostname, ".") || (m > 0 && StartsWith(hostname[m - 1..], "."));
        if m == 0 then endsLabel
        else if m == n - f then startsLabel
        else endsLabel && startsLabel
  }

  /** One plain pattern, for every combination of anchors. */
  predicate PlainPatternMatches(mask: Mask, hostname: string, pattern: string, request: Request)
    requires |hostname| <= |GetUrl(request, MatchCase in mask)|
  {
    var url := GetUrl(request, MatchCase in mask);
    var after := UrlAfterHostname(url, hostname);
    if IsHostnameAnchor in mask then
      if IsRightAnchor in mask && IsLeftAnchor in mask then after == pattern
      else if IsRightAnchor in mask then EndsWith(url, pattern)
      else if IsLeftAnchor in mask then StartsWith(after, pattern)
      else Find(after, pattern).Some?
    else if IsLeftAnchor in mask && IsRightAnchor in mask then url == pattern
    else if IsLeftAnchor in mask then StartsWith(url, pattern)
    else if IsRightAnchor in mask then EndsWith(url, pattern)
    else Find(url, pattern).Some?
  }

  predicate AnyPlainPatternMatches(mask: Mask, hostname: string, patterns: seq<string>, request: Request)
    requires |hostname| <= |GetUrl(request, MatchCase in mask)|
  {
    exists i :: 0 <= i < |patterns| && PlainPatternMatches(mask, hostname, patterns[i], request)
  }

  /** The part of the URL that a host-anchored regex is matched against. */
  function TextAfterHostname(url: string, hostname: string): string
    requires |hostname| <= |url|
  {
    var found := Find(url, hostname);
    url[(if found.Some? then found.value else 0) + |hostname|..]
  }

  predicate CheckPattern(
    lib: RegexLibrary, mask: Mask, patterns: seq<string>, hostname: Option<string>, request: Request)
    requires Sized(request)
  {
    var url := GetUrl(request, MatchCase in mask);
    if IsHostnameAnchor in mask then
      hostname.Some?
      && IsAnchoredByHostname(hostname.value, request.hostname, IsHostnameRegex in mask)
      && if |hostname.value| > |request.hostname| then false
         else if IsRegex in mask then MatchesAfresh(lib, mask, patterns, TextAfterHostname(url, hostname.value))
         else if patterns == [] then
           IsRightAnchor in mask && IsLeftAnchor !in mask ==>
             |request.hostname| == |hostname.value| || EndsWith(request.hostname, hostname.value)
         else AnyPlainPatternMatches(mask, hostname.value, patterns, request)
    else if UsesRegex(mask) then MatchesAfresh(lib, mask, patterns, url)
    else patterns == [] || AnyPlainPatternMatches(mask, "", patterns, request)
  }

  predicate CheckOptions(mask: Mask, request: Request) {
    && BadFilter !in mask
    && (TypeFlag(request.requestType) in mask
        || (TypeFlag(request.requestType) == FromDocument && IsException in mask))
    && (request.isHttps ==> FromHttps in mask)
    && (request.isHttp ==> FromHttp in mask)
    && (!request.isThirdParty ==> FirstParty in mask)
    && (request.isThirdParty ==> ThirdParty in mask)
  }

  /** The host name is used for matching only by host-anchored filters. */
  function MatchedHostname(filter: NetworkFilter): Option<string> {
    if IsHostnameAnchor in filter.mask then filter.hostname else None
  }

  /** Does the filter, as written in the list, match the request? */
  predicate FilterMatches(lib: RegexLibrary, filter: NetworkFilter, request: Request)
    requires Sized(request)
  {
    && CheckOptions(filter.mask, request)
    && IncludedDomain(filter.optDomains, request.sourceHashes)
    && !ExcludedDomain(filter.optNotDomains, request.sourceHashes)
    && CheckPattern(lib, filter.mask, Patterns(filter.part), MatchedHostname(filter), request)
  }

  // ----- the stored form -----

  /** A serialized filter; `key` is its location, unique for each stored filter. */
  datatype FlatNetworkFilter = FlatNetworkFilter(
    key: nat,
    mask: Mask,
    patterns: seq<string>,
    optDomains: Option<seq<nat>>,
    optNotDomains: Option<seq<nat>>,
    modifierOption: Option<string>,
    hostname: Option<string>,
    tag: Option<string>,
    rawLine: Option<string>)

  /** The stored form says the same as the filter, relative to the table of interned hashes. */
  ghost predicate Serializes(flat: FlatNetworkFilter, filter: NetworkFilter, mapping: map<Hash, nat>) {
    && flat.mask == filter.mask && flat.patterns == Patterns(filter.part)
    && flat.modifierOption == filter.modifierOption && flat.hostname == filter.hostname
    && flat.tag == filter.tag && flat.rawLine == filter.rawLine
    && Interned(filter.optDomains, flat.optDomains, mapping)
    && Interned(filter.optNotDomains, flat.optNotDomains, mapping)
  }

  method CheckPatternWith(
    flat: FlatNetworkFilter, hostname: Option<string>, request: Request, manager: RegexManager)
    returns (matched: bool)
    requires Sized(request) && manager.Valid()
    requires manager.naming(flat.key) == Subject(flat.mask, flat.patterns)
    modifies manager
    ensures manager.Valid()
    ensures matched == CheckPattern(manager.lib, flat.mask, flat.patterns, hostname, request)
  {
    var mask, url := flat.mask, GetUrl(request, MatchCase in flat.mask);
    if IsHostnameAnchor in mask {
      if hostname.None? || |hostname.value| > |request.hostname| {
        matched := false;
      } else if !IsAnchoredByHostname(hostname.value, request.hostname, IsHostnameRegex in mask) {
        matched := false;
      } else if IsRegex in mask {
        matched := manager.Matches(mask, flat.patterns, flat.key, TextAfterHostname(url, hostname.value));
      } else {
        matched := CheckPattern(manager.lib, mask, flat.patterns, hostname, request);
      }
    } else if IsRegex in mask || IsCompleteRegex in mask {
      matched := manager.Matches(mask, flat.patterns, flat.key, url);
    } else {
      matched := CheckPattern(manager.lib, mask, flat.patterns, hostname, request);
    }
  }

  /** Matching the stored form, with interned domains and cached regexes, is matching the filter. */
  method FlatFilterMatches(
    flat: FlatNetworkFilter, request: Request, mapping: map<Hash, nat>, manager: RegexManager,
    ghost filter: NetworkFilter, ghost hashes: seq<Hash>)
    returns (matched: bool)
    requires Sized(request) && manager.Valid()
    requires manager.naming(flat.key) == Subject(flat.mask, flat.patterns)
    requires Inverse(hashes, mapping) && Serializes(flat, filter, mapping)
    modifies manager
    ensures manager.Valid()
    ensures matched == FilterMatches(manager.lib, filter, request)
  {
    MappedChecksAgree(filter.optDomains, flat.optDomains, hashes, mapping, request.sourceHashes);
    MappedChecksAgree(filter.optNotDomains, flat.optNotDomains, hashes, mapping, request.sourceHashes);
    if !CheckOptions(flat.mask, request) {
      return false;
    }
    if !CheckIncludedMapped(flat.optDomains, request.sourceHashes, mapping) {
      return false;
    }
    if !CheckExcludedMapped(flat.optNotDomains, request.sourceHashes, mapping) {
      return false;
    }
    var hostname := if IsHostnameAnchor in flat.mask then flat.hostname else None;
    matched := CheckPatternWith(flat, hostname, request, manager);
  }

  // ----- host anchoring -----

  /** Does an occurrence of the name at `m` begin where a label begins? */
  predicate StartsLabel(name: string, host: string, m: nat)
    requires m <= |host|
  {
    m == 0 || StartsWith(name, ".") || host[m - 1] == '.'
  }

  /** Does an occurrence of the name that ends at `e` end where a label ends? A wildcard name need not. */
  predicate EndsLabelAt(name: string, host: string, wildcard: bool, e: nat)
    requires e <= |host|
  {
    wildcard || e == |host| || EndsWith(name, ".") || host[e] == '.'
  }

  /** The name at position `m` of the host, in whole labels. */
  predicate InWholeLabels(name: string, host: string, wildcard: bool, m: nat) {
    OccursAt(host, name, m) && StartsLabel(name, host, m) && EndsLabelAt(name, host, wildcard, m + |name|)
  }

  /** What anchoring is meant to find: the name in whole labels, anywhere in the host. */
  predicate Anchorable(name: string, host: string, wildcard: bool) {
    exists m :: 0 <= m <= |host| && InWholeLabels(name, host, wildcard, m)
  }

  /** Does the name stand in whole labels somewhere after its first occurrence? */
  predicate AnchorableLater(name: string, host: string, wildcard: bool) {
    var found := Find(host, name);
    found.Some? && exists m :: found.value < m <= |host| && InWholeLabels(name, host, wildcard, m)
  }

  /** The first occurrence is neither a prefix nor a suffix of the host. */
  predicate FoundInside(name: string, host: string) {
    var found := Find(host, name);
    found.Some? && 0 < found.value < |host| - |name|
  }

  lemma FirstOrLater(name: string, host: string, wildcard: bool)
    ensures Anchorable(name, host, wildcard) <==>
              || AnchorableLater(name, host, wildcard)
              || (Find(host, name).Some? && InWholeLabels(name, host, wildcard, Find(host, name).value))
  {
    if m :| 0 <= m <= |host| && InWholeLabels(name, host, wildcard, m) {
      assert OccursAt(host, name, m);
    }
  }

  /** At a prefix or a suffix the code looks where it should. */
  lemma EdgesAreLookedAt(name: string, host: string, wildcard: bool)
    requires name != "" && !FoundInside(name, host)
    ensures IsAnchoredByHostname(name, host, wildcard) <==>
              Find(host, name).Some? && InWholeLabels(name, host, wildcard, Find(host, name).value)
  {
    var found := Find(host, name);
    if |name| == |host| {
      assert OccursAt(host, name, 0) <==> host == name;
      assert found.Some? ==> found.value == 0;
    } else if found.Some? {
      assert host[|name|..][..1] == host[|name|..|name| + 1];
      if found.value > 0 {
        assert host[found.value - 1..][..1] == host[found.value - 1..found.value];
      }
    }
  }

  /**
   * If the name is found first as a prefix or a suffix of the host, or not at all, the code is right
   * exactly when that occurrence stands in whole labels or no later one does: it tries no other.
   */
  lemma AnchoringAtTheEdges(name: string, host: string, wildcard: bool)
    requires name != "" && !FoundInside(name, host)
    ensures (IsAnchoredByHostname(name, host, wildcard) <==> Anchorable(name, host, wildcard))
            <==>
            (AnchorableLater(name, host, wildcard) ==> InWholeLabels(name, host, wildcard, Find(host, name).value))
  {
    EdgesAreLookedAt(name, host, wildcard);
    FirstOrLater(name, host, wildcard);
  }

  /** Inside the host the end of the label is looked for at the length of the name. */
  lemma InsideIsLookedAt(name: string, host: string, wildcard: bool)
    requires name != "" && FoundInside(name, host)
    ensures IsAnchoredByHostname(name, host, wildcard) <==>
              StartsLabel(name, host, Find(host, name).value) && EndsLabelAt(name, host, wildcard, |name|)
  {
    var f, m := |name|, Find(host, name).value;
    assert host[f..][..1] == host[f..f + 1];
    assert host[m - 1..][..1] == host[m - 1..m];
  }

  /**
   * If the name is found first inside the host and stands in whole labels later, the code is right
   * exactly when the first occurrence begins a label and a label ends at the length of the name. If
   * it does not, the code is right exactly when, should the first occurrence begin a label, the two
   * places where the label could end agree.
   */
  lemma AnchoringInside(name: string, host: string, wildcard: bool)
    requires name != "" && FoundInside(name, host)
    ensures var f, m := |name|, Find(host, name).value;
            (IsAnchoredByHostname(name, host, wildcard) <==> Anchorable(name, host, wildcard))
            <==>
            if AnchorableLater(name, host, wildcard)
            then StartsLabel(name, host, m) && EndsLabelAt(name, host, wildcard, f)
            else StartsLabel(name, host, m) ==>
                   (EndsLabelAt(name, host, wildcard, f) <==> EndsLabelAt(name, host, wildcard, m + f))
  {
    InsideIsLookedAt(name, host, wildcard);
    FirstOrLater(name, host, wildcard);
  }

  // ----- inputs on which anchoring is wrong -----

  lemma FindIs(text: string, part: string, m: nat)
    requires part != "" && OccursAt(text, part, m) && part[0] !in text[..m]
    ensures Find(text, part) == Some(m)
  {
    forall i: nat | i < m ensures !OccursAt(text, part, i) {
      assert text[i] == text[..m][i];
      assert text[i..i + |part|][0] == text[i];
    }
  }

  lemma OnlyPlace(text: string, part: string, m: nat)
    requires part != "" && m < |text| && forall i :: 0 <= i < |text| && text[i] == part[0] ==> i == m
    ensures forall i :: 0 <= i && OccursAt(text, part, i) ==> i == m
  {
    forall i: nat | OccursAt(text, part, i) ensures i == m {
      assert text[i..i + |part|][0] == text[i];
    }
  }

  /** A name that occurs once, at the start of a label that goes on, in a host with a dot at the name's length. */
  lemma AnchoredByMistake(name: string, host: string, m: nat)
    requires 0 < m && m + |name| < |host| && OccursAt(host, name, m)
    requires name != "" && forall i :: 0 <= i < |host| && host[i] == name[0] ==> i == m
    requires !StartsWith(name, ".") && !EndsWith(name, ".")
    requires host[m - 1] == '.' && host[|name|] == '.' && host[m + |name|] != '.'
    ensures Find(host, name) == Some(m)
    ensures IsAnchoredByHostname(name, host, false) && !Anchorable(name, host, false)
  {
    OnlyPlace(host, name, m);
    InsideIsLookedAt(name, host, false);
  }

  lemma LabelIsAnchorable(name: string, host: string, wildcard: bool, m: nat)
    requires m <= |host| && InWholeLabels(name, host, wildcard, m)
    ensures Anchorable(name, host, wildcard)
  {
  }

  /** Found first inside the host, and no dot at the length of the name: not anchored. */
  lemma NoDotAtLength(name: string, host: string, m: nat)
    requires name != "" && Find(host, name) == Some(m) && 0 < m < |host| - |name|
    requires !EndsWith(name, ".") && host[|name|] != '.'
    ensures !IsAnchoredByHostname(name, host, false)
  {
    InsideIsLookedAt(name, host, false);
  }

  /** Found first inside the host, within a label: not anchored. */
  lemma NoLabelStarts(name: string, host: string, wildcard: bool, m: nat)
    requires name != "" && Find(host, name) == Some(m) && 0 < m < |host| - |name|
    requires !StartsWith(name, ".") && host[m - 1] != '.'
    ensures !IsAnchoredByHostname(name, host, wildcard)
  {
    InsideIsLookedAt(name, host, wildcard);
  }

  lemma AdsHasNoDots()
    ensures !StartsWith("ads", ".") && !EndsWith("ads", ".")
  {
    assert "ads"[0..1][0] == 'a' && "ads"[2..3][0] == 's';
  }

  lemma AdsAt(host: string, m: nat)
    requires m + 3 <= |host| && host[m] == 'a' && host[m + 1] == 'd' && host[m + 2] == 's'
    ensures OccursAt(host, "ads", m)
  {
    assert host[m..m + 3] == "ads";
  }

  /** "ads" is anchored in "cdn.adserver.com", where it is no label ... */
  lemma AnchoredWithinALabel()
    ensures Find("cdn.adserver.com", "ads") == Some(4)
    ensures IsAnchoredByHostname("ads", "cdn.adserver.com", false) && !Anchorable("ads", "cdn.adserver.com", false)
  {
    AdsHasNoDots();
    AdsAt("cdn.adserver.com", 4);
    AnchoredByMistake("ads", "cdn.adserver.com", 4);
  }

  /** ... and is not anchored in "b.ads.com", where it is one, ... */
  lemma NotAnchoredAtALabel()
    ensures Find("b.ads.com", "ads") == Some(2)
    ensures !IsAnchoredByHostname("ads", "b.ads.com", false) && Anchorable("ads", "b.ads.com", false)
  {
    AdsHasNoDots();
    AdsAt("b.ads.com", 2);
    assert "b.ads.com"[..2] == "b.";
    FindIs("b.ads.com", "ads", 2);
    NoDotAtLength("ads", "b.ads.com", 2);
    LabelIsAnchorable("ads", "b.ads.com", false, 2);
  }

  /** Found first at the start of the host, within a label, and later in whole labels. */
  lemma LaterLabelThanFirst(name: string, host: string, later: nat)
    requires name != "" && !EndsWith(name, ".") && OccursAt(host, name, 0)
    requires 0 < later <= |host| && InWholeLabels(name, host, false, later) && host[|name|] != '.'
    ensures !FoundInside(name, host) && !IsAnchoredByHostname(name, host, false) && Anchorable(name, host, false)
  {
    FindIs(host, name, 0);
    EdgesAreLookedAt(name, host, false);
    LabelIsAnchorable(name, host, false, later);
  }

  /** ... nor in "adserver.ads", where it is one, but not where it is found first. */
  lemma NotAnchoredAtALaterLabel()
    ensures !FoundInside("ads", "adserver.ads")
    ensures !IsAnchoredByHostname("ads", "adserver.ads", false) && Anchorable("ads", "adserver.ads", false)
  {
    AdsHasNoDots();
    AdsAt("adserver.ads", 0);
    AdsAt("adserver.ads", 9);
    LaterLabelThanFirst("ads", "adserver.ads", 9);
  }

  /** Found first inside the host, within a label, and later in whole labels. */
  lemma LaterLabelThanInside(name: string, host: string, wildcard: bool, m: nat, later: nat)
    requires name != "" && Find(host, name) == Some(m) && 0 < m < |host| - |name|
    requires !StartsWith(name, ".") && host[m - 1] != '.'
    requires later <= |host| && InWholeLabels(name, host, wildcard, later)
    ensures !IsAnchoredByHostname(name, host, wildcard) && Anchorable(name, host, wildcard)
  {
    NoLabelStarts(name, host, wildcard, m);
    LabelIsAnchorable(name, host, wildcard, later);
  }

  /** With a wildcard a later label is missed too. */
  lemma WildcardMissesALaterLabel()
    ensures !IsAnchoredByHostname("ads", "myads.ads.com", true) && Anchorable("ads", "myads.ads.com", true)
  {
    AdsHasNoDots();
    AdsAt("myads.ads.com", 2);
    AdsAt("myads.ads.com", 6);
    assert "myads.ads.com"[..2] == "my";
    FindIs("myads.ads.com", "ads", 2);
    LaterLabelThanInside("ads", "myads.ads.com", true, 2, 6);
  }
}

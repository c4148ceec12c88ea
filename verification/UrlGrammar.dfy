/** Which texts parse to a URL with a host, and to which one: a cut of the text into its pieces. */
module UrlGrammar {
  import opened Prelude
  import opened Text
  import opened UrlParser
  import opened UrlFixedPoint

  // ----- pieces -----

  /** A text, cut: white space, scheme, slashes, user information with its '@', host, rest, white space. */
  datatype Pieces = Pieces(
    lead: string, scheme: string, slashes: string, userinfo: string, host: string, rest: string, blank: string)

  function Whole(p: Pieces): string {
    p.lead + (p.scheme + ":" + (p.slashes + (p.userinfo + (p.host + p.rest)))) + p.blank
  }

  predicate IsSpecial(scheme: string) {
    Lower(scheme) in {"http", "https", "ws", "wss", "ftp", "gopher"}
  }

  predicate AllBlank(s: string) {
    forall i :: 0 <= i < |s| ==> s[i] <= ' '
  }

  /** After the scheme: any slashes either way if it is special, two otherwise. */
  predicate AreSlashes(slashes: string, special: bool) {
    if special then forall i :: 0 <= i < |slashes| ==> slashes[i] == '/' || slashes[i] == '\\' else slashes == "//"
  }

  predicate EndsAuthority(c: char, special: bool) {
    c in {'/', '?', '#'} || (c == '\\' && special)
  }

  /** Behind a '[' with no ']' since. */
  ghost predicate InBrackets(s: string, i: nat)
    requires i <= |s|
  {
    exists j :: 0 <= j < i && s[j] == '[' && forall k :: j < k < i ==> s[k] != ']'
  }

  /** The host ends with the authority, or at a ':' outside brackets. */
  ghost predicate EndsHost(text: string, i: nat, special: bool)
    requires i < |text|
  {
    EndsAuthority(text[i], special) || (text[i] == ':' && !InBrackets(text, i))
  }

  /** The first `n` characters are the host. */
  ghost predicate IsHost(text: string, n: nat, special: bool) {
    && n <= |text|
    && (forall i :: 0 <= i < n ==> !EndsHost(text, i, special))
    && (n < |text| ==> EndsHost(text, n, special))
  }

  /** No '@' before the authority ends. */
  ghost predicate WithoutAt(text: string, special: bool) {
    exists n :: 0 <= n <= |text| && AuthorityWithoutAt(text, n, special)
  }

  predicate AuthorityWithoutAt(text: string, n: nat, special: bool)
    requires n <= |text|
  {
    && (forall i :: 0 <= i < n ==> text[i] != '@' && !EndsAuthority(text[i], special))
    && (n < |text| ==> EndsAuthority(text[n], special))
  }

  /** User information ends in '@' and does not end the authority. */
  predicate IsUserinfo(s: string, special: bool) {
    && (s != "" ==> s[|s| - 1] == '@')
    && forall i :: 0 <= i < |s| ==> !EndsAuthority(s[i], special)
  }

  predicate IsSchemeText(scheme: string) {
    scheme != "" && Alphabetic(scheme[0]) && forall i :: 0 <= i < |scheme| ==> SchemeChar(scheme[i])
  }

  /** User information and a text that begins with a host of this length. */
  ghost predicate IsAuthority(userinfo: string, text: string, n: nat, special: bool) {
    IsUserinfo(userinfo, special) && WithoutAt(text, special) && n > 0 && IsHost(text, n, special)
  }

  ghost predicate WellCut(p: Pieces) {
    var special := IsSpecial(p.scheme);
    && AllBlank(p.lead) && AllBlank(p.blank)
    && IsSchemeText(p.scheme) && Lower(p.scheme) != "file"
    && AreSlashes(p.slashes, special) && IsAuthority(p.userinfo, p.host + p.rest, |p.host|, special)
    && (p.host + p.rest)[|p.host + p.rest| - 1] > ' '
  }

  /** Name and password, encoded, with ':' between and '@' behind them, as far as there are any. */
  ghost predicate ShownAs(lib: Library, userinfo: string, shown: string) {
    if userinfo == "" then shown == ""
    else
      exists name, password ::
        && SplitAtColon(userinfo[..|userinfo| - 1], name, password)
        && shown == Joined(PercentEncode(lib, name), PercentEncode(lib, password))
  }

  /** The URL: the scheme lower-cased, two slashes, the user information encoded, host and rest as they are. */
  function Made(p: Pieces, shown: string): Hostname {
    ShownUrl(Lower(p.scheme), shown, p.host + p.rest, |p.host|)
  }

  function ShownUrl(scheme: string, shown: string, text: string, n: nat): Hostname {
    var front := scheme + "://" + shown;
    Hostname(front + text, |scheme|, |front|, |front| + n)
  }

  // ----- the host -----

  lemma InBracketsNext(s: string, i: nat)
    requires i < |s|
    ensures InBrackets(s, i + 1) <==> s[i] == '[' || (InBrackets(s, i) && s[i] != ']')
  {
    if InBrackets(s, i) && s[i] != ']' {
      var j :| 0 <= j < i && s[j] == '[' && forall k :: j < k < i ==> s[k] != ']';
      assert forall k :: j < k < i + 1 ==> s[k] != ']';
    }
    if s[i] == '[' {
      assert InBrackets(s, i + 1);
    }
  }

  /** What the scan for the end of the host has seen, from position `m` on. */
  lemma {:induction false} HostFrom(text: string, special: bool, inside: bool, m: nat)
    requires m <= |text| && (inside <==> InBrackets(text, m))
    ensures var n := HostEnd(text, special, inside, m);
            && (forall i :: m <= i < n ==> !EndsHost(text, i, special))
            && (n < |text| ==> EndsHost(text, n, special))
    decreases |text| - m
  {
    if m < |text| && !(text[m] == ':' && !inside) && !Delimiter(text[m], special) {
      InBracketsNext(text, m);
      HostFrom(text, special, if text[m] == '[' then true else if text[m] == ']' then false else inside, m + 1);
    }
  }

  lemma HostEndIsHost(text: string, special: bool)
    ensures IsHost(text, HostEnd(text, special), special)
  {
    HostFrom(text, special, false, 0);
  }

  lemma HostIsOne(text: string, n: nat, special: bool)
    requires IsHost(text, n, special)
    ensures HostEnd(text, special) == n
  {
    HostEndIsHost(text, special);
  }

  // ----- user information -----

  lemma AuthorityEndIs(text: string, n: nat, special: bool)
    requires n <= |text| && AuthorityWithoutAt(text, n, special)
    ensures AuthorityEnd(text, special) == n
  {
    var end := AuthorityEnd(text, special);
    assert end < n ==> !EndsAuthority(text[end], special);
  }

  lemma WithoutAtMeans(text: string, special: bool)
    ensures WithoutAt(text, special) <==> NoUserinfo(text, special)
  {
    var end := AuthorityEnd(text, special);
    if NoUserinfo(text, special) {
      assert AuthorityWithoutAt(text, end, special);
    }
    if n :| 0 <= n <= |text| && AuthorityWithoutAt(text, n, special) {
      AuthorityEndIs(text, n, special);
    }
  }

  lemma UserinfoEnds(userinfo: string, text: string, special: bool)
    requires IsUserinfo(userinfo, special) && NoUserinfo(text, special) && userinfo != ""
    ensures LastAt(userinfo + text, special) == Some(|userinfo| - 1)
  {
    var input, n := userinfo + text, |userinfo|;
    AuthorityOf(userinfo, text, special);
    assert forall i :: n <= i < n + AuthorityEnd(text, special) ==> input[i] == text[i - n] != '@';
    assert input[n - 1] == '@';
  }

  /** User information is shown by its name and password, and taken off. */
  lemma UserinfoIsShown(lib: Library, userinfo: string, text: string, special: bool) returns (shown: string)
    requires IsUserinfo(userinfo, special) && NoUserinfo(text, special) && PlainInput(userinfo + text)
    ensures ShownAs(lib, userinfo, shown) && SplitUserinfo(lib, userinfo + text, special) == Ok((shown, text))
  {
    var input := userinfo + text;
    if userinfo == "" {
      assert input == text;
      shown := "";
    } else {
      var n := |userinfo| - 1;
      UserinfoEnds(userinfo, text, special);
      var name, password := FirstColon(userinfo[..n]);
      assert input[..n] == userinfo[..n] && input[n + 1..] == text;
      UserinfoIsJoined(lib, input, special, name, password);
      shown := Joined(PercentEncode(lib, name), PercentEncode(lib, password));
    }
  }

  lemma SplitAtColonIsOne(u: string, a: string, b: string, c: string, d: string)
    requires SplitAtColon(u, a, b) && SplitAtColon(u, c, d)
    ensures a == c && b == d
  {
    assert |a| < |u| ==> u[|a|] == ':';
    assert |c| < |u| ==> u[|c|] == ':';
    assert forall i :: 0 <= i < |a| ==> u[i] == a[i];
    assert forall i :: 0 <= i < |c| ==> u[i] == c[i];
    assert |a| == |c|;
    assert a == u[..|a|] && c == u[..|a|];
    assert |a| < |u| ==> b == u[|a| + 1..] && d == u[|a| + 1..];
  }

  lemma ShownIsOne(lib: Library, userinfo: string, one: string, other: string)
    requires ShownAs(lib, userinfo, one) && ShownAs(lib, userinfo, other)
    ensures one == other
  {
    if userinfo != "" {
      var u := userinfo[..|userinfo| - 1];
      var a, b :| SplitAtColon(u, a, b) && one == Joined(PercentEncode(lib, a), PercentEncode(lib, b));
      var c, d :| SplitAtColon(u, c, d) && other == Joined(PercentEncode(lib, c), PercentEncode(lib, d));
      SplitAtColonIsOne(u, a, b, c, d);
    }
  }

  // ----- white space and slashes -----

  lemma {:induction false} LeadIsTrimmed(lead: string, s: string)
    requires AllBlank(lead) && s != "" && s[0] > ' '
    ensures TrimStart(lead + s) == s
  {
    if lead == "" {
      assert lead + s == s;
    } else {
      assert (lead + s)[1..] == lead[1..] + s;
      LeadIsTrimmed(lead[1..], s);
    }
  }

  lemma {:induction false} BlankIsTrimmed(s: string, blank: string)
    requires AllBlank(blank) && s != "" && s[|s| - 1] > ' '
    ensures TrimEnd(s + blank) == s
  {
    if blank == "" {
      assert s + blank == s;
    } else {
      var n := |blank| - 1;
      assert (s + blank)[..|s + blank| - 1] == s + blank[..n];
      assert (s + blank)[|s + blank| - 1] == blank[n];
      BlankIsTrimmed(s, blank[..n]);
    }
  }

  lemma TrimmedIs(lead: string, s: string, blank: string)
    requires AllBlank(lead) && AllBlank(blank) && s != "" && s[0] > ' ' && s[|s| - 1] > ' '
    ensures Trim(lead + s + blank) == s
  {
    assert lead + s + blank == lead + (s + blank);
    LeadIsTrimmed(lead, s + blank);
    BlankIsTrimmed(s, blank);
  }

  lemma {:induction false} LeadOf(s: string) returns (lead: string)
    ensures AllBlank(lead) && s == lead + TrimStart(s)
    ensures TrimStart(s) != "" ==> TrimStart(s)[0] > ' '
  {
    if s != "" && ControlOrSpace(s[0]) {
      var more := LeadOf(s[1..]);
      lead := [s[0]] + more;
    } else {
      lead := "";
    }
  }

  lemma {:induction false} BlankOf(s: string) returns (blank: string)
    ensures AllBlank(blank) && s == TrimEnd(s) + blank
    ensures TrimEnd(s) != "" ==> TrimEnd(s)[|TrimEnd(s)| - 1] > ' '
  {
    if s != "" && ControlOrSpace(s[|s| - 1]) {
      var n := |s| - 1;
      var more := BlankOf(s[..n]);
      blank := more + [s[n]];
      assert s == s[..n] + [s[n]];
    } else {
      blank := "";
    }
  }

  lemma {:induction false} SlashesAreDropped(slashes: string, s: string)
    requires AreSlashes(slashes, true) && s != "" && s[0] != '/' && s[0] != '\\'
    ensures DropSlashes(slashes + s) == s
  {
    if slashes == "" {
      assert slashes + s == s;
    } else {
      assert (slashes + s)[1..] == slashes[1..] + s;
      SlashesAreDropped(slashes[1..], s);
    }
  }

  lemma {:induction false} SlashesOf(s: string) returns (slashes: string)
    ensures AreSlashes(slashes, true) && s == slashes + DropSlashes(s)
  {
    if s != "" && (s[0] == '/' || s[0] == '\\') {
      var more := SlashesOf(s[1..]);
      slashes := [s[0]] + more;
    } else {
      slashes := "";
    }
  }

  // ----- from the pieces to the URL -----

  lemma SchemeIsRead(scheme: string, rest: string)
    requires forall i :: 0 <= i < |scheme| ==> SchemeChar(scheme[i])
    ensures SplitScheme(scheme + ":" + rest, 0) == Some((Lower(scheme), rest))
  {
    var s := scheme + ":" + rest;
    SplitSchemeAt(s, 0, |scheme|);
    assert s[..|scheme|] == scheme && s[|scheme| + 1..] == rest;
  }

  lemma SpecialMeans(scheme: string)
    ensures SchemeTypeOf(Lower(scheme)).SpecialNotFile? <==> IsSpecial(scheme)
    ensures SchemeTypeOf(Lower(scheme)).File? <==> Lower(scheme) == "file"
  {
  }

  lemma SchemeParses(lib: Library, input: string, scheme: string, slashes: string, authority: string)
    requires Trim(input) == scheme + ":" + (slashes + authority) && Lower(scheme) != "file"
    requires IsSchemeText(scheme) && AreSlashes(slashes, IsSpecial(scheme)) && authority != ""
    requires IsSpecial(scheme) ==> authority[0] != '/' && authority[0] != '\\'
    ensures ParseUrl(lib, input) == AfterDoubleSlash(lib, Lower(scheme), IsSpecial(scheme), authority)
  {
    SchemeIsRead(scheme, slashes + authority);
    SpecialMeans(scheme);
    if IsSpecial(scheme) {
      SlashesAreDropped(slashes, authority);
    } else {
      assert (slashes + authority)[0..2] == "//" && (slashes + authority)[2..] == authority;
    }
  }

  lemma AuthorityIsMade(
    lib: Library, scheme: string, special: bool, authority: string, shown: string, text: string, n: nat)
    requires PlainInput(text) && IsHost(text, n, special)
    requires SplitUserinfo(lib, authority, special) == Ok((shown, text))
    ensures AfterDoubleSlash(lib, scheme, special, authority) == Ok(ShownUrl(scheme, shown, text, n))
  {
    HostIsOne(text, n, special);
    PlainHost(lib, text, special);
    PartsAreJoined(lib, scheme, special, authority, (shown, text), (text[..n], text[n..]));
    Rejoined(scheme + "://" + shown, text, n);
  }

  lemma PartsArePlain(p: Pieces)
    requires PlainInput(Whole(p))
    ensures PlainInput(p.userinfo + (p.host + p.rest)) && PlainInput(p.host + p.rest)
  {
    var authority := p.userinfo + (p.host + p.rest);
    var k := |p.lead| + |p.scheme| + 1 + |p.slashes|;
    assert forall i :: 0 <= i < |authority| ==> authority[i] == Whole(p)[k + i];
    assert forall i :: 0 <= i < |p.host + p.rest| ==> (p.host + p.rest)[i] == authority[|p.userinfo| + i];
  }

  lemma TrimmedWhole(p: Pieces)
    requires WellCut(p)
    ensures Trim(Whole(p)) == p.scheme + ":" + (p.slashes + (p.userinfo + (p.host + p.rest)))
  {
    var text := p.host + p.rest;
    var s := p.scheme + ":" + (p.slashes + (p.userinfo + text));
    assert s[0] == p.scheme[0] && s[|s| - 1] == text[|text| - 1];
    TrimmedIs(p.lead, s, p.blank);
  }

  lemma AuthorityParses(lib: Library, scheme: string, special: bool, userinfo: string, text: string, n: nat)
    returns (shown: string)
    requires IsAuthority(userinfo, text, n, special) && PlainInput(userinfo + text) && PlainInput(text)
    ensures ShownAs(lib, userinfo, shown)
    ensures AfterDoubleSlash(lib, scheme, special, userinfo + text) == Ok(ShownUrl(scheme, shown, text, n))
  {
    WithoutAtMeans(text, special);
    shown := UserinfoIsShown(lib, userinfo, text, special);
    AuthorityIsMade(lib, scheme, special, userinfo + text, shown, text, n);
  }

  lemma AuthorityStarts(userinfo: string, text: string, n: nat, special: bool)
    requires IsAuthority(userinfo, text, n, special)
    ensures var authority := userinfo + text; authority != "" && !EndsAuthority(authority[0], special)
  {
    assert !EndsHost(text, 0, special);
    assert (userinfo + text)[0] == if userinfo == "" then text[0] else userinfo[0];
  }

  /** A text cut like this parses to the URL made of the pieces. */
  lemma PiecesParse(lib: Library, p: Pieces) returns (shown: string)
    requires WellCut(p) && PlainInput(Whole(p))
    ensures ShownAs(lib, p.userinfo, shown) && ParseUrl(lib, Whole(p)) == Ok(Made(p, shown))
  {
    PartsArePlain(p);
    PiecesOpen(lib, p);
    shown := AuthorityParses(lib, Lower(p.scheme), IsSpecial(p.scheme), p.userinfo, p.host + p.rest, |p.host|);
  }

  lemma PiecesOpen(lib: Library, p: Pieces)
    requires WellCut(p)
    ensures ParseUrl(lib, Whole(p))
            == AfterDoubleSlash(lib, Lower(p.scheme), IsSpecial(p.scheme), p.userinfo + (p.host + p.rest))
  {
    TrimmedWhole(p);
    AuthorityStarts(p.userinfo, p.host + p.rest, |p.host|, IsSpecial(p.scheme));
    SchemeParses(lib, Whole(p), p.scheme, p.slashes, p.userinfo + (p.host + p.rest));
  }

  // ----- from the URL to the pieces -----

  lemma TrimCut(input: string) returns (lead: string, blank: string)
    ensures AllBlank(lead) && AllBlank(blank) && input == lead + Trim(input) + blank
    ensures Trim(input) != "" ==> Trim(input)[|Trim(input)| - 1] > ' '
  {
    lead := LeadOf(input);
    blank := BlankOf(TrimStart(input));
  }

  lemma OpeningCut(after: string, special: bool) returns (slashes: string)
    requires special || StartsWith(after, "//")
    ensures AreSlashes(slashes, special) && after == slashes + if special then DropSlashes(after) else after[2..]
  {
    if special {
      slashes := SlashesOf(after);
    } else {
      slashes := "//";
      assert after == after[0..2] + after[2..];
    }
  }

  lemma SchemeCut(trimmed: string) returns (scheme: string, after: string)
    requires trimmed != "" && Alphabetic(trimmed[0]) && SplitScheme(trimmed, 0).Some?
    ensures trimmed == scheme + ":" + after && IsSchemeText(scheme)
    ensures SplitScheme(trimmed, 0) == Some((Lower(scheme), after))
  {
    var n := SchemeFound(trimmed, 0);
    scheme, after := trimmed[..n], trimmed[n + 1..];
  }

  lemma BeforeAuthority(lib: Library, input: string) returns (scheme: string, slashes: string, authority: string)
    requires ParseUrl(lib, input).Ok?
    requires var h := ParseUrl(lib, input).value; h.hostEnd > h.hostStart
    ensures Trim(input) == scheme + ":" + (slashes + authority) && IsSchemeText(scheme)
    ensures Lower(scheme) != "file" && AreSlashes(slashes, IsSpecial(scheme))
    ensures ParseUrl(lib, input) == AfterDoubleSlash(lib, Lower(scheme), IsSpecial(scheme), authority)
  {
    var after;
    scheme, after := SchemeCut(Trim(input));
    SpecialMeans(scheme);
    slashes := OpeningCut(after, IsSpecial(scheme));
    authority := if IsSpecial(scheme) then DropSlashes(after) else after[2..];
  }

  /** Where the user information ends. */
  lemma UserinfoCut(lib: Library, authority: string, special: bool) returns (k: nat)
    requires PlainInput(authority)
    ensures k <= |authority| && IsUserinfo(authority[..k], special) && NoUserinfo(authority[k..], special)
    ensures SplitUserinfo(lib, authority, special).Ok?
    ensures SplitUserinfo(lib, authority, special).value.1 == authority[k..]
  {
    var name, password, j := UserinfoIsClean(lib, authority, special);
    k := j;
    UserinfoEndsAt(lib, authority, special, k);
  }

  lemma UserinfoEndsAt(lib: Library, authority: string, special: bool, k: nat)
    requires k <= |authority| && SplitUserinfo(lib, authority, special).Ok?
    requires SplitUserinfo(lib, authority, special).value.1 == authority[k..]
    ensures IsUserinfo(authority[..k], special)
  {
    var at := LastAt(authority, special);
    assert |authority[k..]| == |authority| - k;
    assert k == if at.Some? then at.value + 1 else 0;
  }

  lemma HostCut(lib: Library, scheme: string, special: bool, authority: string, k: nat) returns (n: nat)
    requires PlainInput(authority) && k <= |authority| && NoUserinfo(authority[k..], special)
    requires SplitUserinfo(lib, authority, special).Ok?
    requires SplitUserinfo(lib, authority, special).value.1 == authority[k..]
    requires AfterDoubleSlash(lib, scheme, special, authority).Ok?
    requires var h := AfterDoubleSlash(lib, scheme, special, authority).value; h.hostEnd > h.hostStart
    ensures n > 0 && WithoutAt(authority[k..], special) && IsHost(authority[k..], n, special)
  {
    var text := authority[k..];
    WithoutAtMeans(text, special);
    n := HostEnd(text, special);
    HostEndIsHost(text, special);
    SuffixIsPlain(authority, k);
    PlainHost(lib, text, special);
  }

  lemma AuthorityCut(lib: Library, scheme: string, special: bool, authority: string)
    returns (userinfo: string, text: string, n: nat)
    requires PlainInput(authority) && AfterDoubleSlash(lib, scheme, special, authority).Ok?
    requires var h := AfterDoubleSlash(lib, scheme, special, authority).value; h.hostEnd > h.hostStart
    ensures authority == userinfo + text && IsAuthority(userinfo, text, n, special)
  {
    var k := UserinfoCut(lib, authority, special);
    n := HostCut(lib, scheme, special, authority, k);
    userinfo, text := authority[..k], authority[k..];
  }

  lemma AuthorityIsPlain(trimmed: string, scheme: string, slashes: string, authority: string)
    requires PlainInput(trimmed) && trimmed == scheme + ":" + (slashes + authority)
    ensures PlainInput(authority)
    ensures authority != "" ==> trimmed[|trimmed| - 1] == authority[|authority| - 1]
  {
    var k := |scheme| + 1 + |slashes|;
    assert forall i :: 0 <= i < |authority| ==> authority[i] == trimmed[k + i];
  }

  lemma TrimmedIsCut(lib: Library, input: string)
    returns (scheme: string, slashes: string, userinfo: string, text: string, n: nat)
    requires PlainInput(input) && ParseUrl(lib, input).Ok?
    requires var h := ParseUrl(lib, input).value; h.hostEnd > h.hostStart
    ensures Trim(input) == scheme + ":" + (slashes + (userinfo + text))
    ensures IsSchemeText(scheme) && Lower(scheme) != "file" && AreSlashes(slashes, IsSpecial(scheme))
    ensures IsAuthority(userinfo, text, n, IsSpecial(scheme)) && text[|text| - 1] > ' '
  {
    var authority;
    scheme, slashes, authority := PlainBeforeAuthority(lib, input);
    userinfo, text, n := AuthorityCut(lib, Lower(scheme), IsSpecial(scheme), authority);
    LastOfText(authority, userinfo, text);
  }

  lemma PlainBeforeAuthority(lib: Library, input: string) returns (scheme: string, slashes: string, authority: string)
    requires PlainInput(input) && ParseUrl(lib, input).Ok?
    requires var h := ParseUrl(lib, input).value; h.hostEnd > h.hostStart
    ensures Trim(input) == scheme + ":" + (slashes + authority) && IsSchemeText(scheme)
    ensures Lower(scheme) != "file" && AreSlashes(slashes, IsSpecial(scheme))
    ensures PlainInput(authority) && (authority != "" ==> authority[|authority| - 1] > ' ')
    ensures ParseUrl(lib, input) == AfterDoubleSlash(lib, Lower(scheme), IsSpecial(scheme), authority)
  {
    scheme, slashes, authority := BeforeAuthority(lib, input);
    TrimmedInput(input);
    AuthorityIsPlain(Trim(input), scheme, slashes, authority);
  }

  lemma LastOfText(authority: string, userinfo: string, text: string)
    requires authority == userinfo + text && text != "" && authority[|authority| - 1] > ' '
    ensures text[|text| - 1] > ' '
  {
  }

  /** Every plain text that parses to a URL with a host is cut like this. */
  lemma ParsedIsCut(lib: Library, input: string) returns (p: Pieces)
    requires PlainInput(input) && ParseUrl(lib, input).Ok?
    requires var h := ParseUrl(lib, input).value; h.hostEnd > h.hostStart
    ensures WellCut(p) && Whole(p) == input
  {
    var lead, blank := TrimCut(input);
    var scheme, slashes, userinfo, text, n := TrimmedIsCut(lib, input);
    p := PiecesOf(lead, scheme, slashes, userinfo, text, n, blank);
  }

  lemma PiecesOf(
    lead: string, scheme: string, slashes: string, userinfo: string, text: string, n: nat, blank: string)
    returns (p: Pieces)
    requires AllBlank(lead) && AllBlank(blank) && IsSchemeText(scheme) && Lower(scheme) != "file"
    requires AreSlashes(slashes, IsSpecial(scheme)) && IsAuthority(userinfo, text, n, IsSpecial(scheme))
    requires text[|text| - 1] > ' '
    ensures WellCut(p) && Whole(p) == lead + (scheme + ":" + (slashes + (userinfo + text))) + blank
  {
    p := Pieces(lead, scheme, slashes, userinfo, text[..n], text[n..], blank);
    assert text == p.host + p.rest;
  }

  // ----- exactly when -----

  ghost predicate MadeFrom(lib: Library, input: string, h: Hostname, p: Pieces) {
    WellCut(p) && Whole(p) == input && exists shown :: ShownAs(lib, p.userinfo, shown) && h == Made(p, shown)
  }

  /** A plain text parses to a URL with a host exactly when it is cut into pieces that the URL is made of. */
  lemma ParsesExactlyWhen(lib: Library, input: string, h: Hostname)
    requires PlainInput(input)
    ensures ParseUrl(lib, input) == Ok(h) && h.hostEnd > h.hostStart <==> exists p :: MadeFrom(lib, input, h, p)
  {
    if ParseUrl(lib, input) == Ok(h) && h.hostEnd > h.hostStart {
      var p := ParsedIsCut(lib, input);
      var shown := PiecesParse(lib, p);
      assert MadeFrom(lib, input, h, p);
    }
    if p :| MadeFrom(lib, input, h, p) {
      var shown := PiecesParse(lib, p);
      var other :| ShownAs(lib, p.userinfo, other) && h == Made(p, other);
      ShownIsOne(lib, p.userinfo, shown, other);
    }
  }

  // ----- texts without a host, and errors -----

  /** Any other scheme without two slashes: no host, and all of the text lower-cased. */
  lemma HostlessParses(lib: Library, lead: string, scheme: string, rest: string, blank: string)
    requires AllBlank(lead) && AllBlank(blank) && IsSchemeText(scheme)
    requires !IsSpecial(scheme) && Lower(scheme) != "file"
    requires !StartsWith(rest, "//") && (rest != "" ==> rest[|rest| - 1] > ' ')
    ensures ParseUrl(lib, lead + (scheme + ":" + rest) + blank)
            == Ok(Hostname(Lower(scheme) + ":" + Lower(rest), |scheme|, |scheme| + 1, |scheme| + 1))
  {
    TrimmedIs(lead, scheme + ":" + rest, blank);
    SchemeIsRead(scheme, rest);
    SpecialMeans(scheme);
  }

  lemma FileIsRefused(lib: Library, lead: string, scheme: string, rest: string, blank: string)
    requires AllBlank(lead) && AllBlank(blank) && IsSchemeText(scheme) && Lower(scheme) == "file"
    requires rest != "" ==> rest[|rest| - 1] > ' '
    ensures ParseUrl(lib, lead + (scheme + ":" + rest) + blank) == Err(FileUrlNotSupported)
  {
    TrimmedIs(lead, scheme + ":" + rest, blank);
    SchemeIsRead(scheme, rest);
    SpecialMeans(scheme);
  }

  /** A text that is not refused for want of a scheme begins with one, but for white space. */
  lemma HasScheme(lib: Library, input: string) returns (lead: string, scheme: string, rest: string)
    requires ParseUrl(lib, input) != Err(RelativeUrlWithoutBase)
    ensures AllBlank(lead) && IsSchemeText(scheme) && input == lead + (scheme + ":" + rest)
  {
    var blank, after;
    lead, blank := TrimCut(input);
    scheme, after := SchemeCut(Trim(input));
    rest := after + blank;
    assert scheme + ":" + after + blank == scheme + ":" + rest;
  }

  // ----- what encoding does to user information -----

  /** The printable characters that stay as they are: letters, digits and these. */
  predicate KeptInUserinfo(c: char) {
    || 'a' <= c <= 'z' || 'A' <= c <= 'Z' || '0' <= c <= '9'
    || c in {'!', '$', '%', '&', '\'', '(', ')', '*', '+', ',', '-', '.', '_', '~'}
  }

  lemma EncodedUnlessKept(lib: Library, c: char)
    requires c as int < 128
    ensures PercentEncodeChar(lib, c) == [c] <==> KeptInUserinfo(c)
    ensures !KeptInUserinfo(c) ==> var e := PercentEncodeChar(lib, c);
              |e| == 3 && e[0] == '%' && HexAhead(e[1..]) && HexValue(e[1]) * 16 + HexValue(e[2]) == c as int
              && e[1] <= 'F' && e[2] <= 'F'
  {
    forall n: nat | n < 16 ensures IsHex(HexDigit(n)) && HexValue(HexDigit(n)) == n && HexDigit(n) <= 'F' {
      HexDigitIs(n);
    }
  }

  predicate IsHex(c: char) {
    '0' <= c <= '9' || 'A' <= c <= 'F' || 'a' <= c <= 'f'
  }

  function HexValue(c: char): (v: nat)
    requires IsHex(c)
    ensures v < 16
  {
    if c <= '9' then c as int - '0' as int else if c <= 'F' then c as int - 'A' as int + 10
    else c as int - 'a' as int + 10
  }

  predicate HexAhead(s: string) {
    |s| >= 2 && IsHex(s[0]) && IsHex(s[1])
  }

  lemma HexDigitIs(n: nat)
    requires n < 16
    ensures IsHex(HexDigit(n)) && HexValue(HexDigit(n)) == n && HexDigit(n) <= 'F'
  {
  }

  /** Percent-decoding. */
  function PercentDecode(s: string): string {
    if s == "" then ""
    else if s[0] == '%' && HexAhead(s[1..]) then
      [(HexValue(s[1]) * 16 + HexValue(s[2])) as char] + PercentDecode(s[3..])
    else [s[0]] + PercentDecode(s[1..])
  }

  lemma EncodedAhead(lib: Library, s: string)
    requires IsAscii(s)
    ensures HexAhead(PercentEncode(lib, s)) <==> HexAhead(s)
    ensures HexAhead(s) ==> PercentEncode(lib, s) == s[..2] + PercentEncode(lib, s[2..])
  {
    if s != "" {
      EncodedUnlessKept(lib, s[0]);
      if |s| > 1 {
        EncodedUnlessKept(lib, s[1]);
        assert s[1..][1..] == s[2..];
        assert s[..2] == [s[0]] + [s[1]];
        assert HexAhead(s) ==> PercentEncode(lib, s) == [s[0]] + ([s[1]] + PercentEncode(lib, s[2..]));
      }
    }
  }

  /** Encoding changes nothing that decoding could tell. */
  lemma {:induction false} EncodedDecodes(lib: Library, s: string)
    requires IsAscii(s)
    ensures PercentDecode(PercentEncode(lib, s)) == PercentDecode(s)
    decreases |s|
  {
    if s != "" {
      EncodedUnlessKept(lib, s[0]);
      EncodedAhead(lib, s[1..]);
      EncodedDecodes(lib, s[1..]);
      if s[0] == '%' && HexAhead(s[1..]) {
        EncodedDecodes(lib, s[3..]);
        EscapeDecodes(lib, s);
      } else {
        if KeptInUserinfo(s[0]) {
          DecodesOne(s[0], PercentEncode(lib, s[1..]));
        } else {
          DecodesTriple(PercentEncodeChar(lib, s[0]), PercentEncode(lib, s[1..]));
        }
        DecodesOne(s[0], s[1..]);
        assert s == [s[0]] + s[1..];
      }
    }
  }

  /** What already is an escape stays one. */
  lemma EscapeDecodes(lib: Library, s: string)
    requires |s| >= 3 && s[0] == '%' && HexAhead(s[1..]) && IsAscii(s)
    requires PercentDecode(PercentEncode(lib, s[3..])) == PercentDecode(s[3..])
    ensures PercentDecode(PercentEncode(lib, s)) == PercentDecode(s)
  {
    EscapeEncodes(lib, s);
    DecodesTriple(s[..3], PercentEncode(lib, s[3..]));
    DecodesTriple(s[..3], s[3..]);
    assert s == s[..3] + s[3..];
  }

  lemma EscapeEncodes(lib: Library, s: string)
    requires |s| >= 3 && s[0] == '%' && HexAhead(s[1..]) && IsAscii(s)
    ensures PercentEncode(lib, s) == s[..3] + PercentEncode(lib, s[3..]) && HexAhead(s[..3][1..])
  {
    EncodedUnlessKept(lib, s[0]);
    EncodedAhead(lib, s[1..]);
    assert s[1..][2..] == s[3..] && s[..3] == [s[0]] + s[1..][..2];
  }

  lemma DecodesOne(c: char, rest: string)
    requires c != '%' || !HexAhead(rest)
    ensures PercentDecode([c] + rest) == [c] + PercentDecode(rest)
  {
    assert ([c] + rest)[1..] == rest;
  }

  lemma DecodesTriple(triple: string, rest: string)
    requires |triple| == 3 && triple[0] == '%' && HexAhead(triple[1..])
    ensures PercentDecode(triple + rest)
            == [(HexValue(triple[1]) * 16 + HexValue(triple[2])) as char] + PercentDecode(rest)
  {
    var s := triple + rest;
    assert s[1..][0] == triple[1] && s[1..][1] == triple[2] && s[3..] == rest;
  }
}

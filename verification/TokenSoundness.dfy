/** Every token of a filter that matches a request is a token of the request. */
module TokenSoundness {
  import opened Prelude
  import opened Text
  import opened Network
  import opened Tokenizer
  import opened FilterTokens
  import opened RegexManagement
  import opened Interning
  import opened Matching

  // ----- wildcard patterns -----

  /** What '^' stands for: anything but a letter, a digit, '_', '-', '.' or '%'. */
  predicate IsSeparator(c: char) {
    !IsTokenChar(c) && c != '_' && c != '-' && c != '.'
  }

  /** The pattern from `k` on matches the text from `i` to `j`. */
  ghost predicate Aligned(p: string, k: nat, text: string, i: nat, j: nat)
    requires k <= |p| && i <= j <= |text|
    decreases |p| - k
  {
    if k == |p| then i == j
    else if p[k] == '*' then var rest := k + 1; exists n :: i <= n <= j && Aligned(p, rest, text, n, j)
    else if p[k] == '^' then
      || (i < j && IsSeparator(text[i]) && Aligned(p, k + 1, text, i + 1, j))
      || (k + 1 == |p| && i == j == |text|)
    else i < j && text[i] == p[k] && Aligned(p, k + 1, text, i + 1, j)
  }

  ghost predicate WildcardMatches(p: string, anchors: Anchors, text: string) {
    exists i, j :: 0 <= i <= j <= |text| && Aligned(p, 0, text, i, j)
      && (anchors.left ==> i == 0) && (anchors.right ==> j == |text|)
  }

  /** What is assumed of the regex library: a translated wildcard pattern matches only as it reads. */
  ghost predicate ReadsWildcards(lib: RegexLibrary) {
    forall p, anchors: Anchors, text :: '\\' !in p && !anchors.complete && lib.isMatch(p, anchors, text) ==>
      WildcardMatches(p, anchors, text)
  }

  // ----- a part of a pattern, placed in a text -----

  /** `p[a..b]` is found at `x`, with no token character before or after that `p` did not ask for. */
  ghost predicate Placed(p: string, a: nat, b: nat, text: string, x: nat)
    requires a <= b <= |p|
  {
    && OccursAt(text, p[a..b], x)
    && (a > 0 ==> x > 0 && !IsTokenChar(text[x - 1]))
    && (b < |p| ==> x + b - a == |text| || !IsTokenChar(text[x + b - a]))
  }

  lemma PlacedByOccurrence(p: string, a: nat, b: nat, text: string, i: nat)
    requires IsRun(p, a, b) && OccursAt(text, p, i)
    ensures Placed(p, a, b, text, i + a)
  {
    assert forall k :: 0 <= k < |p| ==> text[i + k] == text[i..i + |p|][k] == p[k];
    assert text[i + a..i + b] == p[a..b];
  }

  /** Walking along an alignment up to position `n` of the pattern. */
  lemma {:induction false} WalkTo(p: string, k: nat, n: nat, text: string, i: nat, j: nat) returns (x: nat)
    requires k <= n < |p| && i <= j <= |text| && Aligned(p, k, text, i, j)
    ensures i <= x <= j && Aligned(p, n, text, x, j)
    ensures k == n ==> x == i
    ensures k < n && !IsTokenChar(p[n - 1]) && p[n - 1] != '*' ==> x > 0 && !IsTokenChar(text[x - 1])
    decreases n - k
  {
    if k == n {
      x := i;
    } else if p[k] == '*' {
      var m :| i <= m <= j && Aligned(p, k + 1, text, m, j);
      x := WalkTo(p, k + 1, n, text, m, j);
    } else {
      x := WalkTo(p, k + 1, n, text, i + 1, j);
    }
  }

  /** A stretch of token characters is matched literally. */
  lemma {:induction false} WalkRun(p: string, a: nat, b: nat, text: string, i: nat, j: nat)
    requires a <= b <= |p| && i <= j <= |text| && Aligned(p, a, text, i, j)
    requires forall k :: a <= k < b ==> IsTokenChar(p[k])
    ensures i + b - a <= j && text[i..i + b - a] == p[a..b] && Aligned(p, b, text, i + b - a, j)
    decreases b - a
  {
    if a < b {
      WalkRun(p, a + 1, b, text, i + 1, j);
      assert text[i..i + b - a] == [text[i]] + text[i + 1..i + b - a];
      assert p[a..b] == [p[a]] + p[a + 1..b];
    }
  }

  lemma PlacedByAlignment(p: string, a: nat, b: nat, text: string, i: nat, j: nat) returns (x: nat)
    requires IsRun(p, a, b) && i <= j <= |text| && Aligned(p, 0, text, i, j)
    requires a > 0 ==> p[a - 1] != '*'
    requires b < |p| ==> p[b] != '*'
    ensures Placed(p, a, b, text, x) && (a == 0 ==> x == i) && (b == |p| ==> x + b - a == j)
  {
    x := WalkTo(p, 0, a, text, i, j);
    WalkRun(p, a, b, text, x, j);
  }

  /** A placed run of the pattern is a run of the text, if its ends are closed too. */
  lemma PlacedIsRun(p: string, a: nat, b: nat, text: string, x: nat)
    requires IsRun(p, a, b) && b - a > 1 && Placed(p, a, b, text, x) && '*' !in text
    requires a == 0 ==> x == 0 || !IsTokenChar(text[x - 1])
    requires b == |p| ==> x + b - a == |text| || !IsTokenChar(text[x + b - a])
    ensures IsToken(text, ALL_RUNS, x, x + b - a) && text[x..x + b - a] == p[a..b]
  {
    var y := x + b - a;
    assert forall k :: x <= k < y ==> text[k] == text[x..y][k - x] == p[a..b][k - x] == p[a + k - x];
  }

  lemma PlacedIsToken(hash: string -> Hash, p: string, a: nat, b: nat, text: string, x: nat)
    requires IsRun(p, a, b) && b - a > 1 && Placed(p, a, b, text, x) && '*' !in text
    requires a == 0 ==> x == 0 || !IsTokenChar(text[x - 1])
    requires b == |p| ==> x + b - a == |text| || !IsTokenChar(text[x + b - a])
    ensures hash(p[a..b]) in Tokens(hash, text, ALL_RUNS)
  {
    PlacedIsRun(p, a, b, text, x);
    TokensAreTheKeptRuns(hash, text, ALL_RUNS, |text|, hash(p[a..b]));
  }

  // ----- what requests and filters look like -----

  /** A request as built from a parsed URL. */
  ghost predicate WellFormedRequest(hash: string -> Hash, r: Request) {
    && r.urlLower == Lower(r.url)
    && r.tokens == UrlTokens(hash, r.urlLower)
    && (r.isHttp ==> StartsWith(r.urlLower, "http:"))
    && (r.isHttps ==> StartsWith(r.urlLower, "https:"))
    && exists start: nat :: HostAt(r, start)
  }

  /** The host lies at `start`, between characters that are no token characters. */
  ghost predicate HostAt(r: Request, start: nat) {
    && start > 0 && OccursAt(r.url, r.hostname, start) && !IsTokenChar(r.url[start - 1])
    && (start + |r.hostname| < |r.url| ==> !IsTokenChar(r.url[start + |r.hostname|]))
  }

  /** What parsing a filter line guarantees, for patterns without a backslash. */
  ghost predicate ParsedFilter(f: NetworkFilter) {
    && (f.hostname.Some? <==> IsHostnameAnchor in f.mask)
    && (f.hostname.Some? ==> IsLower(f.hostname.value))
    && (MatchCase in f.mask ==> IsCompleteRegex in f.mask)
    && (f.part.Simple? ==> '\\' !in f.part.pattern)
  }

  /** The first token of the pattern, if any, is bound to start where a token of the URL starts. */
  predicate FirstTokenBound(f: NetworkFilter) {
    f.part.Simple? && f.part.pattern != "" && IsTokenChar(f.part.pattern[0]) ==>
      || (IsLeftAnchor in f.mask && IsHostnameAnchor !in f.mask)
      || (IsRightAnchor in f.mask && exists i :: 0 <= i < |f.part.pattern| && !IsTokenChar(f.part.pattern[i]))
  }

  /**
   * The last token of the host name is closed in the URL: the first place where the name is found
   * in the host ends a label, or the name does not end in a token that it does not hold elsewhere.
   * Other requests may hold that token by chance, as "cdn.adserver.ads" holds "ads".
   */
  ghost predicate HostnameTokensClosed(f: NetworkFilter, r: Request) {
    f.hostname.Some? && f.hostname.value != "" && IsHostnameRegex !in f.mask ==>
      || EndTokenRepeats(f.hostname.value)
      || var found := Find(r.hostname, f.hostname.value);
         found.Some? ==> EndsLabel(f.hostname.value, r.hostname, found.value)
  }

  /** A token that reaches the end of the name, if there is one, is found further ahead in the name too. */
  ghost predicate EndTokenRepeats(name: string) {
    forall a {:trigger IsToken(name, ALL_RUNS, a, |name|)} :: IsToken(name, ALL_RUNS, a, |name|) ==>
      exists c, d :: d < |name| && IsToken(name, ALL_RUNS, c, d) && name[c..d] == name[a..]
  }

  predicate EndsLabel(name: string, host: string, m: nat)
    requires name != "" && OccursAt(host, name, m)
  {
    m + |name| == |host| || name[|name| - 1] == '.' || host[m + |name|] == '.'
  }

  lemma LowerKeepsTokenChars(c: char)
    ensures IsTokenChar(LowerChar(c)) <==> IsTokenChar(c)
  {
  }

  lemma UrlTokensAreMatched(hash: string -> Hash, r: Request, h: Hash)
    requires WellFormedRequest(hash, r) && |Tokens(hash, r.urlLower, ALL_RUNS)| < 255
    requires h in Tokens(hash, r.urlLower, ALL_RUNS)
    ensures h in TokensForMatch(r)
  {
    assert h in r.tokens;
  }

  // ----- pattern tokens -----

  /** Where a run of the pattern lies in the URL, when the filter matches. */
  ghost predicate Located(f: NetworkFilter, url: string, a: nat, b: nat, x: nat)
    requires f.part.Simple? && a <= b <= |f.part.pattern|
  {
    && Placed(f.part.pattern, a, b, url, x)
    && (a == 0 && IsLeftAnchor in f.mask && IsHostnameAnchor !in f.mask ==> x == 0)
    && (b == |f.part.pattern| && IsRightAnchor in f.mask ==> x + b - a == |url|)
  }

  lemma PlacedInSuffix(p: string, a: nat, b: nat, text: string, from: nat, x: nat)
    requires a <= b <= |p| && from <= |text| && Placed(p, a, b, text[from..], x)
    ensures Placed(p, a, b, text, from + x)
  {
    assert text[from..][x..x + b - a] == text[from + x..from + x + b - a];
  }

  lemma LocatedByRegex(lib: RegexLibrary, f: NetworkFilter, url: string, from: nat, a: nat, b: nat) returns (x: nat)
    requires ReadsWildcards(lib) && ParsedFilter(f) && f.part.Simple? && f.part.pattern != ""
    requires IsCompleteRegex !in f.mask && IsRegex in f.mask
    requires from <= |url| && (IsHostnameAnchor !in f.mask ==> from == 0)
    requires MatchesAfresh(lib, f.mask, [f.part.pattern], url[from..])
    requires IsToken(f.part.pattern, PatternFlags(f), a, b)
    ensures Located(f, url, a, b, x)
  {
    var p, text, anchors := f.part.pattern, url[from..], AnchorsOf(f.mask);
    assert MakeRegex(lib, f.mask, [p]) == Compiled(p, anchors) by {
      assert [p][0] == p;
    }
    assert WildcardMatches(p, anchors, text);
    var i, j :| 0 <= i <= j <= |text| && Aligned(p, 0, text, i, j)
      && (anchors.left ==> i == 0) && (anchors.right ==> j == |text|);
    var y := PlacedByAlignment(p, a, b, text, i, j);
    PlacedInSuffix(p, a, b, url, from, y);
    x := from + y;
  }

  lemma OccursInSuffix(text: string, from: nat, part: string, j: nat)
    requires from <= |text| && OccursAt(text[from..], part, j)
    ensures OccursAt(text, part, from + j)
  {
    assert text[from..][j..j + |part|] == text[from + j..from + j + |part|];
  }

  /** A plain pattern that matches occurs in the URL, at the end its anchors bind it to. */
  lemma PlainOccurrence(f: NetworkFilter, hostname: string, r: Request) returns (i: nat)
    requires f.part.Simple? && MatchCase !in f.mask
    requires |hostname| <= |r.urlLower| && PlainPatternMatches(f.mask, hostname, f.part.pattern, r)
    ensures OccursAt(r.urlLower, f.part.pattern, i)
    ensures IsLeftAnchor in f.mask && IsHostnameAnchor !in f.mask ==> i == 0
    ensures IsRightAnchor in f.mask ==> i + |f.part.pattern| == |r.urlLower|
  {
    var p, url := f.part.pattern, r.urlLower;
    if IsHostnameAnchor in f.mask && (IsLeftAnchor in f.mask || IsRightAnchor !in f.mask) {
      i := OccurrenceAfter(url, hostname, p, IsLeftAnchor in f.mask, IsRightAnchor in f.mask);
    } else {
      i := if IsRightAnchor in f.mask then |url| - |p| else if IsLeftAnchor in f.mask then 0 else Find(url, p).value;
      assert url[0..|url|] == url;
    }
  }

  /** A pattern that is looked for after the host name. */
  lemma OccurrenceAfter(url: string, hostname: string, p: string, left: bool, right: bool) returns (i: nat)
    requires |hostname| <= |url| && (right ==> left)
    requires var after := UrlAfterHostname(url, hostname);
             if right then after == p else if left then StartsWith(after, p) else Find(after, p).Some?
    ensures OccursAt(url, p, i) && (right ==> i + |p| == |url|)
  {
    var after := UrlAfterHostname(url, hostname);
    var j := if left then 0 else Find(after, p).value;
    assert after[0..|after|] == after;
    i := |url| - |after| + j;
    OccursInSuffix(url, |url| - |after|, p, j);
  }

  lemma LocatedPlainly(f: NetworkFilter, hostname: string, r: Request, a: nat, b: nat) returns (x: nat)
    requires f.part.Simple? && MatchCase !in f.mask
    requires |hostname| <= |r.urlLower| && PlainPatternMatches(f.mask, hostname, f.part.pattern, r)
    requires IsToken(f.part.pattern, PatternFlags(f), a, b)
    ensures Located(f, r.urlLower, a, b, x)
  {
    var i := PlainOccurrence(f, hostname, r);
    PlacedByOccurrence(f.part.pattern, a, b, r.urlLower, i);
    x := i + a;
  }

  /** The text that the single regex of a filter was matched against: the URL from some place on. */
  lemma RegexTextOf(lib: RegexLibrary, f: NetworkFilter, r: Request) returns (from: nat)
    requires f.part.Simple? && MatchCase !in f.mask && IsRegex in f.mask
    requires Sized(r) && CheckPattern(lib, f.mask, [f.part.pattern], MatchedHostname(f), r)
    ensures from <= |r.urlLower| && (IsHostnameAnchor !in f.mask ==> from == 0)
    ensures MatchesAfresh(lib, f.mask, [f.part.pattern], r.urlLower[from..])
  {
    var url := r.urlLower;
    from := if IsHostnameAnchor in f.mask then |url| - |TextAfterHostname(url, f.hostname.value)| else 0;
    assert url[0..] == url;
  }

  lemma PlainTextOf(lib: RegexLibrary, f: NetworkFilter, hostname: string, r: Request)
    requires f.part.Simple? && MatchCase !in f.mask && IsRegex !in f.mask && IsCompleteRegex !in f.mask
    requires Sized(r) && CheckPattern(lib, f.mask, [f.part.pattern], MatchedHostname(f), r)
    requires hostname == if IsHostnameAnchor in f.mask && f.hostname.Some? then f.hostname.value else ""
    ensures |hostname| <= |r.urlLower| && PlainPatternMatches(f.mask, hostname, f.part.pattern, r)
  {
    var p := f.part.pattern;
    var i :| 0 <= i < |[p]| && PlainPatternMatches(f.mask, hostname, [p][i], r);
  }

  lemma PatternIsLocated(lib: RegexLibrary, f: NetworkFilter, r: Request, a: nat, b: nat) returns (x: nat)
    requires ReadsWildcards(lib) && ParsedFilter(f) && f.part.Simple? && IsCompleteRegex !in f.mask
    requires Sized(r) && CheckPattern(lib, f.mask, Patterns(f.part), MatchedHostname(f), r)
    requires IsToken(f.part.pattern, PatternFlags(f), a, b)
    ensures Located(f, r.urlLower, a, b, x)
  {
    assert Patterns(f.part) == [f.part.pattern];
    if IsRegex in f.mask {
      var from := RegexTextOf(lib, f, r);
      x := LocatedByRegex(lib, f, r.urlLower, from, a, b);
    } else {
      var hostname := if IsHostnameAnchor in f.mask && f.hostname.Some? then f.hostname.value else "";
      PlainTextOf(lib, f, hostname, r);
      x := LocatedPlainly(f, hostname, r, a, b);
    }
  }

  lemma PatternTokensAreFound(hash: string -> Hash, lib: RegexLibrary, f: NetworkFilter, r: Request, h: Hash)
    requires ReadsWildcards(lib) && ParsedFilter(f) && FirstTokenBound(f)
    requires Sized(r) && '*' !in r.urlLower
    requires CheckPattern(lib, f.mask, Patterns(f.part), MatchedHostname(f), r)
    requires h in PatternTokens(hash, f)
    ensures h in Tokens(hash, r.urlLower, ALL_RUNS)
  {
    var p, flags := f.part.pattern, PatternFlags(f);
    TokensAreTheKeptRuns(hash, p, flags, |p|, h);
    var a, b :| IsToken(p, flags, a, b) && b <= |p| && hash(p[a..b]) == h;
    var x := PatternIsLocated(lib, f, r, a, b);
    if a == 0 && IsRightAnchor in f.mask {
      assert IsTokenChar(p[0]);
      assert forall i :: 0 <= i < b ==> IsTokenChar(p[i]);
    }
    PlacedIsToken(hash, p, a, b, r.urlLower, x);
  }

  // ----- host name tokens -----

  lemma AnchoredSomewhere(name: string, host: string, wildcard: bool) returns (m: nat)
    requires name != "" && IsAnchoredByHostname(name, host, wildcard)
    ensures Find(host, name) == Some(m)
    ensures m == 0 || name[0] == '.' || host[m - 1] == '.'
  {
    if |name| == |host| {
      assert host[0..|host|] == name;
      assert OccursAt(host, name, 0);
      m := 0;
    } else {
      m := Find(host, name).value;
      if m > 0 {
        assert host[m - 1..][0..1] == [host[m - 1]];
        assert name[0..1] == [name[0]];
      }
    }
  }

  lemma InTheUrl(r: Request, start: nat, name: string, m: nat)
    requires r.urlLower == Lower(r.url) && HostAt(r, start)
    requires IsLower(name) && OccursAt(r.hostname, name, m)
    ensures OccursAt(r.urlLower, name, start + m)
    ensures m == 0 || r.hostname[m - 1] == '.' ==> !IsTokenChar(r.urlLower[start + m - 1])
    ensures var end := m + |name|;
            end == |r.hostname| || r.hostname[end] == '.' ==>
              start + end == |r.urlLower| || !IsTokenChar(r.urlLower[start + end])
  {
    var host, end := r.hostname, m + |name|;
    assert forall k :: 0 <= k < |host| ==> r.url[start + k] == r.url[start..start + |host|][k] == host[k];
    assert r.url[start + m..start + end] == host[m..end];
    OccursInLower(r.url, name, start + m);
    LowerKeepsTokenChars(r.url[start + m - 1]);
    if start + end < |r.url| {
      LowerKeepsTokenChars(r.url[start + end]);
    }
  }

  /** What is tokenized of a host name ends with it or before a dot: its tokens are tokens of the name. */
  lemma TokenizedRun(f: NetworkFilter, a: nat, b: nat)
    requires f.hostname.Some? && IsToken(TokenizedHostname(f), ALL_RUNS, a, b)
    ensures IsToken(f.hostname.value, ALL_RUNS, a, b)
    ensures TokenizedHostname(f)[a..b] == f.hostname.value[a..b]
    ensures IsHostnameRegex in f.mask ==> b < |f.hostname.value|
  {
    var part, name := TokenizedHostname(f), f.hostname.value;
    assert part == name[..|part|];
  }

  lemma ClosedRunIsToken(hash: string -> Hash, name: string, url: string, i: nat, a: nat, b: nat)
    requires IsToken(name, ALL_RUNS, a, b) && OccursAt(url, name, i) && '*' !in url
    requires a == 0 ==> i == 0 || !IsTokenChar(url[i - 1])
    requires b == |name| ==> i + b == |url| || !IsTokenChar(url[i + b])
    ensures hash(name[a..b]) in Tokens(hash, url, ALL_RUNS)
  {
    PlacedByOccurrence(name, a, b, url, i);
    PlacedIsToken(hash, name, a, b, url, i + a);
  }

  /** A token of the host name, which is found at `m` in the host. */
  lemma HostnameRunIsFound(hash: string -> Hash, name: string, r: Request, start: nat, m: nat, a: nat, b: nat)
    requires name != "" && IsLower(name) && IsToken(name, ALL_RUNS, a, b)
    requires r.urlLower == Lower(r.url) && '*' !in r.urlLower && HostAt(r, start)
    requires OccursAt(r.hostname, name, m) && (m == 0 || name[0] == '.' || r.hostname[m - 1] == '.')
    requires b == |name| ==> EndsLabel(name, r.hostname, m)
    ensures hash(name[a..b]) in Tokens(hash, r.urlLower, ALL_RUNS)
  {
    InTheUrl(r, start, name, m);
    assert a == 0 ==> IsTokenChar(name[0]);
    assert b == |name| ==> IsTokenChar(name[b - 1]);
    HostStartsClosed(r, start);
    ClosedRunIsToken(hash, name, r.urlLower, start + m, a, b);
  }

  lemma HostStartsClosed(r: Request, start: nat)
    requires r.urlLower == Lower(r.url) && HostAt(r, start)
    ensures !IsTokenChar(r.urlLower[start - 1])
  {
    LowerKeepsTokenChars(r.url[start - 1]);
  }

  lemma HostnameTokensAreFound(hash: string -> Hash, lib: RegexLibrary, f: NetworkFilter, r: Request, h: Hash)
    requires ParsedFilter(f) && WellFormedRequest(hash, r) && '*' !in r.urlLower && Sized(r)
    requires CheckPattern(lib, f.mask, Patterns(f.part), MatchedHostname(f), r) && HostnameTokensClosed(f, r)
    requires h in HostnameTokens(hash, f)
    ensures h in Tokens(hash, r.urlLower, ALL_RUNS)
  {
    var part, name := TokenizedHostname(f), f.hostname.value;
    TokensAreTheKeptRuns(hash, part, ALL_RUNS, |part|, h);
    var a, b :| IsToken(part, ALL_RUNS, a, b) && b <= |part| && hash(part[a..b]) == h;
    TokenizedRun(f, a, b);
    var m := AnchoredSomewhere(name, r.hostname, IsHostnameRegex in f.mask);
    NameTokenIsFound(hash, f, r, m, a, b);
  }

  lemma NameTokenIsFound(hash: string -> Hash, f: NetworkFilter, r: Request, m: nat, a: nat, b: nat)
    requires f.hostname.Some? && f.hostname.value != "" && IsLower(f.hostname.value)
    requires WellFormedRequest(hash, r) && '*' !in r.urlLower && HostnameTokensClosed(f, r)
    requires IsToken(f.hostname.value, ALL_RUNS, a, b)
    requires IsHostnameRegex in f.mask ==> b < |f.hostname.value|
    requires Find(r.hostname, f.hostname.value) == Some(m)
    requires m == 0 || f.hostname.value[0] == '.' || r.hostname[m - 1] == '.'
    ensures hash(f.hostname.value[a..b]) in Tokens(hash, r.urlLower, ALL_RUNS)
  {
    var name := f.hostname.value;
    var start: nat :| HostAt(r, start);
    var c, d := a, b;
    if EndTokenRepeats(name) {
      c, d := TokenAhead(name, a, b);
    }
    HostnameRunIsFound(hash, name, r, start, m, c, d);
  }

  /** Where the text of a token is found as a token that does not reach the end of the name. */
  lemma TokenAhead(name: string, a: nat, b: nat) returns (c: nat, d: nat)
    requires IsToken(name, ALL_RUNS, a, b) && EndTokenRepeats(name)
    ensures d < |name| && IsToken(name, ALL_RUNS, c, d) && name[c..d] == name[a..b]
  {
    c, d := a, b;
    if b == |name| {
      assert name[a..b] == name[a..];
      c, d :| d < |name| && IsToken(name, ALL_RUNS, c, d) && name[c..d] == name[a..];
    }
  }

  // ----- the theorem -----

  lemma ProtocolTokenIsFound(hash: string -> Hash, f: NetworkFilter, r: Request, h: Hash)
    requires WellFormedRequest(hash, r) && (r.isHttp || r.isHttps) && CheckOptions(f.mask, r)
    requires h in ProtocolToken(hash, f)
    ensures h in Tokens(hash, r.urlLower, ALL_RUNS)
  {
    var scheme := if FromHttp in f.mask then "http" else "https";
    assert scheme + ":" == if FromHttp in f.mask then "http:" else "https:";
    SchemeIsToken(hash, scheme, r.urlLower);
  }

  lemma SchemeIsToken(hash: string -> Hash, scheme: string, url: string)
    requires |scheme| > 1 && (forall k :: 0 <= k < |scheme| ==> IsTokenChar(scheme[k]))
    requires StartsWith(url, scheme + ":")
    ensures hash(scheme) in Tokens(hash, url, ALL_RUNS)
  {
    var n := |scheme|;
    assert forall k :: 0 <= k <= n ==> url[k] == url[0..n + 1][k] == (scheme + ":")[k];
    assert url[0..n] == scheme;
    assert IsToken(url, ALL_RUNS, 0, n);
    TokensAreTheKeptRuns(hash, url, ALL_RUNS, |url|, hash(scheme));
  }

  lemma OwnTokensSplit(hash: string -> Hash, f: NetworkFilter, h: Hash)
    requires h in OwnTokens(hash, f)
    ensures h in DomainToken(f) || h in PatternTokens(hash, f) || h in HostnameTokens(hash, f)
  {
  }

  /** What the theorem asks of the request and of the filter. */
  ghost predicate Proviso(hash: string -> Hash, lib: RegexLibrary, f: NetworkFilter, r: Request) {
    && ReadsWildcards(lib) && ParsedFilter(f) && WellFormedRequest(hash, r) && Sized(r)
    && (r.isHttp || r.isHttps) && '*' !in r.urlLower && |Tokens(hash, r.urlLower, ALL_RUNS)| < 255
    && FirstTokenBound(f) && HostnameTokensClosed(f, r)
  }

  /**
   * Every token of a matching filter is among the tokens its request is looked up with; of several
   * domains, one is. The parameter name of a `removeparam` filter is treated separately below.
   */
  lemma TokensAreSound(hash: string -> Hash, lib: RegexLibrary, f: NetworkFilter, r: Request)
    requires Proviso(hash, lib, f, r) && FilterMatches(lib, f, r) && !FallsBackToParam(hash, f)
    ensures match TokensOf(hash, f)
            case Empty => true
            case OptDomains(domains) => exists h :: h in domains && h in TokensForMatch(r)
            case Other(tokens) => forall h :: h in tokens ==> h in TokensForMatch(r)
  {
    var groups := TokensOf(hash, f);
    match groups {
      case Empty =>
      case OptDomains(domains) =>
        var h :| h in r.sourceHashes.value && h in domains;
        assert h in TokensForMatch(r);
      case Other(tokens) =>
        forall h | h in tokens ensures h in TokensForMatch(r) {
          TokenIsSound(hash, lib, f, r, h);
        }
    }
  }

  lemma TokenIsSound(hash: string -> Hash, lib: RegexLibrary, f: NetworkFilter, r: Request, h: Hash)
    requires Proviso(hash, lib, f, r) && FilterMatches(lib, f, r)
    requires h in OwnTokens(hash, f) || h in ProtocolToken(hash, f)
    ensures h in TokensForMatch(r)
  {
    if h in ProtocolToken(hash, f) {
      ProtocolTokenIsFound(hash, f, r, h);
      UrlTokensAreMatched(hash, r, h);
    } else {
      OwnTokensSplit(hash, f, h);
      if h in DomainToken(f) {
        DomainTokenIsFound(f, r, h);
      } else if h in PatternTokens(hash, f) {
        PatternTokensAreFound(hash, lib, f, r, h);
        UrlTokensAreMatched(hash, r, h);
      } else {
        HostnameTokensAreFound(hash, lib, f, r, h);
        UrlTokensAreMatched(hash, r, h);
      }
    }
  }

  lemma DomainTokenIsFound(f: NetworkFilter, r: Request, h: Hash)
    requires h in DomainToken(f) && IncludedDomain(f.optDomains, r.sourceHashes)
    ensures h in TokensForMatch(r)
  {
    var d :| d in r.sourceHashes.value && d in f.optDomains.value;
    assert f.optDomains.value == [h];
  }

  // ----- the parameter name of a `removeparam` filter -----

  /**
   * A `removeparam` filter may match a URL that does not hold the tokens of its parameter name.
   * They are found in every URL that holds the parameter, which is all that matters for removing it.
   */
  lemma ParamTokensAreFound(hash: string -> Hash, name: string, url: string, i: nat, h: Hash)
    requires IsLower(name) && OccursAt(url, name, i) && '*' !in url
    requires i > 0 && url[i - 1] in {'?', '&'}
    requires i + |name| < |url| && url[i + |name|] == '='
    requires h in Tokens(hash, name, ALL_RUNS)
    ensures h in Tokens(hash, url, ALL_RUNS)
  {
    TokensAreTheKeptRuns(hash, name, ALL_RUNS, |name|, h);
    var a, b :| IsToken(name, ALL_RUNS, a, b) && b <= |name| && hash(name[a..b]) == h;
    ClosedRunIsToken(hash, name, url, i, a, b);
  }
}

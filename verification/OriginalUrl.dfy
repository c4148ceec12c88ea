/** What the text of a URL, as it was given, and the parsed URL have in common: all from the end of the host on. */
module OriginalUrl {
  import opened Prelude
  import opened Text
  import opened UrlParser

  /** `rest` is a suffix of the text, and no '?' comes before it. */
  ghost predicate Behind(text: string, rest: string) {
    exists front :: text == Appended(front, rest) && '?' !in front
  }

  function Appended(front: string, rest: string): string { front + rest }

  /** The parts before `rest` may differ, and the text may go on with control characters and spaces. */
  ghost predicate SharesTail(text: string, url: string, rest: string, blank: string) {
    && Behind(text, rest + blank)
    && |rest| <= |url| && url[|url| - |rest|..] == rest
    && forall c :: c in blank ==> ControlOrSpace(c)
  }

  ghost predicate SameTail(text: string, url: string) {
    exists rest, blank :: SharesTail(text, url, rest, blank)
  }

  lemma IsBehind(text: string, k: nat)
    requires k <= |text| && '?' !in text[..k]
    ensures Behind(text, text[k..])
  {
    assert text == Appended(text[..k], text[k..]);
  }

  lemma BehindItself(text: string)
    ensures Behind(text, text)
  {
    assert text == Appended("", text);
  }

  lemma BehindTwice(text: string, middle: string, rest: string)
    requires Behind(text, middle) && Behind(middle, rest)
    ensures Behind(text, rest)
  {
    var a :| text == Appended(a, middle) && '?' !in a;
    var b :| middle == Appended(b, rest) && '?' !in b;
    assert text == Appended(a + b, rest);
  }

  lemma BehindWithMore(text: string, rest: string, more: string)
    requires Behind(text, rest)
    ensures Behind(text + more, rest + more)
  {
    var a :| text == Appended(a, rest) && '?' !in a;
    assert text + more == Appended(a, rest + more);
  }

  // ----- the steps of the parser -----

  lemma {:induction false} BehindTrimStart(s: string)
    ensures Behind(s, TrimStart(s))
  {
    if s != "" && ControlOrSpace(s[0]) {
      BehindTrimStart(s[1..]);
      IsBehind(s, 1);
      BehindTwice(s, s[1..], TrimStart(s));
    } else {
      BehindItself(s);
    }
  }

  lemma {:induction false} TrimEndIsPrefix(s: string)
    ensures var t := TrimEnd(s);
            |t| <= |s| && s == t + s[|t|..] && forall c :: c in s[|t|..] ==> ControlOrSpace(c)
  {
    if s != "" && ControlOrSpace(s[|s| - 1]) {
      var n := |s| - 1;
      TrimEndIsPrefix(s[..n]);
      assert s[|TrimEnd(s)|..] == s[..n][|TrimEnd(s)|..] + [s[n]];
    }
  }

  lemma {:induction false} BehindScheme(input: string, n: nat)
    requires n <= |input| && SplitScheme(input, n).Some? && '?' !in input[..n]
    ensures Behind(input, SplitScheme(input, n).value.1)
    decreases |input| - n
  {
    assert input[..n + 1] == input[..n] + [input[n]];
    if input[n] == ':' {
      IsBehind(input, n + 1);
    } else {
      BehindScheme(input, n + 1);
    }
  }

  lemma {:induction false} BehindSlashes(s: string)
    ensures Behind(s, DropSlashes(s))
  {
    if s != "" && (s[0] == '/' || s[0] == '\\') {
      BehindSlashes(s[1..]);
      IsBehind(s, 1);
      BehindTwice(s, s[1..], DropSlashes(s));
    } else {
      BehindItself(s);
    }
  }

  lemma BehindUserinfo(lib: Library, input: string, special: bool)
    requires SplitUserinfo(lib, input, special).Ok?
    ensures Behind(input, SplitUserinfo(lib, input, special).value.1)
  {
    var at := LastAt(input, special);
    if at.None? {
      BehindItself(input);
    } else {
      IsBehind(input, at.value + 1);
    }
  }

  lemma BehindHost(lib: Library, input: string, special: bool)
    requires SplitHost(lib, input, special).Ok?
    ensures Behind(input, SplitHost(lib, input, special).value.1)
  {
    IsBehind(input, HostEnd(input, special));
  }

  /** After the slashes the parser keeps the text behind the host and puts its own in front. */
  lemma AuthorityKeepsTail(lib: Library, scheme: string, special: bool, input: string) returns (rest: string)
    requires AfterDoubleSlash(lib, scheme, special, input).Ok?
    ensures Behind(input, rest)
    ensures var s := AfterDoubleSlash(lib, scheme, special, input).value.serialization;
            |rest| <= |s| && s[|s| - |rest|..] == rest
  {
    var userinfo := SplitUserinfo(lib, input, special).value;
    var host := SplitHost(lib, userinfo.1, special).value;
    BehindUserinfo(lib, input, special);
    BehindHost(lib, userinfo.1, special);
    rest := host.1;
    BehindTwice(input, userinfo.1, rest);
  }

  // ----- the whole URL -----

  /** The slashes before the authority. */
  lemma BehindOpening(after: string, special: bool)
    requires special || StartsWith(after, "//")
    ensures Behind(after, if special then DropSlashes(after) else after[2..])
  {
    if special {
      BehindSlashes(after);
    } else {
      assert after[..2] == after[0..2] == "//";
      IsBehind(after, 2);
    }
  }

  lemma SchemeKeepsTail(lib: Library, trimmed: string) returns (rest: string)
    requires SplitScheme(trimmed, 0).Some?
    requires !SchemeTypeOf(SplitScheme(trimmed, 0).value.0).File?
    requires var (scheme, after) := SplitScheme(trimmed, 0).value;
             SchemeTypeOf(scheme).SpecialNotFile? || StartsWith(after, "//")
    requires Authority(lib, trimmed).Ok?
    ensures Behind(trimmed, rest)
    ensures var s := Authority(lib, trimmed).value.serialization; |rest| <= |s| && s[|s| - |rest|..] == rest
  {
    var (scheme, after) := SplitScheme(trimmed, 0).value;
    BehindScheme(trimmed, 0);
    var special := SchemeTypeOf(scheme).SpecialNotFile?;
    var authority := if special then DropSlashes(after) else after[2..];
    BehindOpening(after, special);
    rest := AuthorityBehind(lib, scheme, special, trimmed, after, authority);
  }

  lemma AuthorityBehind(
    lib: Library, scheme: string, special: bool, trimmed: string, after: string, authority: string)
    returns (rest: string)
    requires Behind(trimmed, after) && Behind(after, authority)
    requires AfterDoubleSlash(lib, scheme, special, authority).Ok?
    ensures Behind(trimmed, rest)
    ensures var s := AfterDoubleSlash(lib, scheme, special, authority).value.serialization;
            |rest| <= |s| && s[|s| - |rest|..] == rest
  {
    rest := AuthorityKeepsTail(lib, scheme, special, authority);
    BehindTwice(trimmed, after, authority);
    BehindTwice(trimmed, authority, rest);
  }

  /** The two ways of the parser to an authority. */
  function Authority(lib: Library, trimmed: string): Result<Hostname, ParseError>
    requires SplitScheme(trimmed, 0).Some?
    requires var (scheme, after) := SplitScheme(trimmed, 0).value;
             SchemeTypeOf(scheme).SpecialNotFile? || StartsWith(after, "//")
  {
    var (scheme, after) := SplitScheme(trimmed, 0).value;
    var special := SchemeTypeOf(scheme).SpecialNotFile?;
    AfterDoubleSlash(lib, scheme, special, if special then DropSlashes(after) else after[2..])
  }

  /** Of every input with a host: what follows the host is kept as it was given, up to trailing white space. */
  lemma TailIsKept(lib: Library, input: string)
    requires ParseUrl(lib, input).Ok? && ParseUrl(lib, input).value.hostStart < ParseUrl(lib, input).value.hostEnd
    ensures SameTail(input, ParseUrl(lib, input).value.serialization)
  {
    ParsedAuthority(lib, input);
    var rest := SchemeKeepsTail(lib, Trim(input));
    var blank := TrimmedOff(input, rest);
    assert SharesTail(input, ParseUrl(lib, input).value.serialization, rest, blank);
  }

  lemma ParsedAuthority(lib: Library, input: string)
    requires ParseUrl(lib, input).Ok? && ParseUrl(lib, input).value.hostStart < ParseUrl(lib, input).value.hostEnd
    ensures SplitScheme(Trim(input), 0).Some?
    ensures var (scheme, after) := SplitScheme(Trim(input), 0).value;
            !SchemeTypeOf(scheme).File? && (SchemeTypeOf(scheme).SpecialNotFile? || StartsWith(after, "//"))
    ensures ParseUrl(lib, input) == Authority(lib, Trim(input))
  {
  }

  lemma TrimmedOff(input: string, rest: string) returns (blank: string)
    requires Behind(Trim(input), rest)
    ensures Behind(input, rest + blank) && forall c :: c in blank ==> ControlOrSpace(c)
  {
    var body, trimmed := TrimStart(input), Trim(input);
    BehindTrimStart(input);
    TrimEndIsPrefix(body);
    blank := body[|trimmed|..];
    BehindWithMore(trimmed, rest, blank);
    BehindTwice(input, body, rest + blank);
  }

  /** The shared tail, character by character. */
  lemma TailByChars(text: string, url: string) returns (rest: string, i: nat)
    requires SameTail(text, url)
    ensures |rest| <= |url| && i + |rest| <= |text|
    ensures forall n :: 0 <= n < |rest| ==> text[i + n] == rest[n]
    ensures forall n :: 0 <= n < |rest| ==> url[|url| - |rest| + n] == rest[n]
    ensures forall n :: 0 <= n < i ==> text[n] != '?'
    ensures forall n :: i + |rest| <= n < |text| ==> ControlOrSpace(text[n])
  {
    var blank;
    rest, blank :| SharesTail(text, url, rest, blank);
    i := ConcatByChars(text, rest, blank);
    SuffixByChars(url, rest);
  }

  lemma SuffixByChars(url: string, rest: string)
    requires |rest| <= |url| && url[|url| - |rest|..] == rest
    ensures forall n :: 0 <= n < |rest| ==> url[|url| - |rest| + n] == rest[n]
  {
    var j := |url| - |rest|;
    assert forall n :: 0 <= n < |rest| ==> url[j + n] == url[j..][n];
  }

  lemma ConcatByChars(text: string, rest: string, blank: string) returns (i: nat)
    requires Behind(text, rest + blank) && forall c :: c in blank ==> ControlOrSpace(c)
    ensures && |text| == i + |rest| + |blank|
            && (forall n :: 0 <= n < |rest| ==> text[i + n] == rest[n])
            && (forall n :: 0 <= n < i ==> text[n] != '?')
            && forall n :: i + |rest| <= n < |text| ==> ControlOrSpace(text[n])
  {
    var front :| text == Appended(front, rest + blank) && '?' !in front;
    i := |front|;
    assert forall n :: 0 <= n < i ==> text[n] == front[n];
    assert forall n :: i + |rest| <= n < |text| ==> text[n] == blank[n - i - |rest|];
  }

  /** What stands behind a '?' of the text, with a '=' at its end, stands in the parsed URL too. */
  lemma TailHolds(text: string, url: string, part: string, at: nat, question: nat) returns (moved: nat)
    requires SameTail(text, url) && OccursAt(text, part, at) && at + |part| < |text|
    requires question < at && text[question] == '?' && text[at + |part|] == '='
    ensures moved > 0 && moved + |part| < |url| && OccursAt(url, part, moved)
    ensures url[moved - 1] == text[at - 1] && url[moved + |part|] == '='
  {
    var rest, i := TailByChars(text, url);
    moved := MovedPart(text, url, rest, i, |url| - |rest|, part, at);
  }

  lemma MovedPart(text: string, url: string, rest: string, i: nat, j: nat, part: string, at: nat) returns (moved: nat)
    requires i + |rest| <= |text| && j + |rest| == |url| && i < at && at + |part| < i + |rest|
    requires forall n :: 0 <= n < |rest| ==> text[i + n] == rest[n]
    requires forall n :: 0 <= n < |rest| ==> url[j + n] == rest[n]
    requires OccursAt(text, part, at)
    ensures moved > 0 && moved + |part| < |url| && OccursAt(url, part, moved)
    ensures url[moved - 1] == text[at - 1] && url[moved + |part|] == text[at + |part|]
  {
    moved := at - i + j;
    forall k | 0 <= k < |part| ensures url[moved + k] == part[k] {
      assert url[j + (at - i + k)] == rest[at - i + k] == text[i + (at - i + k)];
      assert text[at + k] == text[at..at + |part|][k];
    }
    assert url[j + (at - i - 1)] == rest[at - i - 1] == text[i + (at - i - 1)];
    assert url[j + (at - i + |part|)] == rest[at - i + |part|] == text[i + (at - i + |part|)];
  }
}

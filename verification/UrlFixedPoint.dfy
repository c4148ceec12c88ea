/** The serialization of a URL with a host parses to itself. */
module UrlFixedPoint {
  import opened Prelude
  import opened Text
  import opened UrlParser

  /** ASCII input without tab or newline. */
  predicate PlainInput(s: string) {
    forall i :: 0 <= i < |s| ==> s[i] as int < 128 && !Ignored(s[i])
  }

  // ----- percent-encoding -----

  /** Nothing in the text needs to be percent-encoded. */
  predicate Clean(s: string) {
    forall i :: 0 <= i < |s| ==> s[i] as int < 128 && !InUserinfoSet(s[i])
  }

  lemma EncodedCharIsClean(lib: Library, c: char)
    requires c as int < 128
    ensures Clean(PercentEncodeChar(lib, c)) && PercentEncodeChar(lib, c) != ""
  {
    forall n: nat | n < 16 ensures Clean([HexDigit(n)]) {
      assert "0123456789ABCDEF"[n] in "0123456789ABCDEF";
    }
    if InUserinfoSet(c) {
      assert Clean([HexDigit(c as int / 16)]) && Clean([HexDigit(c as int % 16)]);
      assert [HexDigit(c as int / 16)][0] == HexDigit(c as int / 16);
      assert [HexDigit(c as int % 16)][0] == HexDigit(c as int % 16);
    }
  }

  lemma {:induction false} EncodedIsClean(lib: Library, s: string)
    requires IsAscii(s)
    ensures Clean(PercentEncode(lib, s))
    ensures PercentEncode(lib, s) == "" <==> s == ""
  {
    if s != "" {
      EncodedCharIsClean(lib, s[0]);
      EncodedIsClean(lib, s[1..]);
    }
  }

  lemma {:induction false} CleanStays(lib: Library, s: string)
    requires Clean(s)
    ensures PercentEncode(lib, s) == s
  {
    if s != "" {
      CleanStays(lib, s[1..]);
    }
  }

  // ----- user information -----

  /** User information as serialized: name, ':' and password if there is one, '@'. */
  function Joined(name: string, password: string): string {
    if name == "" && password == "" then ""
    else if password == "" then name + "@"
    else name + ":" + password + "@"
  }

  /** `done`, after a stretch of `k` characters with no separator in it. */
  function Advanced(done: Userinfo, text: string, k: nat): Userinfo {
    done.(text := done.text + text, hasUsername := done.hasUsername || (k > 0 && !done.hasPassword))
  }

  lemma EncodeOne(lib: Library, input: string, count: nat, done: Userinfo)
    requires 0 < count && input != "" && !Ignored(input[0])
    requires done.colonSeen || input[0] != ':'
    ensures EncodeUserinfo(lib, input, count, done)
            == EncodeUserinfo(lib, input[1..], count - 1, Advanced(done, PercentEncodeChar(lib, input[0]), 1))
  {
  }

  lemma {:induction false} EncodeStretch(lib: Library, text: string, rest: string, m: nat, done: Userinfo)
    requires PlainInput(text)
    requires done.colonSeen || forall i :: 0 <= i < |text| ==> text[i] != ':'
    ensures EncodeUserinfo(lib, text + rest, |text| + m, done)
            == EncodeUserinfo(lib, rest, m, Advanced(done, PercentEncode(lib, text), |text|))
    decreases |text|
  {
    if text == "" {
      assert text + rest == rest && done.text + "" == done.text;
      assert Advanced(done, "", 0) == done;
    } else {
      var c := PercentEncodeChar(lib, text[0]);
      assert (text + rest)[1..] == text[1..] + rest;
      EncodeOne(lib, text + rest, |text| + m, done);
      EncodeStretch(lib, text[1..], rest, m, Advanced(done, c, 1));
      AdvancedTwice(done, c, PercentEncode(lib, text[1..]), |text|);
    }
  }

  lemma AdvancedTwice(done: Userinfo, c: string, more: string, k: nat)
    requires k > 0
    ensures Advanced(Advanced(done, c, 1), more, k - 1) == Advanced(done, c + more, k)
  {
    assert done.text + c + more == done.text + (c + more);
  }

  /** What serialized user information is made of: the part before the first ':' and the rest. */
  lemma UserinfoIsJoined(lib: Library, input: string, special: bool, name: string, password: string)
    requires PlainInput(input) && LastAt(input, special).Some?
    requires SplitAtColon(input[..LastAt(input, special).value], name, password)
    ensures SplitUserinfo(lib, input, special)
            == Ok((Joined(PercentEncode(lib, name), PercentEncode(lib, password)),
                   input[LastAt(input, special).value + 1..]))
  {
    UserinfoEncoded(lib, input, LastAt(input, special).value, name, password);
  }

  lemma UserinfoEncoded(lib: Library, input: string, at: nat, name: string, password: string)
    requires PlainInput(input) && at <= |input| && SplitAtColon(input[..at], name, password)
    ensures var info := EncodeUserinfo(lib, input, at, Userinfo("", false, false, false));
            info.Some? && info.value.text + (if info.value.hasUsername || info.value.hasPassword then "@" else "")
                          == Joined(PercentEncode(lib, name), PercentEncode(lib, password))
  {
    SplitAtColonIsAscii(input, at, name, password);
    EncodedIsClean(lib, name);
    EncodedIsClean(lib, password);
    assert forall i :: 0 <= i < |name| ==> name[i] == input[i];
    NameEncoded(lib, input, at, name);
    if |name| < at {
      PasswordEncoded(lib, input, at, name, password);
    }
  }

  lemma SplitAtColonIsAscii(input: string, at: nat, name: string, password: string)
    requires PlainInput(input) && at <= |input| && SplitAtColon(input[..at], name, password)
    ensures IsAscii(name) && IsAscii(password)
    ensures |name| <= at && input[..|name|] == name
    ensures |name| == at ==> password == ""
    ensures |name| < at ==> input[..at] == name + ":" + password
  {
    assert forall i :: 0 <= i < |name| ==> name[i] == input[i];
    assert forall i :: 0 <= i < |password| ==> password[i] == input[at - |password| + i];
  }

  function Named(lib: Library, name: string): Userinfo {
    Userinfo(PercentEncode(lib, name), name != "", false, false)
  }

  lemma NameEncoded(lib: Library, input: string, at: nat, name: string)
    requires PlainInput(input) && |name| <= at <= |input| && input[..|name|] == name
    requires PlainInput(name) && forall i :: 0 <= i < |name| ==> name[i] != ':'
    ensures EncodeUserinfo(lib, input, at, Userinfo("", false, false, false))
            == EncodeUserinfo(lib, input[|name|..], at - |name|, Named(lib, name))
  {
    var start := Userinfo("", false, false, false);
    var rest, m := input[|name|..], at - |name|;
    EncodeStretch(lib, name, rest, m, start);
    FirstName(lib, name);
    Resumed(lib, input, name, rest, at, m, start);
  }

  lemma Resumed(lib: Library, input: string, name: string, rest: string, at: nat, m: nat, start: Userinfo)
    requires |name| <= |input| && input[..|name|] == name && rest == input[|name|..] && at == |name| + m
    ensures EncodeUserinfo(lib, input, at, start) == EncodeUserinfo(lib, name + rest, |name| + m, start)
  {
    assert input == name + rest;
  }

  lemma FirstName(lib: Library, name: string)
    ensures Advanced(Userinfo("", false, false, false), PercentEncode(lib, name), |name|) == Named(lib, name)
  {
  }

  lemma PasswordEncoded(lib: Library, input: string, at: nat, name: string, password: string)
    requires PlainInput(input) && at <= |input| && input[..at] == name + ":" + password
    ensures EncodeUserinfo(lib, input[|name|..], at - |name|, Named(lib, name))
            == Some(if password == "" then Named(lib, name).(colonSeen := true)
                    else Userinfo(PercentEncode(lib, name) + ":" + PercentEncode(lib, password),
                                  name != "", true, true))
  {
    var k := |name|;
    var rest := input[k..];
    assert rest[..at - k] == ":" + password by {
      assert rest[..at - k] == input[..at][k..];
    }
    ColonEncoded(lib, rest, password, Named(lib, name));
  }

  lemma ColonEncoded(lib: Library, input: string, password: string, done: Userinfo)
    requires PlainInput(input) && |password| < |input| && input[..|password| + 1] == ":" + password
    requires !done.colonSeen && !done.hasPassword
    ensures EncodeUserinfo(lib, input, |password| + 1, done)
            == Some(if password == "" then done.(colonSeen := true)
                    else Userinfo(done.text + ":" + PercentEncode(lib, password), done.hasUsername, true, true))
  {
    AfterColon(input, password);
    EncodeColon(lib, input, |password|, done);
    EncodeStretch(lib, password, input[|password| + 1..], 0, AddUserinfo(lib, ':', |password|, done));
    ColonThenPassword(lib, password, done);
  }

  lemma ColonThenPassword(lib: Library, password: string, done: Userinfo)
    requires !done.colonSeen && !done.hasPassword
    ensures Advanced(AddUserinfo(lib, ':', |password|, done), PercentEncode(lib, password), |password|)
            == if password == "" then done.(colonSeen := true)
               else Userinfo(done.text + ":" + PercentEncode(lib, password), done.hasUsername, true, true)
  {
  }

  lemma AfterColon(input: string, password: string)
    requires PlainInput(input) && |password| < |input| && input[..|password| + 1] == ":" + password
    ensures input[0] == ':' && PlainInput(password)
    ensures input[1..] == password + input[|password| + 1..]
  {
    var n := |password|;
    assert input[0] == input[..n + 1][0];
    assert forall i :: 0 <= i < n ==> password[i] == input[..n + 1][i + 1] == input[i + 1];
    assert input[1..n + 1] == password;
    assert input[1..] == input[1..n + 1] + input[n + 1..];
  }

  lemma EncodeColon(lib: Library, input: string, left: nat, done: Userinfo)
    requires input != "" && input[0] == ':'
    ensures EncodeUserinfo(lib, input, left + 1, done)
            == EncodeUserinfo(lib, input[1..], left, AddUserinfo(lib, ':', left, done))
  {
  }

  /** The part of the text before its first ':', and the part after it. */
  ghost predicate SplitAtColon(u: string, name: string, password: string) {
    && (forall i :: 0 <= i < |name| ==> name[i] != ':')
    && ((u == name && password == "") || u == name + ":" + password)
  }

  lemma {:induction false} FirstColon(u: string) returns (name: string, password: string)
    ensures SplitAtColon(u, name, password)
  {
    var colon := Find(u, ":");
    var k := if colon.Some? then colon.value else |u|;
    name, password := u[..k], if colon.Some? then u[k + 1..] else "";
    forall i | 0 <= i < k ensures u[i] != ':' {
      assert u[i..i + 1] == [u[i]];
      assert !OccursAt(u, ":", i);
    }
    if colon.Some? {
      assert u[k..k + 1] == ":";
      assert u == u[..k] + u[k..k + 1] + u[k + 1..];
    }
  }

  /** `tail` holds no '@' that user information could end at. */
  predicate NoUserinfo(tail: string, special: bool) {
    LastAt(tail, special).None?
  }

  lemma AfterLastAt(input: string, special: bool)
    requires LastAt(input, special).Some?
    ensures NoUserinfo(input[LastAt(input, special).value + 1..], special)
  {
    var at := LastAt(input, special).value;
    var tail := input[at + 1..];
    var end := AuthorityEnd(tail, special);
    assert forall i :: 0 <= i < |tail| ==> tail[i] == input[at + 1 + i];
    assert end + at + 1 == AuthorityEnd(input, special);
  }

  lemma AuthorityOf(joined: string, tail: string, special: bool)
    requires forall i :: 0 <= i < |joined| ==> !Delimiter(joined[i], special)
    ensures AuthorityEnd(joined + tail, special) == |joined| + AuthorityEnd(tail, special)
  {
    var input, end := joined + tail, AuthorityEnd(tail, special);
    assert forall i :: 0 <= i < |tail| ==> input[|joined| + i] == tail[i];
    assert forall i :: 0 <= i < |joined| + end ==> !Delimiter(input[i], special);
    assert |joined| + end < |input| ==> Delimiter(input[|joined| + end], special);
  }

  lemma JoinedIsPlain(name: string, password: string, special: bool)
    requires Clean(name) && Clean(password)
    ensures PlainInput(Joined(name, password))
    ensures forall i :: 0 <= i < |Joined(name, password)| ==> !Delimiter(Joined(name, password)[i], special)
    ensures forall i :: 0 <= i < |name| ==> name[i] != ':'
  {
  }

  lemma LastAtOf(name: string, password: string, tail: string, special: bool)
    requires Clean(name) && Clean(password) && NoUserinfo(tail, special) && Joined(name, password) != ""
    ensures LastAt(Joined(name, password) + tail, special) == Some(|Joined(name, password)| - 1)
  {
    var joined := Joined(name, password);
    var input, end := joined + tail, AuthorityEnd(tail, special);
    JoinedIsPlain(name, password, special);
    AuthorityOf(joined, tail, special);
    assert forall i :: |joined| <= i < |joined| + end ==> input[i] == tail[i - |joined|] != '@';
    assert input[|joined| - 1] == joined[|joined| - 1] == '@';
  }

  /** Clean user information in front of such a tail is split off again, unchanged. */
  lemma JoinedIsSplitOff(lib: Library, name: string, password: string, tail: string, special: bool)
    requires Clean(name) && Clean(password) && PlainInput(tail) && NoUserinfo(tail, special)
    ensures SplitUserinfo(lib, Joined(name, password) + tail, special) == Ok((Joined(name, password), tail))
  {
    var joined := Joined(name, password);
    var input := joined + tail;
    if joined == "" {
      assert input == tail;
    } else {
      var at := |joined| - 1;
      JoinedIsPlain(name, password, special);
      LastAtOf(name, password, tail, special);
      assert SplitAtColon(input[..at], name, password) by {
        assert password == "" ==> input[..at] == name;
        assert password != "" ==> input[..at] == name + ":" + password;
      }
      UserinfoIsJoined(lib, input, special, name, password);
      CleanStays(lib, name);
      CleanStays(lib, password);
      assert input[at + 1..] == tail;
    }
  }

  /** User information is serialized clean, and what is left of the input has none. */
  lemma UserinfoIsClean(lib: Library, input: string, special: bool)
    returns (name: string, password: string, k: nat)
    requires PlainInput(input)
    ensures k <= |input| && SplitUserinfo(lib, input, special) == Ok((Joined(name, password), input[k..]))
    ensures Clean(name) && Clean(password) && NoUserinfo(input[k..], special)
  {
    var at := LastAt(input, special);
    if at.None? {
      name, password, k := "", "", 0;
      assert input[0..] == input;
    } else {
      k := at.value + 1;
      AfterLastAt(input, special);
      var n, p := FirstColon(input[..at.value]);
      UserinfoIsJoined(lib, input, special, n, p);
      SplitAtColonIsAscii(input, at.value, n, p);
      EncodedIsClean(lib, n);
      EncodedIsClean(lib, p);
      name, password := PercentEncode(lib, n), PercentEncode(lib, p);
    }
  }

  // ----- scheme and white space -----

  lemma {:induction false} SplitSchemeAt(input: string, m: nat, n: nat)
    requires m <= n < |input| && input[n] == ':'
    requires forall i :: m <= i < n ==> SchemeChar(input[i])
    ensures SplitScheme(input, m) == Some((Lower(input[..n]), input[n + 1..]))
    decreases n - m
  {
    if m < n {
      SplitSchemeAt(input, m + 1, n);
    }
  }

  lemma {:induction false} SchemeFound(input: string, m: nat) returns (n: nat)
    requires m <= |input| && SplitScheme(input, m).Some?
    ensures m <= n < |input| && input[n] == ':'
    ensures forall i :: m <= i < n ==> SchemeChar(input[i])
    ensures SplitScheme(input, m) == Some((Lower(input[..n]), input[n + 1..]))
    decreases |input| - m
  {
    if input[m] == ':' {
      n := m;
    } else {
      n := SchemeFound(input, m + 1);
    }
  }

  lemma {:induction false} TrimStartIsSuffix(s: string)
    requires PlainInput(s)
    ensures PlainInput(TrimStart(s))
  {
    if s != "" && ControlOrSpace(s[0]) {
      TrimStartIsSuffix(s[1..]);
    }
  }

  lemma {:induction false} TrimEndStops(s: string)
    requires PlainInput(s)
    ensures PlainInput(TrimEnd(s))
    ensures TrimEnd(s) != "" ==> !ControlOrSpace(TrimEnd(s)[|TrimEnd(s)| - 1])
  {
    if s != "" && ControlOrSpace(s[|s| - 1]) {
      TrimEndStops(s[..|s| - 1]);
    }
  }

  lemma {:induction false} DropSlashesIsSuffix(s: string) returns (k: nat)
    ensures k <= |s| && DropSlashes(s) == s[k..]
  {
    if s != "" && (s[0] == '/' || s[0] == '\\') {
      var j := DropSlashesIsSuffix(s[1..]);
      k := j + 1;
      assert s[1..][j..] == s[k..];
    } else {
      k := 0;
    }
  }

  // ----- the canonical form -----

  /** A host with what follows it, at the end of a trimmed input. */
  ghost predicate IsTail(tail: string, special: bool) {
    && PlainInput(tail) && NoUserinfo(tail, special) && HostEnd(tail, special) > 0
    && !ControlOrSpace(tail[|tail| - 1])
  }

  ghost predicate IsScheme(scheme: string) {
    && scheme != "" && Alphabetic(scheme[0]) && IsLower(scheme)
    && forall i :: 0 <= i < |scheme| ==> SchemeChar(scheme[i])
  }

  ghost predicate Canonical(scheme: string, special: bool, name: string, password: string, tail: string) {
    && IsScheme(scheme) && SchemeTypeOf(scheme) == (if special then SpecialNotFile else NotSpecial)
    && Clean(name) && Clean(password) && IsTail(tail, special)
  }

  /** The result that a canonical form stands for. */
  function Standing(scheme: string, special: bool, name: string, password: string, tail: string): Hostname {
    var front := scheme + "://" + Joined(name, password);
    Hostname(front + tail, |scheme|, |front|, |front| + HostEnd(tail, special))
  }

  lemma PlainHost(lib: Library, tail: string, special: bool)
    requires PlainInput(tail)
    ensures SplitHost(lib, tail, special)
            == Ok((tail[..HostEnd(tail, special)], tail[HostEnd(tail, special)..]))
  {
  }

  lemma StandsAfterSlashes(
    lib: Library, scheme: string, special: bool, input: string, name: string, password: string, tail: string)
    requires PlainInput(tail)
    requires SplitUserinfo(lib, input, special) == Ok((Joined(name, password), tail))
    ensures AfterDoubleSlash(lib, scheme, special, input) == Ok(Standing(scheme, special, name, password, tail))
  {
    PlainHost(lib, tail, special);
    Rejoined(scheme + "://" + Joined(name, password), tail, HostEnd(tail, special));
  }

  lemma Rejoined(front: string, tail: string, end: nat)
    requires end <= |tail|
    ensures front + tail[..end] + tail[end..] == front + tail
  {
    assert tail[..end] + tail[end..] == tail;
  }

  lemma AfterSlashes(lib: Library, scheme: string, special: bool, input: string)
    returns (name: string, password: string, tail: string)
    requires PlainInput(input) && AfterDoubleSlash(lib, scheme, special, input).Ok?
    requires var h := AfterDoubleSlash(lib, scheme, special, input).value; h.hostEnd > h.hostStart
    requires input != "" ==> !ControlOrSpace(input[|input| - 1])
    ensures Clean(name) && Clean(password) && IsTail(tail, special)
    ensures AfterDoubleSlash(lib, scheme, special, input) == Ok(Standing(scheme, special, name, password, tail))
  {
    var k;
    name, password, k := UserinfoIsClean(lib, input, special);
    tail := input[k..];
    SuffixIsPlain(input, k);
    StandsAfterSlashes(lib, scheme, special, input, name, password, tail);
    StandingHost(scheme, special, name, password, tail);
    SuffixIsTail(input, k, special);
  }

  lemma SuffixIsPlain(input: string, k: nat)
    requires PlainInput(input) && k <= |input|
    ensures PlainInput(input[k..])
  {
  }

  lemma SuffixIsTail(input: string, k: nat, special: bool)
    requires k <= |input| && PlainInput(input[k..]) && NoUserinfo(input[k..], special)
    requires HostEnd(input[k..], special) > 0 && !ControlOrSpace(input[|input| - 1])
    ensures IsTail(input[k..], special)
  {
    assert input[k..][|input| - k - 1] == input[|input| - 1];
  }

  lemma StandingHost(scheme: string, special: bool, name: string, password: string, tail: string)
    requires var h := Standing(scheme, special, name, password, tail); h.hostEnd > h.hostStart
    ensures HostEnd(tail, special) > 0 && tail != ""
  {
  }

  lemma TrimmedInput(input: string)
    requires PlainInput(input)
    ensures PlainInput(Trim(input))
    ensures Trim(input) != "" ==> !ControlOrSpace(Trim(input)[|Trim(input)| - 1])
  {
    TrimStartIsSuffix(input);
    TrimEndStops(TrimStart(input));
  }

  lemma SchemeOf(trimmed: string) returns (scheme: string, rest: string, n: nat)
    requires trimmed != "" && Alphabetic(trimmed[0]) && SplitScheme(trimmed, 0).Some?
    ensures SplitScheme(trimmed, 0) == Some((scheme, rest)) && IsScheme(scheme)
    ensures n < |trimmed| && rest == trimmed[n + 1..]
  {
    n := SchemeFound(trimmed, 0);
    scheme, rest := Lower(trimmed[..n]), trimmed[n + 1..];
    LowerIsLower(trimmed[..n]);
  }

  lemma SuffixOfSuffix(s: string, n: nat, k: nat)
    requires n <= |s| && k <= |s| - n && PlainInput(s) && (s != "" ==> !ControlOrSpace(s[|s| - 1]))
    ensures var t := s[n..][k..]; PlainInput(t) && (t != "" ==> !ControlOrSpace(t[|t| - 1]))
  {
    assert s[n..][k..] == s[n + k..];
    SuffixIsPlain(s, n + k);
  }

  /** What a plain input with a host has after its scheme and the slashes. */
  lemma SchemeSplits(lib: Library, input: string) returns (scheme: string, special: bool, authority: string)
    requires PlainInput(input) && ParseUrl(lib, input).Ok?
    requires var h := ParseUrl(lib, input).value; h.hostEnd > h.hostStart
    ensures IsScheme(scheme) && SchemeTypeOf(scheme) == (if special then SpecialNotFile else NotSpecial)
    ensures PlainInput(authority) && (authority != "" ==> !ControlOrSpace(authority[|authority| - 1]))
    ensures ParseUrl(lib, input) == AfterDoubleSlash(lib, scheme, special, authority)
  {
    TrimmedInput(input);
    var trimmed := Trim(input);
    var rest, n;
    scheme, rest, n := SchemeOf(trimmed);
    special := SchemeTypeOf(scheme) == SpecialNotFile;
    var k := DropSlashesIsSuffix(rest);
    if !special {
      k := 2;
    }
    authority := rest[k..];
    SuffixOfSuffix(trimmed, n + 1, k);
  }

  /** Every plain input that parses to a host has a canonical form. */
  lemma ParsedIsCanonical(lib: Library, input: string)
    returns (scheme: string, special: bool, name: string, password: string, tail: string)
    requires PlainInput(input) && ParseUrl(lib, input).Ok?
    requires var h := ParseUrl(lib, input).value; h.hostEnd > h.hostStart
    ensures Canonical(scheme, special, name, password, tail)
    ensures ParseUrl(lib, input) == Ok(Standing(scheme, special, name, password, tail))
  {
    var authority;
    scheme, special, authority := SchemeSplits(lib, input);
    name, password, tail := AfterSlashes(lib, scheme, special, authority);
  }

  lemma SlashesDropped(authority: string)
    requires authority != "" && authority[0] != '/' && authority[0] != '\\'
    ensures DropSlashes("//" + authority) == authority
  {
    var s := "//" + authority;
    assert s[1..] == "/" + authority && s[1..][1..] == authority;
    assert DropSlashes(authority) == authority;
    assert DropSlashes(s[1..]) == authority;
  }

  lemma SchemeSplitsOff(scheme: string, rest: string)
    requires IsScheme(scheme)
    ensures SplitScheme(scheme + ":" + rest, 0) == Some((scheme, rest))
  {
    var s := scheme + ":" + rest;
    SplitSchemeAt(s, 0, |scheme|);
    assert s[..|scheme|] == scheme && s[|scheme| + 1..] == rest;
    assert Lower(scheme) == scheme;
  }

  lemma NothingToTrim(s: string)
    requires s != "" && !ControlOrSpace(s[0]) && !ControlOrSpace(s[|s| - 1])
    ensures Trim(s) == s
  {
  }

  lemma ParsesAs(lib: Library, scheme: string, special: bool, authority: string)
    requires IsScheme(scheme) && SchemeTypeOf(scheme) == (if special then SpecialNotFile else NotSpecial)
    requires authority != "" && !ControlOrSpace(authority[|authority| - 1])
    requires special ==> authority[0] != '/' && authority[0] != '\\'
    ensures ParseUrl(lib, scheme + ":" + ("//" + authority)) == AfterDoubleSlash(lib, scheme, special, authority)
  {
    var rest := "//" + authority;
    var s := scheme + ":" + rest;
    assert s[|s| - 1] == authority[|authority| - 1];
    NothingToTrim(s);
    SchemeSplitsOff(scheme, rest);
    assert rest[2..] == authority && rest[0..2] == "//";
    if special {
      SlashesDropped(authority);
    }
  }

  /** A canonical form parses to what it stands for. */
  lemma CanonicalParses(lib: Library, scheme: string, special: bool, name: string, password: string, tail: string)
    requires Canonical(scheme, special, name, password, tail)
    ensures ParseUrl(lib, Standing(scheme, special, name, password, tail).serialization)
            == Ok(Standing(scheme, special, name, password, tail))
  {
    var joined := Joined(name, password);
    var authority := joined + tail;
    assert scheme + "://" + joined + tail == scheme + ":" + ("//" + authority);
    JoinedIsPlain(name, password, special);
    assert authority[0] == if joined == "" then tail[0] else joined[0];
    ParsesAs(lib, scheme, special, authority);
    JoinedIsSplitOff(lib, name, password, tail, special);
    StandsAfterSlashes(lib, scheme, special, authority, name, password, tail);
  }

  /** Re-parsing the serialization gives the same serialization and the same boundaries. */
  lemma OutputIsFixedPoint(lib: Library, input: string)
    requires PlainInput(input) && ParseUrl(lib, input).Ok?
    requires var h := ParseUrl(lib, input).value; h.hostEnd > h.hostStart
    ensures ParseUrl(lib, ParseUrl(lib, input).value.serialization) == ParseUrl(lib, input)
  {
    var scheme, special, name, password, tail := ParsedIsCanonical(lib, input);
    CanonicalParses(lib, scheme, special, name, password, tail);
  }

  /** Where the host lies in the serialization. */
  ghost predicate HostBounded(h: Hostname) {
    var s := h.serialization;
    && 0 < h.schemeEnd && h.schemeEnd + 3 <= h.hostStart <= h.hostEnd <= |s|
    && s[h.schemeEnd..h.schemeEnd + 3] == "://"
    && s[h.hostStart - 1] in {'/', '@'}
    && (forall i :: h.hostStart <= i < h.hostEnd ==> s[i] !in {'/', '?', '#'})
    && (h.hostEnd < |s| ==> s[h.hostEnd] in {':', '/', '?', '#', '\\'})
  }

  lemma HostIsBounded(lib: Library, input: string)
    requires PlainInput(input) && ParseUrl(lib, input).Ok?
    requires var h := ParseUrl(lib, input).value; h.hostEnd > h.hostStart
    ensures HostBounded(ParseUrl(lib, input).value)
  {
    var scheme, special, name, password, tail := ParsedIsCanonical(lib, input);
    StandingIsBounded(scheme, special, name, password, tail);
  }

  lemma StandingIsBounded(scheme: string, special: bool, name: string, password: string, tail: string)
    requires scheme != "" && IsTail(tail, special)
    ensures HostBounded(Standing(scheme, special, name, password, tail))
  {
    var front := scheme + "://" + Joined(name, password);
    FrontIsBounded(scheme, Joined(name, password));
    TailIsBounded(Standing(scheme, special, name, password, tail), front, tail, special);
  }

  /** Behind such a front, what the text begins with is a bounded host. */
  lemma TailIsBounded(h: Hostname, front: string, tail: string, special: bool)
    requires h.serialization == front + tail && h.hostStart == |front| && h.hostEnd == |front| + HostEnd(tail, special)
    requires 0 < h.schemeEnd && h.schemeEnd + 3 <= |front|
    requires front[h.schemeEnd..h.schemeEnd + 3] == "://" && front[|front| - 1] in {'/', '@'}
    ensures HostBounded(h)
  {
    var s, n := front + tail, h.schemeEnd;
    assert s[n..n + 3] == front[n..n + 3] && s[|front| - 1] == front[|front| - 1];
    assert forall i :: |front| <= i < |s| ==> s[i] == tail[i - |front|];
  }

  lemma FrontIsBounded(scheme: string, joined: string)
    requires joined != "" ==> joined[|joined| - 1] == '@'
    ensures var front := scheme + "://" + joined;
            front[|scheme|..|scheme| + 3] == "://" && front[|front| - 1] in {'/', '@'}
  {
  }
}

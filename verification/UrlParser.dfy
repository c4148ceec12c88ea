/** The URL parser: scheme, user information, host, and the rest copied as it is. */
module UrlParser {
  import opened Prelude
  import opened Text

  datatype ParseError = IdnaError | RelativeUrlWithoutBase | FileUrlNotSupported | ExpectedMoreChars

  /** The serialization, and where its scheme ends and its host starts and ends. */
  datatype Hostname = Hostname(serialization: string, schemeEnd: nat, hostStart: nat, hostEnd: nat)

  datatype SchemeType = File | SpecialNotFile | NotSpecial

  /** The two library calls that only non-ASCII input reaches. */
  datatype Library = Library(domainToAscii: string -> Option<string>, percentEncodeUtf8: char -> string)

  function SchemeTypeOf(scheme: string): SchemeType {
    if scheme in {"http", "https", "ws", "wss", "ftp", "gopher"} then SpecialNotFile
    else if scheme == "file" then File
    else NotSpecial
  }

  // ----- characters -----

  predicate ControlOrSpace(c: char) { c <= ' ' }

  predicate Ignored(c: char) { c == '\t' || c == '\n' || c == '\r' }

  predicate Alphabetic(c: char) { 'a' <= c <= 'z' || 'A' <= c <= 'Z' }

  predicate SchemeChar(c: char) {
    Alphabetic(c) || '0' <= c <= '9' || c == '+' || c == '-' || c == '.'
  }

  /** Characters that end the authority (and the host). */
  predicate Delimiter(c: char, special: bool) {
    c == '/' || c == '?' || c == '#' || (special && c == '\\')
  }

  predicate InUserinfoSet(c: char) {
    c < ' ' || c as int == 127
    || c in {' ', '"', '<', '>', '`', '#', '?', '{', '}', '/', ':', ';', '=', '@', '[', '\\', ']', '^', '|'}
  }

  function HexDigit(n: nat): char
    requires n < 16
  {
    "0123456789ABCDEF"[n]
  }

  function PercentEncodeChar(lib: Library, c: char): string {
    if c as int >= 128 then lib.percentEncodeUtf8(c)
    else if InUserinfoSet(c) then ['%', HexDigit(c as int / 16), HexDigit(c as int % 16)]
    else [c]
  }

  function PercentEncode(lib: Library, s: string): string {
    if s == "" then "" else PercentEncodeChar(lib, s[0]) + PercentEncode(lib, s[1..])
  }

  // ----- the parser, as a function -----

  function TrimStart(s: string): string {
    if s != "" && ControlOrSpace(s[0]) then TrimStart(s[1..]) else s
  }

  function TrimEnd(s: string): string {
    if s != "" && ControlOrSpace(s[|s| - 1]) then TrimEnd(s[..|s| - 1]) else s
  }

  function Trim(s: string): string { TrimEnd(TrimStart(s)) }

  /** The scheme, lower-cased, and what follows its colon. */
  function SplitScheme(input: string, n: nat): Option<(string, string)>
    requires n <= |input|
    decreases |input| - n
  {
    if n == |input| then None
    else if input[n] == ':' then Some((Lower(input[..n]), input[n + 1..]))
    else if SchemeChar(input[n]) then SplitScheme(input, n + 1)
    else None
  }

  function DropSlashes(s: string): string {
    if s != "" && (s[0] == '/' || s[0] == '\\') then DropSlashes(s[1..]) else s
  }

  function AuthorityEnd(input: string, special: bool, n: nat := 0): (end: nat)
    requires n <= |input|
    ensures n <= end <= |input|
    ensures forall i :: n <= i < end ==> !Delimiter(input[i], special)
    ensures end < |input| ==> Delimiter(input[end], special)
    decreases |input| - n
  {
    if n < |input| && !Delimiter(input[n], special) then AuthorityEnd(input, special, n + 1) else n
  }

  /** Where user information ends, if there is any: the last '@' of the authority. */
  function LastAt(input: string, special: bool): Option<nat> {
    FindLast(input, '@', AuthorityEnd(input, special))
  }

  datatype Userinfo = Userinfo(text: string, hasUsername: bool, hasPassword: bool, colonSeen: bool)

  /** The next character that is not ignored, and the rest after it. */
  function NextUtf8(input: string): Option<(char, string)> {
    if input == "" then None
    else if Ignored(input[0]) then NextUtf8(input[1..])
    else Some((input[0], input[1..]))
  }

  /** Encoding `count` characters of user information. */
  function EncodeUserinfo(lib: Library, input: string, count: nat, done: Userinfo): Option<Userinfo>
    decreases count
  {
    if count == 0 then Some(done)
    else
      var next := NextUtf8(input);
      if next.None? then None
      else
        var (c, rest) := next.value;
        EncodeUserinfo(lib, rest, count - 1, AddUserinfo(lib, c, count - 1, done))
  }

  function AddUserinfo(lib: Library, c: char, left: nat, done: Userinfo): Userinfo {
    if c == ':' && !done.colonSeen then
      if left > 0 then Userinfo(done.text + ":", done.hasUsername, true, true)
      else done.(colonSeen := true)
    else
      done.(text := done.text + PercentEncodeChar(lib, c),
            hasUsername := done.hasUsername || !done.hasPassword)
  }

  /** The user information as serialized, with its '@', and the input after it. */
  function SplitUserinfo(lib: Library, input: string, special: bool): Result<(string, string), ParseError> {
    var at := LastAt(input, special);
    if at.None? then Ok(("", input))
    else if at.value == 0 then Ok(("", input[1..]))
    else
      var info := EncodeUserinfo(lib, input, at.value, Userinfo("", false, false, false));
      if info.None? then Err(ExpectedMoreChars)
      else
        var closing := if info.value.hasUsername || info.value.hasPassword then "@" else "";
        Ok((info.value.text + closing, input[at.value + 1..]))
  }

  function HostEnd(input: string, special: bool, inside: bool := false, n: nat := 0): (end: nat)
    requires n <= |input|
    ensures n <= end <= |input|
    ensures forall i :: n <= i < end ==> !Delimiter(input[i], special)
    ensures end < |input| ==> input[end] == ':' || Delimiter(input[end], special)
    decreases |input| - n
  {
    if n == |input| || (input[n] == ':' && !inside) || Delimiter(input[n], special) then n
    else HostEnd(input, special, if input[n] == '[' then true else if input[n] == ']' then false else inside, n + 1)
  }

  /** The number of ignored characters: the host is cut short by as many, not freed of them. */
  function IgnoredCount(s: string): (n: nat)
    ensures n <= |s|
    ensures (forall i :: 0 <= i < |s| ==> !Ignored(s[i])) ==> n == 0
  {
    if s == "" then 0 else IgnoredCount(s[..|s| - 1]) + (if Ignored(s[|s| - 1]) then 1 else 0)
  }

  predicate IsAscii(s: string) {
    forall i :: 0 <= i < |s| ==> s[i] as int < 128
  }

  function SplitHost(lib: Library, input: string, special: bool): Result<(string, string), ParseError> {
    var end := HostEnd(input, special);
    var host := input[..end - IgnoredCount(input[..end])];
    if IsAscii(host) then Ok((host, input[end..]))
    else
      var encoded := lib.domainToAscii(host);
      if encoded.None? then Err(IdnaError) else Ok((encoded.value, input[end..]))
  }

  function AfterDoubleSlash(lib: Library, scheme: string, special: bool, input: string)
    : Result<Hostname, ParseError>
  {
    var userinfo := SplitUserinfo(lib, input, special);
    if userinfo.Err? then Err(userinfo.error)
    else
      var front := scheme + "://" + userinfo.value.0;
      var host := SplitHost(lib, userinfo.value.1, special);
      if host.Err? then Err(host.error)
      else
        Ok(Hostname(front + host.value.0 + host.value.1, |scheme|, |front|, |front| + |host.value.0|))
  }

  function ParseUrl(lib: Library, input: string): Result<Hostname, ParseError> {
    var trimmed := Trim(input);
    var split := if trimmed != "" && Alphabetic(trimmed[0]) then SplitScheme(trimmed, 0) else None;
    if split.None? then Err(RelativeUrlWithoutBase)
    else
      var (scheme, rest) := split.value;
      match SchemeTypeOf(scheme)
      case File => Err(FileUrlNotSupported)
      case SpecialNotFile => AfterDoubleSlash(lib, scheme, true, DropSlashes(rest))
      case NotSpecial =>
        if StartsWith(rest, "//") then AfterDoubleSlash(lib, scheme, false, rest[2..])
        else
          var n := |scheme| + 1;
          Ok(Hostname(scheme + ":" + Lower(rest), |scheme|, n, n))
  }

  lemma PartsAreJoined(
    lib: Library, scheme: string, special: bool, input: string, userinfo: (string, string), host: (string, string))
    requires SplitUserinfo(lib, input, special) == Ok(userinfo) && SplitHost(lib, userinfo.1, special) == Ok(host)
    ensures var front := scheme + "://" + userinfo.0;
            AfterDoubleSlash(lib, scheme, special, input) ==
            Ok(Hostname(front + host.0 + host.1, |scheme|, |front|, |front| + |host.0|))
  {
  }

  // ----- the parser, as it runs -----

  class Parser {
    const lib: Library
    var serialization: string

    constructor (lib: Library)
      ensures serialization == "" && this.lib == lib
    {
      this.lib, serialization := lib, "";
    }

    method ParseScheme(input: string) returns (remaining: Option<string>)
      requires serialization == ""
      modifies this
      ensures var split := if input != "" && Alphabetic(input[0]) then SplitScheme(input, 0) else None;
              if split.Some? then remaining == Some(split.value.1) && serialization == split.value.0
              else remaining == None
    {
      if input == "" || !Alphabetic(input[0]) {
        return None;
      }
      var n := 0;
      while n < |input|
        invariant n <= |input| && serialization == Lower(input[..n])
        invariant SplitScheme(input, 0) == SplitScheme(input, n)
      {
        var c := input[n];
        assert Lower(input[..n + 1]) == Lower(input[..n]) + [LowerChar(c)];
        n := n + 1;
        if 'a' <= c <= 'z' {
          serialization := serialization + [c];
        } else if 'A' <= c <= 'Z' {
          serialization := serialization + [LowerChar(c)];
        } else if '0' <= c <= '9' || c == '+' || c == '-' || c == '.' {
          serialization := serialization + [c];
        } else if c == ':' {
          return Some(input[n..]);
        } else {
          serialization := "";
          return None;
        }
      }
      return None;
    }

    /** The last '@' of the authority. */
    method ScanAuthority(input: string, special: bool) returns (lastAt: Option<nat>)
      ensures lastAt == LastAt(input, special)
    {
      lastAt := None;
      var charCount := 0;
      while charCount < |input| && !Delimiter(input[charCount], special)
        invariant charCount <= |input|
        invariant lastAt == FindLast(input, '@', charCount)
        invariant AuthorityEnd(input, special) == AuthorityEnd(input, special, charCount)
      {
        if input[charCount] == '@' {
          lastAt := Some(charCount);
        }
        charCount := charCount + 1;
      }
    }

    method ParseUserinfo(input: string, special: bool) returns (r: Result<string, ParseError>)
      modifies this
      ensures var split := SplitUserinfo(lib, input, special);
              if split.Ok? then r == Ok(split.value.1) && serialization == old(serialization) + split.value.0
              else r == Err(split.error)
    {
      var lastAt := ScanAuthority(input, special);
      if lastAt.None? {
        return Ok(input);
      }
      var remaining := input[lastAt.value + 1..];
      if lastAt.value == 0 {
        return Ok(remaining);
      }
      var written, closing := WriteUserinfo(input, lastAt.value);
      if !written {
        return Err(ExpectedMoreChars);
      }
      if closing {
        serialization := serialization + "@";
      }
      return Ok(remaining);
    }

    /** The loop over the user information: was it written, and has it a name or a password? */
    method WriteUserinfo(input: string, count: nat) returns (written: bool, closing: bool)
      modifies this
      ensures var info := EncodeUserinfo(lib, input, count, Userinfo("", false, false, false));
              && (written <==> info.Some?)
              && (written ==> serialization == old(serialization) + info.value.text
                              && (closing <==> info.value.hasUsername || info.value.hasPassword))
    {
      var left, rest := count, input;
      var colonSeen, hasPassword, hasUsername := false, false, false;
      ghost var start := serialization;
      ghost var text := "";
      while left > 0
        invariant serialization == start + text
        invariant EncodeUserinfo(lib, input, count, Userinfo("", false, false, false))
                  == EncodeUserinfo(lib, rest, left, Userinfo(text, hasUsername, hasPassword, colonSeen))
      {
        var next := NextUtf8(rest);
        if next.None? {
          return false, false;
        }
        var c := next.value.0;
        rest := next.value.1;
        left := left - 1;
        if c == ':' && !colonSeen {
          colonSeen := true;
          if left > 0 {
            serialization := serialization + ":";
            text := text + ":";
            hasPassword := true;
          }
        } else {
          if !hasPassword {
            hasUsername := true;
          }
          serialization := serialization + PercentEncodeChar(lib, c);
          text := text + PercentEncodeChar(lib, c);
        }
      }
      return true, hasUsername || hasPassword;
    }

    /** Counts the host's characters, and those of them that are not ignored. */
    method ScanHost(input: string, special: bool) returns (bytes: nat, nonIgnored: nat)
      ensures bytes == HostEnd(input, special) && nonIgnored == bytes - IgnoredCount(input[..bytes])
    {
      var inside := false;
      bytes, nonIgnored := 0, 0;
      while bytes < |input| && !(input[bytes] == ':' && !inside) && !Delimiter(input[bytes], special)
        invariant bytes <= |input|
        invariant nonIgnored == bytes - IgnoredCount(input[..bytes])
        invariant HostEnd(input, special) == HostEnd(input, special, inside, bytes)
      {
        var c := input[bytes];
        assert input[..bytes + 1][..bytes] == input[..bytes];
        if c == '[' {
          inside := true;
        } else if c == ']' {
          inside := false;
        }
        if !Ignored(c) {
          nonIgnored := nonIgnored + 1;
        }
        bytes := bytes + 1;
      }
    }

    method ParseHost(input: string, special: bool) returns (r: Result<string, ParseError>)
      modifies this
      ensures var split := SplitHost(lib, input, special);
              if split.Ok? then r == Ok(split.value.1) && serialization == old(serialization) + split.value.0
              else r == Err(split.error)
    {
      var bytes, nonIgnored := ScanHost(input, special);
      var host := input[..nonIgnored];
      if IsAscii(host) {
        serialization := serialization + host;
      } else {
        var encoded := lib.domainToAscii(host);
        if encoded.None? {
          return Err(IdnaError);
        }
        serialization := serialization + encoded.value;
      }
      return Ok(input[bytes..]);
    }

    method ParseAfterDoubleSlash(input: string, special: bool, schemeEnd: nat) returns (r: Result<Hostname, ParseError>)
      requires schemeEnd + 1 == |serialization| && serialization[schemeEnd] == ':'
      modifies this
      ensures r == AfterDoubleSlash(lib, old(serialization)[..schemeEnd], special, input)
    {
      ghost var scheme := serialization[..schemeEnd];
      assert serialization + "//" == scheme + "://";
      serialization := serialization + "//";
      var afterUserinfo := ParseUserinfo(input, special);
      if afterUserinfo.Err? {
        return Err(afterUserinfo.error);
      }
      ghost var userinfo := SplitUserinfo(lib, input, special).value;
      ghost var front := scheme + "://" + userinfo.0;
      assert serialization == front;
      var hostStart := |serialization|;
      var afterHost := ParseHost(afterUserinfo.value, special);
      if afterHost.Err? {
        return Err(afterHost.error);
      }
      ghost var host := SplitHost(lib, userinfo.1, special).value;
      PartsAreJoined(lib, scheme, special, input, userinfo, host);
      assert serialization == front + host.0;
      var hostEnd := |serialization|;
      serialization := serialization + afterHost.value;
      return Ok(Hostname(serialization, schemeEnd, hostStart, hostEnd));
    }

    method Parse(input: string) returns (r: Result<Hostname, ParseError>)
      requires serialization == ""
      modifies this
      ensures r == ParseUrl(lib, input)
    {
      var afterScheme := ParseScheme(Trim(input));
      if afterScheme.None? {
        return Err(RelativeUrlWithoutBase);
      }
      var rest, schemeEnd, schemeType := afterScheme.value, |serialization|, SchemeTypeOf(serialization);
      ghost var scheme := serialization;
      serialization := serialization + ":";
      assert serialization[..schemeEnd] == scheme;
      match schemeType {
        case File =>
          return Err(FileUrlNotSupported);
        case SpecialNotFile =>
          r := ParseAfterDoubleSlash(DropSlashes(rest), true, schemeEnd);
        case NotSpecial =>
          if StartsWith(rest, "//") {
            r := ParseAfterDoubleSlash(rest[2..], false, schemeEnd);
          } else {
            var pathStart := |serialization|;
            serialization := serialization + Lower(rest);
            return Ok(Hostname(serialization, schemeEnd, pathStart, pathStart));
          }
      }
    }
  }
}

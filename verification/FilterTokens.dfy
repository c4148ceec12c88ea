/** The tokens of a filter and of a request. */
module FilterTokens {
  import opened Prelude
  import opened Text
  import opened Network
  import opened Tokenizer

  const ALL_RUNS := Flags(false, false)

  // ----- requests -----

  /** The host and all its proper suffixes that start after a dot. */
  function SuffixHashes(hash: string -> Hash, host: string, n: nat): seq<Hash>
    requires n <= |host|
  {
    if n == 0 then [hash(host)]
    else
      SuffixHashes(hash, host, n - 1)
      + (if host[n - 1] == '.' && n < |host| then [hash(host[n..])] else [])
  }

  method SourceHostnameHashes(hash: string -> Hash, host: string) returns (hashes: Option<seq<Hash>>)
    ensures hashes == if host == "" then None else Some(SuffixHashes(hash, host, |host|))
  {
    if host == "" {
      return None;
    }
    var list := [hash(host)];
    for i := 0 to |host|
      invariant list == SuffixHashes(hash, host, i)
    {
      if host[i] == '.' && i + 1 < |host| {
        list := list + [hash(host[i + 1..])];
      }
    }
    hashes := Some(list);
  }

  /** The stored tokens of a URL: its tokens as far as they fit, then the zero token. */
  function UrlTokens(hash: string -> Hash, urlLower: string): TokensBuffer {
    Push(Truncated(Tokens(hash, urlLower, ALL_RUNS), BUFFER_CAPACITY - 1), 0)
  }

  method CalculateTokens(hash: string -> Hash, urlLower: string) returns (tokens: TokensBuffer)
    ensures tokens == UrlTokens(hash, urlLower)
  {
    tokens := Tokenize(hash, urlLower, ALL_RUNS, []);
    tokens := Push(tokens, 0);
  }

  // ----- filters -----

  datatype TokenGroups = Empty | OptDomains(domains: seq<Hash>) | Other(tokens: seq<Hash>)

  /** Letters, digits, '-' and '_' only. */
  predicate ValidParam(s: string) {
    s != "" && forall i :: 0 <= i < |s| ==>
      'a' <= s[i] <= 'z' || 'A' <= s[i] <= 'Z' || '0' <= s[i] <= '9' || s[i] == '_' || s[i] == '-'
  }

  function Add(buffer: TokensBuffer, tokens: seq<Hash>): TokensBuffer {
    buffer + Truncated(tokens, Room(buffer))
  }

  function DomainToken(f: NetworkFilter): TokensBuffer {
    if f.optDomains.Some? && f.optNotDomains.None? && |f.optDomains.value| == 1 then f.optDomains.value else []
  }

  function PatternFlags(f: NetworkFilter): Flags {
    Flags(IsRightAnchor in f.mask, IsRightAnchor !in f.mask)
  }

  function PatternTokens(hash: string -> Hash, f: NetworkFilter): seq<Hash> {
    if f.part.Simple? && IsCompleteRegex !in f.mask then Tokens(hash, f.part.pattern, PatternFlags(f)) else []
  }

  /** The part of the host name that is tokenized: a wildcard host name loses its last label. */
  function TokenizedHostname(f: NetworkFilter): string {
    if f.hostname.None? then ""
    else if IsHostnameRegex !in f.mask then f.hostname.value
    else
      var dot := FindLast(f.hostname.value, '.', |f.hostname.value|);
      if dot.Some? then f.hostname.value[..dot.value] else ""
  }

  function HostnameTokens(hash: string -> Hash, f: NetworkFilter): seq<Hash> {
    Tokens(hash, TokenizedHostname(f), ALL_RUNS)
  }

  /** Domain, pattern and host name tokens, in one buffer. */
  function OwnTokens(hash: string -> Hash, f: NetworkFilter): TokensBuffer {
    Add(Add(DomainToken(f), PatternTokens(hash, f)), HostnameTokens(hash, f))
  }

  /** The parameter name is tokenized when there is nothing else. */
  predicate FallsBackToParam(hash: string -> Hash, f: NetworkFilter) {
    OwnTokens(hash, f) == [] && IsRemoveParam in f.mask && f.modifierOption.Some? && ValidParam(f.modifierOption.value)
  }

  function AllTokens(hash: string -> Hash, f: NetworkFilter): TokensBuffer {
    if FallsBackToParam(hash, f) then Add([], Tokens(hash, Lower(f.modifierOption.value), ALL_RUNS))
    else OwnTokens(hash, f)
  }

  function ProtocolToken(hash: string -> Hash, f: NetworkFilter): seq<Hash> {
    if FromHttp in f.mask && FromHttps !in f.mask then [hash("http")]
    else if FromHttps in f.mask && FromHttp !in f.mask then [hash("https")]
    else []
  }

  function TokensOf(hash: string -> Hash, f: NetworkFilter): TokenGroups {
    var tokens := AllTokens(hash, f);
    if tokens == [] && f.optDomains.Some? && f.optNotDomains.None? then
      if f.optDomains.value != [] then OptDomains(f.optDomains.value) else TokenGroups.Empty
    else TokenGroups.Other(tokens + ProtocolToken(hash, f))
  }

  lemma AddFits(buffer: TokensBuffer, tokens: seq<Hash>)
    requires |buffer| < BUFFER_CAPACITY
    ensures |Add(buffer, tokens)| < BUFFER_CAPACITY
  {
  }

  method AddHostname(hash: string -> Hash, f: NetworkFilter, buffer: TokensBuffer) returns (tokensBuffer: TokensBuffer)
    requires |buffer| < BUFFER_CAPACITY
    ensures tokensBuffer == Add(buffer, HostnameTokens(hash, f)) && |tokensBuffer| < BUFFER_CAPACITY
  {
    tokensBuffer := buffer;
    assert TokensUpto(hash, "", ALL_RUNS, 0) == [];
    AddFits(buffer, HostnameTokens(hash, f));
    if f.hostname.Some? {
      if IsHostnameRegex !in f.mask {
        tokensBuffer := Tokenize(hash, f.hostname.value, ALL_RUNS, tokensBuffer);
      } else {
        var lastDot := FindLast(f.hostname.value, '.', |f.hostname.value|);
        if lastDot.Some? {
          tokensBuffer := Tokenize(hash, f.hostname.value[..lastDot.value], ALL_RUNS, tokensBuffer);
        }
      }
    }
  }

  /** Filling the buffer step by step never overflows it, protocol token included. */
  method GetTokens(hash: string -> Hash, f: NetworkFilter) returns (groups: TokenGroups, tokensBuffer: TokensBuffer)
    ensures groups == TokensOf(hash, f)
    ensures groups.Other? ==> groups.tokens == tokensBuffer
  {
    tokensBuffer := [];
    if f.optDomains.Some? && f.optNotDomains.None? && |f.optDomains.value| == 1 {
      tokensBuffer := Push(tokensBuffer, f.optDomains.value[0]);
    }
    assert tokensBuffer == DomainToken(f);
    if f.part.Simple? && IsCompleteRegex !in f.mask {
      var skipLast := (IsRegex !in f.mask || IsRegex in f.mask) && IsRightAnchor !in f.mask;
      var skipFirst := IsRightAnchor in f.mask;
      tokensBuffer := Tokenize(hash, f.part.pattern, Flags(skipFirst, skipLast), tokensBuffer);
    }
    assert tokensBuffer == Add(DomainToken(f), PatternTokens(hash, f));
    AddFits(DomainToken(f), PatternTokens(hash, f));
    tokensBuffer := AddHostname(hash, f, tokensBuffer);
    assert tokensBuffer == OwnTokens(hash, f);
    if tokensBuffer == [] && IsRemoveParam in f.mask && f.modifierOption.Some? && ValidParam(f.modifierOption.value) {
      tokensBuffer := Tokenize(hash, Lower(f.modifierOption.value), ALL_RUNS, tokensBuffer);
    }
    if tokensBuffer == [] && f.optDomains.Some? && f.optNotDomains.None? {
      if f.optDomains.value != [] {
        return OptDomains(f.optDomains.value), tokensBuffer;
      }
      return TokenGroups.Empty, tokensBuffer;
    }
    assert |tokensBuffer| < BUFFER_CAPACITY;
    if FromHttp in f.mask && FromHttps !in f.mask {
      tokensBuffer := Push(tokensBuffer, hash("http"));
    } else if FromHttps in f.mask && FromHttp !in f.mask {
      tokensBuffer := Push(tokensBuffer, hash("https"));
    }
    return TokenGroups.Other(tokensBuffer), tokensBuffer;
  }
}

/** Which hashes the tokens of a filter are, told by its fields. */
module TokenMeaning {
  import opened Prelude
  import opened Text
  import opened Network
  import opened Tokenizer
  import opened FilterTokens

  /** The hash is that of a kept run of the text. */
  ghost predicate IsTokenOf(hash: string -> Hash, s: string, flags: Flags, h: Hash) {
    exists a, b :: IsToken(s, flags, a, b) && h == hash(s[a..b])
  }

  lemma TokensMean(hash: string -> Hash, s: string, flags: Flags, h: Hash)
    ensures h in Tokens(hash, s, flags) <==> IsTokenOf(hash, s, flags, h)
  {
    TokensAreTheKeptRuns(hash, s, flags, |s|, h);
  }

  /** The only domain of a filter that excludes none. */
  predicate IsOnlyDomain(f: NetworkFilter, h: Hash) {
    f.optDomains == Some([h]) && f.optNotDomains.None?
  }

  /** A run of a single pattern: not at its end, or if it is bound to the end of the URL, not at its beginning. */
  ghost predicate IsPatternToken(hash: string -> Hash, f: NetworkFilter, h: Hash) {
    && f.part.Simple? && IsCompleteRegex !in f.mask
    && IsTokenOf(hash, f.part.pattern, Flags(IsRightAnchor in f.mask, IsRightAnchor !in f.mask), h)
  }

  /** A run of the host name; of a name that goes on, only as far as its last dot. */
  ghost predicate IsHostnameToken(hash: string -> Hash, f: NetworkFilter, h: Hash) {
    && f.hostname.Some?
    && if IsHostnameRegex !in f.mask then IsTokenOf(hash, f.hostname.value, Flags(false, false), h)
       else exists front, last :: IsLastDot(f.hostname.value, front, last)
                                  && IsTokenOf(hash, front, Flags(false, false), h)
  }

  predicate IsLastDot(name: string, front: string, last: string) {
    name == front + "." + last && '.' !in last
  }

  ghost predicate IsOwnToken(hash: string -> Hash, f: NetworkFilter, h: Hash) {
    IsOnlyDomain(f, h) || IsPatternToken(hash, f, h) || IsHostnameToken(hash, f, h)
  }

  predicate IsParamChar(c: char) {
    'a' <= c <= 'z' || 'A' <= c <= 'Z' || '0' <= c <= '9' || c == '_' || c == '-'
  }

  /** A run of the lower-cased name of a parameter to remove. */
  ghost predicate IsParamToken(hash: string -> Hash, f: NetworkFilter, h: Hash) {
    && IsRemoveParam in f.mask && f.modifierOption.Some?
    && (forall c :: c in f.modifierOption.value ==> IsParamChar(c))
    && IsTokenOf(hash, Lower(f.modifierOption.value), Flags(false, false), h)
  }

  /** The one protocol that a filter is for. */
  predicate IsProtocolToken(hash: string -> Hash, f: NetworkFilter, h: Hash) {
    || (FromHttp in f.mask && FromHttps !in f.mask && h == hash("http"))
    || (FromHttps in f.mask && FromHttp !in f.mask && h == hash("https"))
  }

  /** A parameter name gives tokens only if nothing else does. */
  ghost predicate IsFilterToken(hash: string -> Hash, f: NetworkFilter, h: Hash) {
    IsOwnToken(hash, f, h) || ((forall g :: !IsOwnToken(hash, f, g)) && IsParamToken(hash, f, h))
  }

  /** The buffer, which keeps a slot free, has room for all tokens. */
  predicate Fits(hash: string -> Hash, f: NetworkFilter) {
    1 + |PatternTokens(hash, f)| + |HostnameTokens(hash, f)| < BUFFER_CAPACITY
    && (f.modifierOption.Some? ==> |f.modifierOption.value| < BUFFER_CAPACITY)
  }

  lemma LastDotIs(name: string, front: string, last: string)
    requires IsLastDot(name, front, last)
    ensures FindLast(name, '.', |name|) == Some(|front|) && front == name[..|front|]
  {
    assert name[|front|] == '.';
    assert forall i :: |front| < i < |name| ==> name[i] == last[i - |front| - 1] != '.';
  }

  lemma LastDotOf(name: string, dot: nat)
    requires FindLast(name, '.', |name|) == Some(dot)
    ensures IsLastDot(name, name[..dot], name[dot + 1..])
  {
    assert name == name[..dot] + "." + name[dot + 1..];
  }

  lemma HostnameTokensMean(hash: string -> Hash, f: NetworkFilter, h: Hash)
    ensures h in HostnameTokens(hash, f) <==> IsHostnameToken(hash, f, h)
  {
    TokensMean(hash, TokenizedHostname(f), ALL_RUNS, h);
    assert TokensUpto(hash, "", ALL_RUNS, 0) == [];
    if f.hostname.Some? && IsHostnameRegex in f.mask {
      WildcardTokensMean(hash, f, f.hostname.value, h);
    }
  }

  lemma WildcardTokensMean(hash: string -> Hash, f: NetworkFilter, name: string, h: Hash)
    requires f.hostname == Some(name) && IsHostnameRegex in f.mask
    ensures h in HostnameTokens(hash, f) <==> IsHostnameToken(hash, f, h)
  {
    var dot := FindLast(name, '.', |name|);
    if dot.Some? {
      LastDotOf(name, dot.value);
      TokensMean(hash, name[..dot.value], ALL_RUNS, h);
    } else {
      assert TokensUpto(hash, "", ALL_RUNS, 0) == [];
    }
    if front, last :| IsLastDot(name, front, last) && IsTokenOf(hash, front, Flags(false, false), h) {
      LastDotIs(name, front, last);
    }
  }

  lemma OwnTokensMean(hash: string -> Hash, f: NetworkFilter, h: Hash)
    requires Fits(hash, f)
    ensures h in OwnTokens(hash, f) <==> IsOwnToken(hash, f, h)
  {
    HostnameTokensMean(hash, f, h);
    if f.part.Simple? {
      TokensMean(hash, f.part.pattern, PatternFlags(f), h);
    }
    AddedAll(DomainToken(f), PatternTokens(hash, f));
    AddedAll(DomainToken(f) + PatternTokens(hash, f), HostnameTokens(hash, f));
    assert f.optDomains.Some? && |f.optDomains.value| == 1 ==> f.optDomains.value == [f.optDomains.value[0]];
  }

  lemma AddedAll(buffer: TokensBuffer, tokens: seq<Hash>)
    requires |buffer| + |tokens| < BUFFER_CAPACITY
    ensures Add(buffer, tokens) == buffer + tokens
  {
  }

  lemma {:induction false} FewerTokens(hash: string -> Hash, s: string, flags: Flags, n: nat)
    requires n <= |s|
    ensures |TokensUpto(hash, s, flags, n)| <= n
  {
    if n > 0 {
      FewerTokens(hash, s, flags, n - 1);
    }
  }

  lemma ParamTokensMean(hash: string -> Hash, f: NetworkFilter, h: Hash)
    requires Fits(hash, f) && f.modifierOption.Some? && ValidParam(f.modifierOption.value)
    ensures h in Add([], Tokens(hash, Lower(f.modifierOption.value), ALL_RUNS)) <==>
              IsTokenOf(hash, Lower(f.modifierOption.value), Flags(false, false), h)
  {
    var name := Lower(f.modifierOption.value);
    FewerTokens(hash, name, ALL_RUNS, |name|);
    AddedAll([], Tokens(hash, name, ALL_RUNS));
    TokensMean(hash, name, ALL_RUNS, h);
  }

  /** Only a name of the right characters gives a token, and an empty one gives none. */
  lemma ParamIsValid(hash: string -> Hash, f: NetworkFilter, h: Hash)
    requires IsParamToken(hash, f, h)
    ensures ValidParam(f.modifierOption.value)
  {
    var name := f.modifierOption.value;
    assert forall i :: 0 <= i < |name| ==> name[i] in name;
  }

  lemma AllTokensMean(hash: string -> Hash, f: NetworkFilter, h: Hash)
    requires Fits(hash, f)
    ensures h in AllTokens(hash, f) <==> IsFilterToken(hash, f, h)
  {
    var own := OwnTokens(hash, f);
    forall g ensures g in own <==> IsOwnToken(hash, f, g) {
      OwnTokensMean(hash, f, g);
    }
    if own != [] {
      assert own[0] in own;
    }
    if IsParamToken(hash, f, h) {
      ParamIsValid(hash, f, h);
    }
    if FallsBackToParam(hash, f) {
      ParamTokensMean(hash, f, h);
      assert forall c :: c in f.modifierOption.value ==> IsParamChar(c);
    }
  }

  /**
   * The tokens of a filter: those of its fields, and its protocol. A filter without any goes by its
   * domains, if it has some and excludes none.
   */
  lemma TokensOfMean(hash: string -> Hash, f: NetworkFilter)
    requires Fits(hash, f)
    ensures var groups := TokensOf(hash, f);
            if (forall h :: !IsFilterToken(hash, f, h)) && f.optDomains.Some? && f.optNotDomains.None?
            then groups == if f.optDomains.value == [] then TokenGroups.Empty else OptDomains(f.optDomains.value)
            else groups.Other?
                 && forall h :: h in groups.tokens <==> IsFilterToken(hash, f, h) || IsProtocolToken(hash, f, h)
  {
    var tokens := AllTokens(hash, f);
    forall h ensures h in tokens <==> IsFilterToken(hash, f, h) {
      AllTokensMean(hash, f, h);
    }
    if tokens != [] {
      assert tokens[0] in tokens;
    }
  }
}

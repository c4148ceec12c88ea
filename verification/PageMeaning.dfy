/** What a page is told, by the fields of the rules and the labels of its host. */
module PageMeaning {
  import opened Prelude
  import opened Text
  import opened Resources
  import opened ClassRules
  import opened CosmeticRules
  import opened CosmeticCache

  // ----- the labels of a host -----

  /** The text is the whole of the host, or what follows one of its dots. */
  ghost predicate IsEnding(host: string, text: string) {
    |text| <= |host| && host[|host| - |text|..] == text && (|text| < |host| ==> host[|host| - |text| - 1] == '.')
  }

  /** The registrable domain is one label, a dot and the public suffix. */
  predicate IsRegistrable(domain: string, name: string, suffix: string) {
    domain == name + "." + suffix && '.' !in name
  }

  /** Rules for a page are listed under its host and the domains around it, down to the registrable one ... */
  ghost predicate IsHostPart(hostname: string, domain: string, text: string) {
    hostname != "" && IsEnding(hostname, text) && |domain| <= |text|
  }

  /** ... and, for rules with a wildcard suffix, the public suffix and the endings of the host without it. */
  ghost predicate IsEntityPart(hostname: string, domain: string, text: string) {
    exists name, suffix :: IsRegistrable(domain, name, suffix) && SuffixOrEnding(hostname, suffix, text)
  }

  ghost predicate SuffixOrEnding(hostname: string, suffix: string, text: string) {
    || text == suffix
    || (|suffix| + 1 < |hostname| && IsEnding(hostname[..|hostname| - |suffix| - 1], text))
  }

  lemma DotIsEnding(host: string, dot: nat)
    requires dot < |host| && host[dot] == '.'
    ensures IsEnding(host, AfterDot(host, dot, |host|)) && |AfterDot(host, dot, |host|)| == |host| - dot - 1
  {
    var text := AfterDot(host, dot, |host|);
    assert host[|host| - |text|..] == text;
  }

  lemma EndingIsDot(host: string, text: string)
    requires IsEnding(host, text) && |text| < |host|
    ensures var dot := |host| - |text| - 1; host[dot] == '.' && AfterDot(host, dot, |host|) == text
  {
  }

  /** The hash of an ending that is long enough. */
  ghost predicate IsEndingHash(hash: string -> Hash, host: string, least: nat, h: Hash) {
    exists text :: IsEnding(host, text) && least <= |text| && h == hash(text)
  }

  lemma LabelHashMeans(hash: string -> Hash, host: string, limit: nat, h: Hash)
    requires limit <= |host|
    ensures IsLabelHash(hash, host, limit, h) <==> IsEndingHash(hash, host, |host| - limit, h)
  {
    assert host[0..] == host && IsEnding(host, host);
    if FollowsDot(hash, host, |host|, 0, limit, h) {
      var dot: nat :| 0 <= dot < limit && host[dot] == '.' && h == hash(AfterDot(host, dot, |host|));
      DotIsEnding(host, dot);
    }
    if IsEndingHash(hash, host, |host| - limit, h) {
      var text :| IsEnding(host, text) && |host| - limit <= |text| && h == hash(text);
      EndingHasHash(hash, host, limit, h, text);
    }
  }

  lemma EndingHasHash(hash: string -> Hash, host: string, limit: nat, h: Hash, text: string)
    requires limit <= |host| && IsEnding(host, text) && |host| - limit <= |text| && h == hash(text)
    ensures IsLabelHash(hash, host, limit, h)
  {
    if |text| < |host| {
      EndingIsDot(host, text);
    } else {
      assert host[0..] == host;
    }
  }

  lemma RegistrableIsOne(domain: string, name: string, suffix: string)
    requires IsRegistrable(domain, name, suffix)
    ensures FirstIndex(domain, '.') == |name| < |domain| && suffix == domain[|name| + 1..]
  {
    FirstIndexAt(name, '.', suffix);
  }

  /** The host without its public suffix, and the public suffix: the label between them holds no dot. */
  lemma SplitMeans(hostname: string, domain: string)
    requires EndsWith(hostname, domain)
    ensures GetHostnameWithoutPublicSuffix(hostname, domain).None? <==> '.' !in domain
    ensures forall name, suffix :: IsRegistrable(domain, name, suffix) ==>
              GetHostnameWithoutPublicSuffix(hostname, domain) ==
              Some((hostname[..|hostname| - |domain|] + name, suffix))
  {
    var dot := FirstIndex(domain, '.');
    assert domain[..|domain|] == domain;
    forall name, suffix | IsRegistrable(domain, name, suffix)
      ensures GetHostnameWithoutPublicSuffix(hostname, domain) ==
              Some((hostname[..|hostname| - |domain|] + name, suffix))
    {
      RegistrableIsOne(domain, name, suffix);
      SplitAtRegistrable(hostname, domain, name, suffix);
    }
  }

  lemma SplitAtRegistrable(hostname: string, domain: string, name: string, suffix: string)
    requires EndsWith(hostname, domain) && IsRegistrable(domain, name, suffix)
    ensures GetHostnameWithoutPublicSuffix(hostname, domain) ==
            Some((hostname[..|hostname| - |domain|] + name, suffix))
  {
    var start := |hostname| - |domain|;
    RegistrableIsOne(domain, name, suffix);
    SplitsAtDot(hostname, domain, |name|);
    assert hostname[start..] == domain && hostname[..start + |name|] == hostname[..start] + name;
  }

  lemma Registrable(domain: string) returns (name: string, suffix: string)
    requires '.' in domain
    ensures IsRegistrable(domain, name, suffix)
  {
    var dot := FirstIndex(domain, '.');
    assert domain[..|domain|] == domain;
    name, suffix := domain[..dot], domain[dot + 1..];
  }

  lemma OneSuffix(hostname: string, domain: string, name: string, suffix: string, text: string)
    requires IsRegistrable(domain, name, suffix)
    ensures IsEntityPart(hostname, domain, text) <==> SuffixOrEnding(hostname, suffix, text)
  {
    RegistrableIsOne(domain, name, suffix);
    if a, b :| IsRegistrable(domain, a, b) && SuffixOrEnding(hostname, b, text) {
      RegistrableIsOne(domain, a, b);
    }
  }

  lemma HasDot(domain: string, name: string, suffix: string)
    requires IsRegistrable(domain, name, suffix)
    ensures '.' in domain
  {
    assert domain[|name|] == '.';
  }

  lemma NoEntity(hash: string -> Hash, hostname: string, domain: string, h: Hash)
    requires EndsWith(hostname, domain) && '.' !in domain
    ensures !IsEntityHash(hash, hostname, domain, h) && forall text :: !IsEntityPart(hostname, domain, text)
  {
    SplitMeans(hostname, domain);
    forall text ensures !IsEntityPart(hostname, domain, text) {
      if name, suffix :| IsRegistrable(domain, name, suffix) && SuffixOrEnding(hostname, suffix, text) {
        HasDot(domain, name, suffix);
      }
    }
  }

  ghost predicate IsEntityPartHash(hash: string -> Hash, hostname: string, domain: string, h: Hash) {
    exists text :: IsEntityPart(hostname, domain, text) && h == hash(text)
  }

  /** With the suffix known, the hash is that of the suffix or of an ending of the host without it. */
  lemma EntityHashAt(
    hash: string -> Hash, hostname: string, domain: string, h: Hash, name: string, suffix: string, rest: string)
    requires EndsWith(hostname, domain) && IsRegistrable(domain, name, suffix)
    requires rest == hostname[..|hostname| - |domain|] + name
    ensures rest == hostname[..|hostname| - |suffix| - 1]
    ensures IsEntityHash(hash, hostname, domain, h) <==>
              h == hash(suffix) || (rest != "" && IsEndingHash(hash, rest, 0, h))
  {
    SplitMeans(hostname, domain);
    SplitAtRegistrable(hostname, domain, name, suffix);
    LabelHashMeans(hash, rest, |rest|, h);
    var n := |hostname| - |suffix| - 1;
    assert hostname == rest + "." + suffix;
    assert hostname[..n] == rest;
  }

  lemma EntityHashMeans(hash: string -> Hash, hostname: string, domain: string, h: Hash)
    requires EndsWith(hostname, domain)
    ensures IsEntityHash(hash, hostname, domain, h) <==> IsEntityPartHash(hash, hostname, domain, h)
  {
    if '.' !in domain {
      NoEntity(hash, hostname, domain, h);
    } else {
      var name, suffix := Registrable(domain);
      var rest := hostname[..|hostname| - |domain|] + name;
      EntityHashAt(hash, hostname, domain, h, name, suffix, rest);
      EntityPartHashAt(hash, hostname, domain, h, name, suffix, rest);
    }
  }

  lemma EntityPartHashAt(
    hash: string -> Hash, hostname: string, domain: string, h: Hash, name: string, suffix: string, rest: string)
    requires |domain| <= |hostname| && IsRegistrable(domain, name, suffix)
    requires rest == hostname[..|hostname| - |suffix| - 1]
    ensures IsEntityPartHash(hash, hostname, domain, h) <==>
              h == hash(suffix) || (rest != "" && IsEndingHash(hash, rest, 0, h))
  {
    if IsEntityPartHash(hash, hostname, domain, h) {
      var text :| IsEntityPart(hostname, domain, text) && h == hash(text);
      OneSuffix(hostname, domain, name, suffix, text);
    }
    OneSuffix(hostname, domain, name, suffix, suffix);
    if rest != "" && IsEndingHash(hash, rest, 0, h) {
      var text :| IsEnding(rest, text) && h == hash(text);
      OneSuffix(hostname, domain, name, suffix, text);
    }
  }

  ghost predicate IsHostPartHash(hash: string -> Hash, hostname: string, domain: string, h: Hash) {
    exists text :: IsHostPart(hostname, domain, text) && h == hash(text)
  }

  /** The hashes of a page are those of these texts. */
  lemma PageHashMeans(hash: string -> Hash, hostname: string, domain: string, h: Hash)
    requires EndsWith(hostname, domain)
    ensures IsPageHash(hash, hostname, domain, h) <==>
              IsHostPartHash(hash, hostname, domain, h) || IsEntityPartHash(hash, hostname, domain, h)
  {
    EntityHashMeans(hash, hostname, domain, h);
    LabelHashMeans(hash, hostname, |hostname| - |domain|, h);
  }

  // ----- what a rule asks for -----

  /** The rule has one plain selector, or one script, and no action. */
  predicate IsPlain(rule: CosmeticFilter, text: string) {
    rule.selector == [CssSelector(text)] && rule.action.None?
  }

  ghost predicate Names(hashes: Option<seq<Hash>>, page: iset<Hash>) {
    hashes.Some? && exists h :: h in hashes.value && h in page
  }

  /** The rule is listed for the page, */
  ghost predicate For(rule: CosmeticFilter, page: iset<Hash>) {
    Names(rule.hostnames, page) || Names(rule.entities, page)
  }

  /** or excluded from it. */
  ghost predicate NotFor(rule: CosmeticFilter, page: iset<Hash>) {
    Names(rule.notHostnames, page) || Names(rule.notEntities, page)
  }

  /** It asks for what it says: an exception does where it is excluded, any other rule where it is listed. */
  ghost predicate Asks(rule: CosmeticFilter, page: iset<Hash>) {
    if rule.unhide then NotFor(rule, page) else For(rule, page)
  }

  /** It takes back what it says: an exception does where it is listed, any other rule where it is excluded. */
  ghost predicate TakesBack(rule: CosmeticFilter, page: iset<Hash>) {
    if rule.unhide then For(rule, page) else NotFor(rule, page)
  }

  /** What a rule says: to hide by a selector, to inject a script, or something procedural. */
  predicate SaysHide(rule: CosmeticFilter, s: string) {
    !rule.scriptInject && IsPlain(rule, s)
  }

  predicate SaysInject(rule: CosmeticFilter, s: string) {
    rule.scriptInject && IsPlain(rule, s)
  }

  predicate SaysProcedure(rule: CosmeticFilter, toJson: Serializer, json: string) {
    && !rule.scriptInject && (|rule.selector| != 1 || rule.selector[0].Procedural? || rule.action.Some?)
    && json == toJson(rule.selector, rule.action)
  }

  /** The rule asks for this kind on some hash of the page. */
  ghost predicate SaysOn(rule: CosmeticFilter, toJson: Serializer, page: iset<Hash>, kind: SpecificFilterType)
    requires rule.selector != []
  {
    exists hash: Hash :: hash in page && Says(rule, toJson, hash, kind)
  }

  lemma ListedMeans(rule: CosmeticFilter, page: iset<Hash>)
    ensures For(rule, page) <==>
              exists h: Hash :: h in page && h in OrEmpty(rule.hostnames) + OrEmpty(rule.entities)
    ensures NotFor(rule, page) <==>
              exists h: Hash :: h in page && h in OrEmpty(rule.notHostnames) + OrEmpty(rule.notEntities)
  {
  }

  lemma SaysOnMeans(rule: CosmeticFilter, toJson: Serializer, page: iset<Hash>, kind: SpecificFilterType)
    requires rule.selector != []
    ensures SaysOn(rule, toJson, page, kind) <==>
              && Kind(rule, toJson).Some?
              && ((For(rule, page) && kind == Kind(rule, toJson).value)
                  || (NotFor(rule, page) && kind == Negated(Kind(rule, toJson).value)))
  {
    ListedMeans(rule, page);
    if SaysOn(rule, toJson, page, kind) {
      var hash: Hash :| hash in page && Says(rule, toJson, hash, kind);
    }
    if h: Hash :| h in page && h in OrEmpty(rule.hostnames) + OrEmpty(rule.entities) {
      assert Kind(rule, toJson) == Some(kind) ==> Says(rule, toJson, h, kind);
    }
    if h: Hash :| h in page && h in OrEmpty(rule.notHostnames) + OrEmpty(rule.notEntities) {
      assert Kind(rule, toJson).Some? && kind == Negated(Kind(rule, toJson).value) ==> Says(rule, toJson, h, kind);
    }
  }

  lemma KindMeans(rule: CosmeticFilter, toJson: Serializer, s: string, p: PermissionMask)
    requires rule.selector != []
    ensures var kind := Kind(rule, toJson);
            && (SaysHide(rule, s) <==> kind == Some(if rule.unhide then Unhide(s) else Hide(s)))
            && (SaysInject(rule, s) && p == rule.permission <==>
                kind == Some(if rule.unhide then UninjectScript(s, p) else InjectScript(s, p)))
            && (SaysProcedure(rule, toJson, s) <==>
                kind == Some(if rule.unhide then ProceduralOrActionException(s) else ProceduralOrAction(s)))
  {
    if |rule.selector| == 1 {
      assert rule.selector == [rule.selector[0]];
    }
  }

  /** What one rule asks for and takes back on a page, by its fields. */
  lemma RuleMeans(rule: CosmeticFilter, toJson: Serializer, page: iset<Hash>, s: string, p: PermissionMask)
    requires rule.selector != []
    ensures SaysOn(rule, toJson, page, Hide(s)) <==> SaysHide(rule, s) && Asks(rule, page)
    ensures SaysOn(rule, toJson, page, Unhide(s)) <==> SaysHide(rule, s) && TakesBack(rule, page)
    ensures SaysOn(rule, toJson, page, InjectScript(s, p)) <==>
              SaysInject(rule, s) && p == rule.permission && Asks(rule, page)
    ensures SaysOn(rule, toJson, page, UninjectScript(s, p)) <==>
              SaysInject(rule, s) && p == rule.permission && TakesBack(rule, page)
    ensures SaysOn(rule, toJson, page, ProceduralOrAction(s)) <==>
              SaysProcedure(rule, toJson, s) && Asks(rule, page)
    ensures SaysOn(rule, toJson, page, ProceduralOrActionException(s)) <==>
              SaysProcedure(rule, toJson, s) && TakesBack(rule, page)
  {
    KindMeans(rule, toJson, s, p);
    SaysOnMeans(rule, toJson, page, Hide(s));
    SaysOnMeans(rule, toJson, page, Unhide(s));
    SaysOnMeans(rule, toJson, page, InjectScript(s, p));
    SaysOnMeans(rule, toJson, page, UninjectScript(s, p));
    SaysOnMeans(rule, toJson, page, ProceduralOrAction(s));
    SaysOnMeans(rule, toJson, page, ProceduralOrActionException(s));
  }

  // ----- what the rules put on a page -----

  ghost predicate Hidden(rules: seq<CosmeticFilter>, page: iset<Hash>, s: string) {
    exists i :: 0 <= i < |rules| && SaysHide(rules[i], s) && Asks(rules[i], page)
  }

  ghost predicate Unhidden(rules: seq<CosmeticFilter>, page: iset<Hash>, s: string) {
    exists i :: 0 <= i < |rules| && SaysHide(rules[i], s) && TakesBack(rules[i], page)
  }

  ghost predicate Done(rules: seq<CosmeticFilter>, toJson: Serializer, page: iset<Hash>, json: string) {
    exists i :: 0 <= i < |rules| && SaysProcedure(rules[i], toJson, json) && Asks(rules[i], page)
  }

  ghost predicate Undone(rules: seq<CosmeticFilter>, toJson: Serializer, page: iset<Hash>, json: string) {
    exists i :: 0 <= i < |rules| && SaysProcedure(rules[i], toJson, json) && TakesBack(rules[i], page)
  }

  ghost predicate Injected(rules: seq<CosmeticFilter>, page: iset<Hash>, s: string) {
    exists i :: 0 <= i < |rules| && SaysInject(rules[i], s) && Asks(rules[i], page)
  }

  ghost predicate Uninjected(rules: seq<CosmeticFilter>, page: iset<Hash>, s: string) {
    exists i :: 0 <= i < |rules| && SaysInject(rules[i], s) && TakesBack(rules[i], page)
  }

  ghost predicate Granted(rules: seq<CosmeticFilter>, page: iset<Hash>, s: string, bit: nat)
    requires bit < 8
  {
    exists i :: 0 <= i < |rules| && SaysInject(rules[i], s) && Asks(rules[i], page) && HasBit(rules[i].permission, bit)
  }

  /** A rule without places, or with excluded ones only if it says to hide and no more. */
  predicate IsEverywhere(rule: CosmeticFilter) {
    && rule.hostnames.None? && rule.entities.None?
    && ((rule.notHostnames.None? && rule.notEntities.None?) || (rule.action.None? && !rule.scriptInject))
  }

  /** One plain selector that starts with neither a class nor an id. */
  predicate IsMisc(rule: CosmeticFilter, s: string) {
    rule.selector == [CssSelector(s)] && (s != "" ==> s[0] != '.' && s[0] != '#')
  }

  ghost predicate Everywhere(rules: seq<CosmeticFilter>, s: string) {
    exists i :: 0 <= i < |rules| && IsEverywhere(rules[i]) && IsMisc(rules[i], s)
  }

  lemma StartMeans(s: string, c: char)
    ensures StartsWith(s, [c]) <==> s != "" && s[0] == c
  {
    if s != "" {
      assert s[0..1] == [s[0]];
    }
  }

  lemma MiscMeans(rule: CosmeticFilter, s: string)
    requires rule.selector != []
    ensures MiscGeneric(rule) == Some(s) <==> IsEverywhere(rule) && IsMisc(rule, s)
  {
    StartMeans(s, '.');
    StartMeans(s, '#');
    if |rule.selector| == 1 {
      assert rule.selector == [rule.selector[0]];
    }
  }

  lemma OnPageMeans(rules: seq<CosmeticFilter>, toJson: Serializer, page: iset<Hash>, kind: SpecificFilterType)
    requires Parsed(rules)
    ensures OnPage(rules, toJson, page, kind) <==>
              exists i :: 0 <= i < |rules| && SaysOn(rules[i], toJson, page, kind)
  {
    if OnPage(rules, toJson, page, kind) {
      var hash :| hash in page && SomeSays(rules, toJson, hash, kind);
      var i :| 0 <= i < |rules| && Says(rules[i], toJson, hash, kind);
      assert SaysOn(rules[i], toJson, page, kind);
    }
    if i :| 0 <= i < |rules| && SaysOn(rules[i], toJson, page, kind) {
      var hash: Hash :| hash in page && Says(rules[i], toJson, hash, kind);
      assert SomeSays(rules, toJson, hash, kind);
    }
  }

  lemma HidesMean(rules: seq<CosmeticFilter>, toJson: Serializer, page: iset<Hash>, s: string)
    requires Parsed(rules)
    ensures OnPage(rules, toJson, page, Hide(s)) <==> Hidden(rules, page, s)
    ensures OnPage(rules, toJson, page, Unhide(s)) <==> Unhidden(rules, page, s)
    ensures OnPage(rules, toJson, page, ProceduralOrAction(s)) <==> Done(rules, toJson, page, s)
    ensures OnPage(rules, toJson, page, ProceduralOrActionException(s)) <==> Undone(rules, toJson, page, s)
    ensures IsGeneric(rules, s) <==> Everywhere(rules, s)
  {
    OnPageMeans(rules, toJson, page, Hide(s));
    OnPageMeans(rules, toJson, page, Unhide(s));
    OnPageMeans(rules, toJson, page, ProceduralOrAction(s));
    OnPageMeans(rules, toJson, page, ProceduralOrActionException(s));
    forall i | 0 <= i < |rules|
      ensures MiscGeneric(rules[i]) == Some(s) <==> IsEverywhere(rules[i]) && IsMisc(rules[i], s)
      ensures SaysOn(rules[i], toJson, page, Hide(s)) <==> SaysHide(rules[i], s) && Asks(rules[i], page)
      ensures SaysOn(rules[i], toJson, page, Unhide(s)) <==> SaysHide(rules[i], s) && TakesBack(rules[i], page)
      ensures SaysOn(rules[i], toJson, page, ProceduralOrAction(s)) <==>
                SaysProcedure(rules[i], toJson, s) && Asks(rules[i], page)
      ensures SaysOn(rules[i], toJson, page, ProceduralOrActionException(s)) <==>
                SaysProcedure(rules[i], toJson, s) && TakesBack(rules[i], page)
    {
      RuleMeans(rules[i], toJson, page, s, rules[i].permission);
      MiscMeans(rules[i], s);
    }
  }

  ghost predicate InjectsAs(rule: CosmeticFilter, page: iset<Hash>, s: string, p: PermissionMask) {
    SaysInject(rule, s) && p == rule.permission && Asks(rule, page)
  }

  ghost predicate UninjectsAs(rule: CosmeticFilter, page: iset<Hash>, s: string, p: PermissionMask) {
    SaysInject(rule, s) && p == rule.permission && TakesBack(rule, page)
  }

  ghost predicate SomeInjects(rules: seq<CosmeticFilter>, page: iset<Hash>, s: string, p: PermissionMask) {
    exists i :: 0 <= i < |rules| && InjectsAs(rules[i], page, s, p)
  }

  ghost predicate SomeUninjects(rules: seq<CosmeticFilter>, page: iset<Hash>, s: string, p: PermissionMask) {
    exists i :: 0 <= i < |rules| && UninjectsAs(rules[i], page, s, p)
  }

  lemma ScriptsAsMean(rules: seq<CosmeticFilter>, toJson: Serializer, page: iset<Hash>, s: string, p: PermissionMask)
    requires Parsed(rules)
    ensures OnPage(rules, toJson, page, InjectScript(s, p)) <==> SomeInjects(rules, page, s, p)
    ensures OnPage(rules, toJson, page, UninjectScript(s, p)) <==> SomeUninjects(rules, page, s, p)
  {
    OnPageMeans(rules, toJson, page, InjectScript(s, p));
    OnPageMeans(rules, toJson, page, UninjectScript(s, p));
    forall i | 0 <= i < |rules|
      ensures SaysOn(rules[i], toJson, page, InjectScript(s, p)) <==> InjectsAs(rules[i], page, s, p)
      ensures SaysOn(rules[i], toJson, page, UninjectScript(s, p)) <==> UninjectsAs(rules[i], page, s, p)
    {
      RuleMeans(rules[i], toJson, page, s, p);
    }
  }

  lemma InjectedMeans(rules: seq<CosmeticFilter>, page: iset<Hash>, s: string)
    ensures (exists p :: SomeInjects(rules, page, s, p)) <==> Injected(rules, page, s)
    ensures (exists p :: SomeUninjects(rules, page, s, p)) <==> Uninjected(rules, page, s)
  {
    if i :| 0 <= i < |rules| && SaysInject(rules[i], s) && Asks(rules[i], page) {
      assert InjectsAs(rules[i], page, s, rules[i].permission);
      assert SomeInjects(rules, page, s, rules[i].permission);
    }
    if i :| 0 <= i < |rules| && SaysInject(rules[i], s) && TakesBack(rules[i], page) {
      assert UninjectsAs(rules[i], page, s, rules[i].permission);
      assert SomeUninjects(rules, page, s, rules[i].permission);
    }
  }

  lemma GrantedMeans(rules: seq<CosmeticFilter>, page: iset<Hash>, s: string, bit: nat)
    requires bit < 8
    ensures (exists p :: HasBit(p, bit) && SomeInjects(rules, page, s, p)) <==> Granted(rules, page, s, bit)
  {
    if i :| 0 <= i < |rules| && SaysInject(rules[i], s) && Asks(rules[i], page) && HasBit(rules[i].permission, bit) {
      assert InjectsAs(rules[i], page, s, rules[i].permission);
      assert SomeInjects(rules, page, s, rules[i].permission);
    }
  }

  lemma ScriptsMean(rules: seq<CosmeticFilter>, toJson: Serializer, page: iset<Hash>, s: string)
    requires Parsed(rules)
    ensures InjectedOnPage(rules, toJson, page, s) <==> Injected(rules, page, s)
    ensures UninjectedOnPage(rules, toJson, page, s) <==> Uninjected(rules, page, s)
    ensures forall bit :: 0 <= bit < 8 ==>
              (GrantedOnPage(rules, toJson, page, s, bit) <==> Granted(rules, page, s, bit))
  {
    forall p: PermissionMask
      ensures OnPage(rules, toJson, page, InjectScript(s, p)) <==> SomeInjects(rules, page, s, p)
      ensures OnPage(rules, toJson, page, UninjectScript(s, p)) <==> SomeUninjects(rules, page, s, p)
    {
      ScriptsAsMean(rules, toJson, page, s, p);
    }
    InjectedMeans(rules, page, s);
    forall bit: nat | bit < 8 ensures GrantedOnPage(rules, toJson, page, s, bit) <==> Granted(rules, page, s, bit) {
      GrantedMeans(rules, page, s, bit);
    }
  }

  // ----- the answer for a page -----

  /** The script stays, unless it is taken back by name or with all others. */
  ghost predicate Stays(rules: seq<CosmeticFilter>, page: iset<Hash>, s: string) {
    Injected(rules, page, s) && !Uninjected(rules, page, s) && !Uninjected(rules, page, "")
  }

  /** Every item of the answer, by the fields of the rules. */
  ghost predicate IsAnswer(
    r: UrlSpecificResources, rules: seq<CosmeticFilter>, toJson: Serializer, page: iset<Hash>, generichide: bool)
  {
    && r.generichide == generichide
    && (forall s :: s in r.exceptions <==> Unhidden(rules, page, s))
    && (forall s :: s in r.hideSelectors <==>
          !Unhidden(rules, page, s) && (Hidden(rules, page, s) || (!generichide && Everywhere(rules, s))))
    && (forall s :: s in r.proceduralActions <==> Done(rules, toJson, page, s) && !Undone(rules, toJson, page, s))
    && (forall s :: s in r.scripts <==> Stays(rules, page, s))
    && (forall s, bit :: s in r.scripts && 0 <= bit < 8 ==>
          (Grants(r.scripts, s, bit) <==> Granted(rules, page, s, bit)))
  }

  /** The formula over hashes and kinds says just this. */
  lemma AnswerMeans(
    r: UrlSpecificResources, rules: seq<CosmeticFilter>, toJson: Serializer, page: iset<Hash>, generichide: bool)
    requires Parsed(rules)
    ensures AnswersPage(r, rules, toJson, page, generichide) <==> IsAnswer(r, rules, toJson, page, generichide)
  {
    forall s
      ensures OnPage(rules, toJson, page, Hide(s)) <==> Hidden(rules, page, s)
      ensures OnPage(rules, toJson, page, Unhide(s)) <==> Unhidden(rules, page, s)
      ensures OnPage(rules, toJson, page, ProceduralOrAction(s)) <==> Done(rules, toJson, page, s)
      ensures OnPage(rules, toJson, page, ProceduralOrActionException(s)) <==> Undone(rules, toJson, page, s)
      ensures IsGeneric(rules, s) <==> Everywhere(rules, s)
    {
      HidesMean(rules, toJson, page, s);
    }
    ScriptAnswerMeans(r.scripts, rules, toJson, page);
  }

  lemma ScriptAnswerMeans(
    scripts: map<string, PermissionMask>, rules: seq<CosmeticFilter>, toJson: Serializer, page: iset<Hash>)
    requires Parsed(rules)
    ensures ScriptsAnswerPage(scripts, rules, toJson, page) <==>
              && (forall s :: s in scripts <==> Stays(rules, page, s))
              && (forall s, bit :: s in scripts && 0 <= bit < 8 ==>
                    (Grants(scripts, s, bit) <==> Granted(rules, page, s, bit)))
  {
    ScriptsMean(rules, toJson, page, "");
    forall s
      ensures StaysOnPage(rules, toJson, page, s) <==> Stays(rules, page, s)
      ensures forall bit :: 0 <= bit < 8 ==>
                (GrantedOnPage(rules, toJson, page, s, bit) <==> Granted(rules, page, s, bit))
    {
      ScriptsMean(rules, toJson, page, s);
    }
  }

  // ----- classes and ids -----

  /** Some rule that applies everywhere has one plain selector that starts with this sign. */
  ghost predicate StartsEverywhere(rules: seq<CosmeticFilter>, sign: char, s: string) {
    exists i :: 0 <= i < |rules| && IsEverywhere(rules[i]) && rules[i].selector == [CssSelector(s)]
      && s != "" && s[0] == sign
  }

  lemma GenericMeans(rule: CosmeticFilter, s: string)
    requires rule.selector != []
    ensures GenericSelector(rule) == Some(s) <==> IsEverywhere(rule) && rule.selector == [CssSelector(s)]
  {
    if |rule.selector| == 1 {
      assert rule.selector == [rule.selector[0]];
    }
  }

  lemma StartingMeans(rules: seq<CosmeticFilter>, sign: char, s: string)
    requires Parsed(rules)
    ensures s in Starting(GenericList(rules), sign) <==> StartsEverywhere(rules, sign, s)
  {
    StartingAre(GenericList(rules), sign, s);
    StartMeans(s, sign);
    GenericListMeans(rules, s);
    forall i | 0 <= i < |rules|
      ensures GenericSelector(rules[i]) == Some(s) <==>
                IsEverywhere(rules[i]) && rules[i].selector == [CssSelector(s)]
    {
      GenericMeans(rules[i], s);
    }
  }

  /** Such a selector, or the sign and the name itself, is asked for when the name it starts with is. */
  ghost predicate IsWanted(
    rules: seq<CosmeticFilter>, keyOf: KeyFinder, sign: char, names: seq<string>, exceptions: set<string>, s: string)
  {
    && s !in exceptions
    && exists a :: StartsEverywhere(rules, sign, a) && keyOf(a).Some? && |keyOf(a).value| > 0
         && keyOf(a).value[1..] in names && s == if keyOf(a).value == a then [sign] + a[1..] else a
  }

  /** What the tables for classes and ids are asked for, by the fields of the rules. */
  lemma AskedForMeans(
    rules: seq<CosmeticFilter>, keyOf: KeyFinder, sign: char, names: seq<string>, exceptions: set<string>, s: string)
    requires Parsed(rules) && FindsKeys(keyOf)
    ensures IsAskedFor(rules, keyOf, sign, names, exceptions, s) <==>
              IsWanted(rules, keyOf, sign, names, exceptions, s)
  {
    forall a ensures a in Starting(GenericList(rules), sign) <==> StartsEverywhere(rules, sign, a) {
      StartingMeans(rules, sign, a);
    }
  }
}

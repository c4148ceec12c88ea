/** The cosmetic tables: filled from a rule list, then asked for what one page needs. */
module CosmeticCache {
  import opened Prelude
  import opened Text
  import opened Resources
  import opened CosmeticRules
  import opened ClassRules
  import MultiMap = FlatMultiMap
  import FlatMap

  // ----- what the tables hold -----

  /** A rule put under one hash. */
  type Placement = (Hash, SpecificFilterType)

  datatype HostnameRule = HostnameRule(
    unhide: seq<string>, uninjectScript: seq<string>, proceduralAction: seq<string>, proceduralException: seq<string>)

  const NoRule := HostnameRule([], [], [], [])

  function HideEntries(placed: seq<Placement>): seq<(nat, string)> {
    if placed == [] then []
    else
      var rest, last := HideEntries(placed[..|placed| - 1]), placed[|placed| - 1];
      if last.1.Hide? then rest + [(last.0, last.1.selector)] else rest
  }

  function InjectEntries(placed: seq<Placement>): seq<(nat, string)> {
    if placed == [] then []
    else
      var rest, last := InjectEntries(placed[..|placed| - 1]), placed[|placed| - 1];
      if last.1.InjectScript? then rest + [(last.0, EncodeScriptWithPermission(last.1.script, last.1.permission))]
      else rest
  }

  /** The remaining kinds are listed per hash. */
  function RuleAt(placed: seq<Placement>, hash: Hash): HostnameRule {
    if placed == [] then NoRule
    else
      var rest, last := RuleAt(placed[..|placed| - 1], hash), placed[|placed| - 1];
      if last.0 == hash then Listed(rest, last.1) else rest
  }

  function Listed(rule: HostnameRule, kind: SpecificFilterType): HostnameRule {
    match kind
    case Hide(_) => rule
    case InjectScript(_, _) => rule
    case Unhide(s) => rule.(unhide := rule.unhide + [s])
    case UninjectScript(s, _) => rule.(uninjectScript := rule.uninjectScript + [s])
    case ProceduralOrAction(s) => rule.(proceduralAction := rule.proceduralAction + [s])
    case ProceduralOrActionException(s) => rule.(proceduralException := rule.proceduralException + [s])
  }

  function Bound(specific: map<Hash, HostnameRule>, hash: Hash): HostnameRule {
    if hash in specific then specific[hash] else NoRule
  }

  // ----- the builder -----

  /** The two multimaps and the map hold what was placed, each its own kinds. */
  ghost predicate TablesHold(
    placed: seq<Placement>, hiding: seq<(nat, string)>, inject: seq<(nat, string)>, specific: map<Hash, HostnameRule>)
  {
    && hiding == HideEntries(placed) && inject == InjectEntries(placed)
    && forall hash: Hash :: Bound(specific, hash) == RuleAt(placed, hash)
  }

  lemma OneMorePlaced(placed: seq<Placement>, token: Hash, kind: SpecificFilterType)
    ensures var longer := placed + [(token, kind)];
            && HideEntries(longer) ==
               (if kind.Hide? then HideEntries(placed) + [(token, kind.selector)] else HideEntries(placed))
            && InjectEntries(longer) ==
               (if kind.InjectScript?
                then InjectEntries(placed) + [(token, EncodeScriptWithPermission(kind.script, kind.permission))]
                else InjectEntries(placed))
            && forall hash: Hash :: RuleAt(longer, hash) ==
                 if token == hash then Listed(RuleAt(placed, hash), kind) else RuleAt(placed, hash)
  {
    assert (placed + [(token, kind)])[..|placed|] == placed;
  }

  lemma HideIsStored(
    placed: seq<Placement>, hiding: seq<(nat, string)>, inject: seq<(nat, string)>, specific: map<Hash, HostnameRule>,
    token: Hash, kind: SpecificFilterType)
    requires TablesHold(placed, hiding, inject, specific) && kind.Hide?
    ensures TablesHold(placed + [(token, kind)], hiding + [(token, kind.selector)], inject, specific)
  {
    OneMorePlaced(placed, token, kind);
  }

  lemma ScriptIsStored(
    placed: seq<Placement>, hiding: seq<(nat, string)>, inject: seq<(nat, string)>, specific: map<Hash, HostnameRule>,
    token: Hash, kind: SpecificFilterType)
    requires TablesHold(placed, hiding, inject, specific) && kind.InjectScript?
    ensures TablesHold(placed + [(token, kind)], hiding,
                       inject + [(token, EncodeScriptWithPermission(kind.script, kind.permission))], specific)
  {
    OneMorePlaced(placed, token, kind);
  }

  lemma RuleIsStored(
    placed: seq<Placement>, hiding: seq<(nat, string)>, inject: seq<(nat, string)>, specific: map<Hash, HostnameRule>,
    token: Hash, kind: SpecificFilterType)
    requires TablesHold(placed, hiding, inject, specific) && !kind.Hide? && !kind.InjectScript?
    ensures TablesHold(placed + [(token, kind)], hiding, inject,
                       specific[token := Listed(Bound(specific, token), kind)])
  {
    OneMorePlaced(placed, token, kind);
  }

  lemma NothingIsStored()
    ensures TablesHold([], [], [], map[])
  {
  }

  class CosmeticFilterCacheBuilder {
    const toJson: Serializer
    const hostnameHide: MultiMap.FlatMultiMapBuilder<string>
    const hostnameInjectScript: MultiMap.FlatMultiMapBuilder<string>
    const generic: GenericRules
    var specificRules: map<Hash, HostnameRule>
    /** Everything stored so far, in order. */
    ghost var placed: seq<Placement>

    ghost predicate Valid()
      reads this, hostnameHide, hostnameInjectScript
    {
      && hostnameHide != hostnameInjectScript
      && TablesHold(placed, hostnameHide.entries, hostnameInjectScript.entries, specificRules)
    }

    constructor (toJson: Serializer, generic: GenericRules)
      ensures Valid() && placed == [] && this.toJson == toJson && this.generic == generic
      ensures fresh(hostnameHide) && fresh(hostnameInjectScript)
    {
      this.toJson, this.generic := toJson, generic;
      hostnameHide := new MultiMap.FlatMultiMapBuilder();
      hostnameInjectScript := new MultiMap.FlatMultiMapBuilder();
      specificRules, placed := map[], [];
      NothingIsStored();
    }

    method StoreOne(token: Hash, kind: SpecificFilterType)
      requires Valid()
      modifies this, hostnameHide, hostnameInjectScript
      ensures Valid() && placed == old(placed) + [(token, kind)]
    {
      ghost var hiding, inject := hostnameHide.entries, hostnameInjectScript.entries;
      match kind {
        case Hide(s) =>
          HideIsStored(placed, hiding, inject, specificRules, token, kind);
          hostnameHide.Insert(token, s);
        case InjectScript(s, permission) =>
          ScriptIsStored(placed, hiding, inject, specificRules, token, kind);
          hostnameInjectScript.Insert(token, EncodeScriptWithPermission(s, permission));
        case Unhide(_) =>
          ListUnder(token, kind);
        case UninjectScript(_, _) =>
          ListUnder(token, kind);
        case ProceduralOrAction(_) =>
          ListUnder(token, kind);
        case ProceduralOrActionException(_) =>
          ListUnder(token, kind);
      }
      placed := placed + [(token, kind)];
    }

    /** The remaining kinds go to the lists of their hash. */
    method ListUnder(token: Hash, kind: SpecificFilterType)
      requires Valid() && !kind.Hide? && !kind.InjectScript?
      modifies this`specificRules
      ensures TablesHold(placed + [(token, kind)], hostnameHide.entries, hostnameInjectScript.entries, specificRules)
    {
      RuleIsStored(placed, hostnameHide.entries, hostnameInjectScript.entries, specificRules, token, kind);
      specificRules := specificRules[token := Listed(Bound(specificRules, token), kind)];
    }

    method StoreHostnameFilter(tokens: seq<Hash>, kind: SpecificFilterType)
      requires Valid()
      modifies this, hostnameHide, hostnameInjectScript
      ensures Valid() && placed == old(placed) + Placed(tokens, kind)
    {
      for i := 0 to |tokens|
        invariant Valid() && placed == old(placed) + Placed(tokens[..i], kind)
      {
        StoreOne(tokens[i], kind);
        assert Placed(tokens[..i + 1], kind) == Placed(tokens[..i], kind) + [(tokens[i], kind)];
      }
      assert tokens[..|tokens|] == tokens;
    }

    method StoreHostnameRule(rule: CosmeticFilter)
      requires Valid() && rule.selector != []
      modifies this, hostnameHide, hostnameInjectScript
      ensures Valid() && placed == old(placed) + Placements(rule, toJson)
    {
      var kind := Kind(rule, toJson);
      if kind.None? {
        return;
      }
      var yes := OrEmpty(rule.hostnames) + OrEmpty(rule.entities);
      var no := OrEmpty(rule.notHostnames) + OrEmpty(rule.notEntities);
      Regroup(placed, Placed(yes, kind.value), Placed(no, Negated(kind.value)));
      StoreHostnameFilter(yes, kind.value);
      StoreHostnameFilter(no, Negated(kind.value));
    }

    /** Procedural rules cannot be generic and are ignored. */
    method AddGenericFilter(rule: CosmeticFilter, ghost before: seq<string>)
      requires generic.Valid() && generic.Holds(before) && rule.selector != []
      modifies generic, generic.classes, generic.classes.simple, generic.classes.complex
      modifies generic.ids, generic.ids.simple, generic.ids.complex
      ensures generic.Valid() && generic.Holds(before + AsList(PlainCssSelector(rule)))
    {
      var selector := PlainCssSelector(rule);
      if selector.Some? {
        generic.Add(selector.value, before);
      } else {
        assert before + [] == before;
      }
    }

    method AddFilter(rule: CosmeticFilter, ghost before: seq<string>)
      requires Valid() && generic.Valid() && generic.Holds(before) && rule.selector != []
      modifies this, hostnameHide, hostnameInjectScript
      modifies generic, generic.classes, generic.classes.simple, generic.classes.complex
      modifies generic.ids, generic.ids.simple, generic.ids.complex
      ensures Valid() && placed == old(placed) + Placements(rule, toJson)
      ensures generic.Valid() && generic.Holds(before + AsList(GenericSelector(rule)))
    {
      if HasHostnameConstraint(rule) {
        AddHiddenGenericRule(rule, before);
        StoreHostnameRule(rule);
      } else {
        UnconstrainedIsNotPlaced(rule, toJson);
        AddGenericFilter(rule, before);
      }
    }

    /** A rule with nothing but negated locations is generic too. */
    method AddHiddenGenericRule(rule: CosmeticFilter, ghost before: seq<string>)
      requires generic.Valid() && generic.Holds(before) && rule.selector != [] && HasHostnameConstraint(rule)
      modifies generic, generic.classes, generic.classes.simple, generic.classes.complex
      modifies generic.ids, generic.ids.simple, generic.ids.complex
      ensures generic.Valid() && generic.Holds(before + AsList(GenericSelector(rule)))
    {
      var genericRule := HiddenGenericRule(rule);
      if genericRule.Some? {
        AddGenericFilter(genericRule.value, before);
      } else {
        assert before + [] == before;
      }
    }

    /** Every object that the builder is made of. */
    ghost function Objects(): set<object> {
      {this, hostnameHide, hostnameInjectScript, generic, generic.classes, generic.classes.simple,
       generic.classes.complex, generic.ids, generic.ids.simple, generic.ids.complex}
    }

    /** The tables are what the first `n` rules make of them. */
    ghost predicate Made(rules: seq<CosmeticFilter>, n: nat)
      reads Objects()
      requires Parsed(rules) && n <= |rules|
    {
      && Valid() && placed == AllPlacements(rules[..n], toJson)
      && generic.Valid() && generic.Holds(GenericList(rules[..n]))
    }

    /** The loop over the rules. */
    method AddAll(rules: seq<CosmeticFilter>)
      requires Parsed(rules) && Made(rules, 0)
      modifies Objects()
      ensures Made(rules, |rules|)
    {
      for n := 0 to |rules|
        invariant Made(rules, n)
      {
        AddNext(rules, n);
      }
    }

    method AddNext(rules: seq<CosmeticFilter>, n: nat)
      requires Parsed(rules) && n < |rules| && Made(rules, n)
      modifies Objects()
      ensures Made(rules, n + 1)
    {
      ghost var selectors, placements := GenericList(rules[..n]), placed;
      OneMoreRule(rules, n, toJson);
      AddFilter(rules[n], selectors);
      assert placed == placements + Placements(rules[n], toJson);
    }
  }

  lemma UnconstrainedIsNotPlaced(rule: CosmeticFilter, toJson: Serializer)
    requires rule.selector != [] && !HasHostnameConstraint(rule)
    ensures Placements(rule, toJson) == []
  {
  }

  lemma OneMoreRule(rules: seq<CosmeticFilter>, n: nat, toJson: Serializer)
    requires Parsed(rules) && n < |rules|
    ensures AllPlacements(rules[..n + 1], toJson) == AllPlacements(rules[..n], toJson) + Placements(rules[n], toJson)
    ensures GenericList(rules[..n + 1]) == GenericList(rules[..n]) + AsList(GenericSelector(rules[n]))
  {
    assert rules[..n + 1][..n] == rules[..n];
  }

  function AsList<T>(x: Option<T>): seq<T> {
    if x.Some? then [x.value] else []
  }

  function Placed(tokens: seq<Hash>, kind: SpecificFilterType): seq<Placement> {
    seq(|tokens|, i requires 0 <= i < |tokens| => (tokens[i], kind))
  }

  function Placements(rule: CosmeticFilter, toJson: Serializer): seq<Placement>
    requires rule.selector != []
  {
    var kind := Kind(rule, toJson);
    if kind.None? then []
    else
      Placed(OrEmpty(rule.hostnames) + OrEmpty(rule.entities), kind.value)
      + Placed(OrEmpty(rule.notHostnames) + OrEmpty(rule.notEntities), Negated(kind.value))
  }

  function AllPlacements(rules: seq<CosmeticFilter>, toJson: Serializer): seq<Placement>
    requires Parsed(rules)
  {
    if rules == [] then []
    else AllPlacements(rules[..|rules| - 1], toJson) + Placements(rules[|rules| - 1], toJson)
  }

  /** A parsed rule has a selector. */
  ghost predicate Parsed(rules: seq<CosmeticFilter>) {
    forall i :: 0 <= i < |rules| ==> rules[i].selector != []
  }

  // ----- what the tables say, in terms of the rules -----

  /** Does some rule ask for `kind` on the pages with this hash? */
  ghost predicate SomeSays(rules: seq<CosmeticFilter>, toJson: Serializer, hash: Hash, kind: SpecificFilterType)
    requires Parsed(rules)
  {
    exists i :: 0 <= i < |rules| && Says(rules[i], toJson, hash, kind)
  }

  lemma LastRuleSays(rules: seq<CosmeticFilter>, toJson: Serializer, hash: Hash, kind: SpecificFilterType)
    requires Parsed(rules) && rules != []
    ensures SomeSays(rules, toJson, hash, kind) <==>
              SomeSays(rules[..|rules| - 1], toJson, hash, kind) || Says(rules[|rules| - 1], toJson, hash, kind)
  {
    var front := rules[..|rules| - 1];
    if SomeSays(front, toJson, hash, kind) {
      var i :| 0 <= i < |front| && Says(front[i], toJson, hash, kind);
      assert rules[i] == front[i];
    }
    assert forall i :: 0 <= i < |front| ==> front[i] == rules[i];
  }

  lemma {:induction false} PlacementsSay(
    rules: seq<CosmeticFilter>, toJson: Serializer, hash: Hash, kind: SpecificFilterType)
    requires Parsed(rules)
    ensures (hash, kind) in Elements(AllPlacements(rules, toJson)) <==> SomeSays(rules, toJson, hash, kind)
  {
    if rules != [] {
      var n := |rules| - 1;
      PlacementsSay(rules[..n], toJson, hash, kind);
      OneRuleSays(rules[n], toJson, hash, kind);
      ElementsConcat(AllPlacements(rules[..n], toJson), Placements(rules[n], toJson));
      LastRuleSays(rules, toJson, hash, kind);
    }
  }

  lemma ElementsConcat<T>(a: seq<T>, b: seq<T>)
    ensures Elements(a + b) == Elements(a) + Elements(b)
  {
  }

  lemma OneRuleSays(rule: CosmeticFilter, toJson: Serializer, hash: Hash, kind: SpecificFilterType)
    requires rule.selector != []
    ensures (hash, kind) in Elements(Placements(rule, toJson)) <==> Says(rule, toJson, hash, kind)
  {
    var k := Kind(rule, toJson);
    if k.Some? {
      var yes := OrEmpty(rule.hostnames) + OrEmpty(rule.entities);
      var no := OrEmpty(rule.notHostnames) + OrEmpty(rule.notEntities);
      PlacedUnder(yes, k.value, hash, kind);
      PlacedUnder(no, Negated(k.value), hash, kind);
      ElementsConcat(Placed(yes, k.value), Placed(no, Negated(k.value)));
    }
  }

  lemma PlacedUnder(tokens: seq<Hash>, kind: SpecificFilterType, hash: Hash, asked: SpecificFilterType)
    ensures (hash, asked) in Elements(Placed(tokens, kind)) <==> hash in tokens && asked == kind
  {
    var all := Placed(tokens, kind);
    if hash in tokens && asked == kind {
      var i :| 0 <= i < |tokens| && tokens[i] == hash;
      assert all[i] == (hash, asked);
    }
    if (hash, asked) in Elements(all) {
      var i :| 0 <= i < |all| && all[i] == (hash, asked);
      assert tokens[i] == hash;
    }
  }

  lemma {:induction false} HideUnder(placed: seq<Placement>, hash: Hash, selector: string)
    ensures selector in MultiMap.Under(HideEntries(placed), hash) <==> (hash, Hide(selector)) in Elements(placed)
  {
    if placed != [] {
      var n := |placed| - 1;
      HideUnder(placed[..n], hash, selector);
      LastElement(placed);
      SnocUnder(HideEntries(placed[..n]), placed[n].0, if placed[n].1.Hide? then placed[n].1.selector else "", hash);
    }
  }

  lemma LastElement<T>(s: seq<T>)
    requires s != []
    ensures Elements(s) == Elements(s[..|s| - 1]) + {s[|s| - 1]}
  {
    assert s == s[..|s| - 1] + [s[|s| - 1]];
  }

  lemma SnocUnder<V>(entries: seq<(nat, V)>, key: nat, value: V, asked: nat)
    ensures MultiMap.Under(entries + [(key, value)], asked)
            == MultiMap.Under(entries, asked) + (if key == asked then [value] else [])
  {
    assert (entries + [(key, value)])[..|entries|] == entries;
  }

  lemma {:induction false} InjectUnder(placed: seq<Placement>, hash: Hash, script: string, permission: PermissionMask)
    ensures EncodeScriptWithPermission(script, permission) in MultiMap.Under(InjectEntries(placed), hash) <==>
              (hash, InjectScript(script, permission)) in Elements(placed)
    ensures forall e :: e in MultiMap.Under(InjectEntries(placed), hash) ==>
              e == EncodeScriptWithPermission(DecodeScriptWithPermission(e).1, DecodeScriptWithPermission(e).0)
  {
    if placed != [] {
      var n := |placed| - 1;
      InjectUnder(placed[..n], hash, script, permission);
      LastElement(placed);
      ScriptRoundTrip(script, permission);
      var last := placed[n].1;
      if last.InjectScript? {
        ScriptRoundTrip(last.script, last.permission);
        var encoded := EncodeScriptWithPermission(last.script, last.permission);
        SnocUnder(InjectEntries(placed[..n]), placed[n].0, encoded, hash);
      }
    }
  }

  /** Is some script with this name uninjected under the hash, whatever its permission? */
  ghost predicate Uninjects(placed: set<Placement>, hash: Hash, script: string) {
    exists permission :: (hash, UninjectScript(script, permission)) in placed
  }

  lemma {:induction false} RuleAtMeans(placed: seq<Placement>, hash: Hash, s: string)
    ensures s in RuleAt(placed, hash).unhide <==> (hash, Unhide(s)) in Elements(placed)
    ensures s in RuleAt(placed, hash).uninjectScript <==> Uninjects(Elements(placed), hash, s)
    ensures s in RuleAt(placed, hash).proceduralAction <==> (hash, ProceduralOrAction(s)) in Elements(placed)
    ensures s in RuleAt(placed, hash).proceduralException <==>
              (hash, ProceduralOrActionException(s)) in Elements(placed)
  {
    if placed != [] {
      var n := |placed| - 1;
      RuleAtMeans(placed[..n], hash, s);
      LastElement(placed);
      UninjectsGrow(Elements(placed[..n]), placed[n], hash, s);
    }
  }

  lemma UninjectsGrow(placed: set<Placement>, last: Placement, hash: Hash, s: string)
    ensures Uninjects(placed + {last}, hash, s) <==>
              Uninjects(placed, hash, s) || (last.0 == hash && last.1.UninjectScript? && last.1.script == s)
  {
    if last.0 == hash && last.1.UninjectScript? && last.1.script == s {
      assert last == (hash, UninjectScript(s, last.1.permission));
    }
    if Uninjects(placed, hash, s) {
      var p :| (hash, UninjectScript(s, p)) in placed;
      assert (hash, UninjectScript(s, p)) in placed + {last};
    }
  }

  // ----- permissions -----

  /** One more encoded script: its permission is added to what the script already has. */
  function Merged(injections: map<string, PermissionMask>, encoded: string): map<string, PermissionMask> {
    var (permission, script) := DecodeScriptWithPermission(encoded);
    Granted(injections, permission, script)
  }

  function Granted(
    injections: map<string, PermissionMask>, permission: PermissionMask, script: string): map<string, PermissionMask>
  {
    injections[script := if script in injections then injections[script] | permission else permission]
  }

  function MergedAll(encoded: seq<string>): map<string, PermissionMask> {
    if encoded == [] then map[] else Merged(MergedAll(encoded[..|encoded| - 1]), encoded[|encoded| - 1])
  }

  ghost predicate Grants(injections: map<string, PermissionMask>, script: string, bit: nat)
    requires bit < 8
  {
    script in injections && HasBit(injections[script], bit)
  }

  lemma OrBits(a: PermissionMask, b: PermissionMask, bit: nat)
    requires bit < 8
    ensures HasBit(a | b, bit) <==> HasBit(a, bit) || HasBit(b, bit)
  {
    assert bit == 0 || bit == 1 || bit == 2 || bit == 3 || bit == 4 || bit == 5 || bit == 6 || bit == 7;
  }

  ghost predicate ListsScript(encoded: seq<string>, script: string) {
    exists e :: e in encoded && DecodeScriptWithPermission(e).1 == script
  }

  ghost predicate ListsBit(encoded: seq<string>, script: string, bit: nat)
    requires bit < 8
  {
    exists e :: e in encoded && DecodeScriptWithPermission(e).1 == script
      && HasBit(DecodeScriptWithPermission(e).0, bit)
  }

  lemma ListsOneMore(encoded: seq<string>, last: string, script: string, bit: nat)
    requires bit < 8
    ensures ListsScript(encoded + [last], script) <==>
              ListsScript(encoded, script) || DecodeScriptWithPermission(last).1 == script
    ensures ListsBit(encoded + [last], script, bit) <==>
              || ListsBit(encoded, script, bit)
              || (DecodeScriptWithPermission(last).1 == script && HasBit(DecodeScriptWithPermission(last).0, bit))
  {
    assert last in encoded + [last];
  }

  lemma MergedGrants(
    injections: map<string, PermissionMask>, permission: PermissionMask, name: string, script: string, bit: nat)
    requires bit < 8
    ensures Grants(Granted(injections, permission, name), script, bit) <==>
              Grants(injections, script, bit) || (name == script && HasBit(permission, bit))
  {
    if script == name && name in injections {
      OrBits(injections[name], permission, bit);
      assert Granted(injections, permission, name)[script] == injections[name] | permission;
    }
  }

  /** A script is injected when it is listed, with the bits that some listing of it grants. */
  lemma {:induction false} MergedAllMeans(encoded: seq<string>, script: string, bit: nat)
    requires bit < 8
    ensures script in MergedAll(encoded) <==> ListsScript(encoded, script)
    ensures Grants(MergedAll(encoded), script, bit) <==> ListsBit(encoded, script, bit)
  {
    if encoded != [] {
      var n := |encoded| - 1;
      MergedAllMeans(encoded[..n], script, bit);
      assert encoded == encoded[..n] + [encoded[n]];
      ListsOneMore(encoded[..n], encoded[n], script, bit);
      var (permission, name) := DecodeScriptWithPermission(encoded[n]);
      MergedGrants(MergedAll(encoded[..n]), permission, name, script, bit);
    }
  }

  // ----- the lookup -----

  /** The serialized tables. */
  datatype CosmeticFilters = CosmeticFilters(
    hideKeys: seq<nat>, hideValues: seq<string>,
    injectKeys: seq<nat>, injectValues: seq<string>,
    hostnameKeys: seq<nat>, hostnameValues: seq<HostnameRule>,
    miscGenericSelectors: set<string>, classes: Tables, ids: Tables)

  ghost predicate Serializes(filters: CosmeticFilters, placed: seq<Placement>, specific: map<Hash, HostnameRule>) {
    && MultiMap.Stores(filters.hideKeys, filters.hideValues, HideEntries(placed))
    && MultiMap.Stores(filters.injectKeys, filters.injectValues, InjectEntries(placed))
    && FlatMap.Holds(filters.hostnameKeys, filters.hostnameValues, specific)
    && forall hash: Hash :: Bound(specific, hash) == RuleAt(placed, hash)
  }

  datatype UrlSpecificResources = UrlSpecificResources(
    hideSelectors: set<string>, proceduralActions: set<string>, exceptions: set<string>,
    scripts: map<string, PermissionMask>, generichide: bool)

  /** The values under all the hashes, one hash after the other. */
  function Gathered<V>(entries: seq<(nat, V)>, hashes: seq<Hash>): seq<V> {
    if hashes == [] then []
    else Gathered(entries, hashes[..|hashes| - 1]) + MultiMap.Under(entries, hashes[|hashes| - 1])
  }

  function GatheredRule(placed: seq<Placement>, hashes: seq<Hash>): HostnameRule {
    if hashes == [] then NoRule
    else
      var a, b := GatheredRule(placed, hashes[..|hashes| - 1]), RuleAt(placed, hashes[|hashes| - 1]);
      HostnameRule(a.unhide + b.unhide, a.uninjectScript + b.uninjectScript,
                   a.proceduralAction + b.proceduralAction, a.proceduralException + b.proceduralException)
  }

  /** The first pass: everything that is added. No exception is known yet, so nothing is held back. */
  method Gather(
    filters: CosmeticFilters, hashes: seq<Hash>, ghost placed: seq<Placement>, ghost specific: map<Hash, HostnameRule>)
    returns (selectors: set<string>, actions: set<string>, scripts: map<string, PermissionMask>)
    requires Serializes(filters, placed, specific)
    ensures selectors == Elements(Gathered(HideEntries(placed), hashes))
    ensures actions == Elements(GatheredRule(placed, hashes).proceduralAction)
    ensures scripts == MergedAll(Gathered(InjectEntries(placed), hashes))
  {
    selectors, actions, scripts := {}, {}, map[];
    for i := 0 to |hashes|
      invariant selectors == Elements(Gathered(HideEntries(placed), hashes[..i]))
      invariant actions == Elements(GatheredRule(placed, hashes[..i]).proceduralAction)
      invariant scripts == MergedAll(Gathered(InjectEntries(placed), hashes[..i]))
    {
      var hidden := MultiMap.Collect(filters.hideKeys, filters.hideValues, hashes[i], HideEntries(placed));
      selectors := AddAll(selectors, hidden);
      var injected := MultiMap.Collect(filters.injectKeys, filters.injectValues, hashes[i], InjectEntries(placed));
      scripts := InjectAll(scripts, injected, Gathered(InjectEntries(placed), hashes[..i]));
      var rule := FlatMap.Get(filters.hostnameKeys, filters.hostnameValues, hashes[i], specific);
      actions := AddAll(actions, if rule.Some? then rule.value.proceduralAction else []);
      assert hashes[..i + 1][..i] == hashes[..i];
      ElementsConcat(Gathered(HideEntries(placed), hashes[..i]), hidden);
      ElementsConcat(GatheredRule(placed, hashes[..i]).proceduralAction, Bound(specific, hashes[i]).proceduralAction);
    }
    assert hashes[..|hashes|] == hashes;
  }

  method AddAll(selectors: set<string>, added: seq<string>) returns (more: set<string>)
    ensures more == selectors + Elements(added)
  {
    more := selectors;
    for i := 0 to |added|
      invariant more == selectors + Elements(added[..i])
    {
      more := more + {added[i]};
      assert added[..i + 1] == added[..i] + [added[i]];
    }
    assert added[..|added|] == added;
  }

  method InjectAll(scripts: map<string, PermissionMask>, encoded: seq<string>, ghost before: seq<string>)
    returns (more: map<string, PermissionMask>)
    requires scripts == MergedAll(before)
    ensures more == MergedAll(before + encoded)
  {
    more := scripts;
    assert before + encoded[..0] == before;
    for i := 0 to |encoded|
      invariant more == MergedAll(before + encoded[..i])
    {
      MergedOneMore(before, encoded, i);
      more := Merged(more, encoded[i]);
    }
    assert encoded[..|encoded|] == encoded;
  }

  lemma MergedOneMore(before: seq<string>, encoded: seq<string>, i: nat)
    requires i < |encoded|
    ensures MergedAll(before + encoded[..i + 1]) == Merged(MergedAll(before + encoded[..i]), encoded[i])
  {
    var longer := before + encoded[..i + 1];
    assert longer[..|longer| - 1] == before + encoded[..i] && longer[|longer| - 1] == encoded[i];
  }

  /** The second pass: everything that is taken back. An empty name takes back every script for good. */
  method Except(
    filters: CosmeticFilters, hashes: seq<Hash>, ghost placed: seq<Placement>, ghost specific: map<Hash, HostnameRule>,
    selectors: set<string>, actions: set<string>, scripts: map<string, PermissionMask>)
    returns (
      hidden: set<string>, procedural: set<string>, injected: map<string, PermissionMask>, exceptions: set<string>)
    requires Serializes(filters, placed, specific)
    ensures exceptions == Elements(GatheredRule(placed, hashes).unhide)
    ensures hidden == selectors - exceptions
    ensures procedural == actions - Elements(GatheredRule(placed, hashes).proceduralException)
    ensures injected == Uninjected(scripts, GatheredRule(placed, hashes).uninjectScript)
  {
    hidden, procedural, injected, exceptions := selectors, actions, scripts, {};
    var exceptAllScripts := false;
    for i := 0 to |hashes|
      invariant exceptions == Elements(GatheredRule(placed, hashes[..i]).unhide)
      invariant hidden == selectors - exceptions
      invariant procedural == actions - Elements(GatheredRule(placed, hashes[..i]).proceduralException)
      invariant injected == Uninjected(scripts, GatheredRule(placed, hashes[..i]).uninjectScript)
      invariant exceptAllScripts <==> "" in GatheredRule(placed, hashes[..i]).uninjectScript
    {
      var rule := FlatMap.Get(filters.hostnameKeys, filters.hostnameValues, hashes[i], specific);
      var r := if rule.Some? then rule.value else NoRule;
      ghost var g := GatheredRule(placed, hashes[..i]);
      assert hashes[..i + 1][..i] == hashes[..i];
      assert r == RuleAt(placed, hashes[i]);
      exceptions := AddAll(exceptions, r.unhide);
      hidden := RemoveAll(hidden, r.unhide);
      procedural := RemoveAll(procedural, r.proceduralException);
      exceptAllScripts, injected :=
        UninjectAll(exceptAllScripts, injected, r.uninjectScript, scripts, g.uninjectScript);
      ElementsConcat(g.unhide, r.unhide);
      ElementsConcat(g.proceduralException, r.proceduralException);
    }
    assert hashes[..|hashes|] == hashes;
  }

  method RemoveAll(selectors: set<string>, removed: seq<string>) returns (rest: set<string>)
    ensures rest == selectors - Elements(removed)
  {
    rest := selectors;
    for i := 0 to |removed|
      invariant rest == selectors - Elements(removed[..i])
    {
      rest := rest - {removed[i]};
      assert removed[..i + 1] == removed[..i] + [removed[i]];
    }
    assert removed[..|removed|] == removed;
  }

  /** What is left of the scripts after some have been taken back. */
  function Uninjected(scripts: map<string, PermissionMask>, names: seq<string>): map<string, PermissionMask> {
    if "" in names then map[] else scripts - Elements(names)
  }

  method UninjectAll(
    all: bool, injected: map<string, PermissionMask>, names: seq<string>,
    ghost scripts: map<string, PermissionMask>, ghost before: seq<string>)
    returns (exceptAll: bool, rest: map<string, PermissionMask>)
    requires (all <==> "" in before) && injected == Uninjected(scripts, before)
    ensures (exceptAll <==> "" in before + names) && rest == Uninjected(scripts, before + names)
  {
    exceptAll, rest := all, injected;
    assert before + names[..0] == before;
    for i := 0 to |names|
      invariant exceptAll <==> "" in before + names[..i]
      invariant rest == Uninjected(scripts, before + names[..i])
    {
      assert before + names[..i + 1] == (before + names[..i]) + [names[i]];
      ElementsConcat(before + names[..i], [names[i]]);
      if names[i] == "" {
        exceptAll := true;
        rest := map[];
      }
      if exceptAll {
        continue;
      }
      rest := rest - {names[i]};
    }
    assert names[..|names|] == names;
  }

  /** What the two passes and the generic selectors make together. */
  function ResourcesFor(
    placed: seq<Placement>, misc: set<string>, hashes: seq<Hash>, generichide: bool): UrlSpecificResources
  {
    var rule := GatheredRule(placed, hashes);
    var exceptions := Elements(rule.unhide);
    var specific := Elements(Gathered(HideEntries(placed), hashes)) - exceptions;
    UrlSpecificResources(
      if generichide then specific else specific + (misc - exceptions),
      Elements(rule.proceduralAction) - Elements(rule.proceduralException),
      exceptions,
      Uninjected(MergedAll(Gathered(InjectEntries(placed), hashes)), rule.uninjectScript),
      generichide)
  }

  method HostnameCosmeticResources(
    filters: CosmeticFilters, hashes: seq<Hash>, generichide: bool,
    ghost placed: seq<Placement>, ghost specific: map<Hash, HostnameRule>)
    returns (r: UrlSpecificResources)
    requires Serializes(filters, placed, specific)
    ensures r == ResourcesFor(placed, filters.miscGenericSelectors, hashes, generichide)
  {
    var selectors, actions, scripts := Gather(filters, hashes, placed, specific);
    var hidden, procedural, injected, exceptions :=
      Except(filters, hashes, placed, specific, selectors, actions, scripts);
    if !generichide {
      hidden := hidden + (set s | s in filters.miscGenericSelectors && s !in exceptions);
    }
    r := UrlSpecificResources(hidden, procedural, exceptions, injected, generichide);
  }

  // ----- what a page gets, in terms of the rule list -----

  /** Does some rule ask for `kind` on a page with these hashes? */
  ghost predicate OnPage(rules: seq<CosmeticFilter>, toJson: Serializer, page: iset<Hash>, kind: SpecificFilterType)
    requires Parsed(rules)
  {
    exists hash :: hash in page && SomeSays(rules, toJson, hash, kind)
  }

  ghost predicate InjectedOnPage(rules: seq<CosmeticFilter>, toJson: Serializer, page: iset<Hash>, script: string)
    requires Parsed(rules)
  {
    exists permission :: OnPage(rules, toJson, page, InjectScript(script, permission))
  }

  ghost predicate UninjectedOnPage(rules: seq<CosmeticFilter>, toJson: Serializer, page: iset<Hash>, script: string)
    requires Parsed(rules)
  {
    exists permission :: OnPage(rules, toJson, page, UninjectScript(script, permission))
  }

  /** Does some rule that injects the script on the page grant this permission bit? */
  ghost predicate GrantedOnPage(
    rules: seq<CosmeticFilter>, toJson: Serializer, page: iset<Hash>, script: string, bit: nat)
    requires Parsed(rules) && bit < 8
  {
    exists permission :: HasBit(permission, bit) && OnPage(rules, toJson, page, InjectScript(script, permission))
  }

  ghost predicate IsGeneric(rules: seq<CosmeticFilter>, selector: string)
    requires Parsed(rules)
  {
    exists i :: 0 <= i < |rules| && MiscGeneric(rules[i]) == Some(selector)
  }

  /** The answer for a page, item by item, straight from the rules. */
  ghost predicate AnswersPage(
    r: UrlSpecificResources, rules: seq<CosmeticFilter>, toJson: Serializer, page: iset<Hash>, generichide: bool)
    requires Parsed(rules)
  {
    && (forall s :: s in r.hideSelectors <==>
          !OnPage(rules, toJson, page, Unhide(s))
          && (OnPage(rules, toJson, page, Hide(s)) || (!generichide && IsGeneric(rules, s))))
    && (forall s :: s in r.exceptions <==> OnPage(rules, toJson, page, Unhide(s)))
    && (forall s :: s in r.proceduralActions <==>
          && OnPage(rules, toJson, page, ProceduralOrAction(s))
          && !OnPage(rules, toJson, page, ProceduralOrActionException(s)))
    && ScriptsAnswerPage(r.scripts, rules, toJson, page)
    && r.generichide == generichide
  }

  /** The scripts that stay, each with exactly the permission bits that the rules injecting it grant. */
  ghost predicate ScriptsAnswerPage(
    scripts: map<string, PermissionMask>, rules: seq<CosmeticFilter>, toJson: Serializer, page: iset<Hash>)
    requires Parsed(rules)
  {
    && (forall s :: s in scripts <==> StaysOnPage(rules, toJson, page, s))
    && (forall s, bit :: s in scripts && 0 <= bit < 8 ==>
          (Grants(scripts, s, bit) <==> GrantedOnPage(rules, toJson, page, s, bit)))
  }

  /** An empty name takes back every script, any other name takes back that script. */
  ghost predicate StaysOnPage(rules: seq<CosmeticFilter>, toJson: Serializer, page: iset<Hash>, script: string)
    requires Parsed(rules)
  {
    && InjectedOnPage(rules, toJson, page, script)
    && !UninjectedOnPage(rules, toJson, page, script) && !UninjectedOnPage(rules, toJson, page, "")
  }

  ghost predicate UnderSome<V(!new)>(entries: seq<(nat, V)>, hashes: seq<Hash>, x: V) {
    exists hash :: hash in hashes && x in MultiMap.Under(entries, hash)
  }

  lemma {:induction false} GatheredMeans<V(!new)>(entries: seq<(nat, V)>, hashes: seq<Hash>, x: V)
    ensures x in Gathered(entries, hashes) <==> UnderSome(entries, hashes, x)
  {
    if hashes != [] {
      var n := |hashes| - 1;
      GatheredMeans(entries, hashes[..n], x);
      UnderOneMore(entries, hashes[..n], hashes[n], x);
      assert hashes == hashes[..n] + [hashes[n]];
    }
  }

  lemma UnderOneMore<V(!new)>(entries: seq<(nat, V)>, hashes: seq<Hash>, last: Hash, x: V)
    ensures UnderSome(entries, hashes + [last], x) <==>
              UnderSome(entries, hashes, x) || x in MultiMap.Under(entries, last)
  {
    var longer := hashes + [last];
    assert last in longer;
    if UnderSome(entries, hashes, x) {
      var hash :| hash in hashes && x in MultiMap.Under(entries, hash);
      assert hash in longer;
    }
  }

  /** Which lists of the page contain `s`. */
  ghost predicate ListedFor(placed: seq<Placement>, hashes: seq<Hash>, s: string, pick: HostnameRule -> seq<string>) {
    exists hash :: hash in hashes && s in pick(RuleAt(placed, hash))
  }

  lemma ListedForOneMore(placed: seq<Placement>, hashes: seq<Hash>, s: string, pick: HostnameRule -> seq<string>)
    requires hashes != []
    ensures ListedFor(placed, hashes, s, pick) <==>
              || ListedFor(placed, hashes[..|hashes| - 1], s, pick)
              || s in pick(RuleAt(placed, hashes[|hashes| - 1]))
  {
    assert hashes == hashes[..|hashes| - 1] + [hashes[|hashes| - 1]];
  }

  const UnhideOf := (r: HostnameRule) => r.unhide
  const UninjectOf := (r: HostnameRule) => r.uninjectScript
  const ProceduralOf := (r: HostnameRule) => r.proceduralAction
  const ExceptionOf := (r: HostnameRule) => r.proceduralException

  lemma {:induction false} GatheredRuleMeans(placed: seq<Placement>, hashes: seq<Hash>, s: string)
    ensures s in GatheredRule(placed, hashes).unhide <==> ListedFor(placed, hashes, s, UnhideOf)
    ensures s in GatheredRule(placed, hashes).uninjectScript <==> ListedFor(placed, hashes, s, UninjectOf)
    ensures s in GatheredRule(placed, hashes).proceduralAction <==> ListedFor(placed, hashes, s, ProceduralOf)
    ensures s in GatheredRule(placed, hashes).proceduralException <==> ListedFor(placed, hashes, s, ExceptionOf)
  {
    if hashes != [] {
      GatheredRuleMeans(placed, hashes[..|hashes| - 1], s);
      ListedForOneMore(placed, hashes, s, UnhideOf);
      ListedForOneMore(placed, hashes, s, UninjectOf);
      ListedForOneMore(placed, hashes, s, ProceduralOf);
      ListedForOneMore(placed, hashes, s, ExceptionOf);
    }
  }

  ghost function PageOf(hashes: seq<Hash>): iset<Hash> {
    iset hash: Hash | hash in hashes
  }

  lemma PageLists(rules: seq<CosmeticFilter>, toJson: Serializer, hashes: seq<Hash>, s: string)
    requires Parsed(rules)
    ensures var rule, page := GatheredRule(AllPlacements(rules, toJson), hashes), PageOf(hashes);
            && (s in rule.unhide <==> OnPage(rules, toJson, page, Unhide(s)))
            && (s in rule.proceduralAction <==> OnPage(rules, toJson, page, ProceduralOrAction(s)))
            && (s in rule.proceduralException <==> OnPage(rules, toJson, page, ProceduralOrActionException(s)))
            && (s in rule.uninjectScript <==> UninjectedOnPage(rules, toJson, page, s))
  {
    var placed, page := AllPlacements(rules, toJson), PageOf(hashes);
    GatheredRuleMeans(placed, hashes, s);
    forall hash: Hash ensures
        && (s in RuleAt(placed, hash).unhide <==> SomeSays(rules, toJson, hash, Unhide(s)))
        && (s in RuleAt(placed, hash).proceduralAction <==> SomeSays(rules, toJson, hash, ProceduralOrAction(s)))
        && (s in RuleAt(placed, hash).proceduralException <==>
            SomeSays(rules, toJson, hash, ProceduralOrActionException(s)))
        && (s in RuleAt(placed, hash).uninjectScript <==>
            exists p :: SomeSays(rules, toJson, hash, UninjectScript(s, p))) {
      RuleAtMeans(placed, hash, s);
      PlacementsSay(rules, toJson, hash, Unhide(s));
      PlacementsSay(rules, toJson, hash, ProceduralOrAction(s));
      PlacementsSay(rules, toJson, hash, ProceduralOrActionException(s));
      forall p: PermissionMask ensures
          (hash, UninjectScript(s, p)) in Elements(placed) <==> SomeSays(rules, toJson, hash, UninjectScript(s, p)) {
        PlacementsSay(rules, toJson, hash, UninjectScript(s, p));
      }
    }
  }

  lemma PageHides(rules: seq<CosmeticFilter>, toJson: Serializer, hashes: seq<Hash>, s: string)
    requires Parsed(rules)
    ensures s in Gathered(HideEntries(AllPlacements(rules, toJson)), hashes) <==>
              OnPage(rules, toJson, PageOf(hashes), Hide(s))
  {
    var placed := AllPlacements(rules, toJson);
    GatheredMeans(HideEntries(placed), hashes, s);
    forall hash: Hash
      ensures s in MultiMap.Under(HideEntries(placed), hash) <==> SomeSays(rules, toJson, hash, Hide(s))
    {
      HideUnder(placed, hash, s);
      PlacementsSay(rules, toJson, hash, Hide(s));
    }
  }

  /** The encoded scripts of a page are those of the rules that inject there. */
  lemma PageScripts(
    rules: seq<CosmeticFilter>, toJson: Serializer, hashes: seq<Hash>, s: string, permission: PermissionMask)
    requires Parsed(rules)
    ensures EncodeScriptWithPermission(s, permission) in Gathered(InjectEntries(AllPlacements(rules, toJson)), hashes)
            <==> OnPage(rules, toJson, PageOf(hashes), InjectScript(s, permission))
  {
    var placed, e := AllPlacements(rules, toJson), EncodeScriptWithPermission(s, permission);
    GatheredMeans(InjectEntries(placed), hashes, e);
    forall hash: Hash ensures
        e in MultiMap.Under(InjectEntries(placed), hash) <==>
            SomeSays(rules, toJson, hash, InjectScript(s, permission)) {
      InjectUnder(placed, hash, s, permission);
      PlacementsSay(rules, toJson, hash, InjectScript(s, permission));
    }
  }

  lemma GatheredAreEncoded(placed: seq<Placement>, hashes: seq<Hash>, e: string)
    requires e in Gathered(InjectEntries(placed), hashes)
    ensures e == EncodeScriptWithPermission(DecodeScriptWithPermission(e).1, DecodeScriptWithPermission(e).0)
  {
    GatheredMeans(InjectEntries(placed), hashes, e);
    var hash :| hash in hashes && e in MultiMap.Under(InjectEntries(placed), hash);
    InjectUnder(placed, hash, "", 0);
  }

  lemma PageInjects(rules: seq<CosmeticFilter>, toJson: Serializer, hashes: seq<Hash>, s: string, bit: nat)
    requires Parsed(rules) && bit < 8
    ensures var scripts := MergedAll(Gathered(InjectEntries(AllPlacements(rules, toJson)), hashes));
            var page := PageOf(hashes);
            && (s in scripts <==> InjectedOnPage(rules, toJson, page, s))
            && (Grants(scripts, s, bit) <==> GrantedOnPage(rules, toJson, page, s, bit))
  {
    var encoded, page := Gathered(InjectEntries(AllPlacements(rules, toJson)), hashes), PageOf(hashes);
    MergedAllMeans(encoded, s, bit);
    forall p: PermissionMask
      ensures OnPage(rules, toJson, page, InjectScript(s, p)) <==> EncodeScriptWithPermission(s, p) in encoded
      ensures DecodeScriptWithPermission(EncodeScriptWithPermission(s, p)) == (p, s)
    {
      ScriptRoundTrip(s, p);
      PageScripts(rules, toJson, hashes, s, p);
    }
    forall e | e in encoded
      ensures e == EncodeScriptWithPermission(DecodeScriptWithPermission(e).1, DecodeScriptWithPermission(e).0)
    {
      GatheredAreEncoded(AllPlacements(rules, toJson), hashes, e);
    }
  }

  /** The two passes over the tables answer the page by the rules. */
  lemma LookupIsFormula(
    rules: seq<CosmeticFilter>, toJson: Serializer, hashes: seq<Hash>, generichide: bool)
    requires Parsed(rules)
    ensures AnswersPage(ResourcesFor(AllPlacements(rules, toJson), GenericSelectors(rules), hashes, generichide),
                        rules, toJson, PageOf(hashes), generichide)
  {
    var placed, page := AllPlacements(rules, toJson), PageOf(hashes);
    var r := ResourcesFor(placed, GenericSelectors(rules), hashes, generichide);
    forall s: string
      ensures s in r.exceptions <==> OnPage(rules, toJson, page, Unhide(s))
      ensures s in Elements(Gathered(HideEntries(placed), hashes)) <==> OnPage(rules, toJson, page, Hide(s))
      ensures s in r.proceduralActions <==>
                && OnPage(rules, toJson, page, ProceduralOrAction(s))
                && !OnPage(rules, toJson, page, ProceduralOrActionException(s))
      ensures s in GenericSelectors(rules) <==> IsGeneric(rules, s)
    {
      GenericSelectorsMean(rules, s);
      PageHides(rules, toJson, hashes, s);
      PageLists(rules, toJson, hashes, s);
    }
    ScriptsAnswer(rules, toJson, hashes);
  }

  lemma ScriptsAnswer(rules: seq<CosmeticFilter>, toJson: Serializer, hashes: seq<Hash>)
    requires Parsed(rules)
    ensures var placed := AllPlacements(rules, toJson);
            var scripts, names :=
              MergedAll(Gathered(InjectEntries(placed), hashes)), GatheredRule(placed, hashes).uninjectScript;
            ScriptsAnswerPage(Uninjected(scripts, names), rules, toJson, PageOf(hashes))
  {
    var placed, page := AllPlacements(rules, toJson), PageOf(hashes);
    var scripts, names :=
      MergedAll(Gathered(InjectEntries(placed), hashes)), GatheredRule(placed, hashes).uninjectScript;
    var rest := Uninjected(scripts, names);
    forall s: string, bit: nat | bit < 8
      ensures s in rest <==> StaysOnPage(rules, toJson, page, s)
      ensures s in rest ==> (Grants(rest, s, bit) <==> GrantedOnPage(rules, toJson, page, s, bit))
    {
      PageLists(rules, toJson, hashes, "");
      PageLists(rules, toJson, hashes, s);
      PageInjects(rules, toJson, hashes, s, bit);
    }
    forall s: string ensures s in rest <==> StaysOnPage(rules, toJson, page, s) {
      PageLists(rules, toJson, hashes, "");
      PageLists(rules, toJson, hashes, s);
      PageInjects(rules, toJson, hashes, s, 0);
    }
  }

  // ----- from the rules to the page -----

  method FromRules(
    rules: seq<CosmeticFilter>, toJson: Serializer, keyOf: KeyFinder, keyHash: string -> nat)
    returns (builder: CosmeticFilterCacheBuilder)
    requires Parsed(rules) && FindsKeys(keyOf)
    ensures builder.Valid() && builder.generic.Valid()
    ensures builder.placed == AllPlacements(rules, toJson) && builder.generic.Holds(GenericList(rules))
    ensures builder.generic.Reads(keyOf, keyHash)
  {
    var generic := new GenericRules(keyOf, keyHash);
    builder := new CosmeticFilterCacheBuilder(toJson, generic);
    builder.AddAll(rules);
    assert rules[..|rules|] == rules;
  }

  /** The generic selectors of the rules, in order. */
  function GenericList(rules: seq<CosmeticFilter>): seq<string>
    requires Parsed(rules)
  {
    if rules == [] then [] else GenericList(rules[..|rules| - 1]) + AsList(GenericSelector(rules[|rules| - 1]))
  }

  function GenericSelectors(rules: seq<CosmeticFilter>): set<string>
    requires Parsed(rules)
  {
    Others(GenericList(rules))
  }

  lemma {:induction false} GenericListMeans(rules: seq<CosmeticFilter>, s: string)
    requires Parsed(rules)
    ensures s in GenericList(rules) <==> exists i :: 0 <= i < |rules| && GenericSelector(rules[i]) == Some(s)
  {
    if rules != [] {
      var n := |rules| - 1;
      GenericListMeans(rules[..n], s);
      if i :| 0 <= i < n && GenericSelector(rules[..n][i]) == Some(s) {
        assert GenericSelector(rules[i]) == Some(s);
      }
      assert forall i :: 0 <= i < n ==> rules[..n][i] == rules[i];
    }
  }

  lemma GenericSelectorsMean(rules: seq<CosmeticFilter>, s: string)
    requires Parsed(rules)
    ensures s in GenericSelectors(rules) <==> IsGeneric(rules, s)
  {
    GenericListMeans(rules, s);
    if IsGeneric(rules, s) {
      var i :| 0 <= i < |rules| && MiscGeneric(rules[i]) == Some(s);
      assert GenericSelector(rules[i]) == Some(s);
    }
    if s in GenericSelectors(rules) {
      var i :| 0 <= i < |rules| && GenericSelector(rules[i]) == Some(s);
      assert MiscGeneric(rules[i]) == Some(s);
    }
  }

  method Serialize(builder: CosmeticFilterCacheBuilder) returns (filters: CosmeticFilters)
    requires builder.Valid() && builder.generic.Valid()
    ensures Serializes(filters, builder.placed, builder.specificRules)
    ensures filters.miscGenericSelectors == builder.generic.misc
    ensures filters.classes.sign == '.' && filters.ids.sign == '#'
    ensures Stand(filters.classes, builder.generic.classes.simple.contents, builder.generic.classes.complex.contents)
    ensures Stand(filters.ids, builder.generic.ids.simple.contents, builder.generic.ids.complex.contents)
  {
    var classes := Consume(builder.generic.classes, '.');
    var ids := Consume(builder.generic.ids, '#');
    var hideKeys, hideValues := builder.hostnameHide.Finish();
    var injectKeys, injectValues := builder.hostnameInjectScript.Finish();
    var hostnameKeys, hostnameValues := FlatMap.Finish(builder.specificRules);
    filters := CosmeticFilters(hideKeys, hideValues, injectKeys, injectValues, hostnameKeys, hostnameValues,
                               builder.generic.misc, classes, ids);
  }

  /** Building the tables from any rule list and asking them for any host answers by the rules. */
  method PageResources(
    rules: seq<CosmeticFilter>, toJson: Serializer, keyOf: KeyFinder, keyHash: string -> nat,
    hash: string -> Hash, hostname: string, domain: string, generichide: bool)
    returns (r: UrlSpecificResources)
    requires Parsed(rules) && FindsKeys(keyOf) && EndsWith(hostname, domain)
    ensures AnswersPage(r, rules, toJson, (iset h: Hash | IsPageHash(hash, hostname, domain, h)), generichide)
  {
    var builder := FromRules(rules, toJson, keyOf, keyHash);
    var filters := Serialize(builder);
    var entities := GetEntityHashesFromLabels(hash, hostname, domain);
    var hostnames := GetHostnameHashesFromLabels(hash, hostname, domain);
    var hashes := entities + hostnames;
    r := HostnameCosmeticResources(filters, hashes, generichide, builder.placed, builder.specificRules);
    LookupIsFormula(rules, toJson, hashes, generichide);
    PageHashesAre(hash, hostname, domain, hashes);
  }

  lemma PageHashesAre(hash: string -> Hash, hostname: string, domain: string, hashes: seq<Hash>)
    requires EndsWith(hostname, domain) && forall h: Hash :: h in hashes <==> IsPageHash(hash, hostname, domain, h)
    ensures PageOf(hashes) == (iset h: Hash | IsPageHash(hash, hostname, domain, h))
  {
  }

  // ----- classes and ids that appear on a page -----

  /** What `hidden_class_id_selectors` returns: first for the classes, then for the ids. */
  ghost function ClassIdAnswer(
    rules: seq<CosmeticFilter>, keyOf: KeyFinder, keyHash: string -> nat, classes: seq<string>, ids: seq<string>,
    exceptions: set<string>): seq<string>
    requires Parsed(rules)
  {
    var kind, selectors := KeyNames(keyHash), GenericList(rules);
    TableAnswer(keyOf, kind, '.', Starting(selectors, '.'), classes, exceptions)
    + TableAnswer(keyOf, kind, '#', Starting(selectors, '#'), ids, exceptions)
  }

  method HiddenClassIdSelectors(
    rules: seq<CosmeticFilter>, toJson: Serializer, keyOf: KeyFinder, keyHash: string -> nat,
    classes: seq<string>, ids: seq<string>, exceptions: set<string>)
    returns (selectors: seq<string>)
    requires Parsed(rules) && FindsKeys(keyOf)
    ensures selectors == ClassIdAnswer(rules, keyOf, keyHash, classes, ids, exceptions)
  {
    var builder := FromRules(rules, toJson, keyOf, keyHash);
    var filters := Serialize(builder);
    var c, i := builder.generic.classes, builder.generic.ids;
    var forClasses := Selectors(filters.classes, classes, exceptions, c.simple.contents, c.complex.contents);
    var forIds := Selectors(filters.ids, ids, exceptions, i.simple.contents, i.complex.contents);
    selectors := forClasses + forIds;
  }

  /** Some generic rule hides by a selector that starts with this class or id, and `s` is that selector. */
  ghost predicate IsAskedFor(
    rules: seq<CosmeticFilter>, keyOf: KeyFinder, sign: char, names: seq<string>, exceptions: set<string>, s: string)
    requires Parsed(rules)
  {
    Asked(keyOf, sign, Starting(GenericList(rules), sign), names, exceptions, s)
  }

  /** Each push of a class selector and of an id selector kept the slot computed for it. */
  ghost predicate SlotsKept(rules: seq<CosmeticFilter>, keyOf: KeyFinder, keyHash: string -> nat)
    requires Parsed(rules)
  {
    var kind, selectors := KeyNames(keyHash), GenericList(rules);
    && AllKept(kind, ComplexPushes(keyOf, Starting(selectors, '.')))
    && AllKept(kind, ComplexPushes(keyOf, Starting(selectors, '#')))
  }

  /** If so, the answer holds exactly the selectors asked for, the exceptions left out. */
  lemma ClassIdAnswerMeans(
    rules: seq<CosmeticFilter>, keyOf: KeyFinder, keyHash: string -> nat, classes: seq<string>, ids: seq<string>,
    exceptions: set<string>, s: string)
    requires Parsed(rules) && FindsKeys(keyOf) && SlotsKept(rules, keyOf, keyHash)
    ensures s in ClassIdAnswer(rules, keyOf, keyHash, classes, ids, exceptions) <==>
              || IsAskedFor(rules, keyOf, '.', classes, exceptions, s)
              || IsAskedFor(rules, keyOf, '#', ids, exceptions, s)
  {
    var kind, selectors := KeyNames(keyHash), GenericList(rules);
    KeptAnswerMeans(keyOf, kind, '.', Starting(selectors, '.'), classes, exceptions, s);
    KeptAnswerMeans(keyOf, kind, '#', Starting(selectors, '#'), ids, exceptions, s);
  }
}

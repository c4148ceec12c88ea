/** Cosmetic rules: what one rule says about one hostname hash, and the hashes of a page. */
module CosmeticRules {
  import opened Prelude
  import opened Text
  import opened Resources

  // ----- rules -----

  datatype Operator = CssSelector(arg: string) | Procedural(name: string, arg: string)

  datatype Action = Remove | Style(css: string) | RemoveAttr(attr: string) | RemoveClass(class_: string)

  datatype CosmeticFilter = CosmeticFilter(
    entities: Option<seq<Hash>>, hostnames: Option<seq<Hash>>,
    notEntities: Option<seq<Hash>>, notHostnames: Option<seq<Hash>>,
    unhide: bool, scriptInject: bool, selector: seq<Operator>, action: Option<Action>, permission: PermissionMask)

  /** Writing a procedural rule as JSON. */
  type Serializer = (seq<Operator>, Option<Action>) -> string

  function PlainCssSelector(rule: CosmeticFilter): Option<string>
    requires rule.selector != []
  {
    if |rule.selector| == 1 && rule.selector[0].CssSelector? then Some(rule.selector[0].arg) else None
  }

  predicate HasHostnameConstraint(rule: CosmeticFilter) {
    rule.hostnames.Some? || rule.entities.Some? || rule.notEntities.Some? || rule.notHostnames.Some?
  }

  /** A hiding rule with nothing but negated locations also applies everywhere else. */
  function HiddenGenericRule(rule: CosmeticFilter): Option<CosmeticFilter> {
    if rule.hostnames.Some? || rule.entities.Some? then None
    else if (rule.notHostnames.Some? || rule.notEntities.Some?) && rule.action.None? && !rule.scriptInject then
      Some(rule.(notHostnames := None, notEntities := None))
    else None
  }

  /** What a rule asks for, where it applies. */
  datatype SpecificFilterType =
    | Hide(selector: string)
    | Unhide(selector: string)
    | InjectScript(script: string, permission: PermissionMask)
    | UninjectScript(script: string, permission: PermissionMask)
    | ProceduralOrAction(json: string)
    | ProceduralOrActionException(json: string)

  function Negated(kind: SpecificFilterType): SpecificFilterType {
    match kind
    case Hide(s) => Unhide(s)
    case Unhide(s) => Hide(s)
    case InjectScript(s, p) => UninjectScript(s, p)
    case UninjectScript(s, p) => InjectScript(s, p)
    case ProceduralOrAction(s) => ProceduralOrActionException(s)
    case ProceduralOrActionException(s) => ProceduralOrAction(s)
  }

  /** Scripts with an action or with a procedural selector are dropped. */
  function Kind(rule: CosmeticFilter, toJson: Serializer): Option<SpecificFilterType>
    requires rule.selector != []
  {
    var plain := PlainCssSelector(rule);
    var kind :=
      if !rule.scriptInject && plain.Some? && rule.action.None? then Some(Hide(plain.value))
      else if rule.scriptInject && plain.Some? && rule.action.None?
        then Some(InjectScript(plain.value, rule.permission))
      else if !rule.scriptInject then
        Some(ProceduralOrAction(toJson(if plain.Some? then [CssSelector(plain.value)] else rule.selector, rule.action)))
      else None;
    if kind.Some? && rule.unhide then Some(Negated(kind.value)) else kind
  }

  function OrEmpty(hashes: Option<seq<Hash>>): seq<Hash> {
    if hashes.Some? then hashes.value else []
  }

  /** Does a rule ask for `kind` on the pages with this hash? On negated locations it asks for the opposite. */
  ghost predicate Says(rule: CosmeticFilter, toJson: Serializer, hash: Hash, kind: SpecificFilterType)
    requires rule.selector != []
  {
    && Kind(rule, toJson).Some?
    && ((hash in OrEmpty(rule.hostnames) + OrEmpty(rule.entities) && kind == Kind(rule, toJson).value)
        || (hash in OrEmpty(rule.notHostnames) + OrEmpty(rule.notEntities)
          && kind == Negated(Kind(rule, toJson).value)))
  }

  /** The selector of a rule that applies everywhere, or everywhere but in some places; procedural ones are ignored. */
  function GenericSelector(rule: CosmeticFilter): Option<string>
    requires rule.selector != []
  {
    if HasHostnameConstraint(rule) && HiddenGenericRule(rule).None? then None else PlainCssSelector(rule)
  }

  /** The generic selector of a rule that is injected everywhere; class and id selectors are kept elsewhere. */
  function MiscGeneric(rule: CosmeticFilter): Option<string>
    requires rule.selector != []
  {
    Misc(GenericSelector(rule))
  }

  function Misc(selector: Option<string>): Option<string> {
    if selector.Some? && (StartsWith(selector.value, ".") || StartsWith(selector.value, "#")) then None else selector
  }

  // ----- scripts with permissions -----

  const HEX_CHARS := "0123456789abcdef"

  /** Two hexadecimal digits after the script. */
  function EncodeScriptWithPermission(script: string, permission: PermissionMask): string {
    var bits := permission as int;
    script + [HEX_CHARS[bits / 16], HEX_CHARS[bits % 16]]
  }

  function ParseHex(c: char): Option<nat> {
    if '0' <= c <= '9' then Some(c as int - '0' as int)
    else if 'a' <= c <= 'f' then Some(c as int - 'a' as int + 10)
    else None
  }

  function DecodeScriptWithPermission(encoded: string): (PermissionMask, string) {
    var n := |encoded|;
    if n < 2 then (0, "")
    else
      var high, low := ParseHex(encoded[n - 2]), ParseHex(encoded[n - 1]);
      if high.Some? && low.Some? then ((high.value * 16 + low.value) as PermissionMask, encoded[..n - 2])
      else (0, "")
  }

  lemma HexRoundTrip(digit: nat)
    requires digit < 16
    ensures ParseHex(HEX_CHARS[digit]) == Some(digit)
  {
  }

  /** Every script comes back with its own permission, whatever its text ends in. */
  lemma ScriptRoundTrip(script: string, permission: PermissionMask)
    ensures DecodeScriptWithPermission(EncodeScriptWithPermission(script, permission)) == (permission, script)
  {
    var bits := permission as int;
    DigitsOf(bits);
    ScriptComesBack(script, permission, bits / 16, bits % 16);
  }

  lemma DigitsOf(bits: nat)
    requires bits < 256
    ensures bits / 16 < 16 && bits % 16 < 16 && bits == bits / 16 * 16 + bits % 16
  {
  }

  lemma ScriptComesBack(script: string, permission: PermissionMask, a: nat, b: nat)
    requires a < 16 && b < 16 && permission as int == a * 16 + b
    ensures DecodeScriptWithPermission(script + [HEX_CHARS[a], HEX_CHARS[b]]) == (permission, script)
  {
    HexRoundTrip(a);
    HexRoundTrip(b);
    DigitsComeOff(script, HEX_CHARS[a], HEX_CHARS[b]);
  }

  lemma DigitsComeOff(script: string, high: char, low: char)
    ensures var encoded := script + [high, low];
            && |encoded| == |script| + 2 && encoded[..|encoded| - 2] == script
            && encoded[|encoded| - 2] == high && encoded[|encoded| - 1] == low
  {
  }

  // ----- the hashes of a page -----

  /** What follows the dot at `dot`, up to `end`. */
  function AfterDot(hostname: string, dot: nat, end: nat): string
    requires dot < end <= |hostname|
  {
    hostname[dot + 1..end]
  }

  /** Is `h` the hash of what follows one of the dots in the range? */
  ghost predicate FollowsDot(hash: string -> Hash, hostname: string, end: nat, from: nat, limit: nat, h: Hash)
    requires limit <= end <= |hostname|
  {
    exists dot: nat :: from <= dot < limit && hostname[dot] == '.' && h == hash(AfterDot(hostname, dot, end))
  }

  /** The hashes of the whole text and of what follows each dot before the start of the domain. */
  method GetHashesFromLabels(hash: string -> Hash, hostname: string, end: nat, startOfDomain: nat)
    returns (hashes: seq<Hash>)
    requires startOfDomain <= end <= |hostname|
    ensures end == 0 ==> hashes == []
    ensures end > 0 ==> forall h: Hash :: h in hashes <==>
                          h == hash(hostname[..end]) || FollowsDot(hash, hostname, end, 0, startOfDomain, h)
  {
    hashes := [];
    if end == 0 {
      return;
    }
    var dotPtr: nat := startOfDomain;
    var dotIndex := FindLast(hostname, '.', dotPtr);
    while dotIndex.Some?
      invariant dotPtr <= startOfDomain
      invariant dotIndex == FindLast(hostname, '.', dotPtr)
      invariant forall h: Hash :: h in hashes <==> FollowsDot(hash, hostname, end, dotPtr, startOfDomain, h)
      decreases dotPtr
    {
      ghost var was, before := dotPtr, hashes;
      dotPtr := dotIndex.value;
      hashes := hashes + [hash(AfterDot(hostname, dotPtr, end))];
      forall h: Hash ensures h in hashes <==> FollowsDot(hash, hostname, end, dotPtr, startOfDomain, h) {
        assert h in hashes <==> h in before || h == hash(AfterDot(hostname, dotPtr, end));
        assert forall dot: nat :: dotPtr <= dot < was && hostname[dot] == '.' ==> dot == dotPtr;
        assert hostname[dotPtr] == '.';
      }
      dotIndex := FindLast(hostname, '.', dotPtr);
    }
    hashes := hashes + [hash(hostname[..end])];
  }

  lemma SplitsAtDot(hostname: string, domain: string, dot: nat)
    requires EndsWith(hostname, domain) && dot < |domain| && domain[dot] == '.'
    ensures var start := |hostname| - |domain|;
            hostname == hostname[..start + dot] + "." + hostname[start + dot + 1..]
            && hostname[start + dot + 1..] == domain[dot + 1..]
  {
    var start := |hostname| - |domain|;
    assert forall k :: 0 <= k < |domain| ==> hostname[start + k] == hostname[start..start + |domain|][k] == domain[k];
    assert hostname[start + dot] == '.';
  }

  /** The host up to its public suffix, and the public suffix. */
  function GetHostnameWithoutPublicSuffix(hostname: string, domain: string): (split: Option<(string, string)>)
    requires EndsWith(hostname, domain)
    ensures split.Some? ==> hostname == split.value.0 + "." + split.value.1
  {
    var dot := FirstIndex(domain, '.');
    if dot == |domain| then None
    else
      var suffix := domain[dot + 1..];
      var start := |hostname| - |domain|;
      SplitsAtDot(hostname, domain, dot);
      Some((hostname[..|hostname| - |suffix| - 1], hostname[start + dot + 1..]))
  }

  method GetEntityHashesFromLabels(hash: string -> Hash, hostname: string, domain: string) returns (hashes: seq<Hash>)
    requires EndsWith(hostname, domain)
    ensures forall h: Hash :: h in hashes <==> IsEntityHash(hash, hostname, domain, h)
  {
    var split := GetHostnameWithoutPublicSuffix(hostname, domain);
    if split.None? {
      return [];
    }
    var rest := split.value.0;
    hashes := GetHashesFromLabels(hash, rest, |rest|, |rest|);
    assert rest[..|rest|] == rest;
    hashes := hashes + [hash(split.value.1)];
  }

  /** The labels of the host without its public suffix, and the public suffix. */
  ghost predicate IsEntityHash(hash: string -> Hash, hostname: string, domain: string, h: Hash)
    requires EndsWith(hostname, domain)
  {
    var split := GetHostnameWithoutPublicSuffix(hostname, domain);
    && split.Some?
    && (h == hash(split.value.1)
        || (split.value.0 != "" && IsLabelHash(hash, split.value.0, |split.value.0|, h)))
  }

  /** The whole text, or what follows a dot before `startOfDomain`. */
  ghost predicate IsLabelHash(hash: string -> Hash, text: string, startOfDomain: nat, h: Hash)
    requires startOfDomain <= |text|
  {
    h == hash(text) || FollowsDot(hash, text, |text|, 0, startOfDomain, h)
  }

  method GetHostnameHashesFromLabels(hash: string -> Hash, hostname: string, domain: string) returns (hashes: seq<Hash>)
    requires EndsWith(hostname, domain)
    ensures forall h: Hash :: h in hashes <==> hostname != "" && IsLabelHash(hash, hostname, |hostname| - |domain|, h)
  {
    hashes := GetHashesFromLabels(hash, hostname, |hostname|, |hostname| - |domain|);
    assert hostname[..|hostname|] == hostname;
  }

  /** Does a hash stand for the page: for its host, an enclosing domain, or one of its entities? */
  ghost predicate IsPageHash(hash: string -> Hash, hostname: string, domain: string, h: Hash)
    requires EndsWith(hostname, domain)
  {
    || IsEntityHash(hash, hostname, domain, h)
    || (hostname != "" && IsLabelHash(hash, hostname, |hostname| - |domain|, h))
  }
}

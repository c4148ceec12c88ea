/** The store of scriptlet resources, and the dependency walk over it. */
module Resources {
  import opened Prelude

  // ----- permissions -----

  type PermissionMask = bv8

  /** Can a filter with `filterMask` inject a resource that requires `required`? */
  predicate IsInjectableBy(required: PermissionMask, filterMask: PermissionMask) {
    !filterMask & required == 0
  }

  predicate HasBit(mask: PermissionMask, bit: nat)
    requires bit < 8
  {
    (mask >> bit) & 1 == 1
  }

  /** Every required bit is granted, bit by bit. */
  lemma InjectableByBits(required: PermissionMask, filterMask: PermissionMask)
    ensures IsInjectableBy(required, filterMask) <==>
              forall bit :: 0 <= bit < 8 && HasBit(required, bit) ==> HasBit(filterMask, bit)
  {
    var missing := !filterMask & required;
    forall bit | 0 <= bit < 8 ensures HasBit(missing, bit) <==> HasBit(required, bit) && !HasBit(filterMask, bit) {
      assert bit == 0 || bit == 1 || bit == 2 || bit == 3 || bit == 4 || bit == 5 || bit == 6 || bit == 7;
    }
    assert missing == 0 <==>
        !HasBit(missing, 0) && !HasBit(missing, 1) && !HasBit(missing, 2) && !HasBit(missing, 3)
        && !HasBit(missing, 4) && !HasBit(missing, 5) && !HasBit(missing, 6) && !HasBit(missing, 7);
  }

  // ----- resources -----

  datatype MimeType =
    | TextCss | ImageGif | TextHtml | ApplicationJavascript | ApplicationJson | AudioMp3 | VideoMp4 | ImagePng
    | TextPlain | TextXml | FnJavascript | Unknown

  datatype ResourceType = Mime(mime: MimeType) | Template

  predicate IsTextual(mime: MimeType) {
    mime in {ApplicationJavascript, FnJavascript, ApplicationJson, TextCss, TextPlain, TextHtml, TextXml}
  }

  predicate SupportsDependencies(mime: MimeType) {
    mime == ApplicationJavascript || mime == FnJavascript
  }

  predicate SupportsScriptletInjection(kind: ResourceType) {
    kind == Template || kind == Mime(ApplicationJavascript)
  }

  datatype Content = Text(text: string) | Raw(bytes: seq<nat>)

  /** A resource as given: `content` is still encoded. */
  datatype Resource = Resource(
    name: string, aliases: seq<string>, kind: ResourceType, content: string, dependencies: seq<string>,
    permission: PermissionMask)

  /** A resource as stored. */
  datatype ResourceImpl = ResourceImpl(
    name: string, kind: ResourceType, content: Content, dependencies: seq<string>, permission: PermissionMask)

  datatype AddResourceError =
    | InvalidBase64Content | InvalidUtf8Content | NameAlreadyAdded | ContentTypeDoesNotSupportDependencies

  /** Decoding base64 to text or bytes. */
  datatype Decoder = Decoder(
    text: string -> Result<string, AddResourceError>,
    raw: string -> Result<seq<nat>, AddResourceError>)

  function Decoded(decoder: Decoder, resource: Resource): Result<Content, AddResourceError> {
    if resource.kind.Mime? && resource.dependencies != [] && !SupportsDependencies(resource.kind.mime) then
      Err(ContentTypeDoesNotSupportDependencies)
    else if resource.kind.Mime? && !IsTextual(resource.kind.mime) then
      var r := decoder.raw(resource.content);
      if r.Ok? then Ok(Raw(r.value)) else Err(r.error)
    else
      var r := decoder.text(resource.content);
      if r.Ok? then Ok(Text(r.value)) else Err(r.error)
  }

  /** Pictures, sound, films and unknown content, which are kept as bytes. */
  predicate IsBinary(kind: ResourceType) {
    kind.Mime? && kind.mime in {ImageGif, ImagePng, AudioMp3, VideoMp4, Unknown}
  }

  /** Only scripts and templates may have dependencies; all but binary content must be text. */
  lemma DecodedMeans(decoder: Decoder, resource: Resource)
    ensures var depends := resource.dependencies != [];
            var script := resource.kind.Template? || resource.kind.mime.ApplicationJavascript?
                          || resource.kind.mime.FnJavascript?;
            Decoded(decoder, resource) ==
            if depends && !script then Err(ContentTypeDoesNotSupportDependencies)
            else if IsBinary(resource.kind) then
              match decoder.raw(resource.content)
              case Ok(bytes) => Ok(Raw(bytes))
              case Err(error) => Err(error)
            else
              match decoder.text(resource.content)
              case Ok(text) => Ok(Text(text))
              case Err(error) => Err(error)
  {
  }

  /** Resources by canonical name, and canonical names by alias. */
  datatype Store = Store(resources: map<string, ResourceImpl>, aliases: map<string, string>)

  function Lookup(store: Store, ident: string): Option<ResourceImpl> {
    if ident in store.resources then Some(store.resources[ident])
    else if ident in store.aliases && store.aliases[ident] in store.resources then
      Some(store.resources[store.aliases[ident]])
    else None
  }

  /** Resources are stored under their own names, and no alias dangles. */
  ghost predicate WellNamed(store: Store) {
    && (forall n :: n in store.resources ==> store.resources[n].name == n)
    && (forall a :: a in store.aliases ==> store.aliases[a] in store.resources)
  }

  class InMemoryResourceStorage {
    const decoder: Decoder
    var resources: map<string, ResourceImpl>
    var aliases: map<string, string>

    ghost function AsStore(): Store
      reads this
    {
      Store(resources, aliases)
    }

    constructor (decoder: Decoder)
      ensures AsStore() == Store(map[], map[]) && WellNamed(AsStore()) && this.decoder == decoder
    {
      this.decoder, resources, aliases := decoder, map[], map[];
    }

    function GetResource(ident: string): (found: Option<ResourceImpl>)
      reads this
      ensures found == Lookup(AsStore(), ident)
    {
      if ident in resources then Some(resources[ident])
      else if ident in aliases then
        if aliases[ident] in resources then Some(resources[aliases[ident]]) else None
      else None
    }

    /** Adding fails and changes nothing, or binds identifiers of which none was taken. */
    method AddResource(resource: Resource) returns (r: Result<(), AddResourceError>)
      modifies this
      ensures r.Ok? <==> Decoded(decoder, resource).Ok? && !AnyTaken(old(AsStore()), Idents(resource))
      ensures AsStore() == if r.Ok? then Added(old(AsStore()), resource, Decoded(decoder, resource).value)
                           else old(AsStore())
    {
      var content := Decoded(decoder, resource);
      if content.Err? {
        return Err(content.error);
      }
      var taken := FindTaken(Idents(resource));
      if taken {
        return Err(NameAlreadyAdded);
      }
      BindAliases(resource.name, resource.aliases);
      resources := resources[resource.name := Stored(resource, content.value)];
      r := Ok(());
    }

    method FindTaken(idents: seq<string>) returns (taken: bool)
      ensures taken <==> AnyTaken(AsStore(), idents)
    {
      for i := 0 to |idents|
        invariant forall j :: 0 <= j < i ==> idents[j] !in resources && idents[j] !in aliases
      {
        if idents[i] in resources || idents[i] in aliases {
          return true;
        }
      }
      return false;
    }

    method BindAliases(name: string, added: seq<string>)
      modifies `aliases
      ensures aliases == old(aliases) + AliasesTo(name, added)
    {
      for i := 0 to |added|
        invariant aliases == old(aliases) + AliasesTo(name, added[..i])
      {
        assert added[..i + 1] == added[..i] + [added[i]];
        aliases := aliases[added[i] := name];
      }
      assert added[..|added|] == added;
    }
  }

  function Idents(resource: Resource): seq<string> {
    [resource.name] + resource.aliases
  }

  predicate AnyTaken(store: Store, idents: seq<string>) {
    exists i :: 0 <= i < |idents| && (idents[i] in store.resources || idents[i] in store.aliases)
  }

  function AliasesTo(name: string, aliases: seq<string>): map<string, string> {
    map a | a in aliases :: name
  }

  function Stored(resource: Resource, content: Content): ResourceImpl {
    ResourceImpl(resource.name, resource.kind, content, resource.dependencies, resource.permission)
  }

  function Added(store: Store, resource: Resource, content: Content): Store {
    Store(store.resources[resource.name := Stored(resource, content)],
          store.aliases + AliasesTo(resource.name, resource.aliases))
  }

  /** Adding binds exactly the identifiers of the resource and leaves all others as they were. */
  lemma AddingBindsItsIdents(store: Store, resource: Resource, content: Content, ident: string)
    requires WellNamed(store) && !AnyTaken(store, Idents(resource))
    ensures WellNamed(Added(store, resource, content))
    ensures Lookup(Added(store, resource, content), ident)
            == if ident in Idents(resource) then Some(Stored(resource, content)) else Lookup(store, ident)
  {
    NotTaken(store, resource);
    var added := Added(store, resource, content);
    if ident == resource.name || ident in resource.aliases {
      assert ident in Idents(resource);
      assert ident != resource.name ==> ident !in added.resources && added.aliases[ident] == resource.name;
    } else {
      assert ident !in Idents(resource);
      assert ident in store.aliases ==> added.aliases[ident] == store.aliases[ident];
    }
  }

  lemma NotTaken(store: Store, resource: Resource)
    requires !AnyTaken(store, Idents(resource))
    ensures resource.name !in store.resources && resource.name !in store.aliases
    ensures forall a :: a in resource.aliases ==> a !in store.resources && a !in store.aliases
  {
    var idents := Idents(resource);
    assert idents[0] == resource.name;
    forall a | a in resource.aliases ensures a !in store.resources && a !in store.aliases {
      var i :| 0 <= i < |resource.aliases| && resource.aliases[i] == a;
      assert idents[i + 1] == a;
    }
  }

  // ----- the dependency walk -----

  datatype ScriptletResourceError =
    | NoMatchingScriptlet | InsufficientPermissions | ContentTypeNotInjectable | MissingScriptletName
    | ScriptletArgObjectSyntaxUnsupported

  function GetPermissioned(
    store: Store, name: string, mask: PermissionMask): Result<ResourceImpl, ScriptletResourceError>
  {
    var found := Lookup(store, name);
    if found.None? then Err(NoMatchingScriptlet)
    else if !IsInjectableBy(found.value.permission, mask) then Err(InsufficientPermissions)
    else Ok(found.value)
  }

  function Names(list: seq<ResourceImpl>): set<string> {
    set r | r in list :: r.name
  }

  /** The documented rule: dependencies name resources, never aliases. */
  predicate IsCanonical(store: Store, name: string) {
    name in store.resources || name !in store.aliases
  }

  ghost predicate CanonicalDependencies(store: Store) {
    forall n, i :: n in store.resources && 0 <= i < |store.resources[n].dependencies| ==>
      IsCanonical(store, store.resources[n].dependencies[i])
  }

  ghost predicate AllCanonical(store: Store, names: seq<string>) {
    forall i :: 0 <= i < |names| ==> IsCanonical(store, names[i])
  }

  /** The outcome of a walk: success or error, and the list, extended as far as the walk got. */
  datatype Walked = Walked(error: Option<ScriptletResourceError>, list: seq<ResourceImpl>)

  lemma NamesGrow(a: seq<ResourceImpl>, b: seq<ResourceImpl>)
    requires a <= b
    ensures Names(a) <= Names(b)
  {
    forall n | n in Names(a) ensures n in Names(b) {
      var r :| r in a && r.name == n;
      var i :| 0 <= i < |a| && a[i] == r;
      assert b[i] == r;
    }
  }

  lemma NamesSnoc(a: seq<ResourceImpl>, r: ResourceImpl)
    ensures Names(a + [r]) == Names(a) + {r.name}
  {
  }

  /** `recursive_dependencies`, as a function of the list so far. */
  function Walk(store: Store, name: string, prev: seq<ResourceImpl>, mask: PermissionMask): (w: Walked)
    requires WellNamed(store) && CanonicalDependencies(store) && IsCanonical(store, name)
    ensures prev <= w.list
    decreases store.resources.Keys - Names(prev), 0, 0
  {
    if name in Names(prev) then Walked(None, prev)
    else
      var found := GetPermissioned(store, name, mask);
      if found.Err? then Walked(Some(found.error), prev)
      else
        NamesSnoc(prev, found.value);
        assert name in store.resources.Keys - Names(prev);
        assert store.resources.Keys - Names(prev + [found.value]) < store.resources.Keys - Names(prev);
        WalkAll(store, found.value.dependencies, prev + [found.value], mask)
  }

  function WalkAll(store: Store, names: seq<string>, prev: seq<ResourceImpl>, mask: PermissionMask): (w: Walked)
    requires WellNamed(store) && CanonicalDependencies(store) && AllCanonical(store, names)
    ensures prev <= w.list
    decreases store.resources.Keys - Names(prev), 1, |names|
  {
    if names == [] then Walked(None, prev)
    else
      var n := |names| - 1;
      var front := WalkAll(store, names[..n], prev, mask);
      if front.error.Some? then front
      else
        NamesGrow(prev, front.list);
        Walk(store, names[n], front.list, mask)
  }

  method GetPermissionedResource(storage: InMemoryResourceStorage, name: string, mask: PermissionMask)
    returns (found: Result<ResourceImpl, ScriptletResourceError>)
    ensures found == GetPermissioned(storage.AsStore(), name, mask)
  {
    var resource := storage.GetResource(name);
    if resource.None? {
      return Err(NoMatchingScriptlet);
    }
    if !IsInjectableBy(resource.value.permission, mask) {
      return Err(InsufficientPermissions);
    }
    return Ok(resource.value);
  }

  /** The walk as it runs, extending the list in place and stopping at the first error. */
  method RecursiveDependencies(
    storage: InMemoryResourceStorage, newDep: string, prev: seq<ResourceImpl>, mask: PermissionMask)
    returns (w: Walked)
    requires WellNamed(storage.AsStore()) && CanonicalDependencies(storage.AsStore())
    requires IsCanonical(storage.AsStore(), newDep)
    ensures w == Walk(storage.AsStore(), newDep, prev, mask)
    decreases storage.AsStore().resources.Keys - Names(prev), 0
  {
    if newDep in Names(prev) {
      return Walked(None, prev);
    }
    var found := GetPermissionedResource(storage, newDep, mask);
    if found.Err? {
      return Walked(Some(found.error), prev);
    }
    NamesSnoc(prev, found.value);
    assert newDep in storage.AsStore().resources.Keys - Names(prev);
    w := DependenciesOfAll(storage, found.value.dependencies, prev + [found.value], mask);
  }

  /** The loop over the dependencies of one resource. */
  method DependenciesOfAll(
    storage: InMemoryResourceStorage, deps: seq<string>, prev: seq<ResourceImpl>, mask: PermissionMask)
    returns (w: Walked)
    requires WellNamed(storage.AsStore()) && CanonicalDependencies(storage.AsStore())
    requires AllCanonical(storage.AsStore(), deps)
    ensures w == WalkAll(storage.AsStore(), deps, prev, mask)
    decreases storage.AsStore().resources.Keys - Names(prev), 1
  {
    var list := prev;
    for n := 0 to |deps|
      invariant prev <= list
      invariant Walked(None, list) == WalkAll(storage.AsStore(), deps[..n], prev, mask)
    {
      assert deps[..n + 1][..n] == deps[..n];
      NamesGrow(prev, list);
      var step := RecursiveDependencies(storage, deps[n], list, mask);
      list := step.list;
      if step.error.Some? {
        WalkAllStops(storage.AsStore(), deps, n + 1, prev, mask);
        return step;
      }
    }
    assert deps[..|deps|] == deps;
    w := Walked(None, list);
  }

  lemma {:induction false} WalkAllStops(
    store: Store, names: seq<string>, n: nat, prev: seq<ResourceImpl>, mask: PermissionMask)
    requires WellNamed(store) && CanonicalDependencies(store) && AllCanonical(store, names)
    requires n <= |names| && WalkAll(store, names[..n], prev, mask).error.Some?
    ensures WalkAll(store, names, prev, mask) == WalkAll(store, names[..n], prev, mask)
    decreases |names|
  {
    if n < |names| {
      assert names[..|names| - 1][..n] == names[..n];
      WalkAllStops(store, names[..|names| - 1], n, prev, mask);
    } else {
      assert names[..n] == names;
    }
  }

  // ----- reachability -----

  ghost predicate Edge(store: Store, from: string, to: string) {
    from in store.resources && to in store.resources[from].dependencies
  }

  ghost predicate IsPath(store: Store, path: seq<string>) {
    path != [] && forall i :: 0 <= i < |path| - 1 ==> Edge(store, path[i], path[i + 1])
  }

  /** `to` is `from` or a dependency, or a dependency of a dependency, and so on. */
  ghost predicate Reaches(store: Store, from: string, to: string) {
    exists path :: IsPath(store, path) && path[0] == from && path[|path| - 1] == to
  }

  ghost predicate IsFreePath(store: Store, taken: set<string>, path: seq<string>) {
    IsPath(store, path) && forall i :: 0 <= i < |path| ==> path[i] !in taken
  }

  /** `to` is reached from `from` along names none of which is taken, both ends included. */
  ghost predicate ReachesFree(store: Store, taken: set<string>, from: string, to: string) {
    exists path :: IsFreePath(store, taken, path) && path[0] == from && path[|path| - 1] == to
  }

  lemma ReachesSelf(store: Store, taken: set<string>, name: string)
    requires name !in taken
    ensures ReachesFree(store, taken, name, name)
  {
    assert IsFreePath(store, taken, [name]);
  }

  lemma ReachesThrough(store: Store, taken: set<string>, from: string, via: string, to: string)
    requires from !in taken && Edge(store, from, via) && ReachesFree(store, taken, via, to)
    ensures ReachesFree(store, taken, from, to)
  {
    var path :| IsFreePath(store, taken, path) && path[0] == via && path[|path| - 1] == to;
    var longer := [from] + path;
    assert IsFreePath(store, taken, longer) && longer[|longer| - 1] == to;
  }

  /** With fewer names taken no less is reached. */
  lemma ReachesMore(store: Store, fewer: set<string>, taken: set<string>, from: string, to: string)
    requires fewer <= taken && ReachesFree(store, taken, from, to)
    ensures ReachesFree(store, fewer, from, to)
  {
    var path :| IsFreePath(store, taken, path) && path[0] == from && path[|path| - 1] == to;
    assert IsFreePath(store, fewer, path);
  }

  lemma FreeEnds(store: Store, taken: set<string>, from: string, to: string)
    requires ReachesFree(store, taken, from, to)
    ensures from !in taken && to !in taken && Reaches(store, from, to)
  {
  }

  ghost predicate ReachedFrom(store: Store, taken: set<string>, sources: set<string>, name: string) {
    exists s :: s in sources && ReachesFree(store, taken, s, name)
  }

  lemma ReachedMore(
    store: Store, fewer: set<string>, taken: set<string>, some: set<string>, sources: set<string>, name: string)
    requires fewer <= taken && some <= sources && ReachedFrom(store, taken, some, name)
    ensures ReachedFrom(store, fewer, sources, name)
  {
    var s :| s in some && ReachesFree(store, taken, s, name);
    ReachesMore(store, fewer, taken, s, name);
  }

  /** A resource that a walk cannot take: missing, or not injectable. */
  predicate Blocked(store: Store, name: string, mask: PermissionMask) {
    GetPermissioned(store, name, mask).Err?
  }

  // ----- what a walk does, from any list -----

  /** A resource added to a list: stored, injectable, and reached past the names that were taken. */
  ghost predicate NewlyReached(
    store: Store, taken: set<string>, r: ResourceImpl, sources: set<string>, mask: PermissionMask)
  {
    && r.name in store.resources && r == store.resources[r.name] && IsInjectableBy(r.permission, mask)
    && ReachedFrom(store, taken, sources, r.name)
  }

  /** What was added since `prev`, each name for the first time. */
  ghost predicate Extension(
    store: Store, prev: seq<ResourceImpl>, list: seq<ResourceImpl>, sources: set<string>, mask: PermissionMask)
  {
    && prev <= list
    && (forall i :: |prev| <= i < |list| ==> NewlyReached(store, Names(prev), list[i], sources, mask))
    && (forall i, j :: 0 <= i < j && |prev| <= j < |list| ==> list[i].name != list[j].name)
  }

  /** The dependencies of everything added since `prev` are on the list. */
  ghost predicate AddedClosed(prev: seq<ResourceImpl>, list: seq<ResourceImpl>) {
    forall i, d :: |prev| <= i < |list| && d in list[i].dependencies ==> d in Names(list)
  }

  lemma ExtensionChains(
    store: Store, a: seq<ResourceImpl>, b: seq<ResourceImpl>, c: seq<ResourceImpl>,
    s: set<string>, t: set<string>, mask: PermissionMask)
    requires Extension(store, a, b, s, mask) && Extension(store, b, c, t, mask)
    ensures Extension(store, a, c, s + t, mask)
    ensures AddedClosed(a, b) && AddedClosed(b, c) ==> AddedClosed(a, c)
  {
    NamesGrow(a, b);
    NamesGrow(b, c);
    forall i | |a| <= i < |c| ensures NewlyReached(store, Names(a), c[i], s + t, mask) {
      if i < |b| {
        assert c[i] == b[i] && NewlyReached(store, Names(a), b[i], s, mask);
        ReachedMore(store, Names(a), Names(a), s, s + t, c[i].name);
      } else {
        ReachedMore(store, Names(a), Names(b), t, s + t, c[i].name);
      }
    }
    forall i, j | 0 <= i < j && |a| <= j < |c| ensures c[i].name != c[j].name {
      assert j < |b| ==> b[i].name != b[j].name;
    }
    if AddedClosed(a, b) && AddedClosed(b, c) {
      forall i, d | |a| <= i < |c| && d in c[i].dependencies ensures d in Names(c) {
        assert i < |b| ==> d in Names(b);
      }
    }
  }

  /** Putting a new resource on the list, before its dependencies. */
  lemma PushExtends(store: Store, name: string, prev: seq<ResourceImpl>, list: seq<ResourceImpl>, mask: PermissionMask)
    requires WellNamed(store) && name in store.resources && name !in Names(prev)
    requires IsInjectableBy(store.resources[name].permission, mask)
    requires Extension(store, prev + [store.resources[name]], list, Elements(store.resources[name].dependencies), mask)
    ensures Extension(store, prev, list, {name}, mask)
  {
    var r := store.resources[name];
    var start := prev + [r];
    NamesSnoc(prev, r);
    forall i | |prev| <= i < |list| ensures NewlyReached(store, Names(prev), list[i], {name}, mask) {
      if i == |prev| {
        assert list[i] == start[i] == r;
        ReachesSelf(store, Names(prev), name);
      } else {
        assert NewlyReached(store, Names(start), list[i], Elements(r.dependencies), mask);
        DependencyIsReached(store, name, Names(prev), list[i].name);
      }
    }
    forall i, j | 0 <= i < j && |prev| <= j < |list| ensures list[i].name != list[j].name {
      if j == |prev| {
        assert list[i] == prev[i] && list[j] == start[j];
        assert prev[i].name in Names(prev);
      }
    }
  }

  lemma DependencyIsReached(store: Store, name: string, taken: set<string>, x: string)
    requires name in store.resources && name !in taken
    requires ReachedFrom(store, taken + {name}, Elements(store.resources[name].dependencies), x)
    ensures ReachesFree(store, taken, name, x)
  {
    var d :| d in Elements(store.resources[name].dependencies) && ReachesFree(store, taken + {name}, d, x);
    ReachesMore(store, taken, taken + {name}, d, x);
    ReachesThrough(store, taken, name, d, x);
  }

  ghost predicate Stuck(store: Store, taken: set<string>, sources: set<string>, mask: PermissionMask) {
    exists x :: ReachedFrom(store, taken, sources, x) && Blocked(store, x, mask)
  }

  /** What every walk leaves behind, whether it succeeds or not. */
  ghost predicate Outcome(
    store: Store, prev: seq<ResourceImpl>, w: Walked, names: set<string>, mask: PermissionMask)
  {
    && Extension(store, prev, w.list, names, mask)
    && (w.error.None? ==> names <= Names(w.list) && AddedClosed(prev, w.list))
    && (w.error.Some? ==> Stuck(store, Names(prev), names, mask))
  }

  lemma {:induction false} WalkOutcome(store: Store, name: string, prev: seq<ResourceImpl>, mask: PermissionMask)
    requires WellNamed(store) && CanonicalDependencies(store) && IsCanonical(store, name)
    ensures Outcome(store, prev, Walk(store, name, prev, mask), {name}, mask)
    decreases store.resources.Keys - Names(prev), 0, 0
  {
    if name !in Names(prev) {
      var found := GetPermissioned(store, name, mask);
      ReachesSelf(store, Names(prev), name);
      assert ReachedFrom(store, Names(prev), {name}, name);
      if found.Ok? {
        var r := found.value;
        var start := prev + [r];
        NamesSnoc(prev, r);
        assert name in store.resources.Keys - Names(prev);
        WalkAllOutcome(store, r.dependencies, start, mask);
        PushedOutcome(store, name, prev, WalkAll(store, r.dependencies, start, mask), mask);
      }
    }
  }

  /** The outcome for a new resource, from the outcome for its dependencies. */
  lemma PushedOutcome(store: Store, name: string, prev: seq<ResourceImpl>, w: Walked, mask: PermissionMask)
    requires WellNamed(store) && name in store.resources && name !in Names(prev)
    requires IsInjectableBy(store.resources[name].permission, mask)
    requires var r := store.resources[name]; Outcome(store, prev + [r], w, Elements(r.dependencies), mask)
    ensures Outcome(store, prev, w, {name}, mask)
  {
    var r := store.resources[name];
    var start := prev + [r];
    NamesSnoc(prev, r);
    NamesGrow(start, w.list);
    PushExtends(store, name, prev, w.list, mask);
    if w.error.None? {
      forall i, d | |prev| <= i < |w.list| && d in w.list[i].dependencies ensures d in Names(w.list) {
        assert i == |prev| ==> w.list[i] == start[i] && d in Elements(r.dependencies);
      }
    } else {
      var x :| ReachedFrom(store, Names(start), Elements(r.dependencies), x) && Blocked(store, x, mask);
      DependencyIsReached(store, name, Names(prev), x);
      assert ReachedFrom(store, Names(prev), {name}, x);
    }
  }

  lemma {:induction false} WalkAllOutcome(
    store: Store, names: seq<string>, prev: seq<ResourceImpl>, mask: PermissionMask)
    requires WellNamed(store) && CanonicalDependencies(store) && AllCanonical(store, names)
    ensures Outcome(store, prev, WalkAll(store, names, prev, mask), Elements(names), mask)
    decreases store.resources.Keys - Names(prev), 1, |names|
  {
    if names != [] {
      var n := |names| - 1;
      assert Elements(names) == Elements(names[..n]) + {names[n]} by {
        assert names == names[..n] + [names[n]];
      }
      WalkAllOutcome(store, names[..n], prev, mask);
      var front := WalkAll(store, names[..n], prev, mask);
      NamesGrow(prev, front.list);
      if front.error.None? {
        WalkOutcome(store, names[n], front.list, mask);
        var w := Walk(store, names[n], front.list, mask);
        ExtensionChains(store, prev, front.list, w.list, Elements(names[..n]), {names[n]}, mask);
        NamesGrow(front.list, w.list);
        StuckMore(store, Names(prev), Names(front.list), {names[n]}, Elements(names), mask);
      } else {
        StuckMore(store, Names(prev), Names(prev), Elements(names[..n]), Elements(names), mask);
        ExtensionMore(store, prev, front.list, Elements(names[..n]), Elements(names), mask);
      }
    }
  }

  lemma StuckMore(
    store: Store, fewer: set<string>, taken: set<string>, some: set<string>, sources: set<string>, mask: PermissionMask)
    requires fewer <= taken && some <= sources
    ensures Stuck(store, taken, some, mask) ==> Stuck(store, fewer, sources, mask)
  {
    if x :| ReachedFrom(store, taken, some, x) && Blocked(store, x, mask) {
      ReachedMore(store, fewer, taken, some, sources, x);
    }
  }

  lemma ExtensionMore(
    store: Store, prev: seq<ResourceImpl>, list: seq<ResourceImpl>, some: set<string>, sources: set<string>,
    mask: PermissionMask)
    requires some <= sources && Extension(store, prev, list, some, mask)
    ensures Extension(store, prev, list, sources, mask)
  {
    forall i | |prev| <= i < |list| ensures NewlyReached(store, Names(prev), list[i], sources, mask) {
      ReachedMore(store, Names(prev), Names(prev), some, sources, list[i].name);
    }
  }

  /** After a success the added names are closed, so a free path from a source stays on the list. */
  lemma {:induction false} FreePathIsAdded(
    store: Store, prev: seq<ResourceImpl>, w: Walked, names: set<string>, mask: PermissionMask, path: seq<string>,
    n: nat)
    requires Outcome(store, prev, w, names, mask) && w.error.None?
    requires IsFreePath(store, Names(prev), path) && path[0] in names && n < |path|
    ensures path[n] in Names(w.list) && path[n] in store.resources && !Blocked(store, path[n], mask)
  {
    if n > 0 {
      FreePathIsAdded(store, prev, w, names, mask, path, n - 1);
      AddedByWalk(store, prev, w.list, names, mask, path[n - 1]);
      assert Edge(store, path[n - 1], path[n - 1 + 1]);
    }
    AddedByWalk(store, prev, w.list, names, mask, path[n]);
  }

  lemma AddedByWalk(
    store: Store, prev: seq<ResourceImpl>, list: seq<ResourceImpl>, names: set<string>, mask: PermissionMask, x: string)
    requires Extension(store, prev, list, names, mask) && x in Names(list) && x !in Names(prev)
    ensures exists i :: |prev| <= i < |list| && list[i].name == x
    ensures x in store.resources && store.resources[x] in list && !Blocked(store, x, mask)
    ensures ReachedFrom(store, Names(prev), names, x)
  {
    var r :| r in list && r.name == x;
    var i :| 0 <= i < |list| && list[i] == r;
    assert forall j :: 0 <= j < |prev| ==> list[j] == prev[j] && prev[j].name in Names(prev);
    assert NewlyReached(store, Names(prev), list[i], names, mask);
  }

  /** Success and result of a walk from any list, told before the walk. */
  ghost predicate FollowsFreePaths(
    store: Store, prev: seq<ResourceImpl>, w: Walked, names: set<string>, mask: PermissionMask)
  {
    && (w.error.None? <==> forall x :: ReachedFrom(store, Names(prev), names, x) ==> !Blocked(store, x, mask))
    && (w.error.None? ==>
          forall x :: x in Names(w.list) <==> x in Names(prev) || ReachedFrom(store, Names(prev), names, x))
    && (forall x :: x in Names(w.list) ==> x in Names(prev) || ReachedFrom(store, Names(prev), names, x))
    && (Tidy(store, prev) ==> Tidy(store, w.list))
    && (forall i :: |prev| <= i < |w.list| ==> IsInjectableBy(w.list[i].permission, mask))
  }

  /** Stored resources without repetition. */
  ghost predicate Tidy(store: Store, list: seq<ResourceImpl>) {
    && (forall i :: 0 <= i < |list| ==> list[i].name in store.resources && list[i] == store.resources[list[i].name])
    && (forall i, j :: 0 <= i < j < |list| ==> list[i].name != list[j].name)
  }

  lemma OutcomeFollowsFreePaths(
    store: Store, prev: seq<ResourceImpl>, w: Walked, names: set<string>, mask: PermissionMask)
    requires Outcome(store, prev, w, names, mask)
    ensures FollowsFreePaths(store, prev, w, names, mask)
  {
    NamesGrow(prev, w.list);
    forall x | x in Names(w.list) && x !in Names(prev) ensures ReachedFrom(store, Names(prev), names, x) {
      AddedByWalk(store, prev, w.list, names, mask, x);
    }
    if w.error.None? {
      forall x | ReachedFrom(store, Names(prev), names, x) ensures x in Names(w.list) && !Blocked(store, x, mask) {
        ReachedIsAdded(store, prev, w, names, mask, x);
      }
    }
    ExtensionIsTidy(store, prev, w.list, names, mask);
  }

  lemma ReachedIsAdded(
    store: Store, prev: seq<ResourceImpl>, w: Walked, names: set<string>, mask: PermissionMask, x: string)
    requires Outcome(store, prev, w, names, mask) && w.error.None? && ReachedFrom(store, Names(prev), names, x)
    ensures x in Names(w.list) && !Blocked(store, x, mask)
  {
    var s :| s in names && ReachesFree(store, Names(prev), s, x);
    var path :| IsFreePath(store, Names(prev), path) && path[0] == s && path[|path| - 1] == x;
    FreePathIsAdded(store, prev, w, names, mask, path, |path| - 1);
  }

  lemma ExtensionIsTidy(
    store: Store, prev: seq<ResourceImpl>, list: seq<ResourceImpl>, names: set<string>, mask: PermissionMask)
    requires Extension(store, prev, list, names, mask)
    ensures Tidy(store, prev) ==> Tidy(store, list)
    ensures forall i :: |prev| <= i < |list| ==> IsInjectableBy(list[i].permission, mask)
  {
    assert forall i :: 0 <= i < |prev| ==> list[i] == prev[i];
    assert forall i :: |prev| <= i < |list| ==> NewlyReached(store, Names(prev), list[i], names, mask);
    if Tidy(store, prev) {
      forall i, j | 0 <= i < j < |list| ensures list[i].name != list[j].name {
        assert j < |prev| ==> prev[i].name != prev[j].name;
      }
    }
  }

  /**
   * From any list, on any dependency graph, cyclic or not: the walk succeeds exactly when nothing it
   * reaches past the names on the list is missing or forbidden, and then it adds exactly what it
   * reaches so. Names on the list are taken for complete, whatever an earlier walk left out.
   */
  lemma WalkFollowsFreePaths(store: Store, name: string, prev: seq<ResourceImpl>, mask: PermissionMask)
    requires WellNamed(store) && CanonicalDependencies(store) && IsCanonical(store, name)
    ensures var w := Walk(store, name, prev, mask);
            && (w.error.None? <==>
                  forall x :: ReachesFree(store, Names(prev), name, x) ==> !Blocked(store, x, mask))
            && (w.error.None? ==>
                  forall x :: x in Names(w.list) <==> x in Names(prev) || ReachesFree(store, Names(prev), name, x))
            && (Tidy(store, prev) ==> Tidy(store, w.list))
            && forall i :: |prev| <= i < |w.list| ==> IsInjectableBy(w.list[i].permission, mask)
  {
    WalkOutcome(store, name, prev, mask);
    OutcomeFollowsFreePaths(store, prev, Walk(store, name, prev, mask), {name}, mask);
    OneSource(store, Names(prev), name);
  }

  lemma OneSource(store: Store, taken: set<string>, name: string)
    ensures forall x :: ReachedFrom(store, taken, {name}, x) <==> ReachesFree(store, taken, name, x)
  {
    forall x ensures ReachedFrom(store, taken, {name}, x) <==> ReachesFree(store, taken, name, x) {
      if ReachedFrom(store, taken, {name}, x) {
        var s :| s in {name} && ReachesFree(store, taken, s, x);
      }
    }
  }

  // ----- closed lists -----

  /** Stored resources without repetition, and with each resource its dependencies. */
  ghost predicate ClosedList(store: Store, list: seq<ResourceImpl>) {
    Tidy(store, list) && forall i, d :: 0 <= i < |list| && d in list[i].dependencies ==> d in Names(list)
  }

  /** Whatever the list lacks, the sources reach. */
  ghost predicate Mends(store: Store, prev: seq<ResourceImpl>, sources: set<string>) {
    && Tidy(store, prev)
    && forall i, d :: 0 <= i < |prev| && d in prev[i].dependencies ==>
         d in Names(prev) || ReachedFrom(store, Names(prev), sources, d)
  }

  lemma SuccessMends(store: Store, prev: seq<ResourceImpl>, w: Walked, names: set<string>, mask: PermissionMask)
    requires Outcome(store, prev, w, names, mask) && w.error.None?
    ensures ClosedList(store, w.list) <==> Mends(store, prev, names)
  {
    var list := w.list;
    OutcomeFollowsFreePaths(store, prev, w, names, mask);
    assert forall i :: 0 <= i < |prev| ==> list[i] == prev[i];
    if ClosedList(store, list) {
      forall i, d | 0 <= i < |prev| && d in prev[i].dependencies
        ensures d in Names(prev) || ReachedFrom(store, Names(prev), names, d)
      {
        assert d in list[i].dependencies;
      }
    }
    if Mends(store, prev, names) {
      forall i, d | 0 <= i < |list| && d in list[i].dependencies ensures d in Names(list) {
        assert i < |prev| ==> d in prev[i].dependencies;
      }
    }
  }

  /**
   * A walk that succeeds leaves the list closed exactly when, before it, the list held stored
   * resources without repetition and the new name reached every dependency that was missing.
   */
  lemma WalkClosesExactlyWhen(store: Store, name: string, prev: seq<ResourceImpl>, mask: PermissionMask)
    requires WellNamed(store) && CanonicalDependencies(store) && IsCanonical(store, name)
    requires Walk(store, name, prev, mask).error.None?
    ensures ClosedList(store, Walk(store, name, prev, mask).list) <==>
              && Tidy(store, prev)
              && forall i, d :: 0 <= i < |prev| && d in prev[i].dependencies ==>
                   d in Names(prev) || ReachesFree(store, Names(prev), name, d)
  {
    WalkOutcome(store, name, prev, mask);
    SuccessMends(store, prev, Walk(store, name, prev, mask), {name}, mask);
    OneSource(store, Names(prev), name);
  }

  lemma {:induction false} PathStaysInside(store: Store, list: seq<ResourceImpl>, path: seq<string>, k: nat, n: nat)
    requires ClosedList(store, list) && IsPath(store, path) && k <= n < |path| && path[k] in Names(list)
    ensures path[n] in Names(list)
  {
    if k < n {
      PathStaysInside(store, list, path, k, n - 1);
      var r :| r in list && r.name == path[n - 1];
      var i :| 0 <= i < |list| && list[i] == r;
      assert Edge(store, path[n - 1], path[n - 1 + 1]);
    }
  }

  /** What is reached outside a closed list is reached without touching it. */
  lemma ClosedListIsSkipped(store: Store, list: seq<ResourceImpl>, name: string, x: string)
    requires ClosedList(store, list)
    ensures ReachesFree(store, Names(list), name, x) <==> Reaches(store, name, x) && x !in Names(list)
  {
    if Reaches(store, name, x) && x !in Names(list) {
      var path :| IsPath(store, path) && path[0] == name && path[|path| - 1] == x;
      forall k | 0 <= k < |path| ensures path[k] !in Names(list) {
        if path[k] in Names(list) {
          PathStaysInside(store, list, path, k, |path| - 1);
        }
      }
      assert IsFreePath(store, Names(list), path);
    }
    if ReachesFree(store, Names(list), name, x) {
      FreeEnds(store, Names(list), name, x);
    }
  }

  /**
   * From a closed list the walk succeeds exactly when nothing new that it reaches is missing or
   * forbidden, and then the list is closed again and holds what it held and everything reachable
   * from the new name, each once.
   */
  lemma WalkIsClosure(store: Store, name: string, prev: seq<ResourceImpl>, mask: PermissionMask)
    requires WellNamed(store) && CanonicalDependencies(store) && IsCanonical(store, name)
    requires ClosedList(store, prev)
    ensures var w := Walk(store, name, prev, mask);
            && (w.error.None? <==>
                  forall x :: Reaches(store, name, x) && x !in Names(prev) ==> !Blocked(store, x, mask))
            && (w.error.None? ==>
                  && ClosedList(store, w.list)
                  && forall x :: x in Names(w.list) <==> x in Names(prev) || Reaches(store, name, x))
            && forall i :: |prev| <= i < |w.list| ==> IsInjectableBy(w.list[i].permission, mask)
  {
    WalkFollowsFreePaths(store, name, prev, mask);
    forall x ensures ReachesFree(store, Names(prev), name, x) <==> Reaches(store, name, x) && x !in Names(prev) {
      ClosedListIsSkipped(store, prev, name, x);
    }
    if Walk(store, name, prev, mask).error.None? {
      WalkClosesExactlyWhen(store, name, prev, mask);
    }
  }

  // ----- one scriptlet -----

  /** The list of required resources after a scriptlet: its dependencies and, if wanted, itself. */
  function AfterScriptlet(
    store: Store, r: ResourceImpl, isFunction: bool, prev: seq<ResourceImpl>, mask: PermissionMask): Walked
    requires WellNamed(store) && CanonicalDependencies(store) && AllCanonical(store, r.dependencies)
  {
    var w := WalkAll(store, r.dependencies, prev, mask);
    if w.error.None? && isFunction && r.name !in Names(w.list) then w.(list := w.list + [r]) else w
  }

  /** What a scriptlet brings along: what its dependencies reach, and itself if it is a function. */
  ghost predicate Brings(store: Store, r: ResourceImpl, isFunction: bool, taken: set<string>, x: string) {
    ReachedFrom(store, taken, Elements(r.dependencies), x) || (isFunction && x == r.name)
  }

  /**
   * A scriptlet succeeds exactly when nothing its dependencies reach past the list is missing or
   * forbidden, and then adds exactly what it brings along.
   */
  lemma ScriptletFollowsFreePaths(
    store: Store, r: ResourceImpl, isFunction: bool, prev: seq<ResourceImpl>, mask: PermissionMask)
    requires WellNamed(store) && CanonicalDependencies(store) && AllCanonical(store, r.dependencies)
    requires r.name in store.resources && r == store.resources[r.name]
    ensures var w, taken := AfterScriptlet(store, r, isFunction, prev, mask), Names(prev);
            && prev <= w.list
            && (Tidy(store, prev) ==> Tidy(store, w.list))
            && (w.error.None? <==>
                  forall x :: ReachedFrom(store, taken, Elements(r.dependencies), x) ==> !Blocked(store, x, mask))
            && (w.error.None? ==>
                  forall x :: x in Names(w.list) <==> x in taken || Brings(store, r, isFunction, taken, x))
  {
    WalkAllOutcome(store, r.dependencies, prev, mask);
    var w := WalkAll(store, r.dependencies, prev, mask);
    OutcomeFollowsFreePaths(store, prev, w, Elements(r.dependencies), mask);
    if w.error.None? && isFunction && r.name !in Names(w.list) {
      NamesSnoc(w.list, r);
      SnocIsTidy(store, w.list, r);
    }
  }

  lemma SnocIsTidy(store: Store, list: seq<ResourceImpl>, r: ResourceImpl)
    requires r.name in store.resources && r == store.resources[r.name] && r.name !in Names(list)
    ensures Tidy(store, list) ==> Tidy(store, list + [r])
  {
    assert forall i :: 0 <= i < |list| ==> list[i].name in Names(list);
  }

  /**
   * A scriptlet that succeeds leaves the list closed exactly when, before it, the list held stored
   * resources without repetition and lacked no dependency but what the scriptlet brings along.
   */
  lemma ScriptletClosesExactlyWhen(
    store: Store, r: ResourceImpl, isFunction: bool, prev: seq<ResourceImpl>, mask: PermissionMask)
    requires WellNamed(store) && CanonicalDependencies(store) && AllCanonical(store, r.dependencies)
    requires r.name in store.resources && r == store.resources[r.name]
    requires AfterScriptlet(store, r, isFunction, prev, mask).error.None?
    ensures ClosedList(store, AfterScriptlet(store, r, isFunction, prev, mask).list) <==>
              && Tidy(store, prev)
              && forall i, d :: 0 <= i < |prev| && d in prev[i].dependencies ==>
                   d in Names(prev) || Brings(store, r, isFunction, Names(prev), d)
  {
    ScriptletFollowsFreePaths(store, r, isFunction, prev, mask);
    WalkAllOutcome(store, r.dependencies, prev, mask);
    var list := AfterScriptlet(store, r, isFunction, prev, mask).list;
    if Tidy(store, list) {
      TidyPrefix(store, prev, list);
    }
    ScriptletCloses(store, r, prev, WalkAll(store, r.dependencies, prev, mask).list, list, mask);
  }

  lemma TidyPrefix(store: Store, prev: seq<ResourceImpl>, list: seq<ResourceImpl>)
    requires prev <= list && Tidy(store, list)
    ensures Tidy(store, prev)
  {
    assert forall i :: 0 <= i < |prev| ==> prev[i] == list[i];
  }

  lemma ScriptletCloses(
    store: Store, r: ResourceImpl, prev: seq<ResourceImpl>, walked: seq<ResourceImpl>, list: seq<ResourceImpl>,
    mask: PermissionMask)
    requires Extension(store, prev, walked, Elements(r.dependencies), mask) && AddedClosed(prev, walked)
    requires Elements(r.dependencies) <= Names(walked) && (Tidy(store, list) <==> Tidy(store, prev))
    requires list == walked || list == walked + [r]
    ensures ClosedList(store, list) <==>
              && Tidy(store, prev)
              && forall i, d :: 0 <= i < |prev| && d in prev[i].dependencies ==> d in Names(list)
  {
    NamesGrow(walked, list);
    assert forall i :: 0 <= i < |prev| ==> list[i] == walked[i] == prev[i];
    if Tidy(store, prev) && forall i, d :: 0 <= i < |prev| && d in prev[i].dependencies ==> d in Names(list) {
      forall i, d | 0 <= i < |list| && d in list[i].dependencies ensures d in Names(list) {
        assert |prev| <= i < |walked| ==> d in walked[i].dependencies;
        assert i == |walked| ==> d in Elements(r.dependencies);
      }
    }
    if ClosedList(store, list) {
      forall i, d | 0 <= i < |prev| && d in prev[i].dependencies ensures d in Names(list) {
        assert d in list[i].dependencies;
      }
    }
  }

  /** A scriptlet that succeeds keeps a closed list closed. */
  lemma ScriptletKeepsListClosed(
    store: Store, r: ResourceImpl, isFunction: bool, prev: seq<ResourceImpl>, mask: PermissionMask)
    requires WellNamed(store) && CanonicalDependencies(store) && AllCanonical(store, r.dependencies)
    requires r.name in store.resources && r == store.resources[r.name] && ClosedList(store, prev)
    requires AfterScriptlet(store, r, isFunction, prev, mask).error.None?
    ensures ClosedList(store, AfterScriptlet(store, r, isFunction, prev, mask).list)
    ensures isFunction ==> r.name in Names(AfterScriptlet(store, r, isFunction, prev, mask).list)
  {
    ScriptletClosesExactlyWhen(store, r, isFunction, prev, mask);
    ScriptletFollowsFreePaths(store, r, isFunction, prev, mask);
  }

  // ----- where closure is lost -----

  /**
   * A failed walk may leave a resource without its dependency; a later walk, with more permissions,
   * then succeeds without adding the dependency.
   */
  lemma FailedWalkPoisonsTheList(a: ResourceImpl, b: ResourceImpl)
    requires a.name == "a" && a.dependencies == ["b"] && a.permission == 0
    requires b.name == "b" && b.dependencies == [] && b.permission == 1
    ensures var store := Store(map["a" := a, "b" := b], map[]);
            && WellNamed(store) && CanonicalDependencies(store)
            && Walk(store, "a", [], 0) == Walked(Some(InsufficientPermissions), [a])
            && Walk(store, "a", [a], 1) == Walked(None, [a]) && !ClosedList(store, [a])
            && Walk(store, "a", [], 1) == Walked(None, [a, b])
  {
    var store := Store(map["a" := a, "b" := b], map[]);
    assert Names([a]) == {"a"};
    assert ["b"][..0] == [];
    assert [] + [a] == [a] && [a] + [b] == [a, b];
    assert !IsInjectableBy(1, 0) && IsInjectableBy(1, 1) && IsInjectableBy(0, 0) && IsInjectableBy(0, 1);
    assert WalkAll(store, [], [a], 0) == Walked(None, [a]);
    assert Walk(store, "b", [a], 0) == Walked(Some(InsufficientPermissions), [a]);
    assert Walk(store, "b", [a], 1) == Walked(None, [a, b]);
    assert WalkAll(store, ["b"], [a], 1) == Walked(None, [a, b]);
    assert "b" in [a][0].dependencies && "b" !in Names([a]);
  }

  /** The walk with a bound on its depth, for stores that do not follow the documented rule. */
  function BoundedWalk(
    store: Store, fuel: nat, name: string, prev: seq<ResourceImpl>, mask: PermissionMask): Option<Walked>
    decreases fuel, 0, 0
  {
    if fuel == 0 then None
    else if name in Names(prev) then Some(Walked(None, prev))
    else
      var found := GetPermissioned(store, name, mask);
      if found.Err? then Some(Walked(Some(found.error), prev))
      else BoundedWalkAll(store, fuel - 1, found.value.dependencies, prev + [found.value], mask)
  }

  function BoundedWalkAll(store: Store, fuel: nat, names: seq<string>, prev: seq<ResourceImpl>, mask: PermissionMask)
    : Option<Walked>
    decreases fuel, 1, |names|
  {
    if names == [] then Some(Walked(None, prev))
    else
      var n := |names| - 1;
      var front := BoundedWalkAll(store, fuel, names[..n], prev, mask);
      if front.None? || front.value.error.Some? then front
      else BoundedWalk(store, fuel, names[n], front.value.list, mask)
  }

  /** With a dependency that is an alias of the resource itself, no depth is enough. */
  lemma {:induction false} AliasCycleNeverEnds(r: ResourceImpl, fuel: nat, prev: seq<ResourceImpl>)
    requires r.name == "a" && r.dependencies == ["b"] && r.permission == 0
    requires "b" !in Names(prev)
    ensures BoundedWalk(Store(map["a" := r], map["b" := "a"]), fuel, "b", prev, 0) == None
  {
    var store := Store(map["a" := r], map["b" := "a"]);
    if fuel > 0 {
      var list := prev + [r];
      NamesSnoc(prev, r);
      AliasCycleNeverEnds(r, fuel - 1, list);
      assert IsInjectableBy(0, 0);
      assert ["b"][..0] == [];
      assert BoundedWalkAll(store, fuel - 1, [], list, 0) == Some(Walked(None, list));
      assert BoundedWalkAll(store, fuel - 1, ["b"], list, 0) == None;
    }
  }
}

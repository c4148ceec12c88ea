/** Injecting the scriptlets of a page: one list of required resources, and failures that are skipped. */
module Scriptlets {
  import opened Prelude
  import opened Text
  import opened Resources

  /** The name of the function that a script defines, if it is one function. */
  type FunctionName = string -> Option<string>

  /** The parsed arguments of a scriptlet rule, and the permissions of the list it comes from. */
  type Injection = (seq<string>, PermissionMask)

  function WithJsExtension(name: string): string {
    if EndsWith(name, ".js") then name else name + ".js"
  }

  /** The resource that the arguments name, before anything is added for it. */
  function Named(store: Store, injection: Injection): Result<ResourceImpl, ScriptletResourceError>
  {
    var args := injection.0;
    if args == [] then Err(MissingScriptletName)
    else if |args| == 2 && StartsWith(args[1], "{") && EndsWith(args[1], "}") then
      Err(ScriptletArgObjectSyntaxUnsupported)
    else
      var found := GetPermissioned(store, WithJsExtension(args[0]), injection.1);
      if found.Ok? && !SupportsScriptletInjection(found.value.kind) then Err(ContentTypeNotInjectable) else found
  }

  // ----- which resource the arguments name -----

  /** The identifier that the first argument stands for: the ending ".js" may be left out. */
  ghost predicate StandsFor(arg: string, ident: string) {
    if exists stem :: arg == stem + ".js" then ident == arg else ident == arg + ".js"
  }

  /** The identifier is the name of the resource, or no name and an alias of it. */
  predicate Identifies(store: Store, ident: string, r: ResourceImpl) {
    || (ident in store.resources && r == store.resources[ident])
    || (ident !in store.resources && ident in store.aliases
        && store.aliases[ident] in store.resources && r == store.resources[store.aliases[ident]])
  }

  /** A second and last argument in braces. */
  predicate HasObjectArgument(args: seq<string>) {
    |args| == 2 && args[1] != "" && args[1][0] == '{' && args[1][|args[1]| - 1] == '}'
  }

  ghost predicate MayUse(mask: PermissionMask, r: ResourceImpl) {
    forall bit :: 0 <= bit < 8 && HasBit(r.permission, bit) ==> HasBit(mask, bit)
  }

  predicate IsScriptlet(r: ResourceImpl) {
    match r.kind
    case Template => true
    case Mime(mime) => mime.ApplicationJavascript?
  }

  lemma StandsForOne(arg: string, ident: string)
    ensures StandsFor(arg, ident) <==> ident == WithJsExtension(arg)
  {
    if EndsWith(arg, ".js") {
      assert arg == arg[..|arg| - 3] + arg[|arg| - 3..|arg| - 3 + 3];
    }
    if stem :| arg == stem + ".js" {
      assert arg[|stem|..|stem| + 3] == ".js";
    }
  }

  lemma BracesMean(s: string)
    ensures StartsWith(s, "{") && EndsWith(s, "}") <==> s != "" && s[0] == '{' && s[|s| - 1] == '}'
  {
    if s != "" {
      assert s[0..1] == [s[0]] && s[|s| - 1..|s|] == [s[|s| - 1]];
    }
  }

  /**
   * The resource that a rule injects, and why it injects none: no name, an object for argument, no
   * resource of that name, too few permissions, or a resource that is no script; in this order.
   */
  lemma NamedMeans(store: Store, injection: Injection, ident: string)
    requires injection.0 != [] ==> StandsFor(injection.0[0], ident)
    ensures var (args, mask) := injection;
            var named := Named(store, injection);
            if args == [] then named == Err(MissingScriptletName)
            else if HasObjectArgument(args) then named == Err(ScriptletArgObjectSyntaxUnsupported)
            else
              && (named == Err(NoMatchingScriptlet) <==> forall r :: !Identifies(store, ident, r))
              && forall r :: Identifies(store, ident, r) ==>
                   named == (if !MayUse(mask, r) then Err(InsufficientPermissions)
                             else if !IsScriptlet(r) then Err(ContentTypeNotInjectable) else Ok(r))
  {
    var (args, mask) := injection;
    if args != [] {
      StandsForOne(args[0], ident);
      if |args| == 2 {
        BracesMean(args[1]);
      }
      LookupMeans(store, ident);
      forall r | Identifies(store, ident, r) ensures IsInjectableBy(r.permission, mask) <==> MayUse(mask, r) {
        InjectableByBits(r.permission, mask);
      }
    }
  }

  lemma LookupMeans(store: Store, ident: string)
    ensures Lookup(store, ident).None? <==> forall r :: !Identifies(store, ident, r)
    ensures forall r :: Identifies(store, ident, r) ==> Lookup(store, ident) == Some(r)
  {
    if Lookup(store, ident).Some? {
      assert Identifies(store, ident, Lookup(store, ident).value);
    }
  }

  // ----- one scriptlet -----

  predicate IsFunction(functionName: FunctionName, r: ResourceImpl) {
    r.content.Text? && functionName(r.content.text).Some?
  }

  lemma NamedIsStored(store: Store, injection: Injection)
    requires WellNamed(store) && CanonicalDependencies(store)
    requires Named(store, injection).Ok?
    ensures var r := Named(store, injection).value;
            r.name in store.resources && r == store.resources[r.name] && AllCanonical(store, r.dependencies)
  {
  }

  /** One scriptlet: an error leaves on the list what was added before it. */
  function Attempt(store: Store, functionName: FunctionName, injection: Injection, prev: seq<ResourceImpl>): (w: Walked)
    requires WellNamed(store) && CanonicalDependencies(store)
    ensures prev <= w.list
  {
    var named := Named(store, injection);
    if named.Err? then Walked(Some(named.error), prev)
    else
      NamedIsStored(store, injection);
      var w := AfterScriptlet(store, named.value, IsFunction(functionName, named.value), prev, injection.1);
      ScriptletFollowsFreePaths(store, named.value, IsFunction(functionName, named.value), prev, injection.1);
      if w.error.None? && named.value.content.Raw? then w.(error := Some(ContentTypeNotInjectable)) else w
  }

  method GetScriptletResource(
    storage: InMemoryResourceStorage, functionName: FunctionName, injection: Injection, requiredDeps: seq<ResourceImpl>)
    returns (w: Walked)
    requires WellNamed(storage.AsStore()) && CanonicalDependencies(storage.AsStore())
    ensures w == Attempt(storage.AsStore(), functionName, injection, requiredDeps)
  {
    var args := injection.0;
    if args == [] {
      return Walked(Some(MissingScriptletName), requiredDeps);
    }
    var name := WithJsExtension(args[0]);
    if |args| == 2 && StartsWith(args[1], "{") && EndsWith(args[1], "}") {
      return Walked(Some(ScriptletArgObjectSyntaxUnsupported), requiredDeps);
    }
    var resource := GetPermissionedResource(storage, name, injection.1);
    if resource.Err? {
      return Walked(Some(resource.error), requiredDeps);
    }
    if !SupportsScriptletInjection(resource.value.kind) {
      return Walked(Some(ContentTypeNotInjectable), requiredDeps);
    }
    NamedIsStored(storage.AsStore(), injection);
    w := DependenciesOfAll(storage, resource.value.dependencies, requiredDeps, injection.1);
    if w.error.Some? {
      return;
    }
    if resource.value.content.Raw? {
      return w.(error := Some(ContentTypeNotInjectable));
    }
    if functionName(resource.value.content.text).Some? && resource.value.name !in Names(w.list) {
      w := w.(list := w.list + [resource.value]);
    }
  }

  /**
   * A rule succeeds exactly when its arguments name a script that is text, and nothing that the
   * script's dependencies reach past the list is missing or forbidden; then exactly what they reach
   * is added, and the script itself if it defines a function.
   */
  lemma AttemptMeans(
    store: Store, functionName: FunctionName, injection: Injection, prev: seq<ResourceImpl>)
    requires WellNamed(store) && CanonicalDependencies(store)
    ensures var named, taken := Named(store, injection), Names(prev);
            var w := Attempt(store, functionName, injection, prev);
            && (w.error.None? <==>
                  && named.Ok? && named.value.content.Text?
                  && forall x :: ReachedFrom(store, taken, Elements(named.value.dependencies), x) ==>
                       !Blocked(store, x, injection.1))
            && (w.error.None? ==>
                  forall x :: x in Names(w.list) <==>
                    || x in taken || ReachedFrom(store, taken, Elements(named.value.dependencies), x)
                    || (x == named.value.name && functionName(named.value.content.text).Some?))
            && (named.Err? ==> w == Walked(Some(named.error), prev))
  {
    var named := Named(store, injection);
    if named.Ok? {
      NamedIsStored(store, injection);
      ScriptletFollowsFreePaths(store, named.value, IsFunction(functionName, named.value), prev, injection.1);
    }
  }

  // ----- all the scriptlets of a page -----

  /** The list after the scriptlets, failed ones included. */
  function Required(store: Store, functionName: FunctionName, injections: seq<Injection>): seq<ResourceImpl>
    requires WellNamed(store) && CanonicalDependencies(store)
  {
    if injections == [] then []
    else
      var n := |injections| - 1;
      Attempt(store, functionName, injections[n], Required(store, functionName, injections[..n])).list
  }

  /** Which of the scriptlets succeed. */
  function Successes(store: Store, functionName: FunctionName, injections: seq<Injection>): (invoked: seq<bool>)
    requires WellNamed(store) && CanonicalDependencies(store)
    ensures |invoked| == |injections|
  {
    if injections == [] then []
    else
      var n := |injections| - 1;
      Successes(store, functionName, injections[..n])
      + [Attempt(store, functionName, injections[n], Required(store, functionName, injections[..n])).error.None?]
  }

  /** The loop over the scriptlets; only those that succeed are called. */
  method GetScriptletResources(
    storage: InMemoryResourceStorage, functionName: FunctionName, injections: seq<Injection>)
    returns (deps: seq<ResourceImpl>, invoked: seq<bool>)
    requires WellNamed(storage.AsStore()) && CanonicalDependencies(storage.AsStore())
    ensures deps == Required(storage.AsStore(), functionName, injections)
    ensures invoked == Successes(storage.AsStore(), functionName, injections)
  {
    ghost var store := storage.AsStore();
    deps, invoked := [], [];
    for n := 0 to |injections|
      invariant deps == Required(store, functionName, injections[..n])
      invariant invoked == Successes(store, functionName, injections[..n])
    {
      assert injections[..n + 1][..n] == injections[..n];
      var w := GetScriptletResource(storage, functionName, injections[n], deps);
      deps, invoked := w.list, invoked + [w.error.None?];
    }
    assert injections[..|injections|] == injections;
  }

  /** Whatever fails, the list holds stored resources, each once. */
  lemma {:induction false} RequiredIsTidy(store: Store, functionName: FunctionName, injections: seq<Injection>)
    requires WellNamed(store) && CanonicalDependencies(store)
    ensures Tidy(store, Required(store, functionName, injections))
  {
    if injections != [] {
      var n := |injections| - 1;
      RequiredIsTidy(store, functionName, injections[..n]);
      AttemptIsTidy(store, functionName, injections[n], Required(store, functionName, injections[..n]));
    }
  }

  lemma AttemptIsTidy(store: Store, functionName: FunctionName, injection: Injection, prev: seq<ResourceImpl>)
    requires WellNamed(store) && CanonicalDependencies(store) && Tidy(store, prev)
    ensures Tidy(store, Attempt(store, functionName, injection, prev).list)
  {
    if Named(store, injection).Ok? {
      NamedIsStored(store, injection);
      var r := Named(store, injection).value;
      ScriptletFollowsFreePaths(store, r, IsFunction(functionName, r), prev, injection.1);
    }
  }

  // ----- when no walk breaks off -----

  /** Does everything that the scriptlet needs exist, and is all of it allowed? */
  ghost predicate Provided(store: Store, injection: Injection)
  {
    Named(store, injection).Ok? ==>
      forall x :: ReachedFrom(store, {}, Elements(Named(store, injection).value.dependencies), x) ==>
        !Blocked(store, x, injection.1)
  }

  /** Does a scriptlet of the page that names a resource bring `x` along? */
  ghost predicate BroughtBySome(store: Store, functionName: FunctionName, injections: seq<Injection>, x: string)
  {
    exists injection :: injection in injections && BroughtBy(store, functionName, injection, x)
  }

  ghost predicate BroughtBy(store: Store, functionName: FunctionName, injection: Injection, x: string)
  {
    var named := Named(store, injection);
    named.Ok? && Brings(store, named.value, IsFunction(functionName, named.value), {}, x)
  }

  /** Past a closed list a scriptlet adds what it brings along and is not yet there. */
  lemma BringsPast(store: Store, r: ResourceImpl, isFunction: bool, list: seq<ResourceImpl>, x: string)
    requires ClosedList(store, list)
    ensures x in Names(list) || Brings(store, r, isFunction, Names(list), x)
            <==> x in Names(list) || Brings(store, r, isFunction, {}, x)
  {
    var sources := Elements(r.dependencies);
    if ReachedFrom(store, Names(list), sources, x) {
      ReachedMore(store, {}, Names(list), sources, sources, x);
    }
    if ReachedFrom(store, {}, sources, x) && x !in Names(list) {
      var s :| s in sources && ReachesFree(store, {}, s, x);
      FreeEnds(store, {}, s, x);
      ClosedListIsSkipped(store, list, s, x);
    }
  }

  /** A scriptlet that is provided for does not break off in the middle of its dependencies. */
  lemma ProvidedAttempt(store: Store, functionName: FunctionName, injection: Injection, prev: seq<ResourceImpl>)
    requires WellNamed(store) && CanonicalDependencies(store)
    requires ClosedList(store, prev) && Provided(store, injection)
    ensures var list := Attempt(store, functionName, injection, prev).list;
            && ClosedList(store, list)
            && forall x :: x in Names(list) <==> x in Names(prev) || BroughtBy(store, functionName, injection, x)
  {
    var named := Named(store, injection);
    if named.Ok? {
      NamedIsStored(store, injection);
      var r, isFunction := named.value, IsFunction(functionName, named.value);
      forall x | ReachedFrom(store, Names(prev), Elements(r.dependencies), x) ensures !Blocked(store, x, injection.1) {
        ReachedMore(store, {}, Names(prev), Elements(r.dependencies), Elements(r.dependencies), x);
      }
      ScriptletFollowsFreePaths(store, r, isFunction, prev, injection.1);
      ScriptletKeepsListClosed(store, r, isFunction, prev, injection.1);
      forall x ensures x in Names(prev) || Brings(store, r, isFunction, Names(prev), x)
                       <==> x in Names(prev) || Brings(store, r, isFunction, {}, x) {
        BringsPast(store, r, isFunction, prev, x);
      }
    }
  }

  /**
   * If every scriptlet of the page is provided for, then the list is closed in the end, whatever
   * else fails, and holds exactly what the scriptlets bring along.
   */
  lemma {:induction false} RequiredIsClosure(store: Store, functionName: FunctionName, injections: seq<Injection>)
    requires WellNamed(store) && CanonicalDependencies(store)
    requires forall n :: 0 <= n < |injections| ==> Provided(store, injections[n])
    ensures var list := Required(store, functionName, injections);
            && ClosedList(store, list)
            && forall x :: x in Names(list) <==> BroughtBySome(store, functionName, injections, x)
  {
    if injections != [] {
      var n := |injections| - 1;
      var front := injections[..n];
      RequiredIsClosure(store, functionName, front);
      ProvidedAttempt(store, functionName, injections[n], Required(store, functionName, front));
      forall x ensures BroughtBySome(store, functionName, injections, x) <==>
          BroughtBySome(store, functionName, front, x) || BroughtBy(store, functionName, injections[n], x) {
        BroughtByOneMore(store, functionName, injections, x);
      }
    }
  }

  lemma BroughtByOneMore(store: Store, functionName: FunctionName, injections: seq<Injection>, x: string)
    requires injections != []
    ensures BroughtBySome(store, functionName, injections, x) <==>
              || BroughtBySome(store, functionName, injections[..|injections| - 1], x)
              || BroughtBy(store, functionName, injections[|injections| - 1], x)
  {
    var n := |injections| - 1;
    assert injections == injections[..n] + [injections[n]];
  }

  /**
   * From any list: a scriptlet that succeeds leaves it closed exactly when nothing was missing but
   * what the scriptlet brings along past the names that were taken.
   */
  lemma AttemptClosesExactlyWhen(
    store: Store, functionName: FunctionName, injection: Injection, prev: seq<ResourceImpl>)
    requires WellNamed(store) && CanonicalDependencies(store)
    requires Attempt(store, functionName, injection, prev).error.None?
    ensures ClosedList(store, Attempt(store, functionName, injection, prev).list) <==>
              var r := Named(store, injection).value;
              && Tidy(store, prev)
              && forall i, d :: 0 <= i < |prev| && d in prev[i].dependencies ==>
                   d in Names(prev) || Brings(store, r, IsFunction(functionName, r), Names(prev), d)
  {
    NamedIsStored(store, injection);
    var r := Named(store, injection).value;
    ScriptletClosesExactlyWhen(store, r, IsFunction(functionName, r), prev, injection.1);
  }
}

/** The recursive dependency walk, step by step: what it leaves behind, errors included. */
module StackWalk {
  import opened Prelude
  import opened Resources

  /**
   * The walk with a stack of names to visit: a name on the list is skipped, any other resource is put
   * on the list and its dependencies on the stack, and the first error ends the walk.
   */
  function Visit(store: Store, stack: seq<string>, list: seq<ResourceImpl>, mask: PermissionMask): Walked
    requires WellNamed(store) && CanonicalDependencies(store) && AllCanonical(store, stack)
    decreases store.resources.Keys - Names(list), |stack|
  {
    if stack == [] then Walked(None, list)
    else if stack[0] in Names(list) then Visit(store, stack[1..], list, mask)
    else
      var r := Lookup(store, stack[0]);
      if r.None? then Walked(Some(NoMatchingScriptlet), list)
      else if !IsInjectableBy(r.value.permission, mask) then Walked(Some(InsufficientPermissions), list)
      else
        Visited(store, stack[0], list, r.value);
        Visit(store, r.value.dependencies + stack[1..], list + [r.value], mask)
  }

  lemma Visited(store: Store, name: string, list: seq<ResourceImpl>, r: ResourceImpl)
    requires WellNamed(store) && CanonicalDependencies(store) && IsCanonical(store, name)
    requires name !in Names(list) && Lookup(store, name) == Some(r)
    ensures r.name == name && AllCanonical(store, r.dependencies)
    ensures store.resources.Keys - Names(list + [r]) < store.resources.Keys - Names(list)
  {
    NamesSnoc(list, r);
    assert name in store.resources.Keys - Names(list);
  }

  /** Walking the names comes first, and an error in it is the end. */
  lemma {:induction false} NamesFirst(
    store: Store, names: seq<string>, rest: seq<string>, prev: seq<ResourceImpl>, mask: PermissionMask)
    requires WellNamed(store) && CanonicalDependencies(store)
    requires AllCanonical(store, names) && AllCanonical(store, rest)
    ensures var w := WalkAll(store, names, prev, mask);
            Visit(store, names + rest, prev, mask) == if w.error.Some? then w else Visit(store, rest, w.list, mask)
    decreases store.resources.Keys - Names(prev), 1, |names|
  {
    if names == [] {
      assert names + rest == rest;
    } else {
      var n := |names| - 1;
      var front := WalkAll(store, names[..n], prev, mask);
      assert names + rest == names[..n] + ([names[n]] + rest);
      NamesFirst(store, names[..n], [names[n]] + rest, prev, mask);
      if front.error.None? {
        NamesGrow(prev, front.list);
        OneFirst(store, names[n], rest, front.list, mask);
      }
    }
  }

  lemma {:induction false} OneFirst(
    store: Store, name: string, rest: seq<string>, prev: seq<ResourceImpl>, mask: PermissionMask)
    requires WellNamed(store) && CanonicalDependencies(store)
    requires IsCanonical(store, name) && AllCanonical(store, rest)
    ensures var w := Walk(store, name, prev, mask);
            Visit(store, [name] + rest, prev, mask) == if w.error.Some? then w else Visit(store, rest, w.list, mask)
    decreases store.resources.Keys - Names(prev), 0, 0
  {
    assert ([name] + rest)[0] == name && ([name] + rest)[1..] == rest;
    if name !in Names(prev) && GetPermissioned(store, name, mask).Ok? {
      var r := GetPermissioned(store, name, mask).value;
      Visited(store, name, prev, r);
      NamesSnoc(prev, r);
      NamesFirst(store, r.dependencies, rest, prev + [r], mask);
    }
  }

  /** The recursive walk leaves the list, and ends in the error, that the walk with a stack does. */
  lemma WalkIsVisit(store: Store, name: string, prev: seq<ResourceImpl>, mask: PermissionMask)
    requires WellNamed(store) && CanonicalDependencies(store) && IsCanonical(store, name)
    ensures Walk(store, name, prev, mask) == Visit(store, [name], prev, mask)
  {
    OneFirst(store, name, [], prev, mask);
    assert [name] + [] == [name];
  }
}

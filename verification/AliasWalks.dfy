/** When the dependency walk ends, in stores whose dependencies may be aliases, against the documented rule. */
module AliasWalks {
  import opened Prelude
  import opened Resources

  // ----- trails -----

  /** A name that leads to a resource under another name. */
  predicate IsAlias(store: Store, name: string) {
    name !in store.resources && name in store.aliases
  }

  /** `to` is a dependency of what `from` names. */
  predicate LeadsTo(store: Store, from: string, to: string) {
    var found := Lookup(store, from);
    found.Some? && to in found.value.dependencies
  }

  ghost predicate IsTrail(store: Store, taken: set<string>, trail: seq<string>) {
    && trail != []
    && (forall i :: 0 <= i < |trail| ==> trail[i] !in taken)
    && forall i :: 0 <= i < |trail| - 1 ==> LeadsTo(store, trail[i], trail[i + 1])
  }

  /** A walk from `from` may come to `to` without meeting a name that is taken. */
  ghost predicate Arrives(store: Store, taken: set<string>, from: string, to: string) {
    exists trail :: IsTrail(store, taken, trail) && trail[0] == from && trail[|trail| - 1] == to
  }

  ghost predicate IsAliasTrail(store: Store, trail: seq<string>) {
    IsTrail(store, {}, trail) && forall i :: 0 <= i < |trail| ==> IsAlias(store, trail[i])
  }

  /** From `from` over aliases alone, and then one step to `to`. */
  ghost predicate LeadsByAliases(store: Store, from: string, to: string) {
    exists trail :: IsAliasTrail(store, trail) && trail[0] == from && LeadsTo(store, trail[|trail| - 1], to)
  }

  /** An alias that leads back to itself over aliases alone. */
  ghost predicate OnCycle(store: Store, name: string) {
    IsAlias(store, name) && LeadsByAliases(store, name, name)
  }

  lemma ArrivesAtOnce(store: Store, taken: set<string>, name: string)
    requires name !in taken
    ensures Arrives(store, taken, name, name)
  {
    assert IsTrail(store, taken, [name]);
  }

  lemma ArrivesFurther(store: Store, taken: set<string>, from: string, via: string, to: string)
    requires Arrives(store, taken, from, via) && LeadsTo(store, via, to) && to !in taken
    ensures Arrives(store, taken, from, to)
  {
    var trail :| IsTrail(store, taken, trail) && trail[0] == from && trail[|trail| - 1] == via;
    var longer := trail + [to];
    assert IsTrail(store, taken, longer) && longer[|longer| - 1] == to;
  }

  lemma AliasLeads(store: Store, name: string, to: string)
    requires IsAlias(store, name) && LeadsTo(store, name, to)
    ensures LeadsByAliases(store, name, to)
  {
    assert IsAliasTrail(store, [name]);
  }

  lemma AliasLeadsFurther(store: Store, from: string, via: string, to: string)
    requires LeadsByAliases(store, from, via) && IsAlias(store, via) && LeadsTo(store, via, to)
    ensures LeadsByAliases(store, from, to)
  {
    var trail :| IsAliasTrail(store, trail) && trail[0] == from && LeadsTo(store, trail[|trail| - 1], via);
    var longer := trail + [via];
    assert IsAliasTrail(store, longer) && longer[|longer| - 1] == via;
  }

  // ----- what a bounded walk that ends leaves -----

  lemma {:induction false} BoundedGrows(
    store: Store, fuel: nat, name: string, prev: seq<ResourceImpl>, mask: PermissionMask)
    requires BoundedWalk(store, fuel, name, prev, mask).Some?
    ensures prev <= BoundedWalk(store, fuel, name, prev, mask).value.list
    decreases fuel, 0, 0
  {
    if fuel > 0 && name !in Names(prev) && GetPermissioned(store, name, mask).Ok? {
      var r := GetPermissioned(store, name, mask).value;
      BoundedAllGrows(store, fuel - 1, r.dependencies, prev + [r], mask);
    }
  }

  lemma {:induction false} BoundedAllGrows(
    store: Store, fuel: nat, names: seq<string>, prev: seq<ResourceImpl>, mask: PermissionMask)
    requires BoundedWalkAll(store, fuel, names, prev, mask).Some?
    ensures prev <= BoundedWalkAll(store, fuel, names, prev, mask).value.list
    decreases fuel, 1, |names|
  {
    if names != [] {
      var n := |names| - 1;
      BoundedAllGrows(store, fuel, names[..n], prev, mask);
      var front := BoundedWalkAll(store, fuel, names[..n], prev, mask).value;
      if front.error.None? {
        BoundedGrows(store, fuel, names[n], front.list, mask);
      }
    }
  }

  // ----- without such a cycle the walk ends -----

  /** What is reached is either taken or a place where the walk may arrive, and no alias there is on a cycle. */
  ghost predicate Tame(store: Store, taken: set<string>, root: string) {
    forall x :: Arrives(store, taken, root, x) ==> !OnCycle(store, x)
  }

  ghost predicate ComesFrom(store: Store, taken: set<string>, root: string, seen: set<string>, name: string) {
    && (name in taken || Arrives(store, taken, root, name))
    && forall s :: s in seen ==> IsAlias(store, s) && LeadsByAliases(store, s, name)
  }

  ghost predicate AllComeFrom(
    store: Store, taken: set<string>, root: string, seen: set<string>, names: seq<string>)
  {
    forall d :: d in names ==> ComesFrom(store, taken, root, seen, d)
  }

  lemma LastComesFrom(store: Store, taken: set<string>, root: string, seen: set<string>, names: seq<string>)
    requires names != [] && AllComeFrom(store, taken, root, seen, names)
    ensures AllComeFrom(store, taken, root, seen, names[..|names| - 1])
    ensures ComesFrom(store, taken, root, seen, names[|names| - 1])
  {
    assert forall d :: d in names[..|names| - 1] ==> d in names;
    assert names[|names| - 1] in names;
  }

  /** The aliases just passed, with this name if it is one; a resource's own name starts anew. */
  function Passed(store: Store, seen: set<string>, name: string): set<string> {
    if IsAlias(store, name) then seen + {name} else {}
  }

  /** A name that a walk goes into: not on the list, and neither missing nor forbidden. */
  predicate GoesInto(store: Store, name: string, prev: seq<ResourceImpl>, mask: PermissionMask) {
    name !in Names(prev) && !Blocked(store, name, mask)
  }

  lemma BoundedStep(store: Store, fuel: nat, name: string, prev: seq<ResourceImpl>, mask: PermissionMask)
    requires fuel > 0
    ensures !GoesInto(store, name, prev, mask) ==> BoundedWalk(store, fuel, name, prev, mask).Some?
    ensures GoesInto(store, name, prev, mask) ==>
              var r := GetPermissioned(store, name, mask).value;
              && Lookup(store, name) == Some(r)
              && BoundedWalk(store, fuel, name, prev, mask) ==
                 BoundedWalkAll(store, fuel - 1, r.dependencies, prev + [r], mask)
  {
  }

  /** What a walk needs from its root on, and of its list. */
  ghost predicate Fit(store: Store, prev: seq<ResourceImpl>, root: string, taken: set<string>) {
    WellNamed(store) && taken <= Names(prev) && Tame(store, taken, root)
  }

  /** The resources that are still to come. */
  function ToCome(store: Store, list: seq<ResourceImpl>): set<string> {
    store.resources.Keys - Names(list)
  }

  lemma {:induction false} TameEnds(
    store: Store, name: string, prev: seq<ResourceImpl>, mask: PermissionMask, root: string, taken: set<string>,
    seen: set<string>) returns (fuel: nat)
    requires Fit(store, prev, root, taken) && ComesFrom(store, taken, root, seen, name)
    ensures BoundedWalk(store, fuel, name, prev, mask).Some?
    decreases ToCome(store, prev), store.aliases.Keys - seen, 0, 0
  {
    fuel := 1;
    if GoesInto(store, name, prev, mask) {
      var r := GetPermissioned(store, name, mask).value;
      FitBelow(store, name, prev, r, root, taken, seen);
      fuel := TameAllEnds(store, r.dependencies, prev + [r], mask, root, taken, Passed(store, seen, name));
      fuel := fuel + 1;
    }
    BoundedStep(store, fuel, name, prev, mask);
  }

  /** What the walk below a name needs; fewer resources are to come, or fewer aliases. */
  lemma FitBelow(
    store: Store, name: string, prev: seq<ResourceImpl>, r: ResourceImpl, root: string, taken: set<string>,
    seen: set<string>)
    requires Fit(store, prev, root, taken) && ComesFrom(store, taken, root, seen, name)
    requires name !in Names(prev) && Lookup(store, name) == Some(r)
    ensures var passed := Passed(store, seen, name);
            && Fit(store, prev + [r], root, taken) && AllComeFrom(store, taken, root, passed, r.dependencies)
            && (ToCome(store, prev + [r]) < ToCome(store, prev)
                || (ToCome(store, prev + [r]) == ToCome(store, prev)
                    && store.aliases.Keys - passed < store.aliases.Keys - seen))
  {
    NamesSnoc(prev, r);
    forall d | d in r.dependencies ensures ComesFrom(store, taken, root, Passed(store, seen, name), d) {
      NextComesFrom(store, taken, root, seen, name, d);
    }
    if IsAlias(store, name) {
      NotPassedYet(store, taken, root, seen, name);
      assert name in store.aliases.Keys - seen && name !in store.aliases.Keys - (seen + {name});
    } else {
      assert name in ToCome(store, prev) && name !in ToCome(store, prev + [r]);
    }
  }

  lemma NotPassedYet(store: Store, taken: set<string>, root: string, seen: set<string>, name: string)
    requires Tame(store, taken, root) && ComesFrom(store, taken, root, seen, name) && name !in taken
    ensures name !in seen
  {
    assert name in seen ==> OnCycle(store, name);
  }

  lemma NextComesFrom(store: Store, taken: set<string>, root: string, seen: set<string>, name: string, d: string)
    requires ComesFrom(store, taken, root, seen, name) && name !in taken && LeadsTo(store, name, d)
    ensures ComesFrom(store, taken, root, Passed(store, seen, name), d)
  {
    if d !in taken {
      ArrivesFurther(store, taken, root, name, d);
    }
    if IsAlias(store, name) {
      AliasLeads(store, name, d);
      forall s | s in seen ensures LeadsByAliases(store, s, d) {
        AliasLeadsFurther(store, s, name, d);
      }
    }
  }

  lemma {:induction false} TameAllEnds(
    store: Store, names: seq<string>, prev: seq<ResourceImpl>, mask: PermissionMask, root: string,
    taken: set<string>, seen: set<string>) returns (fuel: nat)
    requires Fit(store, prev, root, taken) && AllComeFrom(store, taken, root, seen, names)
    ensures BoundedWalkAll(store, fuel, names, prev, mask).Some?
    decreases ToCome(store, prev), store.aliases.Keys - seen, 1, |names|
  {
    fuel := 0;
    if names != [] {
      var n := |names| - 1;
      LastComesFrom(store, taken, root, seen, names);
      var some := TameAllEnds(store, names[..n], prev, mask, root, taken, seen);
      fuel := some;
      var front := BoundedWalkAll(store, some, names[..n], prev, mask).value;
      if front.error.None? {
        BoundedAllGrows(store, some, names[..n], prev, mask);
        NamesGrow(prev, front.list);
        var more := TameEnds(store, names[n], front.list, mask, root, taken, seen);
        fuel := some + more;
        MoreFuelForAll(store, some, fuel, names[..n], prev, mask);
        MoreFuel(store, more, fuel, names[n], front.list, mask);
      }
    }
  }

  lemma {:induction false} MoreFuel(
    store: Store, some: nat, fuel: nat, name: string, prev: seq<ResourceImpl>, mask: PermissionMask)
    requires some <= fuel && BoundedWalk(store, some, name, prev, mask).Some?
    ensures BoundedWalk(store, fuel, name, prev, mask) == BoundedWalk(store, some, name, prev, mask)
    decreases some, 0, 0
  {
    if GoesInto(store, name, prev, mask) {
      var r := GetPermissioned(store, name, mask).value;
      MoreFuelForAll(store, some - 1, fuel - 1, r.dependencies, prev + [r], mask);
    }
  }

  lemma {:induction false} MoreFuelForAll(
    store: Store, some: nat, fuel: nat, names: seq<string>, prev: seq<ResourceImpl>, mask: PermissionMask)
    requires some <= fuel && BoundedWalkAll(store, some, names, prev, mask).Some?
    ensures BoundedWalkAll(store, fuel, names, prev, mask) == BoundedWalkAll(store, some, names, prev, mask)
    decreases some, 1, |names|
  {
    if names != [] {
      var n := |names| - 1;
      MoreFuelForAll(store, some, fuel, names[..n], prev, mask);
      var front := BoundedWalkAll(store, some, names[..n], prev, mask).value;
      if front.error.None? {
        MoreFuel(store, some, fuel, names[n], front.list, mask);
      }
    }
  }

  /** Is some depth enough for the walk? */
  ghost predicate Ends(store: Store, name: string, prev: seq<ResourceImpl>, mask: PermissionMask) {
    exists fuel: nat :: BoundedWalk(store, fuel, name, prev, mask).Some?
  }

  /** An alias on a cycle is in reach, past the names on the list. */
  ghost predicate MayCircle(store: Store, name: string, prev: seq<ResourceImpl>) {
    exists x :: Arrives(store, Names(prev), name, x) && OnCycle(store, x)
  }

  /** If no alias on a cycle is in reach, the walk ends, whatever errors it meets. */
  lemma WalkEnds(store: Store, name: string, prev: seq<ResourceImpl>, mask: PermissionMask)
    requires WellNamed(store) && !MayCircle(store, name, prev)
    ensures Ends(store, name, prev, mask)
  {
    if name !in Names(prev) {
      ArrivesAtOnce(store, Names(prev), name);
    }
    var fuel := TameEnds(store, name, prev, mask, name, Names(prev), {});
  }

  // ----- with such a cycle in reach, a walk that meets no error never ends -----

  /** Stored resources under their own names; no alias is a name on such a list. */
  ghost predicate Stored(store: Store, list: seq<ResourceImpl>) {
    forall i :: 0 <= i < |list| ==> list[i].name in store.resources && list[i] == store.resources[list[i].name]
  }

  lemma StoredNames(store: Store, list: seq<ResourceImpl>, name: string)
    requires Stored(store, list) && IsAlias(store, name)
    ensures name !in Names(list)
  {
    forall r | r in list ensures r.name in store.resources {
      var i :| 0 <= i < |list| && list[i] == r;
    }
  }

  lemma StoredMore(store: Store, list: seq<ResourceImpl>, name: string, r: ResourceImpl)
    requires WellNamed(store) && Stored(store, list) && Lookup(store, name) == Some(r)
    ensures Stored(store, list + [r])
  {
  }

  lemma {:induction false} WalkStaysStored(
    store: Store, fuel: nat, name: string, prev: seq<ResourceImpl>, mask: PermissionMask)
    requires WellNamed(store) && Stored(store, prev) && BoundedWalk(store, fuel, name, prev, mask).Some?
    ensures Stored(store, BoundedWalk(store, fuel, name, prev, mask).value.list)
    decreases fuel, 0, 0
  {
    if GoesInto(store, name, prev, mask) {
      var r := GetPermissioned(store, name, mask).value;
      StoredMore(store, prev, name, r);
      WalkAllStaysStored(store, fuel - 1, r.dependencies, prev + [r], mask);
    }
  }

  lemma {:induction false} WalkAllStaysStored(
    store: Store, fuel: nat, names: seq<string>, prev: seq<ResourceImpl>, mask: PermissionMask)
    requires WellNamed(store) && Stored(store, prev) && BoundedWalkAll(store, fuel, names, prev, mask).Some?
    ensures Stored(store, BoundedWalkAll(store, fuel, names, prev, mask).value.list)
    decreases fuel, 1, |names|
  {
    if names != [] {
      var n := |names| - 1;
      WalkAllStaysStored(store, fuel, names[..n], prev, mask);
      var front := BoundedWalkAll(store, fuel, names[..n], prev, mask).value;
      if front.error.None? {
        WalkStaysStored(store, fuel, names[n], front.list, mask);
      }
    }
  }

  /** A walk that ended without an error, from a list of stored resources, with a list no longer than `all`. */
  ghost predicate Done(
    store: Store, fuel: nat, name: string, prev: seq<ResourceImpl>, mask: PermissionMask, all: seq<ResourceImpl>)
  {
    var w := BoundedWalk(store, fuel, name, prev, mask);
    Stored(store, prev) && w.Some? && w.value.error.None? && w.value.list <= all
  }

  ghost predicate AllDone(
    store: Store, fuel: nat, names: seq<string>, prev: seq<ResourceImpl>, mask: PermissionMask,
    all: seq<ResourceImpl>)
  {
    var w := BoundedWalkAll(store, fuel, names, prev, mask);
    Stored(store, prev) && w.Some? && w.value.error.None? && w.value.list <= all
  }

  /** If the walk of all names ended, so did the walk of each. */
  lemma {:induction false} EachDone(
    store: Store, fuel: nat, names: seq<string>, prev: seq<ResourceImpl>, mask: PermissionMask,
    all: seq<ResourceImpl>, d: string) returns (list: seq<ResourceImpl>)
    requires WellNamed(store) && AllDone(store, fuel, names, prev, mask, all) && d in names
    ensures prev <= list && Done(store, fuel, d, list, mask, all)
    decreases |names|
  {
    var n := |names| - 1;
    var front := BoundedWalkAll(store, fuel, names[..n], prev, mask).value;
    BoundedAllGrows(store, fuel, names[..n], prev, mask);
    WalkAllStaysStored(store, fuel, names[..n], prev, mask);
    BoundedGrows(store, fuel, names[n], front.list, mask);
    if d == names[n] {
      list := front.list;
    } else {
      assert names == names[..n] + [names[n]];
      list := EachDone(store, fuel, names[..n], prev, mask, all, d);
    }
  }

  /** The dependencies of a resource were walked to the end. */
  ghost predicate WasWalked(store: Store, r: ResourceImpl, mask: PermissionMask, all: seq<ResourceImpl>) {
    exists fuel: nat, list :: AllDone(store, fuel, r.dependencies, list, mask, all)
  }

  lemma EntersResource(
    store: Store, fuel: nat, name: string, prev: seq<ResourceImpl>, mask: PermissionMask, all: seq<ResourceImpl>)
    requires WellNamed(store) && Done(store, fuel, name, prev, mask, all) && name !in Names(prev)
    ensures GoesInto(store, name, prev, mask) && fuel > 0
    ensures var r := GetPermissioned(store, name, mask).value;
            && Lookup(store, name) == Some(r)
            && AllDone(store, fuel - 1, r.dependencies, prev + [r], mask, all) && WasWalked(store, r, mask, all)
  {
    var r := GetPermissioned(store, name, mask).value;
    StoredMore(store, prev, name, r);
    assert AllDone(store, fuel - 1, r.dependencies, prev + [r], mask, all);
  }

  /** No walk of an alias on a cycle ends without an error. */
  lemma {:induction false} CycleIsNeverDone(
    store: Store, fuel: nat, x: string, trail: seq<string>, k: nat, prev: seq<ResourceImpl>, mask: PermissionMask,
    all: seq<ResourceImpl>)
    requires WellNamed(store) && IsAliasTrail(store, trail) && trail[0] == x && LeadsTo(store, trail[|trail| - 1], x)
    requires k < |trail|
    ensures !Done(store, fuel, trail[k], prev, mask, all)
    decreases fuel
  {
    if Done(store, fuel, trail[k], prev, mask, all) {
      StoredNames(store, prev, trail[k]);
      EntersResource(store, fuel, trail[k], prev, mask, all);
      var r := GetPermissioned(store, trail[k], mask).value;
      var next := if k + 1 < |trail| then k + 1 else 0;
      assert LeadsTo(store, trail[k], trail[next]);
      var list := EachDone(store, fuel - 1, r.dependencies, prev + [r], mask, all, trail[next]);
      CycleIsNeverDone(store, fuel - 1, x, trail, next, list, mask, all);
    }
  }

  lemma {:induction false} AddedWasWalked(
    store: Store, fuel: nat, name: string, prev: seq<ResourceImpl>, mask: PermissionMask, all: seq<ResourceImpl>,
    i: nat)
    requires WellNamed(store) && Done(store, fuel, name, prev, mask, all)
    requires |prev| <= i < |BoundedWalk(store, fuel, name, prev, mask).value.list|
    ensures WasWalked(store, BoundedWalk(store, fuel, name, prev, mask).value.list[i], mask, all)
    decreases fuel, 0, 0
  {
    EntersResource(store, fuel, name, prev, mask, all);
    var r := GetPermissioned(store, name, mask).value;
    BoundedAllGrows(store, fuel - 1, r.dependencies, prev + [r], mask);
    if i > |prev| {
      AddedByAllWasWalked(store, fuel - 1, r.dependencies, prev + [r], mask, all, i);
    }
  }

  lemma {:induction false} AddedByAllWasWalked(
    store: Store, fuel: nat, names: seq<string>, prev: seq<ResourceImpl>, mask: PermissionMask,
    all: seq<ResourceImpl>, i: nat)
    requires WellNamed(store) && AllDone(store, fuel, names, prev, mask, all)
    requires |prev| <= i < |BoundedWalkAll(store, fuel, names, prev, mask).value.list|
    ensures WasWalked(store, BoundedWalkAll(store, fuel, names, prev, mask).value.list[i], mask, all)
    decreases fuel, 1, |names|
  {
    var n := |names| - 1;
    var front := BoundedWalkAll(store, fuel, names[..n], prev, mask).value;
    WalkAllStaysStored(store, fuel, names[..n], prev, mask);
    BoundedGrows(store, fuel, names[n], front.list, mask);
    if i < |front.list| {
      AddedByAllWasWalked(store, fuel, names[..n], prev, mask, all, i);
    } else {
      AddedWasWalked(store, fuel, names[n], front.list, mask, all, i);
    }
  }

  /** Where a walk that ended without an error may arrive, it went into. */
  lemma {:induction false} TrailWasWalked(
    store: Store, fuel: nat, name: string, prev: seq<ResourceImpl>, mask: PermissionMask, trail: seq<string>, k: nat)
    requires WellNamed(store) && IsTrail(store, Names(prev), trail) && trail[0] == name && k < |trail|
    requires BoundedWalk(store, fuel, name, prev, mask).Some?
    requires Done(store, fuel, name, prev, mask, BoundedWalk(store, fuel, name, prev, mask).value.list)
    ensures Lookup(store, trail[k]).Some?
    ensures WasWalked(store, Lookup(store, trail[k]).value, mask, BoundedWalk(store, fuel, name, prev, mask).value.list)
    decreases k
  {
    var all := BoundedWalk(store, fuel, name, prev, mask).value.list;
    if k == 0 {
      EntersResource(store, fuel, name, prev, mask, all);
    } else {
      TrailWasWalked(store, fuel, name, prev, mask, trail, k - 1);
      var r := Lookup(store, trail[k - 1]).value;
      var f: nat, list :| AllDone(store, f, r.dependencies, list, mask, all);
      assert LeadsTo(store, trail[k - 1], trail[k - 1 + 1]);
      var later := EachDone(store, f, r.dependencies, list, mask, all, trail[k]);
      NextWasWalked(store, fuel, name, prev, mask, f, trail[k], later);
    }
  }

  /** A name whose walk ended: it was gone into then, or before, when its resource got on the list. */
  lemma NextWasWalked(
    store: Store, fuel: nat, name: string, prev: seq<ResourceImpl>, mask: PermissionMask, f: nat, d: string,
    list: seq<ResourceImpl>)
    requires WellNamed(store) && BoundedWalk(store, fuel, name, prev, mask).Some? && d !in Names(prev)
    requires Done(store, fuel, name, prev, mask, BoundedWalk(store, fuel, name, prev, mask).value.list)
    requires Done(store, f, d, list, mask, BoundedWalk(store, fuel, name, prev, mask).value.list)
    ensures Lookup(store, d).Some?
    ensures WasWalked(store, Lookup(store, d).value, mask, BoundedWalk(store, fuel, name, prev, mask).value.list)
  {
    var all := BoundedWalk(store, fuel, name, prev, mask).value.list;
    if d !in Names(list) {
      EntersResource(store, f, d, list, mask, all);
    } else {
      BoundedGrows(store, f, d, list, mask);
      NamesGrow(list, all);
      var r :| r in all && r.name == d;
      var i :| 0 <= i < |all| && all[i] == r;
      BoundedGrows(store, fuel, name, prev, mask);
      assert forall j :: 0 <= j < |prev| ==> all[j] == prev[j] && prev[j].name in Names(prev);
      WalkStaysStored(store, fuel, name, prev, mask);
      AddedWasWalked(store, fuel, name, prev, mask, all, i);
    }
  }

  // ----- errors -----

  /** Nothing in reach is missing or forbidden. */
  ghost predicate Unblocked(store: Store, taken: set<string>, root: string, mask: PermissionMask) {
    forall x :: Arrives(store, taken, root, x) ==> !Blocked(store, x, mask)
  }

  ghost predicate InReach(store: Store, taken: set<string>, root: string, names: seq<string>) {
    forall d :: d in names ==> d in taken || Arrives(store, taken, root, d)
  }

  lemma {:induction false} UnblockedIsDone(
    store: Store, fuel: nat, name: string, prev: seq<ResourceImpl>, mask: PermissionMask, root: string,
    taken: set<string>)
    requires taken <= Names(prev) && Unblocked(store, taken, root, mask)
    requires InReach(store, taken, root, [name]) && BoundedWalk(store, fuel, name, prev, mask).Some?
    ensures BoundedWalk(store, fuel, name, prev, mask).value.error.None?
    decreases fuel, 0, 0
  {
    assert name in [name];
    if name !in Names(prev) {
      var r := GetPermissioned(store, name, mask).value;
      NamesSnoc(prev, r);
      forall d | d in r.dependencies && d !in taken ensures Arrives(store, taken, root, d) {
        ArrivesFurther(store, taken, root, name, d);
      }
      AllUnblockedAreDone(store, fuel - 1, r.dependencies, prev + [r], mask, root, taken);
    }
  }

  lemma {:induction false} AllUnblockedAreDone(
    store: Store, fuel: nat, names: seq<string>, prev: seq<ResourceImpl>, mask: PermissionMask, root: string,
    taken: set<string>)
    requires taken <= Names(prev) && Unblocked(store, taken, root, mask)
    requires InReach(store, taken, root, names) && BoundedWalkAll(store, fuel, names, prev, mask).Some?
    ensures BoundedWalkAll(store, fuel, names, prev, mask).value.error.None?
    decreases fuel, 1, |names|
  {
    if names != [] {
      var n := |names| - 1;
      assert names == names[..n] + [names[n]];
      AllUnblockedAreDone(store, fuel, names[..n], prev, mask, root, taken);
      BoundedAllGrows(store, fuel, names[..n], prev, mask);
      var front := BoundedWalkAll(store, fuel, names[..n], prev, mask).value;
      NamesGrow(prev, front.list);
      UnblockedIsDone(store, fuel, names[n], front.list, mask, root, taken);
    }
  }

  // ----- exactly when -----

  /** If nothing in reach is missing or forbidden, but an alias on a cycle is in reach, no depth is enough. */
  lemma WalkNeverEnds(store: Store, name: string, prev: seq<ResourceImpl>, mask: PermissionMask)
    requires WellNamed(store) && Stored(store, prev)
    requires Unblocked(store, Names(prev), name, mask) && MayCircle(store, name, prev)
    ensures !Ends(store, name, prev, mask)
  {
    if fuel: nat :| BoundedWalk(store, fuel, name, prev, mask).Some? {
      var x :| Arrives(store, Names(prev), name, x) && OnCycle(store, x);
      var trail :| IsTrail(store, Names(prev), trail) && trail[0] == name && trail[|trail| - 1] == x;
      ArrivesAtOnce(store, Names(prev), name);
      UnblockedIsDone(store, fuel, name, prev, mask, name, Names(prev));
      var all := BoundedWalk(store, fuel, name, prev, mask).value.list;
      TrailWasWalked(store, fuel, name, prev, mask, trail, |trail| - 1);
      CycleWasNotWalked(store, x, mask, all);
    }
  }

  lemma CycleWasNotWalked(store: Store, x: string, mask: PermissionMask, all: seq<ResourceImpl>)
    requires WellNamed(store) && OnCycle(store, x) && Lookup(store, x).Some?
    ensures !WasWalked(store, Lookup(store, x).value, mask, all)
  {
    var r := Lookup(store, x).value;
    var cycle :| IsAliasTrail(store, cycle) && cycle[0] == x && LeadsTo(store, cycle[|cycle| - 1], x);
    var next := if |cycle| > 1 then 1 else 0;
    assert LeadsTo(store, cycle[0], cycle[next]);
    forall f: nat, list ensures !AllDone(store, f, r.dependencies, list, mask, all) {
      if AllDone(store, f, r.dependencies, list, mask, all) {
        var later := EachDone(store, f, r.dependencies, list, mask, all, cycle[next]);
        CycleIsNeverDone(store, f, x, cycle, next, later, mask, all);
      }
    }
  }

  /**
   * If nothing in reach is missing or forbidden, the walk ends exactly when no alias in reach leads
   * back to itself over aliases alone. With the documented rule there are no such aliases.
   */
  lemma WalkEndsExactlyWhen(store: Store, name: string, prev: seq<ResourceImpl>, mask: PermissionMask)
    requires WellNamed(store) && Stored(store, prev) && Unblocked(store, Names(prev), name, mask)
    ensures Ends(store, name, prev, mask) <==> !MayCircle(store, name, prev)
  {
    if MayCircle(store, name, prev) {
      WalkNeverEnds(store, name, prev, mask);
    } else {
      WalkEnds(store, name, prev, mask);
    }
  }
}

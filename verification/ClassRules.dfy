/** Generic rules that start with a class or an id: the tables they go to, and what a page is told of them. */
module ClassRules {
  import opened Prelude
  import opened Text
  import opened Positions
  import opened Probing
  import opened HashIndex

  // ----- runs of pushes -----

  /** Keys and what is pushed under them, in order. */
  type Pushes = seq<(string, string)>

  ghost predicate WellKeyed(kind: KeyKind<string>, pushes: Pushes) {
    forall n :: 0 <= n < |pushes| ==> pushes[n].0 != kind.empty
  }

  /** The table that a run of pushes leaves, slot by slot. */
  ghost function PushedTable(kind: KeyKind<string>, pushes: Pushes): (t: Table<string, seq<string>>)
    ensures IsTable(t)
  {
    if pushes == [] then EmptyTable(kind, [], 4)
    else
      var n := |pushes| - 1;
      PushedInto(kind, [], PushedTable(kind, pushes[..n]), pushes[n].0, pushes[n].1)
  }

  /** What that table binds. */
  ghost function Held(kind: KeyKind<string>, pushes: Pushes): map<string, seq<string>> {
    if pushes == [] then map[]
    else
      var n := |pushes| - 1;
      HeldAfter(kind, [], PushedTable(kind, pushes[..n]), Held(kind, pushes[..n]), pushes[n].0, pushes[n].1)
  }

  /** What it is meant to bind. */
  function Meant(pushes: Pushes): map<string, seq<string>> {
    if pushes == [] then map[]
    else
      var n := |pushes| - 1;
      Filed(Meant(pushes[..n]), pushes[n].0, pushes[n].1)
  }

  function At(m: map<string, seq<string>>, key: string): seq<string> {
    if key in m then m[key] else []
  }

  /** What is meant to be under a key: what was pushed there, in order. */
  lemma {:induction false} MeantInOrder(pushes: Pushes, key: string)
    ensures var own := Filtered(pushes, (p: (string, string)) => p.0 == key);
            At(Meant(pushes), key) == seq(|own|, k requires 0 <= k < |own| => own[k].1)
  {
    if pushes != [] {
      MeantInOrder(pushes[..|pushes| - 1], key);
    }
  }

  /** The slot computed for the push holds its key after the call (see `OwnerExactly` for what that means before it). */
  ghost predicate KeepsAt(kind: KeyKind<string>, pushes: Pushes, n: nat)
    requires n < |pushes|
  {
    OwnerOfSlot(kind, [], PushedTable(kind, pushes[..n]), pushes[n].0, []) == pushes[n].0
  }

  ghost predicate AllKept(kind: KeyKind<string>, pushes: Pushes) {
    forall n :: 0 <= n < |pushes| ==> KeepsAt(kind, pushes, n)
  }

  lemma AllKeptButLast(kind: KeyKind<string>, pushes: Pushes)
    requires pushes != []
    ensures AllKept(kind, pushes) <==>
              AllKept(kind, pushes[..|pushes| - 1]) && KeepsAt(kind, pushes, |pushes| - 1)
  {
    var front := pushes[..|pushes| - 1];
    forall n | 0 <= n < |front| ensures KeepsAt(kind, front, n) <==> KeepsAt(kind, pushes, n) {
      assert front[..n] == pushes[..n];
    }
  }

  /** If every push kept its slot, every key has what was pushed under it, in order. */
  lemma {:induction false} KeptIsMeant(kind: KeyKind<string>, pushes: Pushes)
    requires WellKeyed(kind, pushes) && AllKept(kind, pushes)
    ensures Held(kind, pushes) == Meant(pushes)
  {
    if pushes != [] {
      AllKeptButLast(kind, pushes);
      KeptIsMeant(kind, pushes[..|pushes| - 1]);
    }
  }

  // ----- counting -----

  /** How often the item was pushed. */
  function Times(pushes: Pushes, item: string): nat {
    if pushes == [] then 0
    else Times(pushes[..|pushes| - 1], item) + if pushes[|pushes| - 1].1 == item then 1 else 0
  }

  /** The item is only ever pushed under this key. */
  ghost predicate OnlyUnder(pushes: Pushes, item: string, key: string) {
    forall n :: 0 <= n < |pushes| && pushes[n].1 == item ==> pushes[n].0 == key
  }

  ghost predicate ItemKept(kind: KeyKind<string>, pushes: Pushes, item: string) {
    forall n :: 0 <= n < |pushes| && pushes[n].1 == item ==> KeepsAt(kind, pushes, n)
  }

  lemma ItemKeptButLast(kind: KeyKind<string>, pushes: Pushes, item: string)
    requires pushes != []
    ensures var n := |pushes| - 1;
            ItemKept(kind, pushes, item) <==>
              ItemKept(kind, pushes[..n], item) && (pushes[n].1 == item ==> KeepsAt(kind, pushes, n))
  {
    var front := pushes[..|pushes| - 1];
    forall n | 0 <= n < |front| ensures KeepsAt(kind, front, n) <==> KeepsAt(kind, pushes, n) {
      assert front[..n] == pushes[..n];
    }
    assert forall n :: 0 <= n < |front| ==> front[n] == pushes[n];
  }

  lemma OnlyUnderButLast(pushes: Pushes, item: string, key: string)
    requires pushes != [] && OnlyUnder(pushes, item, key)
    ensures OnlyUnder(pushes[..|pushes| - 1], item, key)
  {
    var front := pushes[..|pushes| - 1];
    assert forall n :: 0 <= n < |front| ==> front[n] == pushes[n];
  }

  lemma CountOneMore(s: seq<string>, last: string, item: string)
    ensures multiset(s + [last])[item] == multiset(s)[item] + if last == item then 1 else 0
  {
    assert multiset(s + [last]) == multiset(s) + multiset{last};
  }

  lemma {:induction false} MeantCount(pushes: Pushes, item: string, key: string)
    requires OnlyUnder(pushes, item, key)
    ensures multiset(At(Meant(pushes), key))[item] == Times(pushes, item)
  {
    if pushes != [] {
      var n := |pushes| - 1;
      OnlyUnderButLast(pushes, item, key);
      MeantCount(pushes[..n], item, key);
      CountOneMore(At(Meant(pushes[..n]), pushes[n].0), pushes[n].1, item);
    }
  }

  /** Where the item of a push is found afterwards: under the key that the slot holds. */
  lemma HeldAfterAt(
    kind: KeyKind<string>, t: Table<string, seq<string>>, m: map<string, seq<string>>, key: string, item: string,
    asked: string)
    requires IsTable(t) && key != kind.empty
    ensures var owner, after := OwnerOfSlot(kind, [], t, key, []), HeldAfter(kind, [], t, m, key, item);
            && (owner != asked ==> At(after, asked) == At(m, asked))
            && (owner == asked == key ==> At(after, asked) == At(m, asked) + [item])
            && (At(after, asked) == At(m, asked) || At(after, asked) == At(m, asked) + [item])
  {
    var owner, bound := OwnerOfSlot(kind, [], t, key, []), if key in m then m else m[key := []];
    assert At(bound, asked) == At(m, asked);
  }

  lemma HeldUnder(kind: KeyKind<string>, pushes: Pushes, key: string)
    requires pushes != [] && pushes[|pushes| - 1].0 != kind.empty
    ensures var n := |pushes| - 1;
            var before, after := At(Held(kind, pushes[..n]), key), At(Held(kind, pushes), key);
            && (KeepsAt(kind, pushes, n) && pushes[n].0 == key ==> after == before + [pushes[n].1])
            && (!KeepsAt(kind, pushes, n) && pushes[n].0 == key ==> after == before)
            && (after == before || after == before + [pushes[n].1])
  {
    var n := |pushes| - 1;
    HeldAfterAt(kind, PushedTable(kind, pushes[..n]), Held(kind, pushes[..n]), pushes[n].0, pushes[n].1, key);
  }

  /** An item is held as often as it was pushed exactly when each of its pushes kept the slot. */
  lemma {:induction false} HeldCount(kind: KeyKind<string>, pushes: Pushes, item: string, key: string)
    requires WellKeyed(kind, pushes) && OnlyUnder(pushes, item, key)
    ensures multiset(At(Held(kind, pushes), key))[item] <= Times(pushes, item)
    ensures multiset(At(Held(kind, pushes), key))[item] == Times(pushes, item) <==> ItemKept(kind, pushes, item)
  {
    if pushes != [] {
      var n := |pushes| - 1;
      OnlyUnderButLast(pushes, item, key);
      HeldCount(kind, pushes[..n], item, key);
      ItemKeptButLast(kind, pushes, item);
      HeldUnder(kind, pushes, key);
      CountOneMore(At(Held(kind, pushes[..n]), key), pushes[n].1, item);
    }
  }

  /**
   * A run of pushes leaves what it is meant to leave exactly when every push kept its slot, if each
   * item has one key of its own.
   */
  lemma HeldIsMeantExactlyWhen(kind: KeyKind<string>, pushes: Pushes, keyOf: string -> string)
    requires WellKeyed(kind, pushes)
    requires forall n :: 0 <= n < |pushes| ==> pushes[n].0 == keyOf(pushes[n].1)
    ensures Held(kind, pushes) == Meant(pushes) <==> AllKept(kind, pushes)
  {
    if AllKept(kind, pushes) {
      KeptIsMeant(kind, pushes);
    } else {
      var n :| 0 <= n < |pushes| && !KeepsAt(kind, pushes, n);
      var item, key := pushes[n].1, pushes[n].0;
      assert !ItemKept(kind, pushes, item);
      MeantCount(pushes, item, key);
      HeldCount(kind, pushes, item, key);
    }
  }

  /** Nothing is held that was not pushed. */
  lemma {:induction false} HeldWasPushed(kind: KeyKind<string>, pushes: Pushes, key: string, item: string)
    requires WellKeyed(kind, pushes) && item in At(Held(kind, pushes), key)
    ensures exists n :: 0 <= n < |pushes| && pushes[n].1 == item
  {
    var n := |pushes| - 1;
    HeldUnder(kind, pushes, key);
    if item != pushes[n].1 {
      HeldWasPushed(kind, pushes[..n], key, item);
      var k :| 0 <= k < n && pushes[..n][k].1 == item;
      assert pushes[k].1 == item;
    }
  }

  lemma {:induction false} MeantWasPushed(pushes: Pushes, key: string, item: string)
    ensures item in At(Meant(pushes), key) <==> exists n :: 0 <= n < |pushes| && pushes[n] == (key, item)
  {
    if pushes != [] {
      var n := |pushes| - 1;
      MeantWasPushed(pushes[..n], key, item);
      assert pushes == pushes[..n] + [pushes[n]];
      if k :| 0 <= k < n && pushes[..n][k] == (key, item) {
        assert pushes[k] == (key, item);
      }
      assert forall k :: 0 <= k < n ==> pushes[..n][k] == pushes[k];
    }
  }

  // ----- the tables for classes, and those for ids -----

  /** Classes and ids as keys: the empty one marks a free slot. */
  function KeyNames(hash: string -> nat): KeyKind<string> {
    KeyKind("", hash)
  }

  /** The class or id that a selector starts with, its sign included, read by regexes. */
  type KeyFinder = string -> Option<string>

  /** A key found is a sign and at least one character. */
  ghost predicate FindsKeys(keyOf: KeyFinder) {
    forall s: string :: keyOf(s).Some? ==> |keyOf(s).value| >= 2
  }

  predicate IsSimple(keyOf: KeyFinder, selector: string) {
    keyOf(selector) == Some(selector)
  }

  predicate IsComplex(keyOf: KeyFinder, selector: string) {
    keyOf(selector).Some? && keyOf(selector) != Some(selector)
  }

  /** The name without the sign. */
  function NameOf(keyOf: KeyFinder, selector: string): string {
    if keyOf(selector).Some? && keyOf(selector).value != "" then keyOf(selector).value[1..] else ""
  }

  function SimpleNames(keyOf: KeyFinder, selectors: seq<string>): set<string> {
    set s | s in selectors && IsSimple(keyOf, s) :: NameOf(keyOf, s)
  }

  function ComplexPushes(keyOf: KeyFinder, selectors: seq<string>): Pushes {
    if selectors == [] then []
    else
      var n := |selectors| - 1;
      var rest, s := ComplexPushes(keyOf, selectors[..n]), selectors[n];
      if IsComplex(keyOf, s) then rest + [(NameOf(keyOf, s), s)] else rest
  }

  lemma {:induction false} ComplexPushesAre(keyOf: KeyFinder, selectors: seq<string>, name: string, s: string)
    ensures (name, s) in ComplexPushes(keyOf, selectors) <==>
              s in selectors && IsComplex(keyOf, s) && name == NameOf(keyOf, s)
  {
    if selectors != [] {
      var n := |selectors| - 1;
      ComplexPushesAre(keyOf, selectors[..n], name, s);
      assert selectors == selectors[..n] + [selectors[n]];
    }
  }

  lemma ComplexPushesKeyed(keyOf: KeyFinder, selectors: seq<string>, kind: KeyKind<string>)
    requires FindsKeys(keyOf) && kind.empty == ""
    ensures WellKeyed(kind, ComplexPushes(keyOf, selectors))
    ensures forall n :: 0 <= n < |ComplexPushes(keyOf, selectors)| ==>
              ComplexPushes(keyOf, selectors)[n].0 == NameOf(keyOf, ComplexPushes(keyOf, selectors)[n].1)
  {
    var pushes := ComplexPushes(keyOf, selectors);
    forall n | 0 <= n < |pushes| ensures pushes[n].0 != "" && pushes[n].0 == NameOf(keyOf, pushes[n].1) {
      var p := pushes[n];
      assert p in pushes && p == (p.0, p.1);
      ComplexPushesAre(keyOf, selectors, p.0, p.1);
    }
  }

  /** One more selector: nothing more is pushed, or it is pushed under its name. */
  lemma ComplexPushesLonger(keyOf: KeyFinder, kind: KeyKind<string>, selectors: seq<string>, s: string)
    ensures var before, after := ComplexPushes(keyOf, selectors), ComplexPushes(keyOf, selectors + [s]);
            var t, name := PushedTable(kind, before), NameOf(keyOf, s);
            if IsComplex(keyOf, s) then
              && PushedTable(kind, after) == PushedInto(kind, [], t, name, s)
              && Held(kind, after) == HeldAfter(kind, [], t, Held(kind, before), name, s)
            else after == before
  {
    assert (selectors + [s])[..|selectors|] == selectors;
    OneMorePush(kind, ComplexPushes(keyOf, selectors), (NameOf(keyOf, s), s));
  }

  lemma OneMorePush(kind: KeyKind<string>, pushes: Pushes, p: (string, string))
    ensures PushedTable(kind, pushes + [p]) == PushedInto(kind, [], PushedTable(kind, pushes), p.0, p.1)
    ensures Held(kind, pushes + [p]) ==
            HeldAfter(kind, [], PushedTable(kind, pushes), Held(kind, pushes), p.0, p.1)
  {
    assert (pushes + [p])[..|pushes|] == pushes;
  }

  /** Rules that start with one sign: '.' or '#'. */
  class KeyedRules {
    const keyOf: KeyFinder
    const simple: HashIndexBuilder<string, ()>
    const complex: HashIndexBuilder<string, seq<string>>
    /** The selectors added so far. */
    ghost var added: seq<string>

    ghost predicate Valid()
      reads this, simple, complex
    {
      && FindsKeys(keyOf) && simple.kind == complex.kind && simple.kind.empty == "" && complex.defaultValue == []
      && simple.Valid() && simple.contents.Keys == SimpleNames(keyOf, added)
      && complex.Valid() && HoldsPushes(ComplexPushes(keyOf, added))
    }

    ghost predicate HoldsPushes(pushes: Pushes)
      reads this, complex
    {
      complex.AsTable() == PushedTable(complex.kind, pushes) && complex.contents == Held(complex.kind, pushes)
    }

    constructor (keyOf: KeyFinder, hash: string -> nat)
      requires FindsKeys(keyOf)
      ensures Valid() && fresh(simple) && fresh(complex) && added == []
      ensures this.keyOf == keyOf && complex.kind == KeyNames(hash)
    {
      this.keyOf, added := keyOf, [];
      assert Power2(2) == 2 * Power2(1) == 4;
      simple := new HashIndexBuilder.NewWithCapacity(KeyNames(hash), (), 4);
      complex := new HashIndexBuilder.NewWithCapacity(KeyNames(hash), [], 4);
    }

    method Add(selector: string)
      requires Valid()
      modifies this`added, simple, complex
      ensures Valid() && added == old(added) + [selector]
    {
      var key := keyOf(selector);
      if key.None? {
        SimpleNamesLonger(keyOf, added, selector);
        ComplexPushesLonger(keyOf, complex.kind, added, selector);
        added := added + [selector];
      } else if key.value == selector {
        AddSimple(key.value[1..], selector);
      } else {
        AddComplex(key.value[1..], selector);
      }
    }

    method AddSimple(name: string, ghost selector: string)
      requires Valid() && IsSimple(keyOf, selector) && name == NameOf(keyOf, selector)
      modifies this`added, simple
      ensures Valid() && added == old(added) + [selector]
    {
      SimpleNamesLonger(keyOf, added, selector);
      ComplexPushesLonger(keyOf, complex.kind, added, selector);
      Enter(simple, name);
      added := added + [selector];
    }

    method AddComplex(name: string, selector: string)
      requires Valid() && IsComplex(keyOf, selector) && name == NameOf(keyOf, selector)
      modifies this`added, complex
      ensures Valid() && added == old(added) + [selector]
    {
      SimpleNamesLonger(keyOf, added, selector);
      ComplexPushesLonger(keyOf, complex.kind, added, selector);
      var _ := PushUnder(complex, name, selector);
      added := added + [selector];
    }
  }

  /** Inserting into a set: a table that binds nothing of interest. */
  method Enter(names: HashIndexBuilder<string, ()>, name: string)
    requires names.Valid() && name != names.kind.empty
    modifies names
    ensures names.Valid() && names.contents.Keys == old(names.contents.Keys) + {name}
  {
    var _ := names.Insert(name, ());
  }

  lemma SimpleNamesLonger(keyOf: KeyFinder, selectors: seq<string>, s: string)
    ensures SimpleNames(keyOf, selectors + [s]) ==
            if IsSimple(keyOf, s) then SimpleNames(keyOf, selectors) + {NameOf(keyOf, s)}
            else SimpleNames(keyOf, selectors)
  {
  }

  // ----- all generic rules -----

  /** The selectors that start with this sign, in order. */
  function Starting(selectors: seq<string>, sign: char): seq<string> {
    if selectors == [] then []
    else
      var n := |selectors| - 1;
      var rest := Starting(selectors[..n], sign);
      if StartsWith(selectors[n], [sign]) then rest + [selectors[n]] else rest
  }

  lemma StartingLonger(selectors: seq<string>, s: string, sign: char)
    ensures Starting(selectors + [s], sign) ==
            if StartsWith(s, [sign]) then Starting(selectors, sign) + [s] else Starting(selectors, sign)
  {
    assert (selectors + [s])[..|selectors|] == selectors;
  }

  lemma {:induction false} StartingAre(selectors: seq<string>, sign: char, s: string)
    ensures s in Starting(selectors, sign) <==> s in selectors && StartsWith(s, [sign])
  {
    if selectors != [] {
      var n := |selectors| - 1;
      StartingAre(selectors[..n], sign, s);
      assert selectors == selectors[..n] + [selectors[n]];
    }
  }

  lemma {:induction false} StartingInOrder(selectors: seq<string>, sign: char)
    ensures Starting(selectors, sign) == Filtered(selectors, s => StartsWith(s, [sign]))
  {
    if selectors != [] {
      StartingInOrder(selectors[..|selectors| - 1], sign);
    }
  }

  /** The selectors that start with neither sign. */
  function Others(selectors: seq<string>): set<string> {
    set s | s in selectors && !StartsWith(s, ".") && !StartsWith(s, "#")
  }

  lemma OneSign(s: string)
    ensures StartsWith(s, ".") ==> !StartsWith(s, "#")
  {
    assert StartsWith(s, ".") ==> s[0] == s[0..1][0] == '.';
    assert StartsWith(s, "#") ==> s[0] == s[0..1][0] == '#';
  }

  /** The generic part of the cosmetic tables. */
  class GenericRules {
    const classes: KeyedRules
    const ids: KeyedRules
    var misc: set<string>

    /** No two of the tables are the same object. */
    ghost predicate Valid()
      reads this, classes, classes.simple, classes.complex, ids, ids.simple, ids.complex
    {
      && classes != ids && classes.simple != ids.simple && classes.complex != ids.complex
      && classes.Valid() && ids.Valid()
    }

    /** How classes and ids are found in a selector, and hashed. */
    ghost predicate Reads(keyOf: KeyFinder, hash: string -> nat) {
      classes.keyOf == ids.keyOf == keyOf && classes.complex.kind == ids.complex.kind == KeyNames(hash)
    }

    /** Each selector is where it belongs, in order. */
    ghost predicate Holds(selectors: seq<string>)
      reads this, classes, ids
    {
      && classes.added == Starting(selectors, '.') && ids.added == Starting(selectors, '#')
      && misc == Others(selectors)
    }

    constructor (keyOf: KeyFinder, hash: string -> nat)
      requires FindsKeys(keyOf)
      ensures Valid() && Holds([])
      ensures fresh(classes) && fresh(classes.simple) && fresh(classes.complex)
      ensures fresh(ids) && fresh(ids.simple) && fresh(ids.complex)
      ensures Reads(keyOf, hash)
    {
      classes := new KeyedRules(keyOf, hash);
      ids := new KeyedRules(keyOf, hash);
      misc := {};
    }

    method AddClass(selector: string)
      requires Valid()
      modifies classes`added, classes.simple, classes.complex
      ensures Valid() && classes.added == old(classes.added) + [selector]
    {
      classes.Add(selector);
    }

    method AddId(selector: string)
      requires Valid()
      modifies ids`added, ids.simple, ids.complex
      ensures Valid() && ids.added == old(ids.added) + [selector]
    {
      ids.Add(selector);
    }

    /** A selector goes to the table of its sign, or to the rest. */
    method Add(selector: string, ghost before: seq<string>)
      requires Valid() && Holds(before)
      modifies this`misc, classes`added, classes.simple, classes.complex, ids`added, ids.simple, ids.complex
      ensures Valid() && Holds(before + [selector])
    {
      OneSign(selector);
      SelectorsLonger(before, selector);
      if StartsWith(selector, ".") {
        AddClass(selector);
      } else if StartsWith(selector, "#") {
        AddId(selector);
      } else {
        misc := misc + {selector};
      }
    }
  }

  lemma SelectorsLonger(selectors: seq<string>, s: string)
    ensures var longer := selectors + [s];
            && Starting(longer, '.') == (if StartsWith(s, ".") then Starting(selectors, '.') + [s]
                                         else Starting(selectors, '.'))
            && Starting(longer, '#') == (if StartsWith(s, "#") then Starting(selectors, '#') + [s]
                                         else Starting(selectors, '#'))
            && Others(longer) == (if StartsWith(s, ".") || StartsWith(s, "#") then Others(selectors)
                                  else Others(selectors) + {s})
  {
    StartingLonger(selectors, s, '.');
    StartingLonger(selectors, s, '#');
    OthersLonger(selectors, s);
  }

  lemma OthersLonger(selectors: seq<string>, s: string)
    ensures Others(selectors + [s]) ==
            if StartsWith(s, ".") || StartsWith(s, "#") then Others(selectors) else Others(selectors) + {s}
  {
  }

  // ----- what a page is told -----

  function Unexcepted(selectors: seq<string>, exceptions: set<string>): seq<string> {
    if selectors == [] then []
    else
      var n := |selectors| - 1;
      if selectors[n] in exceptions then Unexcepted(selectors[..n], exceptions)
      else Unexcepted(selectors[..n], exceptions) + [selectors[n]]
  }

  lemma {:induction false} UnexceptedAre(selectors: seq<string>, exceptions: set<string>, s: string)
    ensures s in Unexcepted(selectors, exceptions) <==> s in selectors && s !in exceptions
  {
    if selectors != [] {
      var n := |selectors| - 1;
      UnexceptedAre(selectors[..n], exceptions, s);
      assert selectors == selectors[..n] + [selectors[n]];
    }
  }

  lemma {:induction false} UnexceptedInOrder(selectors: seq<string>, exceptions: set<string>)
    ensures Unexcepted(selectors, exceptions) == Filtered(selectors, s => s !in exceptions)
  {
    if selectors != [] {
      UnexceptedInOrder(selectors[..|selectors| - 1], exceptions);
    }
  }

  /** The tables of one sign, as consumed. */
  datatype Tables = Tables(
    sign: char, kind: KeyKind<string>, simpleKeys: seq<string>, simpleValues: seq<()>, complexKeys: seq<string>,
    complexValues: seq<seq<string>>)

  /** The selectors that one class or id brings: its own, and those that start with it. */
  function AnswerOne(
    sign: char, simple: set<string>, held: map<string, seq<string>>, name: string, exceptions: set<string>): seq<string>
  {
    (if name in simple && [sign] + name !in exceptions then [[sign] + name] else [])
    + Unexcepted(At(held, name), exceptions)
  }

  function Answer(
    sign: char, simple: set<string>, held: map<string, seq<string>>, names: seq<string>, exceptions: set<string>)
    : seq<string>
  {
    if names == [] then []
    else
      var n := |names| - 1;
      Answer(sign, simple, held, names[..n], exceptions) + AnswerOne(sign, simple, held, names[n], exceptions)
  }

  ghost predicate Stand(tables: Tables, simple: map<string, ()>, held: map<string, seq<string>>) {
    && Represents(tables.kind, tables.simpleKeys, tables.simpleValues, simple) && |simple| < |tables.simpleKeys|
    && Represents(tables.kind, tables.complexKeys, tables.complexValues, held) && |held| < |tables.complexKeys|
  }

  /** The loop over the classes, or that over the ids, of `hidden_class_id_selectors`. */
  method Selectors(
    tables: Tables, names: seq<string>, exceptions: set<string>, ghost simple: map<string, ()>,
    ghost held: map<string, seq<string>>)
    returns (selectors: seq<string>)
    requires Stand(tables, simple, held)
    ensures selectors == Answer(tables.sign, simple.Keys, held, names, exceptions)
  {
    selectors := [];
    for i := 0 to |names|
      invariant selectors == Answer(tables.sign, simple.Keys, held, names[..i], exceptions)
    {
      var one := SelectorsOf(tables, names[i], exceptions, simple, held);
      selectors := selectors + one;
      assert names[..i + 1][..i] == names[..i];
    }
    assert names[..|names|] == names;
  }

  method SelectorsOf(
    tables: Tables, name: string, exceptions: set<string>, ghost simple: map<string, ()>,
    ghost held: map<string, seq<string>>)
    returns (selectors: seq<string>)
    requires Stand(tables, simple, held)
    ensures selectors == AnswerOne(tables.sign, simple.Keys, held, name, exceptions)
  {
    selectors := [];
    var isSimple := GetSingle(tables.kind, tables.simpleKeys, tables.simpleValues, name, simple);
    if isSimple.Some? && [tables.sign] + name !in exceptions {
      selectors := [[tables.sign] + name];
    }
    var values := GetSingle(tables.kind, tables.complexKeys, tables.complexValues, name, held);
    if values.Some? {
      var more := Filter(values.value, exceptions);
      selectors := selectors + more;
    }
  }

  method Filter(values: seq<string>, exceptions: set<string>) returns (kept: seq<string>)
    ensures kept == Unexcepted(values, exceptions)
  {
    kept := [];
    for i := 0 to |values|
      invariant kept == Unexcepted(values[..i], exceptions)
    {
      if values[i] !in exceptions {
        kept := kept + [values[i]];
      }
      assert values[..i + 1][..i] == values[..i];
    }
    assert values[..|values|] == values;
  }

  method Consume(rules: KeyedRules, sign: char) returns (tables: Tables)
    requires rules.Valid()
    ensures tables.sign == sign && tables.kind == rules.complex.kind
    ensures Stand(tables, rules.simple.contents, rules.complex.contents)
  {
    var simple, complex := rules.simple, rules.complex;
    tables := Tables(sign, complex.kind, simple.indexes, simple.values, complex.indexes, complex.values);
  }

  // ----- what the answer means, in terms of the selectors added -----

  /** What the answer for these names is meant to hold. */
  ghost predicate Asked(
    keyOf: KeyFinder, sign: char, added: seq<string>, names: seq<string>, exceptions: set<string>, s: string)
  {
    && s !in exceptions
    && exists a :: a in added && keyOf(a).Some? && NameOf(keyOf, a) in names
         && s == if IsSimple(keyOf, a) then [sign] + NameOf(keyOf, a) else a
  }

  ghost function TableAnswer(
    keyOf: KeyFinder, kind: KeyKind<string>, sign: char, added: seq<string>, names: seq<string>,
    exceptions: set<string>): seq<string>
  {
    Answer(sign, SimpleNames(keyOf, added), Held(kind, ComplexPushes(keyOf, added)), names, exceptions)
  }

  ghost function MeantAnswer(
    keyOf: KeyFinder, sign: char, added: seq<string>, names: seq<string>, exceptions: set<string>): seq<string>
  {
    Answer(sign, SimpleNames(keyOf, added), Meant(ComplexPushes(keyOf, added)), names, exceptions)
  }

  lemma {:induction false} AnswerIs(
    sign: char, simple: set<string>, held: map<string, seq<string>>, names: seq<string>, exceptions: set<string>,
    s: string)
    ensures s in Answer(sign, simple, held, names, exceptions) <==>
              && s !in exceptions
              && exists name :: name in names && ((name in simple && s == [sign] + name) || s in At(held, name))
  {
    if names != [] {
      var n := |names| - 1;
      AnswerIs(sign, simple, held, names[..n], exceptions, s);
      AnswerOneIs(sign, simple, held, names[n], exceptions, s);
      assert names == names[..n] + [names[n]];
    }
  }

  lemma AnswerOneIs(
    sign: char, simple: set<string>, held: map<string, seq<string>>, name: string, exceptions: set<string>, s: string)
    ensures s in AnswerOne(sign, simple, held, name, exceptions) <==>
              s !in exceptions && ((name in simple && s == [sign] + name) || s in At(held, name))
  {
    UnexceptedAre(At(held, name), exceptions, s);
  }

  /** The intended answer, set by set: own names and selectors that start with a name asked for. */
  lemma MeantAnswerMeans(
    keyOf: KeyFinder, sign: char, added: seq<string>, names: seq<string>, exceptions: set<string>, s: string)
    ensures s in MeantAnswer(keyOf, sign, added, names, exceptions) <==>
              Asked(keyOf, sign, added, names, exceptions, s)
  {
    var simple, pushes := SimpleNames(keyOf, added), ComplexPushes(keyOf, added);
    AnswerIs(sign, simple, Meant(pushes), names, exceptions, s);
    forall name ensures s in At(Meant(pushes), name) <==>
                          s in added && IsComplex(keyOf, s) && name == NameOf(keyOf, s)
    {
      MeantWasPushed(pushes, name, s);
      ComplexPushesAre(keyOf, added, name, s);
    }
  }

  lemma KeptAnswerMeans(
    keyOf: KeyFinder, kind: KeyKind<string>, sign: char, added: seq<string>, names: seq<string>,
    exceptions: set<string>, s: string)
    requires FindsKeys(keyOf) && kind.empty == "" && AllKept(kind, ComplexPushes(keyOf, added))
    ensures s in TableAnswer(keyOf, kind, sign, added, names, exceptions) <==>
              Asked(keyOf, sign, added, names, exceptions, s)
  {
    ComplexPushesKeyed(keyOf, added, kind);
    KeptIsMeant(kind, ComplexPushes(keyOf, added));
    MeantAnswerMeans(keyOf, sign, added, names, exceptions, s);
  }

  /** With either list of selectors, every question gets the same answer. */
  ghost predicate AnswerAlike(
    sign: char, simple: set<string>, held: map<string, seq<string>>, meant: map<string, seq<string>>)
  {
    forall names, exceptions ::
      Answer(sign, simple, held, names, exceptions) == Answer(sign, simple, meant, names, exceptions)
  }

  /**
   * The answers are the intended ones, for all names and exceptions, exactly when every push of a
   * selector kept the slot that was computed for it, which growth of the table may prevent.
   */
  lemma AnswersMeantExactlyWhen(keyOf: KeyFinder, kind: KeyKind<string>, sign: char, added: seq<string>)
    requires FindsKeys(keyOf) && kind.empty == ""
    ensures var pushes := ComplexPushes(keyOf, added);
            AnswerAlike(sign, SimpleNames(keyOf, added), Held(kind, pushes), Meant(pushes)) <==> AllKept(kind, pushes)
  {
    var pushes := ComplexPushes(keyOf, added);
    ComplexPushesKeyed(keyOf, added, kind);
    HeldIsMeantExactlyWhen(kind, pushes, s => NameOf(keyOf, s));
    if AnswerAlike(sign, SimpleNames(keyOf, added), Held(kind, pushes), Meant(pushes)) {
      AnswersShowLists(sign, SimpleNames(keyOf, added), Held(kind, pushes), Meant(pushes));
      AllKeptByLists(kind, pushes, s => NameOf(keyOf, s));
    }
  }

  /** Asking for one name without exceptions shows what the table holds under it. */
  lemma AnswersShowLists(
    sign: char, simple: set<string>, held: map<string, seq<string>>, meant: map<string, seq<string>>)
    requires AnswerAlike(sign, simple, held, meant)
    ensures forall name :: At(held, name) == At(meant, name)
  {
    forall name ensures At(held, name) == At(meant, name) {
      AnswerToOne(sign, simple, held, name);
      AnswerToOne(sign, simple, meant, name);
      assert Answer(sign, simple, held, [name], {}) == Answer(sign, simple, meant, [name], {});
      var own := if name in simple then [[sign] + name] else [];
      assert (own + At(held, name))[|own|..] == (own + At(meant, name))[|own|..];
    }
  }

  lemma AnswerToOne(sign: char, simple: set<string>, held: map<string, seq<string>>, name: string)
    ensures Answer(sign, simple, held, [name], {}) ==
            (if name in simple then [[sign] + name] else []) + At(held, name)
  {
    assert [name][..0] == [];
    NothingExcepted(At(held, name));
  }

  lemma {:induction false} NothingExcepted(selectors: seq<string>)
    ensures Unexcepted(selectors, {}) == selectors
  {
    if selectors != [] {
      NothingExcepted(selectors[..|selectors| - 1]);
    }
  }

  lemma AllKeptByLists(kind: KeyKind<string>, pushes: Pushes, keyOf: string -> string)
    requires WellKeyed(kind, pushes)
    requires forall n :: 0 <= n < |pushes| ==> pushes[n].0 == keyOf(pushes[n].1)
    requires forall name :: At(Held(kind, pushes), name) == At(Meant(pushes), name)
    ensures AllKept(kind, pushes)
  {
    forall n | 0 <= n < |pushes| ensures KeepsAt(kind, pushes, n) {
      var item, key := pushes[n].1, pushes[n].0;
      MeantCount(pushes, item, key);
      HeldCount(kind, pushes, item, key);
      assert ItemKept(kind, pushes, item);
    }
  }

  /** Whatever is lost or misplaced: the answer holds only selectors that were added, none of them excepted. */
  lemma AnswersAreAdded(
    keyOf: KeyFinder, kind: KeyKind<string>, sign: char, added: seq<string>, names: seq<string>,
    exceptions: set<string>, s: string)
    requires FindsKeys(keyOf) && kind.empty == "" && s in TableAnswer(keyOf, kind, sign, added, names, exceptions)
    ensures s !in exceptions
    ensures exists a :: a in added && keyOf(a).Some? && s == if IsSimple(keyOf, a) then [sign] + NameOf(keyOf, a) else a
  {
    var simple, pushes := SimpleNames(keyOf, added), ComplexPushes(keyOf, added);
    AnswerIs(sign, simple, Held(kind, pushes), names, exceptions, s);
    var name :| name in names && ((name in simple && s == [sign] + name) || s in At(Held(kind, pushes), name));
    if s in At(Held(kind, pushes), name) {
      ComplexPushesKeyed(keyOf, added, kind);
      HeldWasPushed(kind, pushes, name, s);
      var n :| 0 <= n < |pushes| && pushes[n].1 == s;
      assert pushes[n] in pushes && pushes[n] == (pushes[n].0, s);
      ComplexPushesAre(keyOf, added, pushes[n].0, s);
    }
  }

  // ----- three rules of which the last is lost -----

  /** A hash that may stand for any: the length of the name. */
  const ByLength: KeyKind<string> := KeyNames((s: string) => |s|)

  lemma SlotByLength(n: nat, capacity: nat)
    requires n < capacity
    ensures Slot(n, capacity, 0) == n
  {
    assert Triangular(0) == 0;
  }

  /** A free home slot is where the search ends. */
  lemma HomeIsFound(keys: seq<string>, key: string, home: nat)
    requires home < |keys| && Slot(|key|, |keys|, 0) == home && keys[home] == ""
    ensures Search(ByLength, keys, key, 0) == home
  {
  }

  /** A new name that does not make the table grow. */
  lemma PushedHome(t: Table<string, seq<string>>, key: string, item: string)
    requires |t.keys| == |t.values| > |key| > 0 && t.keys[|key|] == "" && (t.size + 1) * 2 <= |t.keys|
    ensures var u := PushedInto(ByLength, [], t, key, item);
            u.keys == t.keys[|key| := key] && u.size == t.size + 1 && |u.values| == |t.keys|
  {
    SlotByLength(|key|, |t.keys|);
    HomeIsFound(t.keys, key, |key|);
  }

  lemma FirstName(x: string)
    ensures var t := PushedTable(ByLength, [("a", x)]);
            t.keys == ["", "a", "", ""] && t.size == 1 && |t.values| == 4
  {
    NoNames();
    OneMorePush(ByLength, [], ("a", x));
    assert [] + [("a", x)] == [("a", x)];
    PushedHome(PushedTable(ByLength, []), "a", x);
  }

  lemma NoNames()
    ensures var t := PushedTable(ByLength, []);
            t.keys == ["", "", "", ""] && t.size == 0 && |t.values| == 4
  {
  }

  /** The table after "a" and "bb": the two names in their home slots. */
  lemma TwoNames(x: string, y: string)
    ensures var t := PushedTable(ByLength, [("a", x), ("bb", y)]);
            t.keys == ["", "a", "bb", ""] && t.size == 2 && |t.values| == 4
  {
    FirstName(x);
    OneMorePush(ByLength, [("a", x)], ("bb", y));
    assert [("a", x)] + [("bb", y)] == [("a", x), ("bb", y)];
    PushedHome(PushedTable(ByLength, [("a", x)]), "bb", y);
  }

  /** Rehashing moves the third name away from the slot it had: the slot is free afterwards. */
  lemma ThirdNameMoves(key: string, values: seq<seq<string>>)
    requires |key| == 7 && |values| == 4
    ensures Rehashed(ByLength, [], ["", "a", "bb", key], values, 4, 8).0 == ["", "a", "bb", "", "", "", "", key]
  {
    var keys := ["", "a", "bb", key];
    var fresh8 := ["", "", "", "", "", "", "", ""];
    assert Rehashed(ByLength, [], keys, values, 0, 8).0 == fresh8;
    assert Rehashed(ByLength, [], keys, values, 1, 8).0 == fresh8;
    SlotByLength(1, 8);
    HomeIsFound(fresh8, "a", 1);
    assert Rehashed(ByLength, [], keys, values, 2, 8).0 == fresh8[1 := "a"];
    SlotByLength(2, 8);
    HomeIsFound(fresh8[1 := "a"], "bb", 2);
    assert Rehashed(ByLength, [], keys, values, 3, 8).0 == fresh8[1 := "a"][2 := "bb"];
    SlotByLength(7, 8);
    HomeIsFound(fresh8[1 := "a"][2 := "bb"], key, 7);
    assert Rehashed(ByLength, [], keys, values, 4, 8).0 == fresh8[1 := "a"][2 := "bb"][7 := key];
  }

  /** The third of three names makes the table grow, and what is pushed under it is dropped. */
  lemma ThirdPushIsLost(x: string, y: string, z: string)
    requires x != z && y != z
    ensures z !in At(Held(ByLength, [("a", x), ("bb", y), ("ccccccc", z)]), "ccccccc")
  {
    var key := "ccccccc";
    ThirdIsNotKept(key, x, y);
    LastIsLost([("a", x), ("bb", y)], key, z);
    assert [("a", x), ("bb", y)] + [(key, z)] == [("a", x), ("bb", y), (key, z)];
  }

  /** A push that does not keep its slot is lost, if nothing like it was pushed before. */
  lemma LastIsLost(pushes: Pushes, key: string, item: string)
    requires WellKeyed(ByLength, pushes) && key != ""
    requires forall n :: 0 <= n < |pushes| ==> pushes[n].1 != item
    requires OwnerOfSlot(ByLength, [], PushedTable(ByLength, pushes), key, []) == ""
    ensures item !in At(Held(ByLength, pushes + [(key, item)]), key)
  {
    var longer := pushes + [(key, item)];
    assert longer[..|pushes|] == pushes;
    assert !KeepsAt(ByLength, longer, |pushes|);
    NeverPushed(pushes, item);
    HeldCount(ByLength, longer, item, key);
    assert !ItemKept(ByLength, longer, item);
  }

  lemma {:induction false} NeverPushed(pushes: Pushes, item: string)
    requires forall n :: 0 <= n < |pushes| ==> pushes[n].1 != item
    ensures Times(pushes, item) == 0
  {
    if pushes != [] {
      NeverPushed(pushes[..|pushes| - 1], item);
    }
  }

  lemma ThirdIsNotKept(key: string, x: string, y: string)
    requires |key| == 7
    ensures OwnerOfSlot(ByLength, [], PushedTable(ByLength, [("a", x), ("bb", y)]), key, []) == ""
  {
    var t := PushedTable(ByLength, [("a", x), ("bb", y)]);
    TwoNames(x, y);
    assert Slot(7, 4, 0) == 3 by { assert Triangular(0) == 0; }
    HomeIsFound(t.keys, key, 3);
    assert t.keys[3 := key] == ["", "a", "bb", key];
    ThirdNameMoves(key, t.values[3 := []]);
  }
}

/** The cache of compiled regexes with timed discarding. */
module RegexManagement {
  import opened Prelude
  import opened Network

  // ----- compilation -----

  datatype Anchors = Anchors(right: bool, left: bool, complete: bool)

  /** The regex library: which single patterns compile, and what a compiled pattern matches. */
  datatype RegexLibrary = RegexLibrary(
    compiles: (string, Anchors) -> bool,
    isMatch: (string, Anchors, string) -> bool)

  datatype CompiledRegex =
    | Compiled(pattern: string, anchors: Anchors)
    | CompiledSet(patterns: seq<string>, anchors: Anchors)
    | MatchAll
    | RegexParsingError

  function CompileRegex(lib: RegexLibrary, patterns: seq<string>, anchors: Anchors): CompiledRegex {
    if "" in patterns || patterns == [] then MatchAll
    else if exists i :: 0 <= i < |patterns| && !lib.compiles(patterns[i], anchors) then RegexParsingError
    else if |patterns| == 1 then Compiled(patterns[0], anchors)
    else CompiledSet(patterns, anchors)
  }

  predicate IsMatch(lib: RegexLibrary, regex: CompiledRegex, text: string) {
    match regex
    case MatchAll => true
    case RegexParsingError => false
    case Compiled(p, anchors) => lib.isMatch(p, anchors, text)
    case CompiledSet(ps, anchors) => exists i :: 0 <= i < |ps| && lib.isMatch(ps[i], anchors, text)
  }

  function AnchorsOf(mask: Mask): Anchors {
    Anchors(IsRightAnchor in mask, IsLeftAnchor in mask, IsCompleteRegex in mask)
  }

  function MakeRegex(lib: RegexLibrary, mask: Mask, patterns: seq<string>): CompiledRegex {
    CompileRegex(lib, patterns, AnchorsOf(mask))
  }

  predicate UsesRegex(mask: Mask) {
    IsRegex in mask || IsCompleteRegex in mask
  }

  /** What a lookup is supposed to answer: compile now, match, and keep nothing. */
  predicate MatchesAfresh(lib: RegexLibrary, mask: Mask, patterns: seq<string>, text: string) {
    UsesRegex(mask) ==> IsMatch(lib, MakeRegex(lib, mask, patterns), text)
  }

  // ----- the cache as a state machine -----

  datatype Entry = Entry(regex: Option<CompiledRegex>, lastUsed: nat, usageCount: nat)

  datatype Policy = Policy(cleanupInterval: nat, discardUnusedTime: nat)

  datatype State = State(
    entries: map<nat, Entry>,
    compiledCount: nat,
    now: nat,
    lastCleanup: nat,
    policy: Policy)

  /** What a key stands for: the mask and patterns of one stored filter. */
  datatype Subject = Subject(mask: Mask, patterns: seq<string>)

  datatype Event =
    | Match(key: nat, text: string)
    | UpdateTime(instant: nat)
    | Cleanup
    | DiscardRegex(key: nat)
    | SetDiscardPolicy(policy: Policy)

  function Elapsed(later: nat, earlier: nat): nat {
    if later >= earlier then later - earlier else 0
  }

  predicate Live(s: State, key: nat) {
    key in s.entries && s.entries[key].regex.Some?
  }

  function Swept(s: State): State {
    s.(entries := map k | k in s.entries ::
         if Elapsed(s.now, s.entries[k].lastUsed) >= s.policy.discardUnusedTime
         then s.entries[k].(regex := None) else s.entries[k])
  }

  function Used(lib: RegexLibrary, subject: Subject, s: State, key: nat): State {
    if !UsesRegex(subject.mask) then s
    else
      var count := if key in s.entries then s.entries[key].usageCount + 1 else 1;
      var regex := if Live(s, key) then s.entries[key].regex
                   else Some(MakeRegex(lib, subject.mask, subject.patterns));
      s.(entries := s.entries[key := Entry(regex, s.now, count)],
         compiledCount := s.compiledCount + (if Live(s, key) then 0 else 1))
  }

  function Ticked(s: State, instant: nat): State {
    var t := s.(now := instant);
    if s.policy.cleanupInterval != 0 && Elapsed(instant, s.lastCleanup) >= s.policy.cleanupInterval
    then Swept(t.(lastCleanup := instant))
    else t
  }

  function Step(lib: RegexLibrary, naming: nat -> Subject, s: State, e: Event): State {
    match e
    case Match(key, _) => Used(lib, naming(key), s, key)
    case UpdateTime(instant) => Ticked(s, instant)
    case Cleanup => Swept(s)
    case DiscardRegex(key) =>
      if key in s.entries then s.(entries := s.entries[key := s.entries[key].(regex := None)]) else s
    case SetDiscardPolicy(policy) => s.(policy := policy)
  }

  function Run(lib: RegexLibrary, naming: nat -> Subject, s: State, events: seq<Event>): State {
    if events == [] then s
    else Step(lib, naming, Run(lib, naming, s, events[..|events| - 1]), events[|events| - 1])
  }

  /** Created at two successive readings of the clock: one for `now`, one for `last_cleanup`. */
  function Initial(now: nat, lastCleanup: nat, policy: Policy): State {
    State(map[], 0, now, lastCleanup, policy)
  }

  // ----- transparency -----

  /** Every live regex is what its key would compile to. */
  ghost predicate Faithful(lib: RegexLibrary, naming: nat -> Subject, s: State) {
    forall k :: Live(s, k) ==>
      s.entries[k].regex.value == MakeRegex(lib, naming(k).mask, naming(k).patterns)
  }

  /** In every run from creation, every cached regex is faithful. */
  lemma {:induction false} RunsAreFaithful(
    lib: RegexLibrary, naming: nat -> Subject, now: nat, lastCleanup: nat, policy: Policy, events: seq<Event>)
    ensures Faithful(lib, naming, Run(lib, naming, Initial(now, lastCleanup, policy), events))
  {
    if events != [] {
      var n := |events| - 1;
      RunsAreFaithful(lib, naming, now, lastCleanup, policy, events[..n]);
      var s := Run(lib, naming, Initial(now, lastCleanup, policy), events[..n]);
      StepIsFaithful(lib, naming, s, events[n]);
    }
  }

  lemma StepIsFaithful(lib: RegexLibrary, naming: nat -> Subject, s: State, e: Event)
    requires Faithful(lib, naming, s)
    ensures Faithful(lib, naming, Step(lib, naming, s, e))
  {
  }

  /** The answer read from the entry that a lookup leaves in the cache. */
  predicate CachedAnswer(lib: RegexLibrary, naming: nat -> Subject, s: State, key: nat, text: string) {
    UsesRegex(naming(key).mask) ==>
      IsMatch(lib, Used(lib, naming(key), s, key).entries[key].regex.value, text)
  }

  /** The cache is invisible: after any run, a lookup answers as if it compiled afresh. */
  lemma CacheIsTransparent(
    lib: RegexLibrary, naming: nat -> Subject, now: nat, lastCleanup: nat, policy: Policy, events: seq<Event>,
    key: nat, text: string)
    ensures CachedAnswer(lib, naming, Run(lib, naming, Initial(now, lastCleanup, policy), events), key, text)
            <==> MatchesAfresh(lib, naming(key).mask, naming(key).patterns, text)
  {
    RunsAreFaithful(lib, naming, now, lastCleanup, policy, events);
  }

  // ----- the compile counter -----

  function LiveKeys(s: State): set<nat> {
    set k | k in s.entries && Live(s, k)
  }

  /** Did this event compile a regex? */
  function Compilations(naming: nat -> Subject, s: State, e: Event): nat {
    if e.Match? && UsesRegex(naming(e.key).mask) && !Live(s, e.key) then 1 else 0
  }

  function TotalCompilations(lib: RegexLibrary, naming: nat -> Subject, s: State, events: seq<Event>): nat {
    if events == [] then 0
    else
      var front := events[..|events| - 1];
      TotalCompilations(lib, naming, s, front)
      + Compilations(naming, Run(lib, naming, s, front), events[|events| - 1])
  }

  /** The counter is the number of compilations, and there are never more live regexes than that. */
  lemma {:induction false} CounterIsTotal(
    lib: RegexLibrary, naming: nat -> Subject, now: nat, lastCleanup: nat, policy: Policy, events: seq<Event>)
    ensures var s := Run(lib, naming, Initial(now, lastCleanup, policy), events);
            s.compiledCount == TotalCompilations(lib, naming, Initial(now, lastCleanup, policy), events)
            && |LiveKeys(s)| <= s.compiledCount
  {
    if events != [] {
      var front := events[..|events| - 1];
      CounterIsTotal(lib, naming, now, lastCleanup, policy, front);
      var s := Run(lib, naming, Initial(now, lastCleanup, policy), front);
      LiveKeysGrowByCompiling(lib, naming, s, events[|events| - 1]);
    }
  }

  lemma LiveKeysGrowByCompiling(lib: RegexLibrary, naming: nat -> Subject, s: State, e: Event)
    ensures |LiveKeys(Step(lib, naming, s, e))| <= |LiveKeys(s)| + Compilations(naming, s, e)
  {
    var live, added := LiveKeys(Step(lib, naming, s, e)), if Compilations(naming, s, e) == 1 then {e.key} else {};
    forall k | k in live ensures k in LiveKeys(s) + added {
      NewlyLive(lib, naming, s, e, k);
    }
    SubsetCount(live, LiveKeys(s) + added);
  }

  /** Only compiling makes a regex live. */
  lemma NewlyLive(lib: RegexLibrary, naming: nat -> Subject, s: State, e: Event, k: nat)
    requires Live(Step(lib, naming, s, e), k)
    ensures Live(s, k) || (Compilations(naming, s, e) == 1 && e.key == k)
  {
  }

  // ----- the idle bound -----

  /** Time does not run backwards and the policy is not changed. */
  ghost predicate Steady(events: seq<Event>, from: nat) {
    && (forall i :: 0 <= i < |events| ==> !events[i].SetDiscardPolicy?)
    && (forall i :: 0 <= i < |events| && events[i].UpdateTime? ==> events[i].instant >= from)
    && (forall i, j :: 0 <= i < j < |events| && events[i].UpdateTime? && events[j].UpdateTime? ==>
          events[i].instant <= events[j].instant)
  }

  /** `skew` is how much later `last_cleanup` was read than `now` at creation. */
  ghost predicate IdleInvariant(s: State, skew: nat) {
    && s.lastCleanup <= s.now + skew
    && forall k :: Live(s, k) ==>
         && s.entries[k].lastUsed <= s.now
         && (s.entries[k].lastUsed + skew >= s.lastCleanup
             || s.entries[k].lastUsed + s.policy.discardUnusedTime > s.lastCleanup)
  }

  lemma StepKeepsIdleInvariant(lib: RegexLibrary, naming: nat -> Subject, s: State, e: Event, skew: nat)
    requires IdleInvariant(s, skew) && !e.SetDiscardPolicy?
    requires e.UpdateTime? ==> e.instant >= s.now
    ensures IdleInvariant(Step(lib, naming, s, e), skew)
  {
  }

  lemma {:induction false} RunKeepsIdleInvariant(
    lib: RegexLibrary, naming: nat -> Subject, now: nat, skew: nat, policy: Policy, events: seq<Event>)
    requires Steady(events, now)
    ensures var s := Run(lib, naming, Initial(now, now + skew, policy), events);
            && IdleInvariant(s, skew) && s.policy == policy
            && (s.now == now || exists i :: 0 <= i < |events| && events[i] == UpdateTime(s.now))
  {
    if events != [] {
      var n := |events| - 1;
      RunKeepsIdleInvariant(lib, naming, now, skew, policy, events[..n]);
      var s := Run(lib, naming, Initial(now, now + skew, policy), events[..n]);
      StepKeepsIdleInvariant(lib, naming, s, events[n], skew);
      if events[n].UpdateTime? {
        assert events[n] == UpdateTime(Step(lib, naming, s, events[n]).now);
      } else if s.now != now {
        var i :| 0 <= i < n && events[..n][i] == UpdateTime(s.now);
        assert events[i] == UpdateTime(Step(lib, naming, s, events[n]).now);
      }
    }
  }

  /**
   * After every `update_time`, no live regex has been idle for the discard time plus the cleanup
   * interval (plus the creation skew, zero when both clock readings agree).
   */
  lemma IdleBound(
    lib: RegexLibrary, naming: nat -> Subject, now: nat, skew: nat, policy: Policy, events: seq<Event>,
    instant: nat, key: nat)
    requires Steady(events + [UpdateTime(instant)], now) && policy.cleanupInterval > 0
    ensures var s := Run(lib, naming, Initial(now, now + skew, policy), events + [UpdateTime(instant)]);
            Live(s, key) ==>
              Elapsed(s.now, s.entries[key].lastUsed)
              < policy.discardUnusedTime + policy.cleanupInterval + skew
  {
    var all := events + [UpdateTime(instant)];
    assert all[..|all| - 1] == events;
    RunKeepsIdleInvariant(lib, naming, now, skew, policy, all);
    assert Steady(events, now) by {
      assert forall i :: 0 <= i < |events| ==> all[i] == events[i];
    }
    RunKeepsIdleInvariant(lib, naming, now, skew, policy, events);
  }

  // ----- what is live -----

  /** Does the event sweep, and at what time? */
  function SweepTime(s: State, e: Event): Option<nat> {
    match e
    case Cleanup => Some(s.now)
    case UpdateTime(instant) =>
      if s.policy.cleanupInterval != 0 && Elapsed(instant, s.lastCleanup) >= s.policy.cleanupInterval
      then Some(instant) else None
    case _ => None
  }

  /** The event discards the key by name, or sweeps it because it was idle for the discard time. */
  predicate Discards(s: State, e: Event, key: nat) {
    || e == DiscardRegex(key)
    || (key in s.entries && SweepTime(s, e).Some?
        && Elapsed(SweepTime(s, e).value, s.entries[key].lastUsed) >= s.policy.discardUnusedTime)
  }

  predicate Looks(naming: nat -> Subject, e: Event, key: nat) {
    e.Match? && e.key == key && UsesRegex(naming(key).mask)
  }

  lemma LiveAfter(lib: RegexLibrary, naming: nat -> Subject, s: State, e: Event, key: nat)
    ensures Live(Step(lib, naming, s, e), key) <==> Looks(naming, e, key) || (Live(s, key) && !Discards(s, e, key))
  {
  }

  /** The event at `j` of the run discards the key. */
  predicate DiscardedAt(lib: RegexLibrary, naming: nat -> Subject, s: State, events: seq<Event>, key: nat, j: nat)
    requires j < |events|
  {
    Discards(Run(lib, naming, s, events[..j]), events[j], key)
  }

  /** The key is looked up at `i`, and nothing discards it from then on. */
  ghost predicate KeptSince(
    lib: RegexLibrary, naming: nat -> Subject, s: State, events: seq<Event>, key: nat, i: nat)
    requires i < |events|
  {
    && Looks(naming, events[i], key)
    && forall j :: i < j < |events| ==> !DiscardedAt(lib, naming, s, events, key, j)
  }

  /** In every run, a regex is live exactly when no event has discarded it since it was last looked up. */
  lemma {:induction false} LiveExactlyWhen(
    lib: RegexLibrary, naming: nat -> Subject, now: nat, lastCleanup: nat, policy: Policy, events: seq<Event>,
    key: nat)
    ensures var s := Initial(now, lastCleanup, policy);
            Live(Run(lib, naming, s, events), key) <==>
              exists i :: 0 <= i < |events| && KeptSince(lib, naming, s, events, key, i)
  {
    var s := Initial(now, lastCleanup, policy);
    if events != [] {
      var n := |events| - 1;
      var front, e := events[..n], events[n];
      LiveExactlyWhen(lib, naming, now, lastCleanup, policy, front, key);
      LiveAfter(lib, naming, Run(lib, naming, s, front), e, key);
      forall i | 0 <= i < n
        ensures KeptSince(lib, naming, s, events, key, i) <==>
                  KeptSince(lib, naming, s, front, key, i) && !DiscardedAt(lib, naming, s, events, key, n)
      {
        KeptOneMore(lib, naming, s, events, key, i);
      }
      assert Looks(naming, e, key) <==> KeptSince(lib, naming, s, events, key, n);
    }
  }

  lemma KeptOneMore(lib: RegexLibrary, naming: nat -> Subject, s: State, events: seq<Event>, key: nat, i: nat)
    requires i < |events| - 1
    ensures var n := |events| - 1;
            KeptSince(lib, naming, s, events, key, i) <==>
              KeptSince(lib, naming, s, events[..n], key, i) && !DiscardedAt(lib, naming, s, events, key, n)
  {
    var n := |events| - 1;
    var front := events[..n];
    forall j | 0 <= j < n
      ensures DiscardedAt(lib, naming, s, front, key, j) <==> DiscardedAt(lib, naming, s, events, key, j)
    {
      assert front[..j] == events[..j];
    }
  }

  // ----- the manager -----

  class RegexManager {
    const lib: RegexLibrary
    /** What each key stands for, as long as the manager lives. */
    ghost const naming: nat -> Subject
    var entries: map<nat, Entry>
    var compiledRegexCount: nat
    var now: nat
    var lastCleanup: nat
    var discardPolicy: Policy

    ghost function Snapshot(): State
      reads this
    {
      State(entries, compiledRegexCount, now, lastCleanup, discardPolicy)
    }

    ghost predicate Valid()
      reads this
    {
      Faithful(lib, naming, Snapshot())
    }

    constructor (lib: RegexLibrary, ghost naming: nat -> Subject, now: nat, lastCleanup: nat, policy: Policy)
      ensures Valid() && Snapshot() == Initial(now, lastCleanup, policy)
      ensures this.lib == lib && this.naming == naming
    {
      this.lib, this.naming := lib, naming;
      this.entries, this.compiledRegexCount := map[], 0;
      this.now, this.lastCleanup, this.discardPolicy := now, lastCleanup, policy;
    }

    /** The answer does not depend on the cache. */
    method Matches(mask: Mask, patterns: seq<string>, key: nat, text: string) returns (matched: bool)
      requires Valid() && naming(key) == Subject(mask, patterns)
      modifies this
      ensures Valid() && Snapshot() == Step(lib, naming, old(Snapshot()), Match(key, text))
      ensures matched == MatchesAfresh(lib, mask, patterns, text)
    {
      if IsRegex !in mask && IsCompleteRegex !in mask {
        return true;
      }
      if key in entries {
        var v := entries[key];
        v := v.(usageCount := v.usageCount + 1, lastUsed := now);
        assert v.regex.Some? <==> Live(old(Snapshot()), key);
        if v.regex.None? {
          v := v.(regex := Some(MakeRegex(lib, mask, patterns)));
          compiledRegexCount := compiledRegexCount + 1;
        }
        entries := entries[key := v];
        matched := IsMatch(lib, v.regex.value, text);
      } else {
        compiledRegexCount := compiledRegexCount + 1;
        var regex := MakeRegex(lib, mask, patterns);
        entries := entries[key := Entry(Some(regex), now, 1)];
        matched := IsMatch(lib, regex, text);
      }
    }

    method UpdateTime(instant: nat)
      requires Valid()
      modifies this
      ensures Valid() && Snapshot() == Step(lib, naming, old(Snapshot()), Event.UpdateTime(instant))
    {
      now := instant;
      if discardPolicy.cleanupInterval != 0 && Elapsed(now, lastCleanup) >= discardPolicy.cleanupInterval {
        lastCleanup := now;
        Cleanup();
      }
    }

    method Cleanup()
      requires Valid()
      modifies this
      ensures Valid() && Snapshot() == Step(lib, naming, old(Snapshot()), Event.Cleanup)
    {
      var pending := entries.Keys;
      while pending != {}
        invariant Valid() && pending <= entries.Keys == old(entries).Keys
        invariant Snapshot() == old(Snapshot()).(entries := entries)
        invariant forall k :: k in entries ==>
                    entries[k] == if k in pending then old(entries)[k] else Swept(old(Snapshot())).entries[k]
        decreases pending
      {
        var k :| k in pending;
        if Elapsed(now, entries[k].lastUsed) >= discardPolicy.discardUnusedTime {
          entries := entries[k := entries[k].(regex := None)];
        }
        pending := pending - {k};
      }
      assert entries == Swept(old(Snapshot())).entries;
    }

    method SetDiscardPolicy(policy: Policy)
      requires Valid()
      modifies this
      ensures Valid() && Snapshot() == Step(lib, naming, old(Snapshot()), Event.SetDiscardPolicy(policy))
    {
      discardPolicy := policy;
    }

    method DiscardRegex(key: nat)
      requires Valid()
      modifies this
      ensures Valid() && Snapshot() == Step(lib, naming, old(Snapshot()), Event.DiscardRegex(key))
    {
      if key in entries {
        entries := entries[key := entries[key].(regex := None)];
      }
    }
  }
}

/** The state of the regex cache after a run, read off the events alone. */
module RegexRuns {
  import opened Prelude
  import opened Network
  import opened RegexManagement

  // ----- what the events say -----

  /** How a manager starts: its clock, when it last cleaned up, and its policy. */
  datatype Start = Start(now: nat, lastCleanup: nat, policy: Policy)

  function After(lib: RegexLibrary, naming: nat -> Subject, start: Start, events: seq<Event>): State {
    Run(lib, naming, Initial(start.now, start.lastCleanup, start.policy), events)
  }

  /** The last reading of the clock. */
  function Clock(start: Start, events: seq<Event>): nat {
    if events == [] then start.now
    else
      var n := |events| - 1;
      if events[n].UpdateTime? then events[n].instant else Clock(start, events[..n])
  }

  /** The policy set last. */
  function PolicyAfter(start: Start, events: seq<Event>): Policy {
    if events == [] then start.policy
    else
      var n := |events| - 1;
      if events[n].SetDiscardPolicy? then events[n].policy else PolicyAfter(start, events[..n])
  }

  /** A cleanup is due an interval after the last one, if there is an interval. */
  predicate Due(policy: Policy, last: nat, instant: nat) {
    policy.cleanupInterval != 0 && instant >= last + policy.cleanupInterval
  }

  /** When a cleanup was due last. */
  function LastDue(start: Start, events: seq<Event>): nat {
    if events == [] then start.lastCleanup
    else
      var n := |events| - 1;
      var last := LastDue(start, events[..n]);
      if events[n].UpdateTime? && Due(PolicyAfter(start, events[..n]), last, events[n].instant) then events[n].instant
      else last
  }

  /** The event looks up the regex of the key, which has one. */
  predicate IsLookup(naming: nat -> Subject, e: Event, key: nat) {
    match e
    case Match(k, _) => k == key && (IsRegex in naming(key).mask || IsCompleteRegex in naming(key).mask)
    case _ => false
  }

  function Lookups(naming: nat -> Subject, events: seq<Event>, key: nat): nat {
    if events == [] then 0
    else Lookups(naming, events[..|events| - 1], key) + if IsLookup(naming, events[|events| - 1], key) then 1 else 0
  }

  ghost predicate IsLastLookup(naming: nat -> Subject, events: seq<Event>, key: nat, i: nat) {
    && i < |events| && IsLookup(naming, events[i], key)
    && forall j :: i < j < |events| ==> !IsLookup(naming, events[j], key)
  }

  /** Idle for the discard time, on a clock that may have been set back. */
  predicate Idle(policy: Policy, used: nat, now: nat) {
    policy.discardUnusedTime == 0 || now >= used + policy.discardUnusedTime
  }

  /** The event at `j` drops a regex used last at that time: by name, or in a cleanup, asked for or due. */
  predicate Drops(start: Start, events: seq<Event>, key: nat, used: nat, j: nat)
    requires j < |events|
  {
    var before := events[..j];
    match events[j]
    case DiscardRegex(k) => k == key
    case Cleanup => Idle(PolicyAfter(start, before), used, Clock(start, before))
    case UpdateTime(instant) =>
      Due(PolicyAfter(start, before), LastDue(start, before), instant)
      && Idle(PolicyAfter(start, before), used, instant)
    case _ => false
  }

  /** Looked up last at `i`, and not dropped since. */
  ghost predicate KeptFrom(naming: nat -> Subject, start: Start, events: seq<Event>, key: nat, i: nat) {
    && IsLastLookup(naming, events, key, i)
    && forall j :: i < j < |events| ==> !Drops(start, events, key, Clock(start, events[..i]), j)
  }

  // ----- the state -----

  lemma {:induction false} ClockMeans(lib: RegexLibrary, naming: nat -> Subject, start: Start, events: seq<Event>)
    ensures var s := After(lib, naming, start, events);
            s.now == Clock(start, events) && s.policy == PolicyAfter(start, events)
            && s.lastCleanup == LastDue(start, events)
  {
    if events != [] {
      ClockMeans(lib, naming, start, events[..|events| - 1]);
    }
  }

  /** What a key's entry records: how often it was looked up, and when last. */
  ghost predicate Records(naming: nat -> Subject, start: Start, events: seq<Event>, key: nat, s: State) {
    && (key in s.entries <==> Lookups(naming, events, key) > 0)
    && (key in s.entries ==>
          && s.entries[key].usageCount == Lookups(naming, events, key)
          && exists i: nat :: IsLastLookup(naming, events, key, i)
                              && s.entries[key].lastUsed == Clock(start, events[..i]))
  }

  lemma LaterLookup(naming: nat -> Subject, events: seq<Event>, key: nat, i: nat)
    requires events != [] && i < |events| - 1
    ensures IsLastLookup(naming, events, key, i) <==>
              IsLastLookup(naming, events[..|events| - 1], key, i) && !IsLookup(naming, events[|events| - 1], key)
  {
    var front := events[..|events| - 1];
    assert forall j :: 0 <= j < |front| ==> front[j] == events[j];
  }

  lemma {:induction false} EntryMeans(
    lib: RegexLibrary, naming: nat -> Subject, start: Start, events: seq<Event>, key: nat)
    ensures Records(naming, start, events, key, After(lib, naming, start, events))
  {
    if events != [] {
      var n := |events| - 1;
      var front, e := events[..n], events[n];
      EntryMeans(lib, naming, start, front, key);
      ClockMeans(lib, naming, start, front);
      var before, s := After(lib, naming, start, front), After(lib, naming, start, events);
      if IsLookup(naming, e, key) {
        assert IsLastLookup(naming, events, key, n) && s.entries[key].lastUsed == Clock(start, events[..n]);
      } else if key in before.entries {
        var i: nat :| IsLastLookup(naming, front, key, i) && before.entries[key].lastUsed == Clock(start, front[..i]);
        LaterLookup(naming, events, key, i);
        assert front[..i] == events[..i];
      }
    }
  }

  lemma KeptLonger(naming: nat -> Subject, start: Start, events: seq<Event>, key: nat, i: nat)
    requires events != [] && i < |events| - 1
    ensures var n := |events| - 1;
            KeptFrom(naming, start, events, key, i) <==>
              && KeptFrom(naming, start, events[..n], key, i) && !IsLookup(naming, events[n], key)
              && !Drops(start, events, key, Clock(start, events[..i]), n)
  {
    var n := |events| - 1;
    var front := events[..n];
    LaterLookup(naming, events, key, i);
    assert front[..i] == events[..i];
    forall j | i < j < n ensures Drops(start, front, key, Clock(start, events[..i]), j)
                                 <==> Drops(start, events, key, Clock(start, events[..i]), j)
    {
      assert front[..j] == events[..j];
    }
  }

  /** One event: what it makes live, and what it drops. */
  lemma LiveStep(lib: RegexLibrary, naming: nat -> Subject, start: Start, events: seq<Event>, key: nat, i: nat)
    requires events != [] && IsLastLookup(naming, events[..|events| - 1], key, i)
    ensures var n := |events| - 1;
            Live(After(lib, naming, start, events), key) <==>
              || IsLookup(naming, events[n], key)
              || (Live(After(lib, naming, start, events[..n]), key)
                  && !Drops(start, events, key, Clock(start, events[..i]), n))
  {
    var n := |events| - 1;
    var front := events[..n];
    ClockMeans(lib, naming, start, front);
    EntryMeans(lib, naming, start, front, key);
    LiveAfter(lib, naming, After(lib, naming, start, front), events[n], key);
    assert front[..i] == events[..i];
  }

  lemma {:induction false} LookupCounts(naming: nat -> Subject, events: seq<Event>, key: nat, i: nat)
    requires i < |events| && IsLookup(naming, events[i], key)
    ensures Lookups(naming, events, key) > 0
  {
    var n := |events| - 1;
    if i < n {
      LookupCounts(naming, events[..n], key, i);
    }
  }

  /** The last lookup before an event that is none. */
  lemma LiveWithout(
    lib: RegexLibrary, naming: nat -> Subject, start: Start, events: seq<Event>, key: nat, i: nat)
    requires events != [] && !IsLookup(naming, events[|events| - 1], key)
    requires IsLastLookup(naming, events[..|events| - 1], key, i)
    requires Live(After(lib, naming, start, events[..|events| - 1]), key)
             <==> KeptFrom(naming, start, events[..|events| - 1], key, i)
    ensures Live(After(lib, naming, start, events), key) <==> KeptFrom(naming, start, events, key, i)
    ensures forall k: nat :: KeptFrom(naming, start, events, key, k) ==> k == i
  {
    LiveStep(lib, naming, start, events, key, i);
    KeptLonger(naming, start, events, key, i);
    LaterLookup(naming, events, key, i);
  }

  /**
   * After any run a regex is live exactly when it was looked up, and no event since the last lookup
   * dropped it: by name, or in a cleanup after the discard time.
   */
  lemma {:induction false} LiveMeans(
    lib: RegexLibrary, naming: nat -> Subject, start: Start, events: seq<Event>, key: nat)
    ensures Live(After(lib, naming, start, events), key) <==>
              exists i: nat :: KeptFrom(naming, start, events, key, i)
  {
    if events != [] {
      var n := |events| - 1;
      var front := events[..n];
      LiveMeans(lib, naming, start, front, key);
      EntryMeans(lib, naming, start, front, key);
      var before := After(lib, naming, start, front);
      LiveAfter(lib, naming, before, events[n], key);
      if IsLookup(naming, events[n], key) {
        assert KeptFrom(naming, start, events, key, n);
      } else if key in before.entries {
        var i: nat :| IsLastLookup(naming, front, key, i);
        LiveWithout(lib, naming, start, events, key, i);
      } else {
        NeverLooked(naming, start, events, key);
      }
    }
  }

  lemma NeverLooked(naming: nat -> Subject, start: Start, events: seq<Event>, key: nat)
    requires Lookups(naming, events, key) == 0
    ensures forall i: nat :: !KeptFrom(naming, start, events, key, i)
  {
    forall i: nat | i < |events| ensures !IsLookup(naming, events[i], key) {
      if IsLookup(naming, events[i], key) {
        LookupCounts(naming, events, key, i);
      }
    }
  }
}

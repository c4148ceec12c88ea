/** Picking the elements of a list that satisfy a condition, by their positions. */
module Positions {
  ghost predicate Increasing(at: seq<nat>) {
    forall i, j :: 0 <= i < j < |at| ==> at[i] < at[j]
  }

  /** The positions of the elements to keep, in order. */
  ghost predicate ArePositions<T(!new)>(at: seq<nat>, s: seq<T>, keep: T -> bool) {
    && Increasing(at)
    && (forall k :: 0 <= k < |at| ==> at[k] < |s| && keep(s[at[k]]))
    && forall n :: 0 <= n < |s| && keep(s[n]) ==> n in at
  }

  function Picked<T>(s: seq<T>, at: seq<nat>): seq<T>
    requires forall k :: 0 <= k < |at| ==> at[k] < |s|
  {
    seq(|at|, k requires 0 <= k < |at| => s[at[k]])
  }

  function Filtered<T>(s: seq<T>, keep: T -> bool): seq<T> {
    if s == [] then []
    else Filtered(s[..|s| - 1], keep) + (if keep(s[|s| - 1]) then [s[|s| - 1]] else [])
  }

  lemma {:induction false} PositionsOf<T(!new)>(s: seq<T>, keep: T -> bool) returns (at: seq<nat>)
    ensures ArePositions(at, s, keep)
  {
    if s == [] {
      at := [];
    } else {
      var n := |s| - 1;
      at := PositionsOf(s[..n], keep);
      if keep(s[n]) {
        LastIsKept(at, s, keep);
        at := at + [n];
      }
    }
  }

  lemma LastIsKept<T(!new)>(at: seq<nat>, s: seq<T>, keep: T -> bool)
    requires s != [] && ArePositions(at, s[..|s| - 1], keep) && keep(s[|s| - 1])
    ensures ArePositions(at + [|s| - 1], s, keep)
  {
    var n := |s| - 1;
    var longer := at + [n];
    forall k | 0 <= k < |longer| ensures longer[k] < |s| && keep(s[longer[k]]) {
      assert k < |at| ==> longer[k] == at[k];
    }
    forall k | 0 <= k < |s| && keep(s[k]) ensures k in longer {
      assert k < n ==> k in at;
    }
  }

  lemma LastIsLast(at: seq<nat>, n: nat)
    requires Increasing(at) && n in at && forall k :: 0 <= k < |at| ==> at[k] <= n
    ensures at != [] && at[|at| - 1] == n
  {
    var k :| 0 <= k < |at| && at[k] == n;
    assert at[|at| - 1] >= at[k];
  }

  lemma WithoutLast<T(!new)>(at: seq<nat>, s: seq<T>, keep: T -> bool)
    requires s != [] && ArePositions(at, s, keep) && at != [] && at[|at| - 1] == |s| - 1
    ensures ArePositions(at[..|at| - 1], s[..|s| - 1], keep)
  {
    assert at == at[..|at| - 1] + [|s| - 1];
  }

  lemma PickedShorter<T>(s: seq<T>, at: seq<nat>)
    requires s != [] && forall k :: 0 <= k < |at| ==> at[k] < |s| - 1
    ensures Picked(s, at) == Picked(s[..|s| - 1], at)
  {
  }

  lemma PickedLonger<T>(s: seq<T>, at: seq<nat>, n: nat)
    requires n < |s| && forall k :: 0 <= k < |at| ==> at[k] < |s|
    ensures Picked(s, at + [n]) == Picked(s, at) + [s[n]]
  {
  }

  /** What is filtered are the elements at these positions, in this order. */
  lemma {:induction false} FilteredArePicked<T(!new)>(at: seq<nat>, s: seq<T>, keep: T -> bool)
    requires ArePositions(at, s, keep)
    ensures Filtered(s, keep) == Picked(s, at)
    decreases |s|
  {
    if s != [] {
      var n := |s| - 1;
      if keep(s[n]) {
        var front := at[..|at| - 1];
        LastIsLast(at, n);
        WithoutLast(at, s, keep);
        FilteredArePicked(front, s[..n], keep);
        PickedShorter(s, front);
        PickedLonger(s, front, n);
        assert at == front + [n];
      } else {
        FilteredArePicked(at, s[..n], keep);
        PickedShorter(s, at);
      }
    }
  }
}

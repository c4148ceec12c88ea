/** Small shared vocabulary: optional values, results and hashes. */
module Prelude {
  datatype Option<+T> = None | Some(value: T)

  datatype Result<+T, +E> = Ok(value: T) | Err(error: E)

  /** A 64-bit hash, and the 32-bit form stored in the serialized tables. */
  type Hash = h: nat | h < 0x1_0000_0000_0000_0000
  type ShortHash = h: nat | h < 0x1_0000_0000

  /** The truncating cast from a hash to its short form. */
  function ToShortHash(hash: Hash): ShortHash {
    hash % 0x1_0000_0000
  }

  function Elements<T>(s: seq<T>): set<T> {
    set x | x in s
  }

  lemma {:induction false} ElementsCount<T>(s: seq<T>)
    requires forall i, j :: 0 <= i < j < |s| ==> s[i] != s[j]
    ensures |Elements(s)| == |s|
  {
    if s != [] {
      var n := |s| - 1;
      ElementsCount(s[..n]);
      assert s == s[..n] + [s[n]];
      assert Elements(s) == Elements(s[..n]) + {s[n]};
    }
  }

  lemma {:induction false} SubsetCount<T>(a: set<T>, b: set<T>)
    requires a <= b
    ensures |a| <= |b|
    ensures |a| == |b| ==> a == b
    decreases a
  {
    if a != {} {
      var x :| x in a;
      SubsetCount(a - {x}, b - {x});
    }
  }

  /** Puts a list before a result, if there is one. */
  function Prepended<T>(list: seq<T>, more: Option<seq<T>>): Option<seq<T>> {
    if more.None? then None else Some(list + more.value)
  }

  lemma PrependedTwice<T>(a: seq<T>, b: seq<T>, more: Option<seq<T>>)
    ensures Prepended(a, Prepended(b, more)) == Prepended(a + b, more)
    ensures Prepended([], more) == more
  {
    if more.Some? {
      assert a + (b + more.value) == (a + b) + more.value;
      assert [] + more.value == more.value;
    }
  }

  lemma Regroup<T>(a: seq<T>, b: seq<T>, c: seq<T>)
    ensures (a + b) + c == a + (b + c)
  {
  }
}

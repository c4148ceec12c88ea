/** Searching and case in strings. The model reads strings as sequences of ASCII characters. */
module Text {
  import opened Prelude

  predicate OccursAt(text: string, part: string, i: nat) {
    i + |part| <= |text| && text[i..i + |part|] == part
  }

  predicate StartsWith(text: string, part: string) {
    OccursAt(text, part, 0)
  }

  predicate EndsWith(text: string, part: string) {
    |part| <= |text| && OccursAt(text, part, |text| - |part|)
  }

  /** The first occurrence of `part` at or after `from`. */
  function FindFrom(text: string, part: string, from: nat): (found: Option<nat>)
    ensures found.Some? ==>
              from <= found.value && OccursAt(text, part, found.value)
              && forall i :: from <= i < found.value ==> !OccursAt(text, part, i)
    ensures found.None? ==> forall i :: from <= i ==> !OccursAt(text, part, i)
    decreases |text| - from
  {
    if from + |part| > |text| then None
    else if OccursAt(text, part, from) then Some(from)
    else FindFrom(text, part, from + 1)
  }

  function Find(text: string, part: string): (found: Option<nat>)
    ensures found.Some? ==>
              OccursAt(text, part, found.value) && forall i :: 0 <= i < found.value ==> !OccursAt(text, part, i)
    ensures found.None? ==> forall i :: 0 <= i ==> !OccursAt(text, part, i)
  {
    FindFrom(text, part, 0)
  }

  /** The last position before `end` of a character, if any. */
  function FindLast(text: string, c: char, end: nat): (found: Option<nat>)
    requires end <= |text|
    ensures found.Some? ==> found.value < end && text[found.value] == c
    ensures found.Some? ==> forall i :: found.value < i < end ==> text[i] != c
    ensures found.None? ==> forall i :: 0 <= i < end ==> text[i] != c
  {
    if end == 0 then None
    else if text[end - 1] == c then Some(end - 1)
    else FindLast(text, c, end - 1)
  }

  function LowerChar(c: char): char {
    if 'A' <= c <= 'Z' then (c as int + 32) as char else c
  }

  function Lower(s: string): (lower: string)
    ensures |lower| == |s|
  {
    seq(|s|, i requires 0 <= i < |s| => LowerChar(s[i]))
  }

  predicate IsLower(s: string) {
    forall i :: 0 <= i < |s| ==> LowerChar(s[i]) == s[i]
  }

  lemma LowerIsLower(s: string)
    ensures IsLower(Lower(s))
  {
  }

  /** A lower-case part of a text is a part of the lower-cased text. */
  lemma OccursInLower(text: string, part: string, i: nat)
    requires OccursAt(text, part, i) && IsLower(part)
    ensures OccursAt(Lower(text), part, i)
  {
    assert forall k :: 0 <= k < |part| ==> part[k] == text[i..i + |part|][k] == text[i + k];
    assert Lower(text)[i..i + |part|] == part;
  }

  // ----- splitting and joining -----

  function Split(s: string, c: char): (pieces: seq<string>)
    ensures |pieces| >= 1
  {
    var i := FirstIndex(s, c);
    if i == |s| then [s] else [s[..i]] + Split(s[i + 1..], c)
  }

  /** The position of the first `c`, or the length of the text. */
  function FirstIndex(s: string, c: char): (i: nat)
    ensures i <= |s| && c !in s[..i] && (i < |s| ==> s[i] == c)
  {
    if s == "" || s[0] == c then 0
    else
      assert s == [s[0]] + s[1..];
      var j := FirstIndex(s[1..], c);
      assert s[..1 + j] == [s[0]] + s[1..][..j];
      1 + j
  }

  function Join(pieces: seq<string>, c: char): string {
    if pieces == [] then ""
    else if |pieces| == 1 then pieces[0]
    else pieces[0] + [c] + Join(pieces[1..], c)
  }

  lemma {:induction false} FirstIndexIs(s: string, c: char, i: nat)
    requires i <= |s| && c !in s[..i] && (i < |s| ==> s[i] == c)
    ensures FirstIndex(s, c) == i
    decreases i
  {
    if i > 0 {
      assert s[0] == s[..i][0];
      assert s[1..][..i - 1] == s[..i][1..];
      FirstIndexIs(s[1..], c, i - 1);
    }
  }

  lemma FirstIndexAt(a: string, c: char, b: string)
    requires c !in a
    ensures FirstIndex(a + [c] + b, c) == |a|
    ensures FirstIndex(a, c) == |a|
  {
    assert (a + [c] + b)[..|a|] == a && a[..|a|] == a;
    FirstIndexIs(a + [c] + b, c, |a|);
    FirstIndexIs(a, c, |a|);
  }

  lemma SplitFirst(a: string, c: char, rest: string)
    requires c !in a
    ensures Split(a + [c] + rest, c) == [a] + Split(rest, c)
    ensures Split(a, c) == [a]
  {
    var s := a + [c] + rest;
    FirstIndexAt(a, c, rest);
    assert s[..|a|] == a && s[|a| + 1..] == rest;
  }

  lemma {:induction false} SplitOfJoin(pieces: seq<string>, c: char)
    requires pieces != [] && forall i :: 0 <= i < |pieces| ==> c !in pieces[i]
    ensures Split(Join(pieces, c), c) == pieces
  {
    if |pieces| == 1 {
      SplitFirst(pieces[0], c, "");
    } else {
      SplitFirst(pieces[0], c, Join(pieces[1..], c));
      SplitOfJoin(pieces[1..], c);
    }
  }

  lemma {:induction false} SplitPieces(s: string, c: char)
    ensures Join(Split(s, c), c) == s
    ensures forall i :: 0 <= i < |Split(s, c)| ==> c !in Split(s, c)[i]
    ensures forall i, d :: 0 <= i < |Split(s, c)| && d in Split(s, c)[i] ==> d in s
    decreases |s|
  {
    var k := FirstIndex(s, c);
    if k < |s| {
      SplitPieces(s[k + 1..], c);
      var rest := Split(s[k + 1..], c);
      assert Split(s, c)[1..] == rest;
      assert s == s[..k] + [c] + s[k + 1..];
    } else {
      assert s[..k] == s;
    }
  }

  // ----- where pieces stand -----

  /** In a joined text every piece stands at the beginning or after a separator. */
  lemma {:induction false} PieceInJoin(pieces: seq<string>, c: char, k: nat) returns (p: nat)
    requires k < |pieces|
    ensures OccursAt(Join(pieces, c), pieces[k], p) && (p == 0 || Join(pieces, c)[p - 1] == c)
  {
    if k == 0 {
      p := 0;
    } else {
      var q := PieceInJoin(pieces[1..], c, k - 1);
      p := JoinShift(pieces[0], c, Join(pieces[1..], c), pieces[k], q);
    }
  }

  lemma JoinShift(first: string, c: char, rest: string, piece: string, q: nat) returns (p: nat)
    requires OccursAt(rest, piece, q) && (q == 0 || rest[q - 1] == c)
    ensures p > 0 && OccursAt(first + [c] + rest, piece, p) && (first + [c] + rest)[p - 1] == c
  {
    var s := first + [c] + rest;
    p := |first| + 1 + q;
    assert s[p..p + |piece|] == rest[q..q + |piece|];
  }

  /** Every piece stands in the text, at its beginning or after a separator. */
  lemma PieceIsPlaced(s: string, c: char, k: nat) returns (p: nat)
    requires k < |Split(s, c)|
    ensures OccursAt(s, Split(s, c)[k], p) && (p == 0 || s[p - 1] == c)
  {
    SplitPieces(s, c);
    p := PieceInJoin(Split(s, c), c, k);
  }

  lemma OccursWithin(text: string, part: string, inner: string, i: nat, j: nat)
    requires OccursAt(text, part, i) && OccursAt(part, inner, j)
    ensures OccursAt(text, inner, i + j)
  {
    assert forall k :: 0 <= k < |inner| ==> inner[k] == part[j..j + |inner|][k] == text[i..i + |part|][j + k];
    assert text[i + j..i + j + |inner|] == inner;
  }

  lemma CharWithin(text: string, part: string, i: nat, j: nat)
    requires OccursAt(text, part, i) && j < |part|
    ensures i + j < |text| && text[i + j] == part[j]
  {
    assert text[i..i + |part|][j] == part[j];
  }

  lemma LowerOccurs(text: string, part: string, i: nat)
    requires OccursAt(text, part, i)
    ensures OccursAt(Lower(text), Lower(part), i)
  {
    assert forall k :: 0 <= k < |part| ==> part[k] == text[i..i + |part|][k] == text[i + k];
    assert Lower(text)[i..i + |part|] == Lower(part);
  }
}

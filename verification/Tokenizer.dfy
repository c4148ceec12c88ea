/** The tokenizer of URLs and patterns, and its fixed-size token buffer. */
module Tokenizer {
  import opened Prelude

  const BUFFER_CAPACITY := 256

  type TokensBuffer = b: seq<Hash> | |b| <= BUFFER_CAPACITY

  /** Appending to the fixed-size buffer: there must be room. */
  function Push(buffer: TokensBuffer, hash: Hash): TokensBuffer
    requires |buffer| < BUFFER_CAPACITY
  {
    buffer + [hash]
  }

  /** Letters, digits and '%' make up tokens. */
  predicate IsTokenChar(c: char) {
    'a' <= c <= 'z' || 'A' <= c <= 'Z' || '0' <= c <= '9' || c == '%'
  }

  datatype Flags = Flags(skipFirst: bool, skipLast: bool)

  // ----- which parts of a text are tokens -----

  /** `s[a..b]` is a maximal run of token characters. */
  ghost predicate IsRun(s: string, a: int, b: int) {
    && 0 <= a < b <= |s|
    && (forall i :: a <= i < b ==> IsTokenChar(s[i]))
    && (a > 0 ==> !IsTokenChar(s[a - 1]))
    && (b < |s| ==> !IsTokenChar(s[b]))
  }

  /**
   * The run is kept as a token: at least two characters, no '*' beside it, and not excluded by
   * the flags. The first-token flag is not consulted for a run that reaches the end of the text.
   */
  predicate Kept(s: string, flags: Flags, a: nat, b: nat)
    requires a <= b <= |s|
  {
    && b - a > 1
    && (a > 0 ==> s[a - 1] != '*')
    && (if b < |s| then s[b] != '*' && (a != 0 || !flags.skipFirst) else !flags.skipLast)
  }

  ghost predicate IsToken(s: string, flags: Flags, a: int, b: int) {
    IsRun(s, a, b) && Kept(s, flags, a, b)
  }

  /** Where the run of token characters that ends before `b` begins. */
  function RunStart(s: string, b: nat): (a: nat)
    requires b <= |s|
    ensures a <= b
    ensures forall i :: a <= i < b ==> IsTokenChar(s[i])
    ensures a > 0 ==> !IsTokenChar(s[a - 1])
  {
    if b > 0 && IsTokenChar(s[b - 1]) then RunStart(s, b - 1) else b
  }

  /** A token ends at `b`. */
  predicate TokenEnd(s: string, flags: Flags, b: nat)
    requires b <= |s|
  {
    (b < |s| ==> !IsTokenChar(s[b])) && RunStart(s, b) < b && Kept(s, flags, RunStart(s, b), b)
  }

  /** The hashes of the tokens that end at `n` or earlier, left to right. */
  function TokensUpto(hash: string -> Hash, s: string, flags: Flags, n: nat): seq<Hash>
    requires n <= |s|
  {
    (if n == 0 then [] else TokensUpto(hash, s, flags, n - 1))
    + (if TokenEnd(s, flags, n) then [hash(s[RunStart(s, n)..n])] else [])
  }

  function Tokens(hash: string -> Hash, s: string, flags: Flags): seq<Hash> {
    TokensUpto(hash, s, flags, |s|)
  }

  lemma TokenEndsOnce(s: string, flags: Flags, a: int, b: int)
    requires IsToken(s, flags, a, b)
    ensures TokenEnd(s, flags, b) && RunStart(s, b) == a
  {
    RunStartIs(s, a, b);
  }

  lemma {:induction false} RunStartIs(s: string, a: nat, b: nat)
    requires a <= b <= |s| && forall i :: a <= i < b ==> IsTokenChar(s[i])
    requires a > 0 ==> !IsTokenChar(s[a - 1])
    ensures RunStart(s, b) == a
  {
    if a < b {
      RunStartIs(s, a, b - 1);
    }
  }

  /** The tokens listed are exactly the runs that are kept. */
  lemma {:induction false} TokensAreTheKeptRuns(hash: string -> Hash, s: string, flags: Flags, n: nat, h: Hash)
    requires n <= |s|
    ensures h in TokensUpto(hash, s, flags, n) <==>
              exists a, b :: IsToken(s, flags, a, b) && b <= n && hash(s[a..b]) == h
  {
    if n > 0 {
      TokensAreTheKeptRuns(hash, s, flags, n - 1, h);
    }
    if TokenEnd(s, flags, n) {
      assert IsToken(s, flags, RunStart(s, n), n);
    }
    forall a, b | IsToken(s, flags, a, b) && b <= n && hash(s[a..b]) == h
      ensures h in TokensUpto(hash, s, flags, n)
    {
      TokenEndsOnce(s, flags, a, b);
      if b == n {
        assert h == hash(s[RunStart(s, n)..n]);
      } else {
        assert h in TokensUpto(hash, s, flags, n - 1);
      }
    }
  }

  // ----- the loop -----

  function Least(a: nat, b: nat): nat { if a <= b then a else b }

  /** How many more tokens the tokenizer will store: one slot is kept free. */
  function Room(buffer: TokensBuffer): nat {
    if |buffer| < BUFFER_CAPACITY - 1 then BUFFER_CAPACITY - 1 - |buffer| else 0
  }

  function Truncated<T>(s: seq<T>, n: nat): seq<T> {
    s[..Least(n, |s|)]
  }

  /**
   * Appends the tokens of the pattern to the buffer, as many as leave one slot free. No push
   * exceeds the capacity.
   */
  method Tokenize(hash: string -> Hash, pattern: string, flags: Flags, buffer: TokensBuffer)
    returns (tokens: TokensBuffer)
    ensures tokens == buffer + Truncated(Tokens(hash, pattern, flags), Room(buffer))
    ensures |buffer| < BUFFER_CAPACITY ==> |tokens| < BUFFER_CAPACITY
  {
    tokens := buffer;
    var inside := false;
    var start := 0;
    var preceding: Option<char> := None;
    for i := 0 to |pattern|
      invariant tokens == buffer + TokensBefore(hash, pattern, flags, i)
      invariant |TokensBefore(hash, pattern, flags, i)| <= Room(buffer)
      invariant inside ==> |tokens| < BUFFER_CAPACITY - 1
      invariant Scanned(pattern, i, inside, start, preceding)
    {
      if BUFFER_CAPACITY - |tokens| <= 1 {
        Full(hash, pattern, flags, i, Room(buffer));
        return;
      }
      OneMoreChar(hash, pattern, flags, i, inside, start, preceding);
      var c := pattern[i];
      if IsTokenChar(c) {
        if !inside {
          inside := true;
          start := i;
        }
      } else if inside {
        inside := false;
        if (start != 0 || !flags.skipFirst) && i - start > 1 && c != '*' && preceding != Some('*') {
          Regroup(buffer, TokensBefore(hash, pattern, flags, i), [hash(pattern[start..i])]);
          tokens := Push(tokens, hash(pattern[start..i]));
        }
        preceding := Some(c);
      } else {
        preceding := Some(c);
      }
    }
    NoMoreChars(hash, pattern, flags, inside, start, preceding);
    if !flags.skipLast && inside && |pattern| - start > 1 && preceding != Some('*') {
      Regroup(buffer, TokensBefore(hash, pattern, flags, |pattern|), [hash(pattern[start..])]);
      tokens := Push(tokens, hash(pattern[start..]));
    }
  }

  /** Whether `i` lies inside a run, where the run starts and what precedes it. */
  ghost predicate Scanned(s: string, i: nat, inside: bool, start: nat, preceding: Option<char>)
    requires i <= |s|
  {
    && RunStart(s, i) == (if inside then start else i)
    && (inside ==> start < i)
    && preceding == Preceding(s, RunStart(s, i))
  }

  /** What one more character does to the run before it, and to the tokens. */
  lemma OneMoreChar(
    hash: string -> Hash, s: string, flags: Flags, i: nat, inside: bool, start: nat, preceding: Option<char>)
    requires i < |s| && Scanned(s, i, inside, start, preceding)
    ensures IsTokenChar(s[i]) ==>
              && Scanned(s, i + 1, true, if inside then start else i, preceding)
              && TokensBefore(hash, s, flags, i + 1) == TokensBefore(hash, s, flags, i)
    ensures !IsTokenChar(s[i]) ==>
              && Scanned(s, i + 1, false, start, Some(s[i]))
              && TokensBefore(hash, s, flags, i + 1) ==
                 if inside && (start != 0 || !flags.skipFirst) && i - start > 1 && s[i] != '*' && preceding != Some('*')
                 then TokensBefore(hash, s, flags, i) + [hash(s[start..i])]
                 else TokensBefore(hash, s, flags, i)
  {
    NextIs(hash, s, flags, i);
    NextChar(s, flags, i);
  }

  lemma NoMoreChars(
    hash: string -> Hash, s: string, flags: Flags, inside: bool, start: nat, preceding: Option<char>)
    requires Scanned(s, |s|, inside, start, preceding)
    ensures Tokens(hash, s, flags) ==
            if inside && !flags.skipLast && |s| - start > 1 && preceding != Some('*')
            then TokensBefore(hash, s, flags, |s|) + [hash(s[start..])]
            else TokensBefore(hash, s, flags, |s|)
  {
    UptoIs(hash, s, flags, |s|);
    LastRun(s, flags);
    assert inside ==> s[start..] == s[start..|s|];
  }

  /** What one more character does to the run before it. */
  lemma NextChar(s: string, flags: Flags, i: nat)
    requires i < |s|
    ensures IsTokenChar(s[i]) ==> RunStart(s, i + 1) == RunStart(s, i) && !TokenEnd(s, flags, i)
    ensures !IsTokenChar(s[i]) ==>
              && RunStart(s, i + 1) == i + 1 && Preceding(s, i + 1) == Some(s[i])
              && (TokenEnd(s, flags, i) <==>
                    var a := RunStart(s, i);
                    (a != 0 || !flags.skipFirst) && i - a > 1 && s[i] != '*' && Preceding(s, a) != Some('*'))
  {
  }

  lemma LastRun(s: string, flags: Flags)
    ensures TokenEnd(s, flags, |s|) <==>
              var a := RunStart(s, |s|);
              !flags.skipLast && |s| - a > 1 && Preceding(s, a) != Some('*')
  {
  }

  /** When the buffer is full, the rest of the tokens is cut off. */
  lemma Full(hash: string -> Hash, s: string, flags: Flags, n: nat, room: nat)
    requires n <= |s| && |TokensBefore(hash, s, flags, n)| == room
    ensures TokensBefore(hash, s, flags, n) == Truncated(Tokens(hash, s, flags), room)
  {
    TokensExtend(hash, s, flags, n, |s|);
  }

  /** The character before a position. */
  function Preceding(s: string, i: nat): Option<char>
    requires i <= |s|
  {
    if i == 0 then None else Some(s[i - 1])
  }

  function TokensBefore(hash: string -> Hash, s: string, flags: Flags, n: nat): seq<Hash>
    requires n <= |s|
  {
    if n == 0 then [] else TokensUpto(hash, s, flags, n - 1)
  }

  lemma NextIs(hash: string -> Hash, s: string, flags: Flags, i: nat)
    requires i < |s|
    ensures TokensBefore(hash, s, flags, i + 1)
            == if TokenEnd(s, flags, i) then TokensBefore(hash, s, flags, i) + [hash(s[RunStart(s, i)..i])]
               else TokensBefore(hash, s, flags, i)
  {
    UptoIs(hash, s, flags, i);
  }

  lemma UptoIs(hash: string -> Hash, s: string, flags: Flags, n: nat)
    requires n <= |s|
    ensures TokensUpto(hash, s, flags, n)
            == TokensBefore(hash, s, flags, n) + (if TokenEnd(s, flags, n) then [hash(s[RunStart(s, n)..n])] else [])
  {
  }

  lemma {:induction false} TokensExtend(hash: string -> Hash, s: string, flags: Flags, m: nat, n: nat)
    requires m <= n <= |s|
    ensures TokensBefore(hash, s, flags, m) <= TokensUpto(hash, s, flags, n)
    decreases n - m
  {
    if m < n {
      TokensExtend(hash, s, flags, m, n - 1);
    }
  }
}

/** Triangular probing over a power-of-two table: the arithmetic behind `find_slot`. */
module Probing {
  import opened Prelude

  /** 0 + 1 + ... + i: how far the probe has moved after `i` steps. */
  function Triangular(i: nat): nat {
    if i == 0 then 0 else Triangular(i - 1) + i
  }

  function Power2(k: nat): (n: nat)
    ensures n > 0
  {
    if k == 0 then 1 else 2 * Power2(k - 1)
  }

  ghost predicate IsPowerOfTwo(n: nat) {
    exists k: nat :: n == Power2(k)
  }

  /** Bitwise AND of two machine words, seen as numbers. */
  function BitAnd(a: nat, b: nat): nat {
    if a == 0 || b == 0 then 0
    else 2 * BitAnd(a / 2, b / 2) + (if a % 2 == 1 && b % 2 == 1 then 1 else 0)
  }

  /** The slot visited after `i` unsuccessful probes for a key with this hash. */
  function Slot(hash: nat, tableSize: nat, i: nat): (slot: nat)
    requires tableSize > 0
    ensures slot < tableSize
  {
    (hash + Triangular(i)) % tableSize
  }

  // ----- modular arithmetic -----

  lemma ModUnique(a: int, n: nat, q: int, r: nat)
    requires n > 0 && a == n * q + r && r < n
    ensures a % n == r && a / n == q
  {
    MultipleIsZero(n, a / n - q, r - a % n);
  }

  lemma MultipleIsZero(n: int, d: int, x: int)
    requires 0 - n < x < n && x == n * d
    ensures d == 0
  {
    if d >= 1 {
      MulAtLeast(n, d);
    } else if d <= -1 {
      MulAtLeast(n, -d);
    }
  }

  lemma MulAtLeast(n: int, d: int)
    requires n >= 0 && d >= 1
    ensures n * d >= n && n * -d <= -n
  {
    assert n * d == n + n * (d - 1);
  }

  lemma ModDouble(x: nat, m: nat, b: nat)
    requires m > 0 && b < 2
    ensures (2 * x + b) % (2 * m) == 2 * (x % m) + b
  {
    var t := x / m;
    assert (2 * m) * t == 2 * (m * t);
    ModUnique(2 * x + b, 2 * m, t, 2 * (x % m) + b);
  }

  lemma ModAdd(a: nat, b: nat, n: nat)
    requires n > 0
    ensures (a % n + b) % n == (a + b) % n
  {
    var s := a % n + b;
    assert n * (a / n + s / n) == n * (a / n) + n * (s / n);
    ModUnique(a + b, n, a / n + s / n, s % n);
  }

  /** `x & (n - 1)` is `x % n` for a power of two: the source masks, the lemmas divide. */
  lemma {:induction false} MaskIsMod(a: nat, n: nat)
    requires IsPowerOfTwo(n)
    ensures BitAnd(a, n - 1) == a % n
  {
    var k: nat :| n == Power2(k);
    MaskIsModPower(a, k);
  }

  lemma BitAndOdd(a: nat, m: nat)
    requires m > 0
    ensures BitAnd(a, 2 * m - 1) == 2 * BitAnd(a / 2, m - 1) + a % 2
  {
    assert (2 * m - 1) / 2 == m - 1 && (2 * m - 1) % 2 == 1;
  }

  lemma {:induction false} MaskIsModPower(a: nat, k: nat)
    ensures BitAnd(a, Power2(k) - 1) == a % Power2(k)
    decreases k
  {
    if k > 0 {
      MaskIsModPower(a / 2, k - 1);
      MaskDoubles(a / 2, a % 2, Power2(k - 1));
    }
  }

  lemma MaskDoubles(x: nat, b: nat, m: nat)
    requires m > 0 && b < 2 && BitAnd(x, m - 1) == x % m
    ensures BitAnd(2 * x + b, 2 * m - 1) == (2 * x + b) % (2 * m)
  {
    var a := 2 * x + b;
    BitAndOdd(a, m);
    assert a / 2 == x && a % 2 == b;
    ModDouble(x, m, b);
  }

  // ----- triangular numbers modulo a power of two -----

  lemma {:induction false} TriangularDifference(i: nat, j: nat)
    requires i <= j
    ensures Triangular(i) <= Triangular(j)
    ensures 2 * (Triangular(j) - Triangular(i)) == (j - i) * (j + i + 1)
    decreases j
  {
    if i < j {
      TriangularDifference(i, j - 1);
      assert (j - i) * (j + i + 1) == (j - 1 - i) * (j + i) + 2 * j;
    }
  }

  /** An odd factor does not help a product to be a multiple of a power of two. */
  lemma {:induction false} OddFactor(a: nat, b: nat, k: nat, q: int) returns (p: int)
    requires a % 2 == 1
    requires a * b == Power2(k) * q
    ensures b == Power2(k) * p
    decreases k
  {
    if k == 0 {
      p := b;
    } else {
      var m := Power2(k - 1);
      MulTwo(m, q);
      var c := HalfOfEven(a, b, m * q);
      p := OddFactor(a, c, k - 1, q);
      MulTwo(m, p);
    }
  }

  /** If an odd number times another is even, the other is, and its half is left. */
  lemma HalfOfEven(a: nat, b: nat, half: int) returns (c: nat)
    requires a % 2 == 1 && a * b == 2 * half
    ensures b == 2 * c && a * c == half
  {
    OddTimes(a / 2, b);
    assert a == 2 * (a / 2) + 1;
    c := b / 2;
    TimesEven(a, c);
  }

  lemma OddTimes(h: nat, b: nat)
    ensures (2 * h + 1) * b == 2 * (h * b) + b
  {
  }

  lemma TimesEven(a: nat, c: nat)
    ensures a * (2 * c) == 2 * (a * c)
  {
  }

  /** Two numbers of different parity below 2n: their product is no multiple of 2n. */
  lemma MixedParityProduct(k: nat, a: nat, b: nat, q: int)
    requires 0 < a < Power2(k) && 0 < b < Power2(k) && (a + b) % 2 == 1
    ensures a * b != Power2(k) * q
  {
    if a % 2 == 1 {
      OddTimesSmall(k, a, b, q);
    } else {
      OddTimesSmall(k, b, a, q);
    }
  }

  lemma OddTimesSmall(k: nat, a: nat, b: nat, q: int)
    requires a % 2 == 1 && 0 < b < Power2(k)
    ensures a * b != Power2(k) * q
  {
    if a * b == Power2(k) * q {
      var p := OddFactor(a, b, k, q);
      MultipleIsZero(Power2(k), p, b);
    }
  }

  lemma MulTwo(p: int, q: int)
    ensures 2 * (p * q) == (2 * p) * q
  {
  }

  /** The offsets of two different steps below the table size differ modulo the table size. */
  lemma OffsetsDiffer(k: nat, i: nat, j: nat, q: int)
    requires i < j < Power2(k)
    ensures Triangular(j) - Triangular(i) != Power2(k) * q
  {
    TriangularDifference(i, j);
    MulTwo(Power2(k), q);
    MixedParityProduct(k + 1, j - i, j + i + 1, q);
  }

  /** The first `tableSize` slots visited are pairwise different. */
  lemma ProbesAreDistinct(hash: nat, n: nat, i: nat, j: nat)
    requires IsPowerOfTwo(n) && i < j < n
    ensures Slot(hash, n, i) != Slot(hash, n, j)
  {
    var k: nat :| n == Power2(k);
    var x, y := hash + Triangular(i), hash + Triangular(j);
    OffsetsDiffer(k, i, j, y / n - x / n);
    SameRemainder(x, y, n);
  }

  lemma SameRemainder(x: int, y: int, n: nat)
    requires n > 0
    ensures x % n == y % n ==> y - x == n * (y / n - x / n)
  {
    assert n * (y / n - x / n) == n * (y / n) - n * (x / n);
  }

  // ----- pigeonhole -----

  function Upto(n: nat): (s: set<nat>)
    ensures forall x :: x in s <==> 0 <= x < n
    ensures |s| == n
  {
    if n == 0 then {} else Upto(n - 1) + {n - 1}
  }

  /** `n` different numbers below `n`: every number below `n` is among them. */
  lemma Pigeonhole(path: seq<nat>, x: nat)
    requires x < |path| && forall i :: 0 <= i < |path| ==> path[i] < |path|
    requires forall i, j :: 0 <= i < j < |path| ==> path[i] != path[j]
    ensures x in path
  {
    ElementsCount(path);
    SubsetCount(Elements(path), Upto(|path|));
    assert x in Upto(|path|);
  }

  /** ... and therefore they cover the whole table. */
  lemma ProbesCoverTable(hash: nat, n: nat, slot: nat) returns (i: nat)
    requires IsPowerOfTwo(n) && slot < n
    ensures i < n && Slot(hash, n, i) == slot
  {
    var path := seq(n, i requires 0 <= i => Slot(hash, n, i));
    forall i, j | 0 <= i < j < n ensures path[i] != path[j] {
      ProbesAreDistinct(hash, n, i, j);
    }
    Pigeonhole(path, slot);
    i :| 0 <= i < n && path[i] == slot;
  }

  /** `slot` satisfies the probe and no slot visited earlier does. */
  ghost predicate IsFirstHit(hash: nat, n: nat, probe: nat -> bool, slot: nat)
    requires n > 0
  {
    exists i :: 0 <= i < n && IsFirstHitAt(hash, n, probe, slot, i)
  }

  ghost predicate IsFirstHitAt(hash: nat, n: nat, probe: nat -> bool, slot: nat, i: nat)
    requires n > 0
  {
    slot == Slot(hash, n, i) && probe(slot) && forall j :: 0 <= j < i ==> !probe(Slot(hash, n, j))
  }

  lemma FirstSlot(hash: nat, n: nat)
    requires IsPowerOfTwo(n)
    ensures BitAnd(hash, n - 1) == Slot(hash, n, 0)
  {
    MaskIsMod(hash, n);
  }

  /** One step of the loop: adding the step count and masking leads to the next slot. */
  lemma NextSlot(hash: nat, n: nat, step: nat)
    requires IsPowerOfTwo(n) && step > 0
    ensures BitAnd(Slot(hash, n, step - 1) + step, n - 1) == Slot(hash, n, step)
  {
    MaskIsMod(Slot(hash, n, step - 1) + step, n);
    ModAdd(hash + Triangular(step - 1), step, n);
  }

  /**
   * The probing loop. It needs one slot that satisfies the probe and nothing else:
   * it then ends, at the earliest such slot in probe order.
   */
  method FindSlot(hash: nat, tableSize: nat, probe: nat -> bool) returns (slot: nat)
    requires IsPowerOfTwo(tableSize)
    requires exists s :: 0 <= s < tableSize && probe(s)
    ensures slot < tableSize && IsFirstHit(hash, tableSize, probe, slot)
  {
    var tableMask := tableSize - 1;
    ghost var s :| 0 <= s < tableSize && probe(s);
    ghost var last := ProbesCoverTable(hash, tableSize, s);
    FirstSlot(hash, tableSize);
    slot := BitAnd(hash, tableMask);
    var step := 1;
    while !probe(slot)
      invariant 1 <= step <= last + 1
      invariant slot == Slot(hash, tableSize, step - 1)
      invariant forall j :: 0 <= j < step - 1 ==> !probe(Slot(hash, tableSize, j))
      decreases last + 1 - step
    {
      NextSlot(hash, tableSize, step);
      slot := BitAnd(slot + step, tableMask);
      step := step + 1;
    }
    assert IsFirstHitAt(hash, tableSize, probe, slot, step - 1);
  }
}

/** Sequential helpers of the experiment harness (Harness.c): cyclic
    successor and predecessor, integer logarithms, the qsort comparator, and
    the median reduction of a worker's per-round entry counts. */
module Harness {

  /** Number of timed rounds in one experiment. */
  const RUNS: nat := 5

  // ---------------------------------------------------------------------
  // Cyclic arithmetic on a ring of n ids

  /** Cyclic successor: every value at or past n - 1 wraps to 0. */
  function CycleUp(v: int, n: int): (r: int)
    ensures 0 <= v < n ==> 0 <= r < n && r == (v + 1) % n
  {
    if v >= n - 1 then 0 else v + 1
  }

  /** Cyclic predecessor: every value at or below 0 wraps to n - 1. */
  function CycleDown(v: int, n: int): (r: int)
    ensures 0 <= v < n ==> 0 <= r < n && r == (v - 1) % n
  {
    if v <= 0 then n - 1 else v - 1
  }

  /** Successor and predecessor undo each other on the ring. */
  lemma CycleInverse(v: int, n: int)
    requires 0 <= v < n
    ensures CycleDown(CycleUp(v, n), n) == v
    ensures CycleUp(CycleDown(v, n), n) == v
  {
  }

  // ---------------------------------------------------------------------
  // Integer logarithms

  function Pow2(k: nat): (p: nat)
    ensures p >= 1
  {
    if k == 0 then 1 else 2 * Pow2(k - 1)
  }

  /** Floor of log2 n, and -1 for every n <= 0 (the portable fallback). */
  function Log2(n: int): (r: int)
    ensures n <= 0 ==> r == -1
    ensures n >= 1 ==> 0 <= r && Pow2(r) <= n < Pow2(r + 1)
    decreases n
  {
    if n > 1 then 1 + Log2(n / 2) else if n == 1 then 0 else -1
  }

  /** Ceiling of log2 n: the least r with n <= 2^r, and -1 for every n <= 0. */
  function Clog2(n: int): (r: int)
    ensures n <= 0 ==> r == -1
    ensures n >= 1 ==> 0 <= r && n <= Pow2(r) && (r == 0 || Pow2(r - 1) < n)
  {
    if n <= 0 then -1
    else
      var ln := Log2(n);
      // one more whenever some bit below the most significant one is set
      ln + (if n - Pow2(ln) != 0 then 1 else 0)
  }

  /** Log2 inverts exponentiation. */
  lemma {:induction false} Log2OfPow2(k: nat)
    ensures Log2(Pow2(k)) == k
  {
    if k > 0 {
      Log2OfPow2(k - 1);
      assert Pow2(k) / 2 == Pow2(k - 1);
    }
  }

  /** Log2 is the only r with 2^r <= n < 2^(r+1). */
  lemma {:induction false} Log2Unique(n: int, r: nat)
    requires Pow2(r) <= n < Pow2(r + 1)
    ensures Log2(n) == r
  {
    if r > 0 {
      Log2Unique(n / 2, r - 1);
    }
  }

  /** Log2 and Clog2 coincide exactly on the powers of two. */
  lemma Clog2IsLog2OnPowers(n: int)
    requires n >= 1
    ensures Clog2(n) == Log2(n) <==> n == Pow2(Log2(n))
  {
  }

  // ---------------------------------------------------------------------
  // The qsort comparator and the median of a sorted round array

  /** Three-way comparison of two size_t counts. */
  function Compare(i: nat, j: nat): (r: int)
    ensures r == -1 || r == 0 || r == 1
    ensures r == 0 <==> i == j
    ensures r == 1 <==> i > j
  {
    if i > j then 1 else if i < j then -1 else 0
  }

  lemma CompareAntisymmetric(i: nat, j: nat)
    ensures Compare(i, j) == -Compare(j, i)
  {
  }

  predicate Sorted(s: seq<nat>)
  {
    forall i, j :: 0 <= i < j < |s| ==> s[i] <= s[j]
  }

  /** The median macro for an odd RUNS: the middle element. On a sorted
      array at least half the rounds lie on either side of it. */
  function Median(a: seq<nat>): (m: nat)
    requires |a| == RUNS
    ensures m in a
    ensures Sorted(a) ==> forall k :: 0 <= k <= RUNS / 2 ==> a[k] <= m
    ensures Sorted(a) ==> forall k :: RUNS / 2 <= k < RUNS ==> m <= a[k]
  {
    a[RUNS / 2]
  }

  /** Insertion of x into a sorted sequence, ordered by Compare: the result
      is sorted, starts with the smaller of x and the old head, and holds
      exactly one more element, x. */
  function Insert(x: nat, s: seq<nat>): (r: seq<nat>)
    requires Sorted(s)
    ensures Sorted(r)
    ensures |r| == |s| + 1
    ensures r[0] == x || (s != [] && r[0] == s[0])
    ensures multiset(r) == multiset(s) + multiset{x}
  {
    if s == [] || Compare(x, s[0]) <= 0 then [x] + s
    else
      assert s == [s[0]] + s[1..];
      var t := Insert(x, s[1..]);
      assert s[0] <= t[0];
      [s[0]] + t
  }

  /** Reference definition of what qsort(entries, RUNS, ..., compare) leaves:
      the counts in ascending order. */
  function SortCounts(s: seq<nat>): (r: seq<nat>)
    ensures Sorted(r)
    ensures |r| == |s|
    ensures multiset(r) == multiset(s)
  {
    if s == [] then []
    else
      assert s == [s[0]] + s[1..];
      var t := SortCounts(s[1..]);
      assert multiset(s) == multiset(s[1..]) + multiset{s[0]};
      Insert(s[0], t)
  }

  /** Which side of a pivot m a count is compared against. */
  datatype Side = AtMost | AtLeast

  predicate OnSide(v: nat, side: Side, m: nat)
  {
    if side == AtMost then v <= m else v >= m
  }

  /** Number of elements of s on the given side of m. */
  function CountOnSide(s: seq<nat>, side: Side, m: nat): nat
  {
    if s == [] then 0 else (if OnSide(s[0], side, m) then 1 else 0) + CountOnSide(s[1..], side, m)
  }

  lemma {:induction false} CountAppend(a: seq<nat>, b: seq<nat>, side: Side, m: nat)
    ensures CountOnSide(a + b, side, m) == CountOnSide(a, side, m) + CountOnSide(b, side, m)
  {
    if a == [] {
      assert a + b == b;
    } else {
      assert (a + b)[1..] == a[1..] + b;
      CountAppend(a[1..], b, side, m);
    }
  }

  /** Taking out the element at i removes one copy of it from the
      multiset. */
  lemma RemoveAtMultiset(t: seq<nat>, i: nat)
    requires i < |t|
    ensures multiset(t[..i] + t[i + 1..]) == multiset(t) - multiset{t[i]}
  {
    assert t == t[..i] + [t[i]] + t[i + 1..];
    assert multiset(t) == multiset(t[..i]) + multiset{t[i]} + multiset(t[i + 1..]);
  }

  /** Taking out the element at i removes its contribution from the count. */
  lemma RemoveAtCount(t: seq<nat>, i: nat, side: Side, m: nat)
    requires i < |t|
    ensures CountOnSide(t, side, m) ==
      CountOnSide(t[..i] + t[i + 1..], side, m) + (if OnSide(t[i], side, m) then 1 else 0)
  {
    assert t == t[..i] + [t[i]] + t[i + 1..];
    CountAppend(t[..i] + [t[i]], t[i + 1..], side, m);
    CountAppend(t[..i], [t[i]], side, m);
    CountAppend(t[..i], t[i + 1..], side, m);
  }

  /** Counting is blind to order: permutations have equal counts. */
  lemma {:induction false} CountPermutation(s: seq<nat>, t: seq<nat>, side: Side, m: nat)
    requires multiset(s) == multiset(t)
    ensures CountOnSide(s, side, m) == CountOnSide(t, side, m)
  {
    if s == [] {
      assert |t| == |multiset(t)| == 0;
    } else {
      var x := s[0];
      assert x in multiset(t);
      var i :| 0 <= i < |t| && t[i] == x;
      RemoveAtMultiset(t, i);
      RemoveAtCount(t, i, side, m);
      assert s == [x] + s[1..];
      assert multiset(s[1..]) == multiset(s) - multiset{x};
      CountPermutation(s[1..], t[..i] + t[i + 1..], side, m);
    }
  }

  /** A run of hi - lo consecutive elements on one side of m contributes at
      least hi - lo to the count. */
  lemma {:induction false} CountRun(s: seq<nat>, side: Side, m: nat, lo: nat, hi: nat)
    requires lo <= hi <= |s|
    requires forall k :: lo <= k < hi ==> OnSide(s[k], side, m)
    ensures CountOnSide(s, side, m) >= hi - lo
  {
    if lo > 0 {
      CountRun(s[1..], side, m, lo - 1, hi - 1);
    } else if hi > 0 {
      CountRun(s[1..], side, m, 0, hi - 1);
    }
  }

  /** In a sorted array of RUNS counts, at least RUNS/2 + 1 of them lie at
      or below the median and at least as many at or above it. */
  lemma MedianSplitsSorted(t: seq<nat>)
    requires |t| == RUNS && Sorted(t)
    ensures CountOnSide(t, AtMost, Median(t)) >= RUNS / 2 + 1
    ensures CountOnSide(t, AtLeast, Median(t)) >= RUNS / 2 + 1
  {
    CountRun(t, AtMost, Median(t), 0, RUNS / 2 + 1);
    CountRun(t, AtLeast, Median(t), RUNS / 2, RUNS);
  }

  /** A permutation of the counts holds the median of t and has the same
      counts on either side of it. */
  lemma MedianOfPermutation(entries: seq<nat>, t: seq<nat>)
    requires |t| == RUNS && multiset(entries) == multiset(t)
    ensures Median(t) in entries
    ensures CountOnSide(entries, AtMost, Median(t)) == CountOnSide(t, AtMost, Median(t))
    ensures CountOnSide(entries, AtLeast, Median(t)) == CountOnSide(t, AtLeast, Median(t))
  {
    assert Median(t) in multiset(entries);
    CountPermutation(entries, t, AtMost, Median(t));
    CountPermutation(entries, t, AtLeast, Median(t));
  }

  /** What a worker returns at join: the median of its RUNS per-round entry
      counts after sorting them. It is one of the counts, and at least
      RUNS/2 + 1 of the counts lie at or below it and at or above it. */
  function RoundMedian(entries: seq<nat>): (m: nat)
    requires |entries| == RUNS
    ensures m in entries
    ensures CountOnSide(entries, AtMost, m) >= RUNS / 2 + 1
    ensures CountOnSide(entries, AtLeast, m) >= RUNS / 2 + 1
  {
    var t := SortCounts(entries);
    MedianSplitsSorted(t);
    MedianOfPermutation(entries, t);
    Median(t)
  }
}

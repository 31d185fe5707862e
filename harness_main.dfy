/** The sequential part of the harness driver (Harness.c, main and its
    helpers): the argument switch, the shuffled assignment of logical ids to
    worker threads, and the start-point table of the one-thread mode. */
module HarnessMain {
  import opened Harness

  // ---------------------------------------------------------------------
  // Argument validation

  const DefaultN: int := 8
  const DefaultTime: int := 10
  /** Initial value of the global Degree, printed when it was not given. */
  const NoDegree: int := -1

  datatype Config = Config(n: int, time: int, degree: int)

  /** Either the run goes ahead, or the usage line is printed (showing the
      values of N, Time and Degree at that moment) and the process exits 1. */
  datatype Outcome = Run(config: Config) | UsageExit(n: int, time: int, degree: int)

  /** The switch on argc; `args` are the atoi values of argv[1..], so
      argc == |args| + 1. Case 4 checks Degree and falls through to case 3. */
  function ParseArgs(args: seq<int>): (r: Outcome)
    ensures r.Run? <==>
      (|args| == 2 || |args| == 3) && args[0] >= 1 && args[1] >= 1 && (|args| == 3 ==> args[2] >= 2)
    ensures r.Run? ==>
      r.config == Config(args[0], args[1], if |args| == 3 then args[2] else NoDegree)
    ensures |args| != 2 && |args| != 3 ==> r == UsageExit(DefaultN, DefaultTime, NoDegree)
    ensures |args| == 3 && args[2] < 2 ==> r == UsageExit(DefaultN, DefaultTime, args[2])
    ensures (|args| == 2 || (|args| == 3 && args[2] >= 2)) && (args[0] < 1 || args[1] < 1) ==>
      r == UsageExit(args[0], args[1], if |args| == 3 then args[2] else NoDegree)
  {
    var argc := |args| + 1;
    if argc == 4 then
      if args[2] < 2 then UsageExit(DefaultN, DefaultTime, args[2])
      else CheckTimeAndN(args[0], args[1], args[2])
    else if argc == 3 then CheckTimeAndN(args[0], args[1], NoDegree)
    else UsageExit(DefaultN, DefaultTime, NoDegree)
  }

  /** Case 3 of the switch: Time and N are assigned, then both checked. */
  function CheckTimeAndN(n: int, time: int, degree: int): (r: Outcome)
    ensures r.Run? <==> n >= 1 && time >= 1
    ensures r.Run? ==> r.config == Config(n, time, degree)
    ensures r.UsageExit? ==> r == UsageExit(n, time, degree)
  {
    if time < 1 || n < 1 then UsageExit(n, time, degree) else Run(Config(n, time, degree))
  }

  // ---------------------------------------------------------------------
  // Permutations of the ids [0, n)

  function Iota(n: nat): (s: seq<int>)
    ensures |s| == n
    ensures forall k :: 0 <= k < n ==> s[k] == k
  {
    if n == 0 then [] else Iota(n - 1) + [n - 1]
  }

  /** s holds each id of [0, n) exactly once. */
  predicate IsIdPermutation(s: seq<int>, n: int)
  {
    && |s| == n
    && (forall k :: 0 <= k < |s| ==> 0 <= s[k] < n)
    && (forall k, l :: 0 <= k < l < |s| ==> s[k] != s[l])
  }

  lemma {:induction false} IotaCount(n: nat, v: int)
    ensures multiset(Iota(n))[v] == if 0 <= v < n then 1 else 0
  {
    if n > 0 {
      IotaCount(n - 1, v);
      assert multiset(Iota(n)) == multiset(Iota(n - 1)) + multiset{n - 1};
    }
  }

  /** Two equal entries at distinct positions show up twice in the multiset. */
  lemma RepeatCounts(s: seq<int>, k: int, l: int)
    requires 0 <= k < l < |s| && s[k] == s[l]
    ensures multiset(s)[s[k]] >= 2
  {
    assert s == s[..k] + [s[k]] + s[k + 1..l] + [s[l]] + s[l + 1..];
    assert multiset(s) == multiset(s[..k]) + multiset{s[k]} + multiset(s[k + 1..l])
                          + multiset{s[l]} + multiset(s[l + 1..]);
  }

  /** Anything with the multiset of [0, n) is a permutation of the ids. */
  lemma PermutationOfIota(s: seq<int>, n: nat)
    requires multiset(s) == multiset(Iota(n))
    ensures IsIdPermutation(s, n)
  {
    assert |s| == |multiset(s)| == |multiset(Iota(n))| == n;
    forall k | 0 <= k < |s| ensures 0 <= s[k] < n {
      assert s[k] in multiset(s);
      IotaCount(n, s[k]);
    }
    forall k, l | 0 <= k < l < |s| ensures s[k] != s[l] {
      if s[k] == s[l] {
        RepeatCounts(s, k, l);
        IotaCount(n, s[k]);
      }
    }
  }

  // ---------------------------------------------------------------------
  // shuffle

  /** Number of random swaps shuffle performs. */
  const ShuffleRounds: nat := 200

  /** The pairs of rand() results drawn by the first |draws| rounds of
      shuffle, applied to s; each value is reduced modulo the size. */
  function Shuffled(s: seq<int>, draws: seq<(nat, nat)>): (r: seq<int>)
    requires |s| >= 1
    ensures |r| == |s|
  {
    if draws == [] then s
    else
      var t := Shuffled(s, draws[..|draws| - 1]);
      var (d1, d2) := draws[|draws| - 1];
      var p1, p2 := d1 % |s|, d2 % |s|;
      t[p1 := t[p2]][p2 := t[p1]]
  }

  /** However the draws fall, shuffling only permutes. */
  lemma {:induction false} ShuffledIsPermutation(s: seq<int>, draws: seq<(nat, nat)>)
    requires |s| >= 1
    ensures multiset(Shuffled(s, draws)) == multiset(s)
  {
    if draws != [] {
      var t := Shuffled(s, draws[..|draws| - 1]);
      ShuffledIsPermutation(s, draws[..|draws| - 1]);
      var (d1, d2) := draws[|draws| - 1];
      var p1, p2 := d1 % |s|, d2 % |s|;
      SwapIsPermutation(t, p1, p2);
    }
  }

  lemma SwapIsPermutation(t: seq<int>, p1: nat, p2: nat)
    requires p1 < |t| && p2 < |t|
    ensures multiset(t[p1 := t[p2]][p2 := t[p1]]) == multiset(t)
  {
    var u := t[p1 := t[p2]];
    assert multiset(u) == multiset(t) - multiset{t[p1]} + multiset{t[p2]};
    assert multiset(u[p2 := t[p1]]) == multiset(u) - multiset{u[p2]} + multiset{t[p1]};
  }

  /** shuffle(set, size): 200 swaps of two slots chosen by rand() % size. */
  method Shuffle(slots: array<int>, draws: seq<(nat, nat)>)
    requires slots.Length >= 1
    requires |draws| == ShuffleRounds
    modifies slots
    ensures slots[..] == Shuffled(old(slots[..]), draws)
    ensures multiset(slots[..]) == multiset(old(slots[..]))
  {
    var size := slots.Length;
    for i := 0 to ShuffleRounds
      invariant slots[..] == Shuffled(old(slots[..]), draws[..i])
    {
      var (d1, d2) := draws[i];
      var p1, p2 := d1 % size, d2 % size;
      assert draws[..i + 1][..i] == draws[..i];
      var temp := slots[p1];
      slots[p1] := slots[p2];
      slots[p2] := temp;
    }
    assert draws[..ShuffleRounds] == draws;
    ShuffledIsPermutation(old(slots[..]), draws);
  }

  /** main's assignment of logical ids to threads: set[i] = i, then shuffle.
      The result is still a permutation of [0, threads). */
  method ThreadIds(threads: int, draws: seq<(nat, nat)>) returns (ids: seq<int>)
    requires threads >= 1
    requires |draws| == ShuffleRounds
    ensures ids == Shuffled(Iota(threads), draws)
    ensures IsIdPermutation(ids, threads)
  {
    var slots := new int[threads];
    for i := 0 to threads
      invariant slots[..i] == Iota(threads)[..i]
    {
      slots[i] := i;
    }
    assert slots[..] == Iota(threads);
    Shuffle(slots, draws);
    ids := slots[..];
    ShuffledIsPermutation(Iota(threads), draws);
    PermutationOfIota(ids, threads);
  }

  // ---------------------------------------------------------------------
  // The start-point table of the one-thread mode

  const MaxStartPoints: nat := 64

  /** reps: the number of whole blocks of n ids that fit in 64 slots. */
  function Reps(n: int): nat
    requires n >= 1
  {
    MaxStartPoints / n
  }

  /** NoStartPoints: the table length, 64 rounded down to a multiple of n. */
  function NoStartPoints(n: int): (k: nat)
    requires n >= 1
    ensures k <= MaxStartPoints
    ensures MaxStartPoints - k < n
    ensures n <= MaxStartPoints ==> k >= n
    ensures k % n == 0
  {
    var q := Reps(n);
    assert MaxStartPoints == q * n + MaxStartPoints % n;
    assert (q * n) % n == 0 by { BlocksAreMultiples(q, n); }
    q * n
  }

  lemma BlocksAreMultiples(q: nat, n: int)
    requires n >= 1
    ensures (q * n) % n == 0
  {
    var d, r := (q * n) / n, (q * n) % n;
    assert (q - d) * n == r;
    MulAwayFromZero(q - d, n);
  }

  lemma MulAwayFromZero(a: int, n: int)
    requires n >= 1
    ensures a >= 1 ==> a * n >= n
    ensures a <= -1 ==> a * n <= -n
  {
  }

  /** With more than 64 threads the table is empty, so the write of N to
      entry 0 at the start of startpoints() lies outside it. */
  lemma NoStartPointsEmptyAbove64(n: int)
    requires n > MaxStartPoints
    ensures NoStartPoints(n) == 0
  {
  }

  lemma {:induction false} MulMonotone(a: nat, b: nat, n: nat)
    requires a <= b
    ensures a * n <= b * n
    decreases b - a
  {
    if a < b {
      MulMonotone(a + 1, b, n);
      assert (a + 1) * n == a * n + n;
    }
  }

  /** s is a sequence of whole blocks of length n, each a permutation of the
      ids [0, n). */
  predicate PermutationBlocks(s: seq<int>, n: int)
    requires n >= 1
    decreases |s|
  {
    |s| == 0 || (|s| >= n && IsIdPermutation(s[..n], n) && PermutationBlocks(s[n..], n))
  }

  lemma {:induction false} AppendBlock(s: seq<int>, block: seq<int>, n: int)
    requires n >= 1
    requires PermutationBlocks(s, n) && IsIdPermutation(block, n)
    ensures PermutationBlocks(s + block, n)
    decreases |s|
  {
    if s == [] {
      assert s + block == block;
      assert block[n..] == [];
      assert block[..n] == block;
    } else {
      assert (s + block)[..n] == s[..n];
      assert (s + block)[n..] == s[n..] + block;
      AppendBlock(s[n..], block, n);
    }
  }

  /** Every entry of a table of permutation blocks is an id in [0, n). */
  lemma {:induction false} PermutationBlocksInRange(s: seq<int>, n: int, k: int)
    requires n >= 1 && PermutationBlocks(s, n)
    requires 0 <= k < |s|
    ensures 0 <= s[k] < n
    decreases |s|
  {
    if k >= n {
      PermutationBlocksInRange(s[n..], n, k - n);
    }
  }

  /** The set of ids [0, n). */
  function IdRange(n: nat): (r: set<int>)
    ensures forall v :: v in r <==> 0 <= v < n
    ensures |r| == n
  {
    if n == 0 then {} else IdRange(n - 1) + {n - 1}
  }

  /** The set of values occurring in s. */
  function Elements(s: seq<int>): (r: set<int>)
    ensures forall v :: v in r <==> v in s
    ensures |r| <= |s|
  {
    if s == [] then {}
    else
      var t := s[..|s| - 1];
      assert s == t + [s[|s| - 1]];
      Elements(t) + {s[|s| - 1]}
  }

  lemma {:induction false} DistinctElements(s: seq<int>)
    requires forall k, l :: 0 <= k < l < |s| ==> s[k] != s[l]
    ensures |Elements(s)| == |s|
  {
    if s != [] {
      var t := s[..|s| - 1];
      DistinctElements(t);
      assert s[|s| - 1] !in t;
    }
  }

  lemma SubsetSize(a: set<int>, b: set<int>)
    requires a <= b
    ensures |a| <= |b|
    ensures |b - a| == |b| - |a|
  {
    assert b == a + (b - a);
    assert a * (b - a) == {};
  }

  /** Fewer than n entries never exhaust the ids [0, n): the retry in
      startpoints always has an unused value to find. */
  lemma UnusedIdExists(s: seq<int>, n: nat)
    requires |s| < n
    ensures exists v :: 0 <= v < n && v !in s
  {
    if IdRange(n) <= Elements(s) {
      SubsetSize(IdRange(n), Elements(s));
      assert false;
    }
    var v :| v in IdRange(n) && v !in Elements(s);
  }

  /** A block of n distinct ids from [0, n) contains every id: it is a
      permutation of [0, n) in the ordinary sense. */
  lemma PermutationCoversIds(s: seq<int>, n: nat, v: int)
    requires IsIdPermutation(s, n)
    requires 0 <= v < n
    ensures v in s
  {
    DistinctElements(s);
    assert Elements(s) <= IdRange(n);
    SubsetSize(Elements(s), IdRange(n));
    assert IdRange(n) - Elements(s) == {};
    assert v in Elements(s);
  }

  /** One block of startpoints(): slots [i, i + n) receive, one after the
      other, a value from [0, n) not yet used in the block. The rand() % n
      retry loop is represented by a choice of any such value. */
  method FillBlock(sp: array<int>, n: int, i: int)
    requires n >= 1 && 0 <= i && i + n <= sp.Length
    modifies sp
    ensures sp[..i] == old(sp[..i])
    ensures sp[i + n..] == old(sp[i + n..])
    ensures IsIdPermutation(sp[i..i + n], n)
  {
    for j := i to i + n
      invariant sp[..i] == old(sp[..i])
      invariant sp[i + n..] == old(sp[i + n..])
      invariant forall k :: i <= k < j ==> 0 <= sp[k] < n
      invariant forall k, l :: i <= k < l < j ==> sp[k] != sp[l]
    {
      UnusedIdExists(sp[i..j], n);
      var v :| 0 <= v < n && v !in sp[i..j];
      sp[j] := v;
    }
  }

  /** startpoints(): the table is filled block by block, so that every block
      of n consecutive entries is a permutation of the ids [0, n). */
  method Startpoints(sp: array<int>, n: int)
    requires 1 <= n <= MaxStartPoints
    requires sp.Length == NoStartPoints(n)
    modifies sp
    ensures PermutationBlocks(sp[..], n)
  {
    sp[0] := n;
    var reps := Reps(n);
    for blk := 0 to reps
      invariant PermutationBlocks(sp[..blk * n], n)
    {
      var i := blk * n;
      MulMonotone(blk + 1, reps, n);
      assert (blk + 1) * n == i + n;
      FillBlock(sp, n, i);
      assert sp[..i + n] == sp[..i] + sp[i..i + n];
      AppendBlock(sp[..i], sp[i..i + n], n);
    }
    assert sp[..] == sp[..reps * n];
  }

  /** startpoint(pos) in the rotating-id mode: with cnt advanced by
      cycleUp over the table, the id used is always one of [0, n). */
  function Startpoint(table: seq<int>, n: int, cnt: int): (id: int)
    requires n >= 1 && PermutationBlocks(table, n)
    requires 0 <= cnt < |table|
    ensures 0 <= id < n
  {
    PermutationBlocksInRange(table, n, cnt);
    table[cnt]
  }
}

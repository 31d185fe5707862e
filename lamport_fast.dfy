/** Lamport's fast mutual exclusion algorithm (LamportFast.c), as steps over a
    snapshot of the shared `b` array and the `x`/`y` scalars. A step covers
    the code between two points where the source may retry or wait for
    another thread, so `TryEnter` spans several fences; `y == N` means free. */
module LamportFast {
  import opened Harness
  import HarnessMain

  /** Result of one pass of the entry protocol from `start:`. */
  datatype Attempt =
    | Entered    // fast path: y was free and x still holds id
    | AwaitFree  // y != N: b[id] withdrawn, wait for y == N, then goto start
    | Contended  // x was overwritten: take the slow path

  /** Result of the slow path once x != id was seen. */
  datatype SlowOutcome =
    | SlowEntered  // every b[j] is clear and y is still id
    | Draining     // some b[j] is still set: keep awaiting it
    | LostRace     // y was taken by another id: goto start

  class Shared {
    const n: int
    const b: array<bool>
    var x: int
    var y: int

    ghost predicate Valid()
      reads this
    {
      n >= 1 && b.Length == n
    }

    /** Nobody announced and the owner marker says free. */
    predicate Idle()
      reads this, b
    {
      (forall j :: 0 <= j < b.Length ==> !b[j]) && y == n
    }

    /** ctor(): every b[i] false and y == N; x, a zero-initialised global, is 0. */
    constructor (n: int)
      requires n >= 1
      ensures Valid() && this.n == n && fresh(b)
      ensures Idle() && x == 0
    {
      var a := new bool[n];
      for i := 0 to n
        invariant forall k :: 0 <= k < i ==> !a[k]
      {
        a[i] := false;
      }
      this.n := n;
      b := a;
      x := 0;
      y := n;
    }

    /** Line `start:`: b[id] = true; x = id. */
    method Announce(id: int)
      requires Valid() && 0 <= id < n
      modifies b, this`x
      ensures b[..] == old(b[..])[id := true] && x == id && y == old(y)
    {
      b[id] := true;
      x := id;
    }

    /** The y gate: when y != N, b[id] is cleared before waiting for y == N
        and restarting; otherwise y = id. */
    method ClaimOwner(id: int) returns (free: bool)
      requires Valid() && 0 <= id < n
      modifies b, this`y
      ensures free <==> old(y) == n
      ensures !free ==> b[..] == old(b[..])[id := false] && y == old(y)
      ensures free ==> b[..] == old(b[..]) && y == id
    {
      if y != n {
        b[id] := false;
        return false;
      }
      y := id;
      return true;
    }

    /** The x test: true when id is still the last writer of x; otherwise
        b[id] is withdrawn for the slow path. */
    method LastWriter(id: int) returns (fast: bool)
      requires Valid() && 0 <= id < n
      modifies b
      ensures fast <==> x == id
      ensures fast ==> b[..] == old(b[..])
      ensures !fast ==> b[..] == old(b[..])[id := false]
    {
      if x != id {
        b[id] := false;
        return false;
      }
      return true;
    }

    /** One evaluation of the drain loop `for j: await(!b[j])`: true when
        every b[j] is clear. */
    method AllWithdrawn() returns (clear: bool)
      requires Valid()
      ensures clear <==> forall j :: 0 <= j < n ==> !b[j]
    {
      for j := 0 to n
        invariant forall k :: 0 <= k < j ==> !b[k]
      {
        if b[j] {
          return false;
        }
      }
      return true;
    }

    /** The slow path after x != id: once every b[j] has cleared, the
        critical section is entered only if y is still id. */
    method SlowPath(id: int) returns (r: SlowOutcome)
      requires Valid() && 0 <= id < n
      ensures r == SlowEntered <==> (forall j :: 0 <= j < n ==> !b[j]) && y == id
      ensures r == LostRace <==> (forall j :: 0 <= j < n ==> !b[j]) && y != id
      ensures r == Draining <==> exists j :: 0 <= j < n && b[j]
    {
      var clear := AllWithdrawn();
      if !clear {
        return Draining;
      }
      r := if y == id then SlowEntered else LostRace;
    }

    /** One pass of the entry protocol on the snapshot. Once y is found free
        nothing else writes x, so the fast path is taken. */
    method TryEnter(id: int) returns (r: Attempt)
      requires Valid() && 0 <= id < n
      modifies b, this`x, this`y
      ensures x == id
      ensures r == AwaitFree <==> old(y) != n
      ensures r == AwaitFree ==> b[..] == old(b[..])[id := false] && y == old(y)
      ensures r != AwaitFree ==> r == Entered && b[..] == old(b[..])[id := true] && y == id
    {
      Announce(id);
      var free := ClaimOwner(id);
      if !free {
        return AwaitFree;
      }
      var fast := LastWriter(id);
      r := if fast then Entered else Contended;
    }

    /** The exit protocol: y = N; b[id] = false. x still names id. */
    method Exit(id: int)
      requires Valid() && 0 <= id < n
      modifies b, this`y
      ensures y == n && x == old(x)
      ensures b[..] == old(b[..])[id := false]
    {
      y := n;
      b[id] := false;
    }

    /** Entry followed by exit from the idle state: the fast path is taken,
        and the idle state is restored for the next contender, whichever id
        it uses. */
    method EnterAndExit(id: int) returns (r: Attempt)
      requires Valid() && Idle() && 0 <= id < n
      modifies b, this`x, this`y
      ensures r == Entered
      ensures Idle() && x == id
    {
      r := TryEnter(id);
      Exit(id);
    }

    /** Worker() with a single thread: RUNS rounds, round r admitting
        counts[r] entries, each with an id taken from the start-point table.
        At the end of a round the id is reset to the original oid, so each
        round's count is recorded against oid. */
    method Worker(oid: int, table: seq<int>, counts: seq<nat>) returns (recorded: seq<(int, nat)>)
      requires Valid() && Idle() && 0 <= oid < n
      requires |table| >= 1 && HarnessMain.PermutationBlocks(table, n)
      requires |counts| == RUNS
      modifies b, this`x, this`y
      ensures Valid() && Idle()
      ensures |recorded| == RUNS
      ensures forall r :: 0 <= r < RUNS ==> recorded[r] == (oid, counts[r])
    {
      var id := oid;
      var cnt := 0;
      recorded := [];
      for r := 0 to RUNS
        invariant Valid() && Idle() && 0 <= cnt < |table|
        invariant |recorded| == r
        invariant forall k :: 0 <= k < r ==> recorded[k] == (oid, counts[k])
      {
        var entry: nat := 0;
        while entry < counts[r]
          invariant Valid() && Idle() && 0 <= cnt < |table|
          invariant entry <= counts[r]
        {
          id := HarnessMain.Startpoint(table, n, cnt);
          cnt := CycleUp(cnt, |table|);
          var _ := EnterAndExit(id);
          entry := entry + 1;
        }
        id := oid;
        recorded := recorded + [(id, entry)];
      }
    }
  }
}

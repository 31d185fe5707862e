/** Eisenberg and McGuire's N-thread algorithm (Eisendberg.c), as sequential
    steps over a snapshot of the shared `control` array and `HIGH` scalar,
    and the one-thread run that the harness performs when Threads == 1. */
module Eisenberg {
  import opened Harness
  import HarnessMain

  datatype Intent = DontWantIn | WantIn | EnterCS

  /** Number of cycleUp steps from `from` to `to` on a ring of n ids. */
  function Dist(from: int, to: int, n: int): (d: int)
    requires 0 <= from < n && 0 <= to < n
    ensures 0 <= d < n
    ensures d == 0 <==> from == to
    ensures from + d == to || from + d == to + n
  {
    if from <= to then to - from else to - from + n
  }

  /** One cycleUp step adds one to the distance from a fixed start. */
  lemma DistStep(from: int, j: int, n: int)
    requires 0 <= from < n && 0 <= j < n
    requires Dist(from, j, n) < n - 1
    ensures Dist(from, CycleUp(j, n), n) == Dist(from, j, n) + 1
  {
  }

  // ---------------------------------------------------------------------
  // Conditions on a snapshot c of control, with n == |c|

  /** Step 1 may pass: every slot the scan meets, cyclically from high up to
      but excluding id, is idle. */
  predicate HigherIdle(c: seq<Intent>, high: int, id: int)
    requires 0 <= high < |c| && 0 <= id < |c|
  {
    forall k :: 0 <= k < |c| && Dist(high, k, |c|) < Dist(high, id, |c|) ==> c[k] == DontWantIn
  }

  /** Step 2, first test: no slot other than id is at EnterCS. */
  predicate NoOtherInCS(c: seq<Intent>, id: int)
  {
    forall j :: 0 <= j < |c| && j != id ==> c[j] != EnterCS
  }

  /** Step 2, second test: HIGH's slot is idle or HIGH is id itself. */
  predicate GateOpen(c: seq<Intent>, high: int, id: int)
    requires 0 <= high < |c|
  {
    c[high] == DontWantIn || high == id
  }

  /** id is the only contender. */
  predicate OthersIdle(c: seq<Intent>, id: int)
  {
    forall j :: 0 <= j < |c| && j != id ==> c[j] == DontWantIn
  }

  /** k is the first non-idle slot in cyclic order from start. */
  predicate FirstActive(c: seq<Intent>, start: int, k: int)
    requires 0 <= start < |c| && 0 <= k < |c|
  {
    c[k] != DontWantIn &&
    forall m :: 0 <= m < |c| && Dist(start, m, |c|) < Dist(start, k, |c|) ==> c[m] == DontWantIn
  }

  /** The exit scan's result is determined by the snapshot and the start. */
  lemma FirstActiveUnique(c: seq<Intent>, start: int, k1: int, k2: int)
    requires 0 <= start < |c| && 0 <= k1 < |c| && 0 <= k2 < |c|
    requires FirstActive(c, start, k1) && FirstActive(c, start, k2)
    ensures k1 == k2
  {
  }

  /** A single contender passes every entry test, whatever HIGH is. */
  lemma AloneEnters(c: seq<Intent>, high: int, id: int)
    requires 0 <= high < |c| && 0 <= id < |c|
    requires OthersIdle(c, id)
    ensures HigherIdle(c, high, id)
    ensures NoOtherInCS(c, id)
    ensures GateOpen(c, high, id)
  {
  }

  /** A single contender's exit scan, from any start, stops at its own slot. */
  lemma AloneExitSelectsSelf(c: seq<Intent>, start: int, id: int)
    requires 0 <= start < |c| && 0 <= id < |c|
    requires OthersIdle(c, id) && c[id] != DontWantIn
    ensures FirstActive(c, start, id)
  {
  }

  // ---------------------------------------------------------------------
  // The start of the exit scan

  /** The start of the exit scan as written: cycleUp(HIGH + 1, N), that is
      HIGH + 2, or 0 once HIGH + 2 reaches N. */
  function ExitStartAsWritten(high: int, n: int): (s: int)
    requires 0 <= high < n
    ensures 0 <= s < n
    ensures s == if high + 2 < n then high + 2 else 0
  {
    CycleUp(high + 1, n)
  }

  /** With N = 3 and HIGH = 0 the scan as written meets slot 0 (HIGH itself)
      before slot 1; with control = [EnterCS, WantIn, DontWantIn] the exiting
      thread 0 hands HIGH to itself although thread 1 is waiting. */
  lemma ExitStartAsWrittenSkipsSuccessor()
    ensures Dist(ExitStartAsWritten(0, 3), 0, 3) < Dist(ExitStartAsWritten(0, 3), 1, 3)
    ensures FirstActive([EnterCS, WantIn, DontWantIn], ExitStartAsWritten(0, 3), 0)
  {
  }

  /** Whenever HIGH is not the last slot, the scan as written reaches HIGH's
      own slot before slot HIGH + 1. */
  lemma ExitStartAsWrittenVisitsHighFirst(high: int, n: int)
    requires n >= 2 && 0 <= high <= n - 2
    ensures Dist(ExitStartAsWritten(high, n), high, n) < Dist(ExitStartAsWritten(high, n), high + 1, n)
  {
  }

  /** When HIGH is the last slot, the scan as written starts at slot 0, the
      successor, just as the intended scan does. */
  lemma ExitStartAsWrittenAtLastSlot(n: int)
    requires n >= 1
    ensures ExitStartAsWritten(n - 1, n) == ExitStart(n - 1, n) == 0
  {
  }

  /** The start of the exit scan as intended: the slot just after HIGH, so
      that HIGH's own slot is the last one inspected. */
  function ExitStart(high: int, n: int): (s: int)
    requires 0 <= high < n
    ensures 0 <= s < n
    ensures forall k :: 0 <= k < n && k != high ==> Dist(s, k, n) < Dist(s, high, n)
  {
    CycleUp(high, n)
  }

  /** On the same state, the intended scan hands HIGH to the waiting thread 1. */
  lemma ExitStartPassesToSuccessor()
    ensures FirstActive([EnterCS, WantIn, DontWantIn], ExitStart(0, 3), 1)
  {
  }

  datatype Attempt =
    | Entered      // HIGH = id; the critical section may be entered
    | SpinAtL1     // a higher-priority slot is busy: pause and rescan (goto L1)
    | RestartAtL0  // a step-2 test failed: start over at L0

  class Shared {
    const n: int
    const control: array<Intent>
    var high: int

    ghost predicate Valid()
      reads this
    {
      n >= 1 && control.Length == n && 0 <= high < n
    }

    predicate Idle()
      reads this, control
    {
      forall i :: 0 <= i < control.Length ==> control[i] == DontWantIn
    }

    /** ctor(): every slot DontWantIn, HIGH == 0. */
    constructor (n: int)
      requires n >= 1
      ensures Valid() && this.n == n && fresh(control)
      ensures Idle() && high == 0
    {
      var c := new Intent[n];
      for i := 0 to n
        invariant forall k :: 0 <= k < i ==> c[k] == DontWantIn
      {
        c[i] := DontWantIn;
      }
      this.n := n;
      control := c;
      high := 0;
    }

    /** Step 1 (line L1): scan cyclically from HIGH up to id; at most n - 1
        slots are read. True when all of them are idle; false where the
        source would pause and rescan. */
    method HigherPriorityIdle(id: int) returns (clear: bool)
      requires Valid() && 0 <= id < n
      ensures clear <==> HigherIdle(control[..], high, id)
    {
      var j := high;
      while j != id
        invariant 0 <= j < n
        invariant Dist(high, j, n) <= Dist(high, id, n)
        invariant forall k :: 0 <= k < n && Dist(high, k, n) < Dist(high, j, n) ==> control[k] == DontWantIn
        decreases Dist(j, id, n)
      {
        if control[j] != DontWantIn {
          return false;
        }
        DistStep(high, j, n);
        j := CycleUp(j, n);
      }
      return true;
    }

    /** Step 2, first test: no other slot at EnterCS. */
    method NoOtherEnterCS(id: int) returns (ok: bool)
      requires Valid()
      ensures ok <==> NoOtherInCS(control[..], id)
    {
      for j := 0 to n
        invariant forall k :: 0 <= k < j && k != id ==> control[k] != EnterCS
      {
        if j != id && control[j] == EnterCS {
          return false;
        }
      }
      return true;
    }

    /** The exit scan: from start, the first slot that is not idle. It
        terminates because some slot (the exiting thread's) is busy. */
    method NextActive(start: int) returns (k: int)
      requires Valid() && 0 <= start < n
      requires exists j :: 0 <= j < n && control[j] != DontWantIn
      ensures 0 <= k < n && FirstActive(control[..], start, k)
    {
      ghost var w :| 0 <= w < n && control[w] != DontWantIn;
      k := start;
      while control[k] == DontWantIn
        invariant 0 <= k < n
        invariant Dist(start, k, n) <= Dist(start, w, n)
        invariant forall m :: 0 <= m < n && Dist(start, m, n) < Dist(start, k, n) ==> control[m] == DontWantIn
        decreases Dist(k, w, n)
      {
        DistStep(start, k, n);
        k := CycleUp(k, n);
      }
    }

    /** One pass of the entry protocol, from L0 to the critical section or to
        the first point where the source pauses or restarts. */
    method TryEnter(id: int) returns (r: Attempt)
      requires Valid() && 0 <= id < n
      modifies control, this`high
      ensures Valid()
      ensures r == SpinAtL1 <==> !HigherIdle(old(control[..]), old(high), id)
      ensures r == Entered <==>
        HigherIdle(old(control[..]), old(high), id) &&
        NoOtherInCS(old(control[..]), id) && GateOpen(old(control[..]), old(high), id)
      ensures r == SpinAtL1 ==> control[..] == old(control[..])[id := WantIn] && high == old(high)
      ensures r == RestartAtL0 ==> control[..] == old(control[..])[id := EnterCS] && high == old(high)
      ensures r == Entered ==> control[..] == old(control[..])[id := EnterCS] && high == id
      ensures OthersIdle(old(control[..]), id) ==> r == Entered
    {
      ghost var c0 := control[..];
      control[id] := WantIn;
      assert forall k :: 0 <= k < n && k != id ==> control[k] == c0[k];
      var clear := HigherPriorityIdle(id);
      assert clear <==> HigherIdle(c0, high, id);
      if !clear {
        return SpinAtL1;
      }
      control[id] := EnterCS;
      assert forall k :: 0 <= k < n && k != id ==> control[k] == c0[k];
      var alone := NoOtherEnterCS(id);
      assert alone <==> NoOtherInCS(c0, id);
      if !alone || (control[high] != DontWantIn && high != id) {
        return RestartAtL0;
      }
      high := id;
      r := Entered;
      if OthersIdle(c0, id) {
        AloneEnters(c0, old(high), id);
      }
    }

    /** The exit protocol as written: HIGH becomes the first busy slot from
        cycleUp(HIGH + 1, N), then id's slot is cleared. A single contender
        keeps HIGH. */
    method Exit(id: int)
      requires Valid() && 0 <= id < n
      requires control[id] == EnterCS
      modifies control, this`high
      ensures Valid()
      ensures FirstActive(old(control[..]), ExitStartAsWritten(old(high), n), high)
      ensures control[..] == old(control[..])[id := DontWantIn]
      ensures OthersIdle(old(control[..]), id) ==> high == id
    {
      var k := NextActive(ExitStartAsWritten(high, n));
      if OthersIdle(control[..], id) {
        AloneExitSelectsSelf(control[..], ExitStartAsWritten(high, n), id);
        FirstActiveUnique(control[..], ExitStartAsWritten(high, n), k, id);
      }
      high := k;
      control[id] := DontWantIn;
    }

    /** The exit protocol with the corrected start cycleUp(HIGH, N): HIGH
        becomes the first busy slot after HIGH, so HIGH's own slot is chosen
        only when every other slot is idle. */
    method ExitCorrected(id: int)
      requires Valid() && 0 <= id < n
      requires control[id] == EnterCS
      modifies control, this`high
      ensures Valid()
      ensures FirstActive(old(control[..]), ExitStart(old(high), n), high)
      ensures high == old(high) ==> forall k :: 0 <= k < n && k != old(high) ==> old(control[k]) == DontWantIn
      ensures control[..] == old(control[..])[id := DontWantIn]
    {
      var k := NextActive(ExitStart(high, n));
      high := k;
      control[id] := DontWantIn;
    }

    /** Worker() with a single thread: RUNS rounds, round r admitting
        counts[r] entries before stop is seen; each entry takes its id from
        the start-point table (with n == 1 the table holds only id 0).
        With no other contender no restart fires, every exit leaves all slots
        idle, and the worker returns the median of its round counts. */
    method Worker(table: seq<int>, counts: seq<nat>) returns (median: nat)
      requires Valid() && Idle()
      requires |table| >= 1 && HarnessMain.PermutationBlocks(table, n)
      requires |counts| == RUNS
      modifies control, this`high
      ensures Valid() && Idle()
      ensures median == RoundMedian(counts)
    {
      var cnt := 0;
      var entries: seq<nat> := [];
      for r := 0 to RUNS
        invariant Valid() && Idle()
        invariant 0 <= cnt < |table|
        invariant entries == counts[..r]
      {
        var e: nat := 0;
        while e < counts[r]
          invariant Valid() && Idle() && 0 <= cnt < |table|
          invariant e <= counts[r]
        {
          var id := HarnessMain.Startpoint(table, n, cnt);
          cnt := CycleUp(cnt, |table|);
          var attempt := TryEnter(id);
          assert attempt == Entered;
          Exit(id);
          e := e + 1;
        }
        entries := entries + [e];
      }
      assert counts[..RUNS] == counts;
      median := RoundMedian(entries);
    }
  }
}

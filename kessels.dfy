/** Kessels' two-thread arbiter (Kessels2.c): the mod-2 token arithmetic of
    the inv and plus macros, and the entry and exit steps over a snapshot of
    the interest flags Q and the tokens R. */
module Kessels {
  import opened Harness

  predicate IsBit(v: int)
  {
    v == 0 || v == 1
  }

  predicate Bits(s: seq<int>)
  {
    forall k :: 0 <= k < |s| ==> IsBit(s[k])
  }

  /** inv(c): the other thread's id / the other bit. */
  function Inv(c: nat): (r: nat)
    ensures IsBit(r)
    ensures IsBit(c) ==> r == 1 - c
  {
    (c + 1) % 2
  }

  /** Exclusive or of two bits, the operator of the disabled alternative
      R[id] = R[1-id] ^ id. */
  function Xor(a: int, b: int): (r: int)
    requires IsBit(a) && IsBit(b)
  {
    ((a as bv1) ^ (b as bv1)) as int
  }

  /** plus(a, b): addition modulo 2, which on bits is exclusive or. */
  function Plus(a: nat, b: nat): (r: nat)
    ensures IsBit(r)
    ensures IsBit(a) && IsBit(b) ==> r == Xor(a, b)
  {
    (a + b) % 2
  }

  lemma InvInvolutive(c: nat)
    requires IsBit(c)
    ensures Inv(Inv(c)) == c
  {
  }

  /** Tie-break: whatever the tokens, exactly one of the two token tests
      (thread 0's R[0] == plus(R[1], 0), thread 1's R[1] == plus(R[0], 1))
      holds. */
  lemma ExactlyOneTokenTest(r0: nat, r1: nat)
    requires IsBit(r0) && IsBit(r1)
    ensures (r0 == Plus(r1, 0)) != (r1 == Plus(r0, 1))
  {
  }

  /** The spin condition of thread id on a snapshot (q, r). */
  predicate Waits(q: seq<int>, r: seq<int>, id: nat)
    requires |q| == 2 && |r| == 2 && Bits(r) && IsBit(id)
  {
    q[Inv(id)] == 1 && r[id] == Plus(r[Inv(id)], id)
  }

  /** When both threads have announced, exactly one of them waits. */
  lemma BothInterestedExactlyOneWaits(q: seq<int>, r: seq<int>)
    requires |q| == 2 && |r| == 2 && Bits(r)
    requires q[0] == 1 && q[1] == 1
    ensures Waits(q, r, 0) != Waits(q, r, 1)
  {
    ExactlyOneTokenTest(r[0], r[1]);
  }

  class Shared {
    const q: array<int>
    const r: array<int>

    ghost predicate Valid()
      reads this, q, r
    {
      q.Length == 2 && r.Length == 2 && q != r && Bits(q[..]) && Bits(r[..])
    }

    /** ctor(): assert(N == 2), then both interest flags cleared. The tokens
        are zero-initialised globals. */
    constructor (n: int)
      requires n == 2
      ensures Valid() && fresh(q) && fresh(r)
      ensures q[0] == 0 && q[1] == 0
    {
      q := new int[2] [0, 0];
      r := new int[2] [0, 0];
    }

    /** Q[id] = 1. */
    method Announce(id: nat)
      requires Valid() && IsBit(id)
      modifies q
      ensures Valid() && q[..] == old(q[..])[id := 1]
    {
      q[id] := 1;
    }

    /** R[id] = plus(R[inv(id)], id). Right after it, with R[other] as it
        was, id's token test holds, so id waits exactly while Q[other] == 1. */
    method TakeToken(id: nat)
      requires Valid() && IsBit(id)
      modifies r
      ensures Valid()
      ensures r[..] == old(r[..])[id := Plus(old(r[Inv(id)]), id)]
      ensures Waits(q[..], r[..], id) <==> q[Inv(id)] == 1
    {
      r[id] := Plus(r[Inv(id)], id);
    }

    /** One evaluation of the spin condition. A thread never waits while the
        other's interest flag is clear, and when both are interested it waits
        exactly when the other thread does not. */
    method MustWait(id: nat) returns (w: bool)
      requires Valid() && IsBit(id)
      ensures w <==> Waits(q[..], r[..], id)
      ensures q[Inv(id)] == 0 ==> !w
      ensures q[0] == 1 && q[1] == 1 ==> (w <==> !Waits(q[..], r[..], Inv(id)))
    {
      w := Waits(q[..], r[..], id);
      if q[0] == 1 && q[1] == 1 {
        BothInterestedExactlyOneWaits(q[..], r[..]);
      }
    }

    /** The entry protocol up to the spin loop: true when id goes straight
        into the critical section, which is exactly when the other thread's
        interest flag was clear. */
    method TryEnter(id: nat) returns (entered: bool)
      requires Valid() && IsBit(id)
      modifies q, r
      ensures Valid()
      ensures entered <==> old(q[Inv(id)]) == 0
      ensures q[..] == old(q[..])[id := 1]
      ensures r[..] == old(r[..])[id := Plus(old(r[Inv(id)]), id)]
    {
      Announce(id);
      TakeToken(id);
      var w := MustWait(id);
      entered := !w;
    }

    /** The exit protocol: Q[id] = 0. */
    method Exit(id: nat)
      requires Valid() && IsBit(id)
      modifies q
      ensures Valid() && q[..] == old(q[..])[id := 0]
    {
      q[id] := 0;
    }

    /** Worker() for a single contender, starting from the state ctor()
        leaves: RUNS rounds, round r admitting counts[r] entries, none of
        which spins; both flags are 0 again after every exit, and the median
        of the round counts is returned. */
    method Worker(id: nat, counts: seq<nat>) returns (median: nat)
      requires Valid() && IsBit(id)
      requires q[0] == 0 && q[1] == 0
      requires |counts| == RUNS
      modifies q, r
      ensures Valid() && q[0] == 0 && q[1] == 0
      ensures median == RoundMedian(counts)
    {
      var entries: seq<nat> := [];
      for round := 0 to RUNS
        invariant Valid() && q[0] == 0 && q[1] == 0
        invariant entries == counts[..round]
      {
        var e: nat := 0;
        while e < counts[round]
          invariant Valid() && q[0] == 0 && q[1] == 0
          invariant e <= counts[round]
        {
          var entered := TryEnter(id);
          assert entered;
          Exit(id);
          assert q[id] == 0;
          e := e + 1;
        }
        entries := entries + [e];
      }
      assert counts[..RUNS] == counts;
      median := RoundMedian(entries);
    }
  }
}

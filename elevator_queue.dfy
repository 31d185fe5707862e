/** The elevator lock's ring-buffer queue and tournament tree
    (relacy/ElevatorQueue.cc): a thread climbs from its leaf N + id writing
    its id into the nodes on the way up, and on leaving the critical section
    descends again, reading the id stored in each sibling node, clearing and
    enqueueing every sibling that applied, and handing the lock to the head
    of the queue. The WCas arbitration is an input. */
module ElevatorQueue {
  import opened Harness

  /** Number of threads, ring capacity, and index of the first leaf. */
  const N: int := 8

  /** Brings an index in [0, 2N) back into [0, N). */
  function Wrap(i: int): int
  {
    if i < N then i else i - N
  }

  /** The items of a ring e from front up to, but excluding, rear. */
  function Window(e: seq<int>, front: int, rear: int): (w: seq<int>)
    requires |e| == N && 0 <= front < N && 0 <= rear < N
    ensures |w| == if front <= rear then rear - front else rear - front + N
    ensures forall k :: 0 <= k < |w| ==> w[k] == e[Wrap(front + k)]
  {
    if front <= rear then e[front..rear] else e[front..] + e[..rear]
  }

  /** Storing x at rear and advancing rear appends x, unless the ring
      already held N - 1 items. */
  lemma WindowPush(e: seq<int>, front: int, rear: int, x: int)
    requires |e| == N && 0 <= front < N && 0 <= rear < N
    requires |Window(e, front, rear)| < N - 1
    ensures Window(e[rear := x], front, CycleUp(rear, N)) == Window(e, front, rear) + [x]
  {
    var w, w' := Window(e, front, rear), Window(e[rear := x], front, CycleUp(rear, N));
    assert |w'| == |w| + 1;
    forall k | 0 <= k < |w'|
      ensures w'[k] == (w + [x])[k]
    {
      if k < |w| {
        assert Wrap(front + k) != rear;
      }
    }
  }

  /** Pushing onto a ring holding N - 1 items makes it read as empty. */
  lemma WindowPushFull(e: seq<int>, front: int, rear: int, x: int)
    requires |e| == N && 0 <= front < N && 0 <= rear < N
    requires |Window(e, front, rear)| == N - 1
    ensures Window(e[rear := x], front, CycleUp(rear, N)) == []
  {
  }

  /** Advancing front over a non-empty ring removes its head, which is the
      element at front. */
  lemma WindowPop(e: seq<int>, front: int, rear: int)
    requires |e| == N && 0 <= front < N && 0 <= rear < N
    requires Window(e, front, rear) != []
    ensures e[front] == Window(e, front, rear)[0]
    ensures Window(e, CycleUp(front, N), rear) == Window(e, front, rear)[1..]
  {
    var w, w' := Window(e, front, rear), Window(e, CycleUp(front, N), rear);
    assert |w'| == |w| - 1;
    forall k | 0 <= k < |w'|
      ensures w'[k] == w[k + 1]
    {
    }
  }

  /** Advancing front over an empty ring makes it read as holding N - 1
      items. */
  lemma WindowPopEmpty(e: seq<int>, front: int, rear: int)
    requires |e| == N && 0 <= front < N && 0 <= rear < N
    requires Window(e, front, rear) == []
    ensures |Window(e, CycleUp(front, N), rear)| == N - 1
  {
  }

  /** The Queue struct: N elements and the front and rear indices. */
  class Queue {
    const elements: array<int>
    var front: int
    var rear: int

    ghost predicate Valid()
      reads this
    {
      elements.Length == N && 0 <= front < N && 0 <= rear < N
    }

    /** The queue as a sequence, head first. */
    function Contents(): (s: seq<int>)
      reads this, elements
      requires Valid()
      ensures |s| < N
    {
      Window(elements[..], front, rear)
    }

    /** Storage for the struct, indices zero. */
    constructor ()
      ensures Valid() && fresh(elements) && front == 0 && rear == 0
    {
      elements := new int[N];
      front := 0;
      rear := 0;
    }

    /** Qctor: front = rear = 0, so the queue is empty. */
    method Init()
      requires Valid()
      modifies this`front, this`rear
      ensures Valid() && front == 0 && rear == 0
      ensures Contents() == [] && !NotEmpty()
    {
      front := 0;
      rear := 0;
    }

    /** QnotEmpty: front != rear, that is, the queue holds some item. */
    function NotEmpty(): (r: bool)
      reads this, elements
      requires Valid()
      ensures r <==> Contents() != []
    {
      front != rear
    }

    /** Qenqueue: writes only elements[rear] and advances rear cyclically.
        Below N - 1 items this appends; at N - 1 items the ring wraps and
        reads as empty. */
    method Enqueue(x: int)
      requires Valid()
      modifies this`rear, elements
      ensures Valid() && front == old(front) && rear == CycleUp(old(rear), N)
      ensures elements[..] == old(elements[..])[old(rear) := x]
      ensures |old(Contents())| < N - 1 ==> Contents() == old(Contents()) + [x]
      ensures |old(Contents())| == N - 1 ==> Contents() == []
    {
      ghost var e := elements[..];
      elements[rear] := x;
      assert elements[..] == e[rear := x];
      if |Window(e, front, rear)| < N - 1 {
        WindowPush(e, front, rear, x);
      } else {
        WindowPushFull(e, front, rear, x);
      }
      rear := CycleUp(rear, N);
    }

    /** Qdequeue: returns elements[front] and advances front cyclically. On a
        non-empty queue this removes and returns the head. */
    method Dequeue() returns (x: int)
      requires Valid()
      modifies this`front
      ensures Valid() && rear == old(rear) && front == CycleUp(old(front), N)
      ensures x == elements[old(front)]
      ensures old(Contents()) != [] ==> x == old(Contents())[0] && Contents() == old(Contents())[1..]
      ensures old(Contents()) == [] ==> |Contents()| == N - 1
    {
      x := elements[front];
      if Contents() != [] {
        WindowPop(elements[..], front, rear);
      } else {
        WindowPopEmpty(elements[..], front, rear);
      }
      front := CycleUp(front, N);
    }
  }

  // ---------------------------------------------------------------------
  // Tree index arithmetic (heap layout: node j has children 2j and 2j + 1,
  // the root is node 1 and thread id's leaf is node N + id)

  /** dep = Log2(n) for the leaf n = N + id: three levels below the root. */
  function Dep(id: int): (d: int)
    requires 0 <= id < N
    ensures d == 3 && Pow2(d) == N
  {
    Log2Unique(N + id, 3);
    Log2(N + id)
  }

  /** n >> 1 for the leaf n = N + id: where the upward loop starts. */
  function LeafParent(id: int): int
  {
    (N + id) / 2
  }

  /** The nodes the upward loop writes, starting at node j and halving while
      above 1: node j and its ancestors below the root, Log2(j) of them. */
  function Path(j: int): (p: seq<int>)
    ensures forall k :: k in p ==> 2 <= k <= j
    ensures j >= 1 ==> |p| == Log2(j)
    decreases j
  {
    if j > 1 then [j] + Path(j / 2) else []
  }

  /** The upward loop from the parent of a leaf stays among the internal
      nodes below the root. */
  lemma {:induction false} ClimbStaysInternal(id: int)
    requires 0 <= id < N
    ensures |Path(LeafParent(id))| == Dep(id) - 1
    ensures forall k :: k in Path(LeafParent(id)) ==> 2 <= k < N
  {
    Log2Unique(LeafParent(id), 2);
  }

  /** k ^ 1: the other child of k's parent. */
  function Sibling(k: nat): (s: nat)
    ensures s != k && s / 2 == k / 2
  {
    if k % 2 == 0 then k + 1 else k - 1
  }

  /** The node (n >> j) ^ 1 that the descent reads at level j, for the leaf
      n = N + id: the sibling of the leaf's ancestor j levels up. */
  function SiblingNode(id: int, j: int): (s: int)
    requires 0 <= id < N && 0 <= j < Dep(id)
    ensures 2 <= s < 2 * N
    ensures s != (N + id) / Pow2(j) && s / 2 == (N + id) / Pow2(j + 1)
  {
    assert Pow2(1) == 2 && Pow2(2) == 4 && Pow2(3) == 8;
    Sibling((N + id) / Pow2(j))
  }

  /** The ids the descent reads, in scan order (j from dep - 1 down to 0). */
  function SiblingIds(v: seq<int>, id: int): (ks: seq<int>)
    requires |v| == 2 * N && 0 <= id < N
    requires forall i :: 0 <= i < 2 * N ==> 0 <= v[i] <= N
    ensures |ks| == Dep(id)
    ensures forall i :: 0 <= i < |ks| ==> 0 <= ks[i] <= N
  {
    seq(Dep(id), i requires 0 <= i < Dep(id) => v[SiblingNode(id, Dep(id) - 1 - i)])
  }

  /** The descent's effect, for sibling ids ks in scan order, on the apply
      flags a: every id in ks comes out cleared and the rest unchanged, and
      the ids enqueued, in order, are those in ks that had applied, each
      exactly once. */
  function Drain(a: seq<bool>, ks: seq<int>): (r: (seq<bool>, seq<int>))
    requires forall i :: 0 <= i < |ks| ==> 0 <= ks[i] < |a|
    ensures |r.0| == |a| && |r.1| <= |ks|
    ensures forall i :: 0 <= i < |a| ==> r.0[i] == (a[i] && i !in ks)
    ensures forall v :: v in r.1 <==> v in ks && 0 <= v < |a| && a[v]
    ensures forall i, j :: 0 <= i < j < |r.1| ==> r.1[i] != r.1[j]
    decreases |ks|
  {
    if ks == [] then (a, [])
    else
      var k := ks[|ks| - 1];
      var prev := Drain(a, ks[..|ks| - 1]);
      assert ks == ks[..|ks| - 1] + [k];
      if prev.0[k] then (prev.0[k := false], prev.1 + [k]) else prev
  }

  /** Scanning one more id k either clears and enqueues k, when it still
      applies, or changes nothing. */
  lemma DrainStep(a: seq<bool>, ks: seq<int>, i: int)
    requires forall m :: 0 <= m < |ks| ==> 0 <= ks[m] < |a|
    requires 0 <= i < |ks|
    ensures |Drain(a, ks[..i]).1| <= i
    ensures var (a', q) := Drain(a, ks[..i]);
      Drain(a, ks[..i + 1]) == if a'[ks[i]] then (a'[ks[i] := false], q + [ks[i]]) else (a', q)
  {
    assert ks[..i + 1][..i] == ks[..i];
  }

  /** With no thread applying, the descent changes nothing and enqueues
      nobody. */
  lemma NobodyApplied(a: seq<bool>, ks: seq<int>)
    requires forall i :: 0 <= i < |ks| ==> 0 <= ks[i] < |a|
    requires forall i :: 0 <= i < |a| ==> !a[i]
    ensures Drain(a, ks) == (a, [])
  {
    var r := Drain(a, ks);
    assert forall i :: 0 <= i < |r.1| ==> r.1[i] in r.1;
    assert r.0 == a;
  }

  class Elevator {
    const queue: Queue
    const apply: array<bool>  // tstate[k].apply, k in [0, N]; slot N is never set
    const val: array<int>     // the tree, nodes [1, N) internal, [N, 2N) leaves
    const b: array<bool>
    var fast: bool
    var lock: int             // id holding the lock, N when free
    var y: int

    /** The arrays have their declared sizes and are distinct. */
    ghost predicate Shaped()
      reads this, queue
    {
      queue.Valid() && apply.Length == N + 1 && val.Length == 2 * N && b.Length == N
      && queue.elements != val && apply != b
    }

    /** Every val entry indexes tstate, the sentinel slot N never applies,
        the queue holds thread ids and lock is a thread id or N. */
    ghost predicate Valid()
      reads this, queue, queue.elements, apply, val
    {
      Shaped()
      && (forall i :: 0 <= i < 2 * N ==> 0 <= val[i] <= N)
      && !apply[N]
      && (forall i :: 0 <= i < |queue.Contents()| ==> 0 <= queue.Contents()[i] < N)
      && 0 <= lock <= N
    }

    /** Storage for the test-suite object. */
    constructor ()
      ensures Shaped() && fresh(queue) && fresh(queue.elements)
      ensures fresh(apply) && fresh(val) && fresh(b)
    {
      queue := new Queue();
      apply := new bool[N + 1];
      val := new int[2 * N];
      b := new bool[N];
    }

    /** before(): empties the queue, clears every apply flag, frees the lock,
        stores N in nodes [0, N) and id in leaf N + id, clears b, y = N and
        fast = false. */
    method Before()
      requires Shaped()
      modifies queue, apply, val, b, this`lock, this`y, this`fast
      ensures Valid()
      ensures queue.front == 0 && queue.rear == 0 && queue.Contents() == []
      ensures forall k :: 0 <= k <= N ==> !apply[k]
      ensures lock == N && y == N && !fast
      ensures forall i :: 0 <= i < N ==> val[i] == N
      ensures forall i :: N <= i < 2 * N ==> val[i] == i - N
      ensures forall i :: 0 <= i < N ==> !b[i]
    {
      queue.Init();
      ClearFlags(apply);
      lock := N;
      InitTree();
      ClearFlags(b);
      y := N;
      fast := false;
    }

    /** Every flag of a cleared. */
    static method ClearFlags(a: array<bool>)
      modifies a
      ensures forall k :: 0 <= k < a.Length ==> !a[k]
    {
      for id := 0 to a.Length
        invariant forall k :: 0 <= k < id ==> !a[k]
      {
        a[id] := false;
      }
    }

    /** val[id] = N and val[N + id] = id for every id < N. */
    method InitTree()
      requires val.Length == 2 * N
      modifies val
      ensures forall i :: 0 <= i < N ==> val[i] == N
      ensures forall i :: N <= i < 2 * N ==> val[i] == i - N
    {
      for id := 0 to N
        invariant forall i :: 0 <= i < id ==> val[i] == N
        invariant forall i :: N <= i < N + id ==> val[i] == i - N
      {
        val[id] := N;
        val[N + id] := id;
      }
    }

    /** Entry: apply, then the loop from the parent of the leaf to the child
        of the root writes id into every node on the way; nothing else. */
    method Climb(id: int)
      requires Valid() && 0 <= id < N
      modifies apply, val
      ensures Valid()
      ensures apply[..] == old(apply[..])[id := true]
      ensures forall k :: 0 <= k < 2 * N ==> val[k] == if k in Path(LeafParent(id)) then id else old(val[k])
    {
      apply[id] := true;
      var n := N + id;
      var j := n / 2;
      ghost var done: seq<int> := [];
      while j > 1
        invariant 1 <= j <= n / 2
        invariant done + Path(j) == Path(n / 2)
        invariant apply[..] == old(apply[..])[id := true]
        invariant forall k :: 0 <= k < 2 * N ==> val[k] == if k in done then id else old(val[k])
      {
        val[j] := id;
        assert Path(j) == [j] + Path(j / 2);
        done := done + [j];
        j := j / 2;
      }
      assert Path(j) == [];
    }

    /** The lock arbitration following WCas, whose result is the input
        leader. WCas returns true only after setting fast, so the leader
        starts with fast set; it waits for the lock to be free or handed to it,
        takes it and clears fast; another thread waits for the lock to be
        handed to it. Returns whether the wait is already over. */
    method Arbitrate(id: int, leader: bool) returns (owner: bool)
      requires Valid() && 0 <= id < N
      modifies this`lock, this`fast
      ensures Valid()
      ensures owner <==> if leader then old(lock) == N || old(lock) == id else old(lock) == id
      ensures owner ==> lock == id
      ensures leader && owner ==> !fast
      ensures leader && !owner ==> fast
      ensures !leader ==> fast == old(fast)
      ensures !owner ==> lock == old(lock)
    {
      if leader {
        fast := true;
        if lock == N || lock == id {
          lock := id;
          fast := false;
          return true;
        }
        return false;
      }
      return lock == id;
    }

    /** Exit: the descent, then the hand-off of the lock. The queue must
        have room for one id per level. */
    method HandOff(id: int)
      requires Valid() && 0 <= id < N
      requires |queue.Contents()| + Dep(id) <= N - 1
      modifies apply, queue, queue.elements, this`lock
      ensures Valid() && val[..] == old(val[..])
      ensures apply[..] == Drain(old(apply[..]), SiblingIds(val[..], id)).0
      ensures var all := old(queue.Contents()) + Drain(old(apply[..]), SiblingIds(val[..], id)).1;
        (all == [] ==> lock == N && queue.Contents() == []) &&
        (all != [] ==> lock == all[0] && queue.Contents() == all[1..])
    {
      Descend(id);
      PassLock();
    }

    /** The loop from the child of the root to the leaf: reads the id in
        each sibling node; each one that applied is cleared and enqueued. */
    method Descend(id: int)
      requires Valid() && 0 <= id < N
      requires |queue.Contents()| + Dep(id) <= N - 1
      modifies apply, queue, queue.elements
      ensures Valid() && val[..] == old(val[..]) && lock == old(lock)
      ensures apply[..] == Drain(old(apply[..]), SiblingIds(val[..], id)).0
      ensures queue.Contents() == old(queue.Contents()) + Drain(old(apply[..]), SiblingIds(val[..], id)).1
    {
      var dep := Dep(id);
      ghost var ks := SiblingIds(val[..], id);
      ghost var a0 := apply[..];
      ghost var q0 := queue.Contents();
      var j := dep - 1;
      while j >= 0
        invariant -1 <= j < dep
        invariant Valid() && val[..] == old(val[..]) && lock == old(lock)
        invariant apply[..] == Drain(a0, ks[..dep - 1 - j]).0
        invariant queue.Contents() == q0 + Drain(a0, ks[..dep - 1 - j]).1
      {
        var k := val[SiblingNode(id, j)];
        assert k == ks[dep - 1 - j];
        Admit(k, a0, q0, ks, dep - 1 - j);
        j := j - 1;
      }
      assert ks[..dep] == ks;
    }

    /** lock becomes the id dequeued from the head of the queue, or N when
        the queue is empty. */
    method PassLock()
      requires Valid()
      modifies queue, this`lock
      ensures Valid() && apply[..] == old(apply[..]) && val[..] == old(val[..])
      ensures old(queue.Contents()) == [] ==> lock == N && queue.Contents() == []
      ensures old(queue.Contents()) != [] ==> lock == old(queue.Contents())[0] && queue.Contents() == old(queue.Contents())[1..]
    {
      if queue.NotEmpty() {
        lock := queue.Dequeue();
      } else {
        lock := N;
      }
    }

    /** One step of the descent, scanning ks[i] == k after ks[..i]: if k
        applied, its flag is cleared and k is enqueued. */
    method Admit(k: int, ghost a0: seq<bool>, ghost q0: seq<int>, ghost ks: seq<int>, ghost i: int)
      requires Valid() && 0 <= i < |ks| && ks[i] == k
      requires |a0| == N + 1 && forall m :: 0 <= m < |ks| ==> 0 <= ks[m] <= N
      requires |q0| + |ks| <= N - 1
      requires apply[..] == Drain(a0, ks[..i]).0
      requires queue.Contents() == q0 + Drain(a0, ks[..i]).1
      modifies apply, queue, queue.elements
      ensures Valid() && val[..] == old(val[..]) && lock == old(lock)
      ensures apply[..] == Drain(a0, ks[..i + 1]).0
      ensures queue.Contents() == q0 + Drain(a0, ks[..i + 1]).1
    {
      DrainStep(a0, ks, i);
      if apply[k] {
        apply[k] := false;
        queue.Enqueue(k);
      }
    }

    /** (*applyId) = false, once the lock is held. */
    method Withdraw(id: int)
      requires Valid() && 0 <= id < N
      modifies apply
      ensures Valid() && apply[..] == old(apply[..])[id := false]
    {
      apply[id] := false;
    }

    /** thread(id), with the WCas outcome as input: climb, arbitrate and, once
        the lock is held, withdraw the application and hand off. A thread that
        does not yet hold the lock is left applying, waiting for it. When no
        other thread applies and the queue is empty, the lock owner leaves
        the lock free, the queue empty and every flag clear. */
    method Thread(id: int, leader: bool) returns (owner: bool)
      requires Valid() && 0 <= id < N
      requires |queue.Contents()| + Dep(id) <= N - 1
      modifies apply, val, queue, queue.elements, this`lock, this`fast
      ensures Valid()
      ensures forall k :: 0 <= k < 2 * N ==> val[k] == if k in Path(LeafParent(id)) then id else old(val[k])
      ensures owner <==> if leader then old(lock) == N || old(lock) == id else old(lock) == id
      ensures !owner ==> apply[..] == old(apply[..])[id := true] && lock == old(lock)
      ensures !owner ==> queue.Contents() == old(queue.Contents())
      ensures owner ==> !apply[id]
      ensures leader && owner ==> !fast
      ensures leader && !owner ==> fast
      ensures !leader ==> fast == old(fast)
      ensures owner ==> apply[..] == Drain(old(apply[..])[id := false], SiblingIds(val[..], id)).0
      ensures owner ==>
        var all := old(queue.Contents()) + Drain(old(apply[..])[id := false], SiblingIds(val[..], id)).1;
        (all == [] ==> lock == N && queue.Contents() == []) &&
        (all != [] ==> lock == all[0] && queue.Contents() == all[1..])
      ensures owner && old(queue.Contents()) == [] && (forall k :: 0 <= k <= N && k != id ==> !old(apply[k])) ==>
        lock == N && queue.Contents() == [] && forall k :: 0 <= k <= N ==> !apply[k]
    {
      ghost var q0 := queue.Contents();
      ghost var a0 := apply[..];
      Climb(id);
      owner := Arbitrate(id, leader);
      if !owner {
        return;
      }
      Withdraw(id);
      ghost var a1 := apply[..];
      assert a1 == a0[id := false];
      ghost var solo := q0 == [] && forall k :: 0 <= k <= N && k != id ==> !a0[k];
      if solo {
        assert forall k :: 0 <= k <= N ==> !a1[k];
        NobodyApplied(a1, SiblingIds(val[..], id));
      }
      HandOff(id);
    }
  }
}

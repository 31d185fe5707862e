# concurrent-locking: a sequential model in Dafny

The concurrent-locking repository is a benchmark harness for software mutual
exclusion algorithms. A driver (`Harness.c`) parses its arguments, assigns
shuffled logical ids to worker threads, and collects each worker's median
number of critical-section entries over `RUNS` timed rounds. In the fast
one-thread mode it also builds a table of start points, so that the single
thread keeps changing its id. Each algorithm file supplies `ctor` and
`Worker`.

This project models the sequential core of that system:

- `harness.dfy` (module `Harness`): `cycleUp`/`cycleDown`, the portable
  `Log2` and `Clog2`, the `compare` comparator, the `median` macro, and
  the qsort-then-median reduction of a worker's round counts.
- `harness_main.dfy` (module `HarnessMain`):
  - the argument switch of `main`;
  - `shuffle` and the assignment of thread ids;
  - `startpoints` and `startpoint`.
- `eisenberg.dfy`, `lamport_fast.dfy`, `kessels.dfy`: the Eisenberg–McGuire,
  Lamport fast and Kessels two-thread algorithms.
  - Each file has one `Shared` class whose fields are the algorithm's
    globals.
  - Its methods are `ctor`, the entry and exit steps, and the
    single-contender `Worker`. Each step runs over a snapshot of the shared
    state. A step covers the code between two points where the source may
    retry or hand over to another thread, so a `TryEnter` step can span
    several fences.
- `elevator_queue.dfy` (module `ElevatorQueue`), modelling
  `relacy/ElevatorQueue.cc`:
  - the ring-buffer `Queue` and its operations;
  - `before()`;
  - the heap-layout tree walk of `thread()`: the upward loop that writes
    the thread's id into the nodes above its leaf, and the descent that
    reads each sibling node and hands the lock on.

Each entry or exit step is a method over the shared state. It states how
that state changes and which branch of the source is taken. The properties
the source relies on are proved as lemmas over specification functions:
- shuffling only permutes;
- every start-point block is a permutation of the ids;
- the queue is FIFO;
- the descent clears and enqueues each applying sibling exactly once;
- the returned value is the median of the round counts.

## Model

| member | source | states |
|---|---|---|
| Harness.CycleUp | Harness.c:115 | on the ring [0, n) the result stays in range and is (v + 1) mod n |
| Harness.CycleDown | Harness.c:116 | on the ring [0, n) the result stays in range and is (v - 1) mod n |
| Harness.CycleInverse | Harness.c:115-116 | cycleUp and cycleDown undo each other on [0, n) |
| Harness.Log2 | Harness.c:91-93 | -1 for n <= 0, otherwise the r with 2^r <= n < 2^(r+1) |
| Harness.Log2OfPow2 | Harness.c:91-93 | Log2(2^k) == k |
| Harness.Log2Unique | Harness.c:91-93 | any r with 2^r <= n < 2^(r+1) is Log2(n) |
| Harness.Clog2 | Harness.c:96-100 | -1 for n <= 0, otherwise the least r with n <= 2^r |
| Harness.Clog2IsLog2OnPowers | Harness.c:96-100 | Clog2(n) == Log2(n) exactly when n is a power of two |
| Harness.Compare | Harness.c:122-126 | result in {-1, 0, 1}; 0 iff equal; 1 iff the first is larger |
| Harness.CompareAntisymmetric | Harness.c:122-126 | swapping the arguments negates the result |
| Harness.Median | Harness.c:121 | the median of an odd-length array is one of its elements; on a sorted array it lies between the lower and upper halves |
| Harness.Insert | Harness.c:122-126 | inserting into a sorted sequence by compare keeps it sorted, adds exactly that element, and puts the smaller of it and the old head first |
| Harness.SortCounts | Eisendberg.c:46 | qsort(entries, RUNS, ..., compare) yields the same multiset of counts, of the same length, in ascending order |
| Harness.CountPermutation | Eisendberg.c:46 | reordering the counts does not change how many lie on either side of a pivot |
| Harness.MedianSplitsSorted | Harness.c:121 | in a sorted array of RUNS counts at least RUNS/2 + 1 lie at or below the median and as many at or above it |
| Harness.MedianOfPermutation | Eisendberg.c:46-47 | the median taken after sorting is one of the unsorted counts, which have the same counts on either side of it |
| Harness.RoundMedian | Eisendberg.c:46-47 | the worker's result is one of its round counts, with at least RUNS/2 + 1 counts at or below it and at least as many at or above it |
| HarnessMain.ParseArgs | Harness.c:256-273 | the run goes ahead iff argc is 3 or 4, N >= 1, Time >= 1 and (argc 4) Degree >= 2; the configuration holds the parsed values, Degree -1 when absent; otherwise usage is printed with the values N, Time and Degree had when validation failed: the defaults for a wrong argc or a Degree below 2, the parsed N and Time (and Degree) when N or Time is below 1 |
| HarnessMain.CheckTimeAndN | Harness.c:263-267 | case 3 accepts iff Time >= 1 and N >= 1, and keeps the parsed values either way |
| HarnessMain.PermutationOfIota | Harness.c:287 | a sequence with the multiset of 0, ..., n-1 is a permutation of the ids [0, n) |
| HarnessMain.Shuffled | Harness.c:243-253 | applying the rand() draws keeps the length |
| HarnessMain.SwapIsPermutation | Harness.c:249-251 | one swap of set[p1] and set[p2] keeps the multiset |
| HarnessMain.ShuffledIsPermutation | Harness.c:243-253 | any sequence of draws only permutes the array |
| HarnessMain.Shuffle | Harness.c:243-253 | the array ends as Shuffled(old contents, draws), with the same multiset |
| HarnessMain.ThreadIds | Harness.c:286-289 | set[i] = i followed by shuffle gives a permutation of the thread ids [0, Threads) |
| HarnessMain.NoStartPoints | Harness.c:279-280 | the table length is a multiple of N, at most 64, falls short of 64 by less than N, and holds at least one block when N <= 64 |
| HarnessMain.NoStartPointsEmptyAbove64 | Harness.c:279-280 | with N > 64 the table length is 0 |
| HarnessMain.AppendBlock | Harness.c:142-152 | appending a permutation block to a table of whole blocks gives a table of whole blocks |
| HarnessMain.UnusedIdExists | Harness.c:144-149 | while fewer than N ids fill the block, some id in [0, N) is still unused, so the rand() retry can succeed |
| HarnessMain.PermutationCoversIds | Harness.c:133-138 | a block that is a permutation of [0, N) contains every id |
| HarnessMain.FillBlock | Harness.c:143-151 | the inner loop turns slots [i, i + N) into a permutation of [0, N) and leaves the slots before and after the block alone |
| HarnessMain.Startpoints | Harness.c:140-152 | the whole table is a sequence of blocks, each a permutation of [0, N) |
| HarnessMain.PermutationBlocksInRange | Harness.c:159-162 | every entry of such a table is an id in [0, N) |
| HarnessMain.Startpoint | Harness.c:159-162 | the id read from the table is in [0, N) |
| Eisenberg.FirstActiveUnique | Eisendberg.c:37-38 | the exit scan's choice is determined by the snapshot and the start |
| Eisenberg.AloneEnters | Eisendberg.c:25-33 | a single contender passes step 1, both tests of step 2, and the HIGH gate, whatever HIGH is |
| Eisenberg.AloneExitSelectsSelf | Eisendberg.c:37-38 | a single contender's exit scan stops at its own slot from any start |
| Eisenberg.ExitStartAsWritten | Eisendberg.c:37 | the scan as written starts at HIGH + 2, or at 0 once that reaches N |
| Eisenberg.ExitStartAsWrittenVisitsHighFirst | Eisendberg.c:37 | for every N >= 2 and HIGH <= N - 2, the scan as written reaches HIGH's own slot before slot HIGH + 1 |
| Eisenberg.ExitStartAsWrittenAtLastSlot | Eisendberg.c:37 | for HIGH = N - 1 the scan as written and the intended scan both start at slot 0 |
| Eisenberg.ExitStartAsWrittenSkipsSuccessor | Eisendberg.c:33-38 | with N = 3, id = HIGH = 0 and thread 1 waiting, the scan as written meets slot 0 before slot 1 and picks 0 |
| Eisenberg.ExitStart | Eisendberg.c:36-38 | the intended start visits every other slot before HIGH's own slot |
| Eisenberg.ExitStartPassesToSuccessor | Eisendberg.c:36-38 | on the same state the intended scan hands HIGH to thread 1 |
| Eisenberg.Shared.constructor | Eisendberg.c:50-56 | every slot is DontWantIn and HIGH is 0 |
| Eisenberg.Shared.HigherPriorityIdle | Eisendberg.c:25-26 | step 1 passes iff every slot from HIGH up to, but excluding, id is DontWantIn |
| Eisenberg.Shared.NoOtherEnterCS | Eisendberg.c:30-31 | the first step-2 test passes iff no other slot is at EnterCS |
| Eisenberg.Shared.NextActive | Eisendberg.c:37-38 | given some busy slot, the scan returns the first busy slot in cyclic order from its start |
| Eisenberg.Shared.TryEnter | Eisendberg.c:22-33 | one pass from L0 spins at L1 iff step 1 fails and enters iff every test passes, with control and HIGH as the source leaves them on each outcome; a single contender always enters |
| Eisenberg.Shared.Exit | Eisendberg.c:35-39 | as written: HIGH becomes the first busy slot from cycleUp(HIGH + 1, N), and id's slot becomes DontWantIn; a single contender keeps HIGH |
| Eisenberg.Shared.ExitCorrected | Eisendberg.c:35-39 | with the corrected start (see Findings): HIGH becomes the first busy slot after HIGH, and keeps its value only when every other slot is idle; id's slot becomes DontWantIn |
| Eisenberg.Shared.Worker | Eisendberg.c:7-47 | in the one-thread mode every attempt enters, every exit leaves all slots idle, and the result is the median of the round counts |
| LamportFast.Shared.constructor | LamportFast.c:62-68 | every b[i] is false, y == N and x == 0 |
| LamportFast.Shared.Announce | LamportFast.c:25-26 | b[id] is set and x == id; nothing else changes |
| LamportFast.Shared.ClaimOwner | LamportFast.c:28-34 | when y != N, b[id] is withdrawn and y is kept; otherwise y becomes id |
| LamportFast.Shared.LastWriter | LamportFast.c:36-38 | the fast path is taken iff x == id; otherwise b[id] is withdrawn |
| LamportFast.Shared.AllWithdrawn | LamportFast.c:39-40 | the drain loop is finished iff every b[j] is clear |
| LamportFast.Shared.SlowPath | LamportFast.c:36-45 | the slow path enters iff all b[j] are clear and y == id, restarts iff all are clear and y != id, and waits iff some b[j] is set |
| LamportFast.Shared.TryEnter | LamportFast.c:25-45 | a pass restarts iff y was taken; otherwise, x being id, it enters through the fast path with y == id and b[id] set |
| LamportFast.Shared.Exit | LamportFast.c:47-48 | y == N and b[id] is cleared |
| LamportFast.Shared.EnterAndExit | LamportFast.c:25-48 | from the idle state the entry returns Entered (the fast path), and its exit restores the idle state |
| LamportFast.Shared.Worker | LamportFast.c:11-53 | with one thread and rotating ids every entry succeeds, the state stays idle, and after each round the id is reset to oid, so each round's count belongs to oid |
| Kessels.Inv | Kessels2.c:5 | inv(c) is a bit, and on a bit it is the other bit |
| Kessels.Plus | Kessels2.c:6 | plus(a, b) is a bit, and on bits it equals a XOR b, the operator of the disabled alternative at line 24 |
| Kessels.InvInvolutive | Kessels2.c:5 | inv(inv(c)) == c on bits |
| Kessels.ExactlyOneTokenTest | Kessels2.c:22 | for any tokens R[0], R[1], exactly one of R[0] == plus(R[1], 0) and R[1] == plus(R[0], 1) holds |
| Kessels.BothInterestedExactlyOneWaits | Kessels2.c:22 | when both Q flags are 1, exactly one thread's wait condition holds |
| Kessels.Shared.constructor | Kessels2.c:40-43 | requires N == 2 and clears both Q flags |
| Kessels.Shared.Announce | Kessels2.c:17 | Q[id] becomes 1, nothing else changes |
| Kessels.Shared.TakeToken | Kessels2.c:20-22 | R[id] = plus(R[inv(id)], id); right after it the thread waits exactly when Q[inv(id)] == 1 |
| Kessels.Shared.MustWait | Kessels2.c:22 | a thread never spins while the other's Q flag is 0, and when both flags are 1 it spins exactly when the other thread does not |
| Kessels.Shared.TryEnter | Kessels2.c:17-22 | the thread goes straight in iff the other thread's Q flag was 0 |
| Kessels.Shared.Exit | Kessels2.c:29 | Q[id] becomes 0 |
| Kessels.Shared.Worker | Kessels2.c:8-37 | a single contender never spins, both Q flags are 0 after each exit, and the result is the median of the round counts |
| ElevatorQueue.Window | relacy/ElevatorQueue.cc:15-28 | the ring holds (rear - front) mod N items, the k-th being elements[(front + k) mod N] |
| ElevatorQueue.WindowPush | relacy/ElevatorQueue.cc:19-22 | below N - 1 items, storing at rear and advancing rear appends the element |
| ElevatorQueue.WindowPushFull | relacy/ElevatorQueue.cc:19-22 | at N - 1 items, an enqueue wraps and the ring reads as empty |
| ElevatorQueue.WindowPop | relacy/ElevatorQueue.cc:24-28 | on a non-empty ring, elements[front] is the head and advancing front removes it |
| ElevatorQueue.WindowPopEmpty | relacy/ElevatorQueue.cc:24-28 | dequeuing from an empty ring makes it read as holding N - 1 items |
| ElevatorQueue.Queue.Contents | relacy/ElevatorQueue.cc:10-13 | the queue holds fewer than N items |
| ElevatorQueue.Queue.constructor | relacy/ElevatorQueue.cc:10-13 | N elements of storage, indices in range |
| ElevatorQueue.Queue.Init | relacy/ElevatorQueue.cc:15-32 | Qctor sets front == rear == 0, so the queue is empty and QnotEmpty is false |
| ElevatorQueue.Queue.NotEmpty | relacy/ElevatorQueue.cc:15-17 | QnotEmpty holds iff the queue holds some item |
| ElevatorQueue.Queue.Enqueue | relacy/ElevatorQueue.cc:19-22 | only elements[rear] is written and rear advances cyclically; front stays in range and unchanged; below N - 1 items the element is appended |
| ElevatorQueue.Queue.Dequeue | relacy/ElevatorQueue.cc:24-28 | returns elements[front] and advances front cyclically, changing nothing else; on a non-empty queue it returns and removes the head |
| ElevatorQueue.Dep | relacy/ElevatorQueue.cc:151 | dep = Log2(N + id) is 3, and 2^dep == N |
| ElevatorQueue.Path | relacy/ElevatorQueue.cc:164-165 | the nodes the upward loop visits from node j lie in [2, j], and there are Log2(j) of them |
| ElevatorQueue.ClimbStaysInternal | relacy/ElevatorQueue.cc:151-165 | from the leaf's parent, the upward loop writes dep - 1 nodes, all in [2, N) |
| ElevatorQueue.Sibling | relacy/ElevatorQueue.cc:192 | k ^ 1 differs from k and has the same parent |
| ElevatorQueue.SiblingNode | relacy/ElevatorQueue.cc:191-192 | for 0 <= j < dep, the node (n >> j) ^ 1 lies in [2, 2N) and is the sibling of the leaf's ancestor j levels up |
| ElevatorQueue.SiblingIds | relacy/ElevatorQueue.cc:191-192 | the descent reads dep ids, each in [0, N], so indexing tstate[N + 1] is in bounds |
| ElevatorQueue.Drain | relacy/ElevatorQueue.cc:191-197 | after the descent, each scanned id's apply flag is cleared and every other flag is kept; the enqueued ids are exactly the scanned ids that applied, each enqueued once |
| ElevatorQueue.NobodyApplied | relacy/ElevatorQueue.cc:193-197 | when no thread applies, the descent changes no flag and enqueues nobody |
| ElevatorQueue.Elevator.constructor | relacy/ElevatorQueue.cc:36-58 | allocates the queue, tstate[N + 1], val[2N] and b[N] as distinct arrays |
| ElevatorQueue.Elevator.Before | relacy/ElevatorQueue.cc:117-146 | the queue is empty, every apply flag is false, lock == N, y == N, fast is false, every b is false, val[i] == N and val[N + i] == i |
| ElevatorQueue.Elevator.InitTree | relacy/ElevatorQueue.cc:132-135 | nodes [0, N) hold N, and leaf N + i holds i |
| ElevatorQueue.Elevator.Climb | relacy/ElevatorQueue.cc:162-165 | apply[id] is set, and id is written into exactly the nodes on the path from the leaf's parent to the root's child; every other node is kept |
| ElevatorQueue.Elevator.Arbitrate | relacy/ElevatorQueue.cc:65-182 | the leader proceeds iff the lock is free or already its own, then takes it and clears fast; a leader still waiting has fast set, as WCas leaves it; any other thread proceeds iff the lock was handed to it, and leaves fast alone; the lock changes only when taken |
| ElevatorQueue.Elevator.Withdraw | relacy/ElevatorQueue.cc:186 | clears the thread's own apply flag |
| ElevatorQueue.Elevator.Admit | relacy/ElevatorQueue.cc:193-196 | scanning one more sibling id k: if k applied, its flag is cleared and k is appended to the queue, so flags and queue advance by one step of Drain |
| ElevatorQueue.Elevator.Descend | relacy/ElevatorQueue.cc:190-197 | the apply flags and the queue end as Drain describes, with the enqueued ids appended in scan order |
| ElevatorQueue.Elevator.PassLock | relacy/ElevatorQueue.cc:198-209 | lock becomes the dequeued head, or N when the queue is empty |
| ElevatorQueue.Elevator.HandOff | relacy/ElevatorQueue.cc:190-209 | after the descent, lock is the first of the old queue followed by the newly enqueued ids, which stay queued, or N when there are none; every val entry stays in [0, N] |
| ElevatorQueue.Elevator.Thread | relacy/ElevatorQueue.cc:150-210 | a thread that is still waiting keeps applying; a leader that takes the lock clears fast, a leader still waiting has fast set by WCas, and a non-leader leaves fast alone; a lock owner withdraws, clears the apply flags of the sibling ids it passes on the way down and enqueues them, then passes the lock to the head of the queue, or frees it when the queue is empty; when nobody else applies and the queue is empty, the owner leaves the lock free, the queue empty and every apply flag clear |

## Left out

- Concurrency. Interleavings, `Fence()`, `Pause()`, `volatile` and
  mutual exclusion across threads are outside the model. Each protocol is
  modelled as steps over a snapshot of its shared state, plus a
  single-contender run. A step that would spin or `goto` a label returns an
  outcome naming where the source would continue.
- The round barrier on `stop`/`Arrived` is left out. So is the end of a
  round. How many entries a round admits is the input `counts[r]`.
- The stress-mode `PollBarrier`, the `CriticalSection` occupancy oracle,
  the statistics (floating point) and `printf` are left out.
- Thread creation and joining, `malloc`/`memalign`/`free` and `atoi` are
  left out. The arguments arrive already converted to integers.
- The `__builtin_clz` forms of `Log2` are left out; the recursive fallback
  is modelled.
- `rand()` is left out.
  - `shuffle` takes the drawn pairs as an input.
  - `startpoints` chooses any id not yet in the block, with no claim about
    how many `rand()` retries that takes.
- `qsort` is represented by its result: a reference insertion sort ordered
  by `compare`, which is proved sorted and a permutation of its input.
- Harness.Median: only the odd-`RUNS` branch of the macro is modelled.
  `RUNS` is 5, so the even branch is dead code.
- HarnessMain.Startpoints: requires 1 <= N <= 64. For N > 64 the table
  length is 0 (`NoStartPointsEmptyAbove64`) and the write
  `Startpoints[0] = N` falls outside it. The FAST build's comment limits N to
  1..32, but the argument switch does not enforce that bound.
- Kessels.Shared.constructor: the `assert(N == 2)` becomes a precondition.
  The tokens `R` are zero-initialised globals that `ctor` does not touch.
- LamportFast.Shared.Worker: it does not model the write to
  `entries[r][id]`. No shown file declares that array, and the worker
  returns `NULL`. The member returns the (id, count) pairs that would be
  stored.
- ElevatorQueue: the `WCas` arbitration is left out. Its `CAS`, `WCas1`
  and `WCas2` variants are relacy atomics or concurrency. Their boolean
  result is the input `leader` of `Arbitrate`. Every variant returns true
  only after setting `fast`, and `Arbitrate` makes that write on the
  leader path; no other effect of `WCas` on `fast` is modelled. The `b` and `y`
  variables that only `WCas` uses are initialised by `Before` and
  otherwise untouched. `x`, which only `WCas` writes, is not modelled.
- ElevatorQueue: the `FLAG` variant of the hand-off is left out; the
  `lock` variant is modelled.
- ElevatorQueue.Elevator.HandOff: requires room in the queue for one id per
  tree level. Without that room the ring would wrap, which the protocol
  prevents only through its cross-thread invariant.
- ElevatorQueue.Elevator.Descend: carries the same queue-room requirement
  as `HandOff`, for the same reason.
- ElevatorQueue.Elevator.Thread: carries the same queue-room requirement
  as `HandOff`, for the same reason.
- ElevatorQueue.Elevator.Thread: the write `data($) = id + 1` (the relacy
  critical-section check) is left out.
- The relacy engine (`rl::test_suite`, `rl::simulate`, `($)`) is left out.
- `Common.h` is not part of this model. Its `cycleUp` and `Log2` are taken
  to be those of `Harness.c`.

## Findings

| source | as written | input that shows it | evidently intended | confidence | as-written member | corrected member |
|---|---|---|---|---|---|---|
| Eisendberg.c:37 | the exit scan starts at `cycleUp(HIGH + 1, N)`, right after `HIGH = id`. For HIGH <= N - 2 that is (HIGH + 2) mod N, so slot HIGH + 1 is inspected last, after HIGH's own busy slot; for HIGH = N - 1 the scan starts at 0, the successor, as intended | N = 3, id = HIGH = 0, control = [EnterCS, WantIn, DontWantIn]: the scan meets slot 0 before slot 1 and leaves HIGH at 0, although thread 1 is waiting | start at `cycleUp(HIGH, N)`, the slot after HIGH, so the first waiting successor gets priority as in Eisenberg and McGuire's exit protocol | medium, not executed | Eisenberg.ExitStartAsWrittenSkipsSuccessor | Eisenberg.Shared.ExitCorrected |

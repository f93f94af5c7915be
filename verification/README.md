# Proofs about ARMSX2's support library and its differential runner

ARMSX2 emulates a PlayStation 2. The code below the emulator that is hardest to get right
is its wake and sleep protocols, the runner that compares the recompiler with the
interpreter, and a handful of classic algorithms. This project models them in Dafny and
proves what they are for.

- **Wake and sleep.** `WorkSema` packs a worker's life cycle and a "somebody waits for
  empty" flag into one 32-bit word, worked on by many threads. `WorkSemaWord` has the word
  and the life cycle it stands for, `WorkSemaProtocol` the transition system (one atomic
  operation of one thread is one step, a weak CAS may fail for no reason) and its
  invariant, `WorkSemaRuns` what follows over whole runs, and `WorkSemaObject` the methods
  as the source writes them, loops included, each proved to perform a run of that system
  whatever the other threads do in between. `UserspaceSemaphoreProtocol` and
  `UserspaceSemaphoreObject` do the same for the counting semaphore with batched posts,
  `SpscQueueProtocol` and `SpscQueueObject` for the single-producer single-consumer ring.
- **Differential runner.** `TraceAlign` has the strict walk of a sparse recompiler trace
  against a dense interpreter trace and the two resyncs, `Zoom` the loop that classifies a
  divergence and goes on. `Ee` has the little that is needed of what instructions do to
  registers and `EePath` which instruction comes next; `CycleTaint` is the classifier of
  timer-derived registers, `CycleTaintSound` its soundness against every execution,
  `CycleTaintExact` the instructions it is right about and what it finds on them,
  `CycleTaintLimits` machine paths on which it is wrong, and `CycleTaintHalves` what its
  taints say of the upper 64 bits of a register. `ZoomClassified` puts the loop and the
  classifier together, and `ZoomHalves` says when a benign verdict is right.
- **Algorithms.** `Wildcard`; `Md5Transform` and `Md5Digest` against RFC 1321; `LruList`
  and `LruCache`; `PathText`, `PathAlgebra`, `PathPlace`, `PathRoundTrip` and `Path`;
  `Utf8` and `Sanitize`; `BitReader`, `Bc7` and `Bc7Modes` against section 20.1 of the
  Khronos Data Format Specification 1.3; `Bmp`. `Bits`, `Modular` and `Wrappers` are shared.

Where the source changes state in place the model does: `WorkSema`, `UserspaceSemaphore`,
`RingBuffer`, `MD5Digest` and `LRUCache` are classes, and the loops of the source are loops
proved against a specification function about which the theorems are. An object shared
between threads takes a schedule when it is made: before each of its own atomic operations
a method lets the other threads take the steps of the next turn, so its contract holds for
every schedule. A wait that the schedule never satisfies comes back saying so.

Some promises turned out not to hold as they stand, and are stated with the exact condition
under which they do:

- notifications are counted correctly as long as fewer than 2^29 fall between two resets
  (`WorkSemaWord.FetchAddIsNotify`, `WorkSemaWord.NotifyOverflow`);
- the branch of `WildcardMatch` called case sensitive is the one that folds case
  (`Wildcard.FlagIsReversed`);
- `Canonicalize` turns the root into the empty path, drops the root of a path that climbs
  above it, and cancels two leading ".." against each other (`PathPlace.SamePlace`), so the
  round trip through `MakeRelative` depends on the base (`PathRoundTrip.RoundTripByClimbs`
  for all absolute paths, `PathRoundTrip.RoundTripExactly` for those below the root);
- the classifier over-taints, although its comments say it never does. One reason is in its
  handling of single instructions: about the lower 64 bits of registers it is right, whatever
  came before, if and only if the instruction is clean (`CycleTaintExact.CleanExactly`); what
  it does with the others is shown on paths the machine takes
  (`CycleTaintLimits.LoadIntoZeroOverTaints`, `LinkingBranchOverTaints`, `MtsaOverTaints`),
  and so is what happens when the walk sees other instructions than the machine runs
  (`TrapImmediateEndsWalk`, `LikelyBranchKeepsSlot`, `LoopHeadEndsWalk`). The other is that
  registers are compared in all 128 bits and a timer load writes 64: on clean code a benign
  verdict is right if and only if each upper half that differs was last written by an LQ from
  a timer or by a parallel instruction from a half that carries one
  (`ZoomHalves.BenignExactly`, `ZoomHalves.NeverOverTaintsExactly`; a test for it is
  `ZoomHalves.UpperTestIsRight`, a failing input `ZoomHalves.UpperHalfOverTaints`, and the
  instructions that cannot fail are those of `CycleTaintHalves.WholeExactly`);
- the size check of the BMP loader wraps in 32 bits: it keeps all reads inside the file if and
  only if the sum fits (`Bmp.OverreadsExactly`, `Bmp.ShortFileOverread`);
- inserting an existing key into a full `LRUCache` can still drop another item
  (`LruList.InsertDropsOthers`), and a cache of capacity 0 holds one item after an
  insertion (`LruList.CapacityKept`).

## Model

| member | source | states |
|---|---|---|
| `WorkSemaWord.WordBits` | common/Threading.h:181-198 | The flag and the low bits the model reads off a word are bit 30 and bits 0 to 29 of its two's complement: with the sign they rebuild the word, and no other pair does. |
| `WorkSemaWord.FetchAddIsNotify` | common/Threading.h:207-219 | `fetch_add(2)` is the notification of the abstract life cycle (dead stays dead, spinning and sleeping start running, running counts on) if and only if the word is not one step below an edge: the count must not reach the flag bit, a dead word must not climb to SPINNING. |
| `WorkSemaWord.NotifyOverflow` | common/Threading.h:177-185 | The first notification that does not fit, number 2^29 since the last reset of the count, raises the flag although nobody waits and empties the count. |
| `WorkSemaWord.WaitForWorkTransition` | common/Threading.h:200-204 | The CAS of a worker looking for work puts an empty running word to sleep without its flag, and a non-empty one to an empty count with its flag; ORing the flag into SLEEPING or SPINNING changes nothing. |
| `WorkSemaWord.MaskTransitions` | common/Semaphore.cpp:58-103 | On a running word `fetch_and` empties the count and keeps the flag, and ORing the flag keeps the count. |
| `WorkSemaWord.KillPosts` | common/Semaphore.cpp:128-133 | `Kill` posts exactly when somebody waits if and only if the word it replaced was a running one; for a sleeping or spinning word it would post to nobody. |
| `WorkSemaProtocol.PendingKept` | common/Semaphore.cpp:18-92 | Every step of every thread keeps: unless the worker is going to look into the queue anyway, an item whose notification reached the word shows in the word. |
| `WorkSemaProtocol.WakeTokensKept` | common/Semaphore.cpp:43-92 | Every step keeps: tokens of `m_sema` plus posts still owed by notifiers are 1 exactly while the worker has stored SLEEPING, has not consumed its token and the word is not negative, and 0 otherwise. |
| `WorkSemaProtocol.EmptyTokensKept` | common/Semaphore.cpp:94-133 | Every step, `Kill` included, keeps: the flag in a non-negative word, a post owed by the worker and the tokens of `m_empty_sema` add up to 1 exactly while the waiter is between its CAS and its wake. |
| `WorkSemaProtocol.WaiterKept` | common/Semaphore.cpp:94-126 | Every step keeps: a waiter that is blocked, woken or back with true has been promised only items that are processed, or still stands in the word, or the worker is dead. |
| `WorkSemaProtocol.InvInductive` | common/Semaphore.cpp:18-138 | Every atomic step of notifiers, worker and waiter, with CAS failing spuriously or not, keeps the whole invariant. |
| `WorkSemaRuns.ExecutionSafe` | common/Semaphore.cpp:18-138 | The invariant holds in every state of every run in which fewer than 2^29 notifications fall between two resets of the count. |
| `WorkSemaRuns.EmptyMeansProcessed` | common/Semaphore.cpp:94-126 | In every run, when a wait for empty returns true, all items whose `NotifyOfWork` had returned when it was called are processed, whichever mix of waiting calls the worker uses. |
| `WorkSemaRuns.FalseMeansKilled` | common/Semaphore.cpp:94-133 | In every run, a dead word or a wait for empty that returns false is preceded by a `Kill`. |
| `WorkSemaRuns.NoLostWakeup` | common/Semaphore.cpp:43-92 | A worker asleep with no token and no notifier on its way to post one stands in the word as SLEEPING, and everything notified is processed. |
| `WorkSemaRuns.NoLostWaiter` | common/Semaphore.cpp:94-126 | A blocked waiter has its token, is owed it by the worker, or stands in the word; in the last case the worker is not asleep without a token of its own. |
| `WorkSemaRuns.SomeoneCanMove` | common/Semaphore.cpp:18-133 | No deadlock: until all notifications are posted, the waiter answered and the worker dead or asleep over an empty queue, some step of a call under way is enabled. |
| `WorkSemaRuns.WorkIsTakenSoon` | common/Semaphore.cpp:43-92 | From every reachable state with a live worker, an unprocessed item whose notification has reached the word, whether or not its call has returned, is taken off the queue within five steps of the worker and of a notifier that already owes a post. |
| `WorkSemaRuns.WaiterIsAnsweredSoon` | common/Semaphore.cpp:94-126 | From every reachable state a wait for empty can return after at most 12 steps and one per queued item, none of them a new notification. |
| `WorkSemaObject.ReachedSafe` | common/Semaphore.cpp:18-138 | Whatever the methods of the object do between calls to the scheduler is a run of the transition system, so the invariant holds at each of their atomic operations. |
| `WorkSemaObject.ReachedKilled` | common/Semaphore.cpp:128-133 | A state that shows the worker dead, or a wait answered with false, was reached by way of a `Kill`. |
| `WorkSemaObject.WorkSema.constructor` | common/Threading.h:163-175 | A new object is in the initial state of the transition system. |
| `WorkSemaObject.WorkSema.NotifyOfWork` | common/Threading.h:207-219 | The call performs its steps of the system and returns notified, having posted the worker if it found it sleeping. |
| `WorkSemaObject.WorkSema.CheckForWork` | common/Semaphore.cpp:18-41 | True leaves the worker with the count reset and work to look for; false means everything notified before the call was processed and the waiter, if any, has been posted. |
| `WorkSemaObject.WorkSema.WaitForWork` | common/Semaphore.cpp:43-61 | A call that comes back leaves the worker ready to look into the queue; one that cannot come back is asleep with everything notified processed, or a notifier about to wake it. |
| `WorkSemaObject.WorkSema.WaitForWorkWithSpin` | common/Semaphore.cpp:63-92 | As `WaitForWork`; a call that does not come back has used up the schedule. |
| `WorkSemaObject.WorkSema.WaitForEmpty` | common/Semaphore.cpp:94-108 | True means that everything notified before the call is processed, false that the worker was killed; a call that cannot come back is owed its answer by the worker or stands in the word. |
| `WorkSemaObject.WorkSema.WaitForEmptyWithSpin` | common/Semaphore.cpp:110-126 | True and false mean the same as for `WaitForEmpty`. |
| `WorkSemaObject.WorkSema.Kill` | common/Semaphore.cpp:128-133 | The worker is dead, the word says so, and a waiter found in the word has been posted. |
| `UserspaceSemaphoreProtocol.InvInductive` | common/Threading.h:255-310 | Every step keeps: counter = posted - acquired - blocked, and blocked threads = kernel tokens + kernel posts still owed + max(0, -counter). |
| `UserspaceSemaphoreProtocol.CountingSemaphore` | common/Threading.h:221-310 | In every run acquisitions never exceed posts; with the counter not negative every blocked thread has its token or is owed it, and with no token coming every unit is acquired. |
| `UserspaceSemaphoreProtocol.TakesRealUnits` | common/Semaphore.cpp:140-165 | A peek-and-CAS loop takes a unit exactly when the counter gave one up; a failed attempt changes nothing else. |
| `UserspaceSemaphoreProtocol.BatchIsSingles` | common/Threading.h:261-281 | `Post(count)` leaves the counter, the posts and the kernel tokens that `count` calls of `Post()` leave, for every count. |
| `UserspaceSemaphoreProtocol.PostKeepsUnits` | common/Threading.h:261-281 | From every safe state the counter after a post is the units on hand less the threads waiting if that fits 32 bits; otherwise it is negative although there are more units than threads waiting. |
| `UserspaceSemaphoreProtocol.WaitKeepsUnits` | common/Threading.h:283-287 | From every safe state a wait leaves a true counter; it leaves the safe states exactly if the counter reaches the least word, and then the next wait wraps it to the greatest, as if there were units. |
| `UserspaceSemaphoreObject.UserspaceSemaphore.constructor` | common/Threading.h:221-234 | A new semaphore holds no unit and no token. |
| `UserspaceSemaphoreObject.UserspaceSemaphore.Post` | common/Threading.h:255-281 | All `count` units are posted and every kernel post owed has been made; undisturbed, the counter grows by count and the kernel by one token for each thread that was waiting, at most count. |
| `UserspaceSemaphoreObject.UserspaceSemaphore.Wait` | common/Threading.h:283-287 | Comes back with exactly one unit; a call that stays blocked leaves no unit unused unless a `Post` is on its way to the kernel. |
| `UserspaceSemaphoreObject.UserspaceSemaphore.TryWait` | common/Threading.h:304-310 | True with exactly one unit taken; false only if every unit posted before the call has been acquired or is spoken for. |
| `UserspaceSemaphoreObject.UserspaceSemaphore.WaitWithSpin` | common/Semaphore.cpp:140-165 | As `Wait`; if it neither takes a unit nor blocks, every unit posted before the call has been claimed by others. |
| `SpscQueueProtocol.RingFull` | common/boost_spsc_queue.hpp:90-109 | The test of the producer is exact: the next write index equals the read index if and only if the ring holds `max_size - 1` items. |
| `SpscQueueProtocol.ConstructKeeps` | common/boost_spsc_queue.hpp:103-116 | Building an item keeps the invariant: the slot is the one of the next item and no other live slot shares it. |
| `SpscQueueProtocol.DestroyKeeps` | common/boost_spsc_queue.hpp:118-162 | Destroying an item keeps the invariant: exactly the slot of the oldest item becomes raw. |
| `SpscQueueProtocol.InvInductive` | common/boost_spsc_queue.hpp:90-162 | Every step of either side, acting on stale copies of the other's index, keeps: popped is a prefix of published, the ring slots hold exactly the rest, and no fault has happened. |
| `SpscQueueProtocol.ResultsAreHonest` | common/boost_spsc_queue.hpp:103-162 | The ring never holds more than `max_size - 1` items; `push` refuses exactly when it held that many at the load of the read index, removal refuses exactly when it held none at the load of the write index. |
| `SpscQueueProtocol.SlotLifetime` | common/boost_spsc_queue.hpp:103-162 | The producer builds in a raw slot only; what the consumer reads and destroys is the oldest item not yet destroyed, which is then the next popped. |
| `SpscQueueProtocol.SizeIsHeld` | common/boost_spsc_queue.hpp:194-203 | `size()` computed from the two indices is the number of items held, across the wrap. |
| `SpscQueueProtocol.FifoOverRuns` | common/boost_spsc_queue.hpp:90-162 | In every interleaving: what came out followed by the live contents of the ring, in ring order, is what went in. |
| `SpscQueueObject.RingBuffer.constructor` | common/boost_spsc_queue.hpp:70-79 | A new ring is empty, with every slot raw. |
| `SpscQueueObject.RingBuffer.Push` | common/boost_spsc_queue.hpp:103-116 | Appends the item, or refuses; it refuses only if the ring held `max_size - 1` items at the call, and without interference exactly then. |
| `SpscQueueObject.RingBuffer.Pop` | common/boost_spsc_queue.hpp:118-162 | Returns and removes the oldest item; refuses only if everything published before the call had been popped. |
| `SpscQueueObject.RingBuffer.Front` | common/boost_spsc_queue.hpp:133-138 | Shows the oldest item and removes nothing. |
| `SpscQueueObject.RingBuffer.PopFront` | common/boost_spsc_queue.hpp:140-146 | Removes exactly the item `front()` showed. |
| `SpscQueueObject.RingBuffer.Drain` | common/boost_spsc_queue.hpp:81-87 | The destructor pops every item left, in order, and leaves no live slot behind. |
| `TraceAlign.LeftmostIsEarliest` | pcsx2-eerunner/Main.cpp:1554-1572 | No order-preserving placement of the JIT entries on samples of equal pc is ahead of the leftmost one at any entry. |
| `TraceAlign.StuckMeansNone` | pcsx2-eerunner/Main.cpp:1561-1565 | If the leftmost placement cannot be continued, no placement that long exists. |
| `TraceAlign.AlignFrom` | pcsx2-eerunner/Main.cpp:1554-1572 | "Not found" comes with a strictly increasing placement of all entries on samples of equal pc and fingerprint; a control-flow verdict at k means that entries up to k have no pc-placement at all; a data verdict names the first entry whose leftmost sample has another fingerprint. |
| `TraceAlign.VerdictIsUnique` | pcsx2-eerunner/Main.cpp:1554-1572 | The traces determine the verdict, with every field of the result. |
| `TraceAlign.StrictWalkMissesLaterMatch` | pcsx2-eerunner/Main.cpp:1554-1572 | The strict walk is not complete for exact placements: it reports a data divergence on traces that do align exactly one sample later. |
| `TraceAlign.ResyncAfter` | pcsx2-eerunner/Main.cpp:1595-1629 | Stops behind the first later entry whose leftmost sample agrees in pc and fingerprint, counting the ones before it, all of which differ; `ran_off` means that the entries have no pc-placement that far. |
| `TraceAlign.ResyncIsUnique` | pcsx2-eerunner/Main.cpp:1595-1629 | The traces determine where a resync resumes, how many entries it skips and why it fails. |
| `TraceAlign.ResyncPastSelfLoop` | pcsx2-eerunner/Main.cpp:2049-2081 | Skips the whole run of entries inside the loop and no more, and succeeds if and only if the exit entry occurs with pc and fingerprint from the divergence on, resuming behind its first occurrence. |
| `TraceAlign.ExitIsUnique` | pcsx2-eerunner/Main.cpp:2049-2081 | The traces determine the result of passing a self-loop. |
| `Zoom.OnControlFlow` | pcsx2-eerunner/Main.cpp:2172-2278 | A divergence in control flow ends as a phase offset if and only if the interpreter reached the pc somewhere; else it is skipped only in census mode, below its cap and when it reconverges, and otherwise is a wrong target. |
| `Zoom.OnData` | pcsx2-eerunner/Main.cpp:2280-2553 | A data divergence is skipped only for a reason that is due (all tried before it failed), below its cap and true of every entry skipped, and reported only after every excuse that applies has failed or used up its cap. |
| `Zoom.Turn` | pcsx2-eerunner/Main.cpp:2149-2553 | Each turn either ends with an outcome the walk so far explains, or moves forward on both traces, in the JIT and in the interpreter position, behind an exact match, accounting for every entry passed. |
| `Zoom.Walk` | pcsx2-eerunner/Main.cpp:2083-2553 | For any two traces the walk ends because the JIT position grows at each resync, whatever the caps; agreement means that all entries from the first on are, in order, matched exactly or skipped for a stated reason in windows closed by an exact match; any other outcome names the first entry not so accounted for and why nothing excused it. |
| `Zoom.DecisionIsUnique` | pcsx2-eerunner/Main.cpp:2172-2470 | The traces, the machine's answers and the counts so far determine what becomes of a divergence: no two outcomes, reasons or places to resume fit. |
| `Zoom.WalkIsUnique` | pcsx2-eerunner/Main.cpp:2149-2553 | The traces and the machine's answers determine the whole walk, turn by turn, and its outcome. |
| `Zoom.WindowAccounted` | pcsx2-eerunner/Main.cpp:2310-2325 | Adding a closed window to the account keeps it in order and injective on the interpreter trace. |
| `Zoom.MatchesAccounted` | pcsx2-eerunner/Main.cpp:2149-2170 | Adding the entries of a strict walk to the account keeps it in order and exact. |
| `Zoom.SkipIsJustified` | pcsx2-eerunner/Main.cpp:2358-2440 | Whatever the outcome of a walk, an entry skipped for a timer was skipped on a benign answer about the block that was left and the pc entered there. |
| `ZoomClassified.DivergentGprs` | pcsx2-eerunner/Main.cpp:2365-2369 | The loop over the 32 registers collects, in order, those that differ in the lower or in the upper 64 bits. |
| `ZoomClassified.Classify` | pcsx2-eerunner/Main.cpp:2358-2399 | The answer is benign if and only if some registers differ, nothing but registers differs, and the classifier returns as many notes as registers differ in any of their 128 bits. |
| `ZoomClassified.BenignIsClassified` | pcsx2-eerunner/Main.cpp:2358-2399 | Counting the notes is enough: the answer is benign if and only if something differs, nothing but registers differs, and every register that differs, in either half, is in the classifier's report. |
| `ZoomClassified.WalkClassified` | pcsx2-eerunner/Main.cpp:2083-2553 | The whole runner with its own classifier: the walk's account of every entry holds, and behind every timer skip stands a divergence in which each differing register was reported. |
| `ZoomClassified.TimerSkipsAreClassified` | pcsx2-eerunner/Main.cpp:2358-2438 | Every account that explains an outcome has such a divergence behind each of its timer skips. |
| `ZoomHalves.BenignDescends` | pcsx2-eerunner/Main.cpp:1750-1995 | On every path of the machine through clean code that the walk covers, the lower half of each register the classifier taints descends from a read of cycle-phase state. |
| `ZoomHalves.BenignExactly` | pcsx2-eerunner/Main.cpp:2356-2399 | On such a path, for any registers of the recompiler, a benign answer is right (each half that differs has a way back to a read) if and only if, for each register whose upper halves differ, the last instruction to write that half is an LQ from cycle-phase state or a parallel instruction that puts half of a register there which comes from a read. |
| `ZoomHalves.NeverOverTaintsExactly` | pcsx2-eerunner/Main.cpp:1764-1775 | The promise that the classifier never over-taints holds on such a path, whatever the recompiler has done, if and only if the upper half of every register it taints was so written. |
| `ZoomHalves.UpperTestIsRight` | pcsx2-eerunner/Main.cpp:1750-1995 | A test on the entry snapshot and the code decides that condition if the address of every load is a constant of snapshot and code; otherwise it decides it or leaves it open. |
| `ZoomHalves.WholeCodeNeverOverTaints` | pcsx2-eerunner/Main.cpp:1764-1775 | If the code on such a path moves no taint from register to register and starts none but by LQ, every benign answer is right. |
| `ZoomHalves.UpperHalfOverTaints` | pcsx2-eerunner/Main.cpp:2365-2399 | Counterexample, a path of the machine: `pcpyld $2,$3,$4` and then a timer load into `$2`. A recompiler that gets the upper half of the copy wrong is told that this is the timer. |
| `Ee.LowWords` | pcsx2/R5900OpcodeImpl.cpp:288-345 | Or and addition on 64-bit registers, seen through the low word, are the 32-bit operations the classifier computes with. |
| `CycleTaint.ClassifyCycleDerivedLoads` | pcsx2-eerunner/Main.cpp:1791-1995 | The loop over the three arrays reports what the specification of the walk reports, on the instructions the specification says it looks at. |
| `CycleTaint.ReportContents` | pcsx2-eerunner/Main.cpp:1976-1995 | A register is reported with an origin if and only if it was asked about and carries that origin. |
| `CycleTaint.WalkedIsBlock` | pcsx2-eerunner/Main.cpp:1825-1975 | The walk looks at the block and no more: the code in order, up to the delay slot of its first branch, the observation point or the limit, whichever comes first. |
| `CycleTaint.WalkedExactly` | pcsx2-eerunner/Main.cpp:1825-1975 | Those conditions determine what the walk looks at: a list of instructions is the one walked if and only if it meets them. |
| `CycleTaintSound.ObserveKnows` | pcsx2-eerunner/Main.cpp:1812-1975 | After every clean instruction, each constant the classifier holds is the low word of the register in the machine. |
| `CycleTaintSound.ObserveTaints` | pcsx2-eerunner/Main.cpp:1812-1975 | A taint after a clean instruction was there and is not overwritten, flowed in from a source of the instruction, or starts at a read of cycle-phase state at the actual address. |
| `CycleTaintSound.WalkIsSound` | pcsx2-eerunner/Main.cpp:1812-1975 | From any point where constants and taints are right they stay right to the end of the block, in every execution. |
| `CycleTaintSound.ReportIsSound` | pcsx2-eerunner/Main.cpp:1750-1995 | In every execution of the instructions looked at, from the entry snapshot, the lower 64 bits of each register reported have a def-use chain, not overwritten since, from a read of exactly the origin reported; and each constant held is right. |
| `CycleTaintExact.CleanExactly` | pcsx2-eerunner/Main.cpp:1812-1975 | On the lower 64 bits of the registers, for every instruction word: from every right state and in every execution of the instruction the classifier stays right (constants equal to the registers, every new taint justified) if and only if the word is clean, a test on its opcode and register fields. |
| `CycleTaintHalves.WholeExactly` | pcsx2-eerunner/Main.cpp:1812-1975 | On whole registers, for every instruction word: the classifier stays right, and each register it taints has its upper half covered too (tainted before and not written, or read by the instruction), if and only if the word is clean and moves no taint, which leaves out every load of 32 or 64 bits from a timer. |
| `CycleTaintHalves.UpperExactly` | pcsx2/R5900OpcodeImpl.cpp:756-763 | The upper half of a register has a way back to a read if and only if the last instruction that wrote that half, an LQ, QMFC2 or parallel one, has, whatever has been loaded into the register since. |
| `CycleTaintHalves.TestIsRight` | pcsx2/MMI.cpp:132-1620 | Where the test on snapshot and code says that a half of a register does or does not come from a read, following the halves through every MMI instruction, it does or does not in every execution. |
| `CycleTaintExact.KnownExactly` | pcsx2-eerunner/Main.cpp:1812-1836 | The constants the classifier holds are exactly those that the snapshot and the code give by `lui`, `ori`, `addiu` and `or` on known values. |
| `CycleTaintExact.ObserveExactly` | pcsx2-eerunner/Main.cpp:1837-1966 | After a clean instruction a register is tainted if and only if it was and is not written, or the instruction reads cycle-phase state at an address that is a known constant, or it takes in a tainted source. |
| `CycleTaintExact.ReportIsExact` | pcsx2-eerunner/Main.cpp:1750-1995 | On clean blocks a register asked about is reported if and only if its last write carries, by data flow, a read of the cycle counter or of a timer at an address that the snapshot and the code determine. |
| `CycleTaintSound.ChainHasRoot` | pcsx2-eerunner/Main.cpp:1764-1775 | A def-use chain has a root: some executed instruction made the read its origin names. |
| `CycleTaintLimits.ReportIsSoundOnPath` | pcsx2-eerunner/Main.cpp:1750-1995 | Along every path of the machine, branches and traps decided by the registers, that runs through the block in order over clean code: the lower 64 bits of each register reported descend from the read its note names. |
| `CycleTaintLimits.LoadIntoZeroOverTaints` | pcsx2-eerunner/Main.cpp:1812-1975 | Counterexample, a path of the machine: a timer load into `$zero` taints it, and a move then reports a register with no chain at all. |
| `CycleTaintLimits.LinkingBranchOverTaints` | pcsx2-eerunner/Main.cpp:1812-1975 | Counterexample, a path of the machine: the write of `$31` by `bltzal`, which links without branching, is overlooked, and a load in its delay slot is reported although it reads elsewhere. |
| `CycleTaintLimits.MtsaOverTaints` | pcsx2-eerunner/Main.cpp:1920-1966 | Counterexample, a path of the machine: `mtsa` is taken for an operation with a result and moves the taint of its source into `$zero`, from where a move reports it. |
| `CycleTaintLimits.TrapImmediateEndsWalk` | pcsx2-eerunner/Main.cpp:1724-1748 | Counterexample, a path of the machine: the walk takes a trap-immediate instruction, which does not trap there, for the branch that ends the block, and reports a load that a later instruction of the block overwrites. |
| `CycleTaintLimits.LikelyBranchKeepsSlot` | pcsx2-eerunner/Main.cpp:1724-1748 | Counterexample, a path of the machine: a load in the delay slot of a likely branch that is not taken is reported although it never ran. |
| `CycleTaintLimits.LoopHeadEndsWalk` | pcsx2-eerunner/Main.cpp:1825-1836 | Counterexample, a path of the machine: in a block that loops back to a place inside itself, behind its entry, the walk stops at that loop head, and a load is reported that the rest of the loop overwrites. |
| `Wildcard.WildcardMatch` | common/StringUtil.cpp:54-148 | True if and only if mask and subject stand in the declarative relation ('*' any run, '?' any one character), under the comparison of the branch the flag selects; both loops terminate. |
| `Wildcard.MatchBy` | common/StringUtil.cpp:56-103 | The same for each branch and any comparison of characters: going back to the last '*' only is complete. |
| `Wildcard.BacktrackingLoop` | common/StringUtil.cpp:71-98 | The loop with one backtrack point decides whether the mask from its first '*' matches the rest of the subject. |
| `Wildcard.StarTakesSome` | common/StringUtil.cpp:54-148 | '*' at the front matches if and only if the rest of the mask matches some suffix of the subject. |
| `Wildcard.FirstFitIsEnough` | common/StringUtil.cpp:73-94 | If a stretch of mask between two stars fits somewhere, any match that places it later yields one that places it there. |
| `Wildcard.FlagLoosens` | common/StringUtil.cpp:54-148 | Whatever matches with the flag off matches with it on: the branch called case sensitive is the looser one. |
| `Wildcard.FlagIsReversed` | common/StringUtil.cpp:56-109 | A letter matches its other case if and only if the case-sensitive flag is set. |
| `Md5Transform.OptimizedFunctions` | common/MD5Digest.cpp:11-17 | `F1` equals F and `F2` equals G of section 3.4 of RFC 1321, on all words. |
| `Md5Transform.StepsAgree` | common/MD5Digest.cpp:12-20 | The macro for one step, with its order of additions and its two shifts, gives the word of the RFC's operation for every round and rotation. |
| `Md5Transform.Transform` | common/MD5Digest.cpp:27-106 | The 64 unrolled steps on the four words in place are the compression function of section 3.4 of RFC 1321, with its schedule of words, sines and rotations. |
| `Md5Digest.CountGrows` | common/MD5Digest.cpp:126-136 | The two words hold the bit count modulo 2^64 after adding a length, with the carry and the three bits shifted out. |
| `Md5Digest.BlockFills` | common/MD5Digest.cpp:140-165 | Filling the partial block and compressing it leaves the state of all full blocks of the longer message. |
| `Md5Digest.MD5Digest.constructor` | common/MD5Digest.cpp:108-124 | A new object stands for the empty message. |
| `Md5Digest.MD5Digest.Reset` | common/MD5Digest.cpp:113-124 | The object stands for the empty message again, whatever it held. |
| `Md5Digest.MD5Digest.Update` | common/MD5Digest.cpp:126-168 | The object stands for its message with the data appended. |
| `Md5Digest.MD5Digest.Final` | common/MD5Digest.cpp:170-210 | The digest of the message as sections 3.1 to 3.5 of RFC 1321 define it, with one or two blocks of padding. |
| `Md5Digest.DigestOfPieces` | common/MD5Digest.cpp:126-210 | However a message is cut into calls of `Update`, `Final` gives the RFC 1321 digest of the concatenation. |
| `LruList.CapacityKept` | common/LRUCache.h:34-116 | Every operation keeps keys distinct and the size within the capacity, except exactly an insertion at capacity 0. |
| `LruList.NeverOverCapacity` | common/LRUCache.h:34-116 | Over every sequence of operations with capacities of at least 1, keys stay distinct and the size within the capacity. |
| `LruList.InsertDropsOthers` | common/LRUCache.h:54-73 | Inserting keeps all other keys if and only if there was room or the oldest item has the same key: room is made before the key is looked for. |
| `LruList.RecentSurvives` | common/LRUCache.h:43-85 | An entry just looked up, in a full cache or not, or put where there was room is still there after fewer than `capacity` insertions of other keys. |
| `LruCache.OrderedUntilWrap` | common/LRUCache.h:43-73 | Access stamps keep the order of access if and only if the 64-bit counter does not wrap or nothing else is stored. |
| `LruCache.StampKeeps` | common/LRUCache.h:43-73 | Touching a key with the next stamp keeps stamps distinct, bounded by the counter and ascending along the recency list. |
| `LruCache.LRUCache.constructor` | common/LRUCache.h:24-28 | A new cache is an empty recency list of the given capacity. |
| `LruCache.LRUCache.Clear` | common/LRUCache.h:34 | Leaves the empty list. |
| `LruCache.LRUCache.SetMaxCapacity` | common/LRUCache.h:36-41 | Keeps exactly the most recently touched entries that fit. |
| `LruCache.LRUCache.Lookup` | common/LRUCache.h:43-52 | Finds the value if and only if the key is listed, and moves the entry to the recent end. |
| `LruCache.LRUCache.Insert` | common/LRUCache.h:54-73 | Makes room by dropping the oldest, then puts the entry at the recent end, also when the key exists. |
| `LruCache.LRUCache.Evict` | common/LRUCache.h:75-85 | Removes exactly the least recently touched entries, as many as asked or all. |
| `LruCache.LRUCache.Oldest` | common/LRUCache.h:79-81 | The minimum of the stamps, in whatever order the map is walked, is the head of the recency list. |
| `LruCache.LRUCache.Remove` | common/LRUCache.h:87-95 | Removes the entry of the key and nothing else; says whether there was one. |
| `LruCache.LRUCache.SetManualEvict` | common/LRUCache.h:96-101 | Sets the mode, and on leaving it trims to the most recent entries that fit. |
| `LruCache.LRUCache.ManualEvict` | common/LRUCache.h:102-107 | Trims to the most recent entries that fit. |
| `LruCache.LRUCache.ShrinkForNewItem` | common/LRUCache.h:110-116 | Leaves room for one more by dropping the oldest; capacity 0, where the subtraction wraps, empties the cache. |
| `PathText.SplitIsComponents` | common/FileSystem.cpp:770-800 | Splitting gives names without separators, behind one empty component if and only if the path is absolute. |
| `PathText.SplitOfJoin` | common/FileSystem.cpp:770-807 | Splitting undoes joining on every list of components, except that the root alone joins to the empty string. |
| `PathText.NamesOfCombined` | common/FileSystem.cpp:848-863 | Combining puts the names of both paths one after the other, whatever separators repeat or trail, and keeps an absolute base absolute. |
| `PathText.NamesOfCollapse` | common/FileSystem.cpp:99-140 | Appending with runs of separators collapsed keeps the names. |
| `Path.PathAppendString` | common/FileSystem.cpp:99-140 | Appends with every run of separators reduced to one, also across the seam. |
| `Path.SplitNativePath` | common/FileSystem.cpp:770-800 | The scanning loop yields the components of the path. |
| `Path.PartsAreSplit` | common/FileSystem.cpp:774-798 | What the loop adds from any position on, with the current component begun at `start`, is the split of the rest. |
| `Path.JoinString` | common/StringUtil.h:225-236 | Joins with single separators between components. |
| `Path.Canonicalize` | common/FileSystem.cpp:493-522 | The loop over components computes the canonical path the lemmas below are about. |
| `Path.MakeRelative` | common/FileSystem.cpp:529-574 | The loops compute the relative path the lemmas below are about. |
| `Path.Combine` | common/FileSystem.cpp:848-863 | Appending, stripping and appending compute the combined path the lemmas below are about. |
| `PathAlgebra.CanonicalShape` | common/FileSystem.cpp:493-522 | What is left is plain names, behind the root, behind one "..", or nothing; or a single ".". |
| `PathAlgebra.CanonicalizeIdempotent` | common/FileSystem.cpp:493-522 | Canonicalising twice is canonicalising once, on every path. |
| `PathAlgebra.RelativeRoundTrip` | common/FileSystem.cpp:493-574 | `Canonicalize(Combine(base, MakeRelative(path, base)))` equals `Canonicalize(path)` for absolute paths whenever the base is plain behind what both have in common, repeated and trailing separators and the root included. |
| `PathRoundTrip.RoundTripByClimbs` | common/FileSystem.cpp:493-574 | For all absolute paths and bases the round trip holds if and only if going down to the base, up again and down to the path leaves the same names as the path does and climbs above the root alike. |
| `PathRoundTrip.RoundTripExactly` | common/FileSystem.cpp:493-574 | For an absolute path that stays below the root that comes to this: the base is plain behind the common part. |
| `PathPlace.ResolveClimbs` | common/FileSystem.cpp:493-522 | Going up more often than down, the loop keeps one ".." when the number of climbs is odd and none when it is even, in front of the names left over. |
| `PathPlace.ResolveBehindRoot` | common/FileSystem.cpp:493-522 | An absolute path that climbs loses its root at the first climb and is treated as relative from there. |
| `PathPlace.SamePlace` | common/FileSystem.cpp:493-522 | The canonical path leads to the same node from every working directory if and only if an absolute path neither climbs above the root nor leads to it, or a relative one climbs above its start at most once. |
| `Utf8.EncodeAndAppendUTF8` | common/StringUtil.cpp:362-394 | Appends the encoding and keeps what was there. |
| `Utf8.DecodesWhatWasWritten` | common/StringUtil.cpp:362-431 | Decoding at the front of any bytes that begin with an encoding gives the value and the length of that encoding, the replacement character for a value that is no code point. |
| `Utf8.RoundTrip` | common/StringUtil.cpp:362-442 | Decoding the concatenated encodings of any list of 32-bit values gives the list with values above 0x10FFFF replaced. |
| `Utf8.RoundTripExactly` | common/StringUtil.cpp:362-442 | The round trip is the identity if and only if all values are at most 0x10FFFF, surrogates included. |
| `Utf8.EncodingIsInjective` | common/StringUtil.cpp:362-394 | Different lists of code points have different encodings. |
| `Sanitize.SanitizeFileName` | common/FileSystem.cpp:142-163 | The loop over arbitrary bytes computes the sanitised name the lemmas below are about. |
| `Sanitize.OutputIsSane` | common/FileSystem.cpp:69-97 | The result decodes to sane code points only, one for each character read, in order. |
| `Sanitize.KeptExactly` | common/FileSystem.cpp:142-163 | A name is left alone if and only if it is the encoding of sane code points. |
| `Sanitize.SanitizeIdempotent` | common/FileSystem.cpp:142-163 | Sanitising twice is sanitising once, on arbitrary bytes. |
| `BitReader.InsertWeightZero` | common/TextureDecompress.cpp:559-565 | The masks and the shift put a zero at the top bit of the index named, move the bits above up and keep those below. |
| `BitReader.SpreadGrows` | common/TextureDecompress.cpp:559-565 | Inserting behind earlier insertions gives the word with zeros at all their final positions. |
| `BitReader.AnchorsRead` | common/TextureDecompress.cpp:559-565 | The word with its zeros put in, read in equal fields, gives what a sequential reader gets that gives anchor indices one bit fewer. |
| `Bc7.BlockIsUsedUp` | common/TextureDecompress.cpp:636-1062 | The fields of every mode, with one bit fewer per anchor, use up exactly 128 bits, for every partition. |
| `Bc7.OnePass` | common/TextureDecompress.cpp:636-1062 | Reading the groups of fields one by one is one sequential pass over the block. |
| `Bc7Modes.UnpackMode02` | common/TextureDecompress.cpp:636-732 | The fields extracted, partition, endpoints, p-bits and sixteen indices, are those of the sequential reader, for modes 0 and 2. |
| `Bc7Modes.UnpackMode137` | common/TextureDecompress.cpp:734-837 | The same fields for modes 1, 3 and 7, with the alpha endpoints of mode 7. |
| `Bc7Modes.UnpackMode45` | common/TextureDecompress.cpp:839-944 | The same for modes 4 and 5: rotation, endpoints and both sets of indices, swapped by the index selection bit. |
| `Bc7Modes.UnpackMode6` | common/TextureDecompress.cpp:946-1062 | The same fields for mode 6, from the bit-fields. |
| `Bc7Modes.TableIsLowestSet` | common/TextureDecompress.cpp:539-557 | Each of the 256 entries of the table is the number of the lowest bit set in its index, or 8 for 0. |
| `Bc7Modes.AnchorOffsets` | common/TextureDecompress.cpp:527-537 | The anchors of a partition in the ascending order in which zeros must go in. |
| `Bc7Modes.Unpack` | common/TextureDecompress.cpp:1066-1104 | A block is refused if and only if its first byte is 0; any other one is taken apart as a reader that goes through it once from the lowest bit does. |
| `Bmp.StridesAgree` | common/Image.cpp:1300-1302 | The row size in bytes and the one computed in bits agree, and leave less than four bytes of padding. |
| `Bmp.PixelRoundTrip` | common/Image.cpp:1336-1342 | Writing blue, green, red and reading them back gives the pixel with alpha 0xFF. |
| `Bmp.HeaderRoundTrip` | common/Image.cpp:744-768 | The loader reads back from the two headers the type, offset, size, depth and compression the saver wrote. |
| `Bmp.Save` | common/Image.cpp:1288-1346 | Refuses an image without pixels and writes any other one as two headers and its rows bottom up, padded with zeros. |
| `Bmp.Load` | common/Image.cpp:1099-1277 | Accepts and rejects by the checks of the source in their order and its 32-bit arithmetic, and tells whether an accepted file is read beyond its end; if not, a 24-bit file gives the pixels of its rows, turned over when the height is positive. |
| `Bmp.LoadUncompressed` | common/Image.cpp:824-918 | If all rows lie inside the file, the loops over rows and pixels fill the image from them in the order the flip says. |
| `Bmp.RowsRoundTrip` | common/Image.cpp:824-918 | If each row of a file is read as the image's row that far from below, made opaque, then the rows stacked as the loader stacks them are the rows of the image in order, made opaque. |
| `Bmp.LoadedPixel` | common/Image.cpp:824-918 | In every file accepted and not read beyond its end, pixel (x, y) of the picture is made of the three bytes at their place in the file row that the sign of the height assigns to it; the row begins where its number times the row size, cut to 32 bits, says, which below 4 GiB is where the format says. |
| `Bmp.OverreadsExactly` | common/Image.cpp:1206-1213 | An accepted file shorter than 0xFFFFFFFD bytes is read beyond its end if and only if offset plus row size times height does not fit 32 bits: the loader compares the sum after it has wrapped. |
| `Bmp.ShortFileOverread` | common/Image.cpp:1206-1213 | Counterexample: a file of 54 bytes with one pixel at offset 0xFFFFFFFC is accepted and read beyond its end. |
| `Bmp.BoundIsExact` | common/Image.cpp:1206-1213 | With 0xFFFFFFFD bytes the rows can lie inside the file although the sum has wrapped. |
| `Bmp.SaveThenLoad` | common/Image.cpp:1099-1346 | For every image with 0 < width, height < 65536 whose file fits 32 bits, loading what was saved gives its size and its pixels with alpha 0xFF. |

## Left out

Contracts with a premise of their own:

- WorkSemaObject.WorkSema.NotifyOfWork: the call must not be the one that makes the count reach the flag bit; `WorkSemaWord.FetchAddIsNotify` shows that bound to be exact.
- WorkSemaRuns.EmptyMeansProcessed: one thread at a time waits for empty, only the running worker calls `Kill`, `Reset` comes with no waiter outstanding, producers enqueue before they notify, and the worker looks for work only after it has seen the queue empty.
- WorkSemaRuns.WorkIsTakenSoon: says that the steps exist, and that no other thread can be needed; fairness of the scheduler is not modelled.
- UserspaceSemaphoreObject.UserspaceSemaphore.Post: units on hand and waiting threads must fit the 32-bit counter; `UserspaceSemaphoreProtocol.PostKeepsUnits` shows what happens beyond it.
- UserspaceSemaphoreObject.UserspaceSemaphore.Wait: the same bound on waiting threads; `UserspaceSemaphoreProtocol.WaitKeepsUnits` shows that the counter may reach it but not go on from there.
- SpscQueueObject.RingBuffer.Front: called only after a test has shown the ring not to be empty, as its callers do; `reset()` is left out because it is not safe beside another thread.
- CycleTaintSound.ReportIsSound: about lower halves; the upper ones are in `CycleTaintHalves` and `ZoomHalves`. Every instruction is clean, which `CycleTaintExact.CleanExactly` shows to be the exact condition on single instructions, and the instructions executed are the ones walked; `CycleTaintLimits` has a machine path for each way in which they can differ. An instruction that raises an exception ends the execution considered.
- ZoomHalves.BenignExactly: a way back to a read goes through general registers; one through HI and LO, memory or a coprocessor is not followed, and the shift amount of QFSRV is not looked at. The run is one `CycleTaintLimits.ReportIsSoundOnPath` is about.
- ZoomHalves.UpperTestIsRight: leaves the condition open where it depends on a load whose address is no constant of the snapshot and the code.
- LruCache.LRUCache.Lookup: the 64-bit access counter must not have reached its maximum; `LruCache.OrderedUntilWrap` shows that bound to be exact.
- LruCache.LRUCache.Insert: the same bound. The mode set by `SetManualEvict` is stored, and insertion evicts whatever it says, as the source does.
- PathPlace.SamePlace: places are lists of names in a tree without links; an empty path stands for the working directory.
- Bmp.Save: the size of the file must fit 32 bits, and the buffer handed in is empty, so that its padding is zero.
- Bmp.Load: returns `NotModelled` for accepted files of other depths or compressions, and `Overread`, without a picture, where the source would read beyond the file; sums of pointers do not wrap.
- Bc7Modes.Unpack: bits only. Bits of a word are a sequence, lowest first, and shifts and masks act on it.
- Bc7Modes.UnpackMode02: the fields of the block only; expanding endpoints, interpolating between them and writing pixels are left out.
- Bc7Modes.UnpackMode137: the same.
- Bc7Modes.UnpackMode45: the same.
- Bc7Modes.UnpackMode6: the same.

Not modelled:

- Weak memory orders, spin timing (`ShortSpinOn` may take any time) and the kernel semaphores themselves (a token count): atomics are sequentially consistent.
- The virtual machine behind the runner: whether a checkpoint can be reloaded, what the snapshots hold (128-bit registers, and whether anything else differs) and the backward branch of a block are parameters of `Zoom.Walk` and `ZoomClassified.WalkClassified`; console reports, disassembly and the full-state dumps are dropped.
- What instructions compute beyond building constants: `Ee` fixes which general register may change and leaves other results open.
- `DisasmBlock`, `BlockBackwardBranchTarget` and frame-level bisection: plain loops around the parts modelled.
- Byte order of the host: little-endian, which is what `MD5Transform`, the BMP headers and the BC7 bit-fields assume.
- BC7 endpoint expansion, interpolation, partition maps and pixels, and BC1 to BC5: table lookups and rounding on single values.
- All Windows branches of the path code, symbolic links, `RealPath`, files and directories; `URLDecode`; `SanitizeFileName` in place; the colon rule of macOS.
- Palette, run-length, bit-field, 16- and 32-bit BMP files, and every other image format.
- Pointers into the cache's values and string-keyed lookup by view.
- Downloaders, logging, settings, rendering, audio, the recompilers and the user interface: foreign calls and plumbing.

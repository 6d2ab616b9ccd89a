# A verified model of the POK kernel

POK is a partitioned real-time kernel in the style of ARINC 653. This project models the parts of
it whose correctness is a matter of algorithms and protocols, and proves what they promise:

- **Schedulers** (`Threads`, `WeightedRoundRobin`, `RoundRobinFairness`, `PriorityRoundRobin`,
  `PriorityRotation`, `PriorityQuantum`, `MultilevelFeedback`, `RateMonotonic`, `EarliestDeadline`,
  `Partitions`, `TimeTable`, `Products`, `ProcessorBudget`, `BudgetAndLocks`, `Releases`): the elections
  of `kernel/core/sched.c` as methods on the thread table, and what follows over runs: fairness, rotation,
  exact shares, absence of priority inversion, level accounting, the time table, the processor budget,
  timely release, and what the budget does to locks.
- **Lock objects** (`RingBuffer`, `WaitQueue`, `LockFifo`, `LockObject`, `LockProtocol`,
  `LockWaiting`): the ring of waiters refines a sequence; the spinlock-protected sections are the steps
  of a protocol, and its safety, exact account and bounded waiting are proved over all interleavings.
- **Queueing ports** (`PortRing`, `PortLayout`, `Ports`, `PortFlush`): byte queues carved out of one
  shared array refine independent FIFO queues; a flush moves whole contents from sources to
  destinations.
- **Exact arithmetic** (`PowersOfTwo`, `FloatFormat`, `Words`, `WordShifts`, `SquareRoot`,
  `SqrtSingle`, `SqrtDouble`, `ExactRemainder`, `FmodSingle`, `FmodDouble`, `NearestRemainder`,
  `Division`): square root, `fmod`, `remainder` and 64-bit division on 32-bit words.
- **The feedback queue simulator** (`FeedbackQueue`, `FeedbackLevels`, `FeedbackFairness`, `FeedbackRun`,
  `FeedbackSimulator`): conservation of work, levels, termination and absence of starvation.

`dafny verify dfyconfig.toml` checks everything.

## How the model reads the code

- Every object that the source updates in place is a class or an array, every loop a loop; each such
  method is tied to a function or relation on values, about which the results on runs are stated.
- Words are integers with their range, wrap-around written out (`Words.Wrap`, `Words.Signed`); ticks
  and byte counts are unbounded. A bitwise or of operands without common bits is a sum.
- A finite floating-point number is its exact value in units of the least subnormal number
  (`FloatFormat.Mag`), and `remainder` carries the obligation that each of its additions and
  subtractions is exact.
- A section under a spinlock is one step. Time, the processor, the outcome of name look-ups and
  ownership tests, and the order of arrivals are parameters.
- The elections read the table after the activation of threads; instrumentation and debug output are
  left aside.

## Where the code does not do what it says

Each of these is stated in the model as the code has it, with the exact condition.

- `e_sqrt.c:136` shifts a word by 32 for subnormals without a high word whose low word is at least
  2^31, or at least 2^10 and below 2^11 (`SqrtDouble.ShiftsByWord`); all other inputs are correctly
  rounded.
- `sched.c:901-903` lets a thread use its weight only while `remaining_time_capacity > 0`; a thread of
  infinite capacity (-1) gets one election per turn (`RoundRobinFairness.QuantumIsWeightIff`).
- `sched.c:898-943` never tests `prev` when the idle thread is current
  (`WeightedRoundRobin.IdleOverlooksPrevious`): the thread that ran last starves while it is the only one
  that can run (`RoundRobinFairness.LastRunnerStarves`). The scan does not terminate if both are idle and nobody is
  eligible (`WeightedRoundRobin.ScanEndsIff`).
- `sched.c:1101` takes priority 0 for "nobody" (`PriorityRoundRobin.Overlooked`), and `sched.c:1023`
  lets a current thread of another processor go on (`PriorityRoundRobin.Foreign`).
- `sched.c:990-991` starts the scan at the first thread while `prev` is idle: the turn can then pass
  from a thread to itself for ever (`PriorityRotation.RotationIff`).
- `sched.c:1153-1158` decrements an unsigned level: 0 becomes 255, the highest level, and the slice a
  shift by 255 (`MultilevelFeedback.NeverRisesIff`, `MultilevelFeedback.LevelsOverTime`).
- `sched.c:866` and `sched.c:876` take deadline 0 for "none", so a thread of deadline 0 hides those
  before it in the scan and is never elected (`EarliestDeadline.EarliestIff`).
- `thread.c:230-238` returns an identifier that the sort may hand to another thread
  (`RateMonotonic.StaysLastIff`).
- `partition.c:115-143` restarts a partition without stopping its threads: those that are not created again
  are still elected, out of order (`RateMonotonic.Partition.Elect`).
- `sched.c:431` overwrites the state of a thread that is waiting for a lock, with or without timeout, when
  its budget ends; it is then resumed without the lock, and `lockobj.c:278-285` returns OK (`BudgetAndLocks.BudgetBreaksLock`,
  `LockProtocol.ResumptionIsSafeIff`).
- `sched.c:1282` makes a thread runnable that has no budget left, `sched.c:359-383` charges nobody during
  initialization or while the error thread goes on, and `sched.c:1330` switches to the error thread without
  an election, so that the next one charges nobody (`ProcessorBudget.BudgetBound`).
- `sched.c:1401` counts the deadlines of threads of all processors when it chooses a partition
  (`EarliestDeadline.TwoLevelsAreFlatIff`).
- `lockobj.c:278-281` returns TIMEOUT to a thread that has been handed the resource, which is then lost
  (`LockProtocol.LostHandOverIff`); `lockobj.c:348` ignores a maximum of 0
  (`LockProtocol.SemaphoreBound`).
- `e_remainder.c:67-80` gives an exact zero difference the sign that the rounding mode gives it: rounding
  downward, the remainder of 3.0 by 1.0 is minus zero (`NearestRemainder.Remainder`).
- `portutils.c:130-156` does not test for room: a write that does not fit discards the old contents
  (`Ports.PutAppendsIff`); a write of no bytes fills an empty port or divides by a size of 0, a read of
  none empties a full port (`Ports.PortTable.Write`, `Ports.ReadTakesIff`).
- `portutils.c:91-94` leaves a port marked full until it is empty, so that it refuses data it has room for
  (`Ports.FullAfter`, `Ports.FullIff`).
- `mlfq.py:58-71` loops for ever once all arrived work is done while more is to come
  (`FeedbackRun.EndsIff`), and ends without processes of burst time 0 that have not run
  (`FeedbackRun.WithoutWorkMissing`).

## Model

| member | source | states |
|---|---|---|
| `SquareRoot.Digit` | libpok/libm/e_sqrtf.c:74-83 | one iteration keeps "the digits above weight r are the root of n so far, and rem is exactly what is left"; the last one leaves the floor of the root and its exact remainder |
| `SquareRoot.OddRootIsInexact` | libpok/libm/e_sqrt.c:79-82 | an odd last digit never has a zero remainder, so rounding to nearest never meets a tie |
| `SquareRoot.CorrectRounding` | libpok/libm/e_sqrt.c:183-198 | adjusting the digits by mode and dropping the extra bit gives the correctly rounded root among all patterns, for all four rounding modes (IEEE 754-2008, sections 4.3 and 5.4.1) |
| `SquareRoot.RootPattern` | libpok/libm/e_sqrtf.c:63-98 | digits of the scaled significand plus rounding plus exponent are the correctly rounded root of the number itself |
| `SqrtSingle.Normalise` | libpok/libm/e_sqrtf.c:56-64 | significand and exponent stand for the same number, subnormals included |
| `SqrtSingle.Digits` | libpok/libm/e_sqrtf.c:69-83 | q is the floor of the root of the scaled significand, rem its exact remainder; no signed overflow |
| `SqrtSingle.PositiveRoot` | libpok/libm/e_sqrtf.c:56-99 | the root of every positive finite number is correctly rounded |
| `SqrtSingle.Sqrtf` | libpok/libm/e_sqrtf.c:36-100 | the same in all rounding modes, and the results for zeros, infinity, NaN and negative numbers |
| `SqrtDouble.HighDigits` | libpok/libm/e_sqrt.c:149-162 | the first loop settles the high word of the root of the two-word significand: it is the wide-integer loop read in two words |
| `SqrtDouble.CarryOut` | libpok/libm/e_sqrt.c:169-171 | the sign-bit test of the source detects exactly the carry of the doubled root |
| `SqrtDouble.LowStep` | libpok/libm/e_sqrt.c:166-180 | compare, borrow and carry on two words are one digit step on wide integers |
| `SqrtDouble.LowDigits` | libpok/libm/e_sqrt.c:164-181 | the two words hold the floor of the root and its exact remainder |
| `SqrtDouble.MoveUp` | libpok/libm/e_sqrt.c:127-131 | moving up by 21 bits at most twice keeps the value; the leading one lands in its place exactly when the later shift count is 32 |
| `SqrtDouble.ShiftIntoPlace` | libpok/libm/e_sqrt.c:132-136 | shifting by single bits and then the low word by the same count keeps the value, unless the count is 0 |
| `SqrtDouble.NormaliseSubnormal` | libpok/libm/e_sqrt.c:126-137 | a subnormal is normalised if and only if its words are not among those that make the code shift a word by 32 |
| `SqrtDouble.Normalise` | libpok/libm/e_sqrt.c:124-139 | significand and unbiased exponent of every positive finite number outside that family |
| `SqrtDouble.RoundWords` | libpok/libm/e_sqrt.c:183-203 | the carries between the words give the rounded digits |
| `SqrtDouble.PositiveRoot` | libpok/libm/e_sqrt.c:124-205 | correctly rounded root of every positive finite number, undefined exactly for the family above |
| `SqrtDouble.Sqrt` | libpok/libm/e_sqrt.c:104-206 | the same in all rounding modes, with the special operands |
| `FloatFormat.MagAt` | libpok/libm/e_sqrtf.c:96-98 | adding the exponent to a significand gives its pattern, also when rounding carries into the exponent |
| `FloatFormat.MagMonotone` | libpok/libm/e_fmodf.c:58-61 | comparing patterns compares the numbers |
| `ExactRemainder.ReduceStep` | libpok/libm/e_fmodf.c:94-101 | subtract-if-it-fits and double keeps the residue modulo the divisor and m < 2y |
| `ExactRemainder.ResidueIsRemainder` | libpok/libm/e_fmodf.c:91-106 | the residue of the aligned significands is the remainder of the numbers |
| `ExactRemainder.ExponentOrder` | libpok/libm/e_fmodf.c:92 | the shift count is never negative |
| `ExactRemainder.PackNormal` | libpok/libm/e_fmodf.c:115-117 | a normalised remainder is packed without loss |
| `ExactRemainder.PackSubnormal` | libpok/libm/e_fmodf.c:118-121 | no set bit is shifted out when a subnormal remainder is packed |
| `ExactRemainder.ShiftToSign` | libpok/libm/e_fmodf.c:64-75 | the counting loops find the leading bit of every non-zero word |
| `FmodSingle.Align` | libpok/libm/e_fmodf.c:64-89 | exponent and aligned significand of a positive finite number |
| `FmodSingle.Reduce` | libpok/libm/e_fmodf.c:92-106 | the loop computes (x * 2^n) mod y |
| `FmodSingle.Pack` | libpok/libm/e_fmodf.c:111-123 | the packed result is exactly the remainder |
| `FmodSingle.Fmodf` | libpok/libm/e_fmodf.c:45-125 | for all finite x and finite non-zero y the magnitude is the exact remainder and the sign that of x (ISO C99, 7.12.10.1), and the exceptional operands |
| `FmodDouble.Exponent` | libpok/libm/e_fmod.c:63-85 | binary exponents, subnormals in either word included |
| `FmodDouble.Align` | libpok/libm/e_fmod.c:87-111 | the two words are shifted into place without loss |
| `FmodDouble.Reduce` | libpok/libm/e_fmod.c:113-137 | the two-word loop with borrows computes (x * 2^n) mod y |
| `FmodDouble.NormaliseRemainder` | libpok/libm/e_fmod.c:142-146 | doubling over the words keeps the value |
| `FmodDouble.ShiftBack` | libpok/libm/e_fmod.c:150-161 | the three shift cases divide the two-word significand by 2^n |
| `FmodDouble.Pack` | libpok/libm/e_fmod.c:142-164 | the packed result is exactly the remainder |
| `FmodDouble.Fmod` | libpok/libm/e_fmod.c:42-166 | as for single precision, on two words |
| `NearestRemainder.Sterbenz` | libpok/libm/e_remainder.c:69-79 | the difference of two patterns within a factor of two is representable, so the subtractions are exact |
| `NearestRemainder.ReduceTwice` | libpok/libm/e_remainder.c:61-79 | reducing by 2p and subtracting p at most twice gives the nearest remainder with ties to even |
| `NearestRemainder.NearestRemainderUnique` | libpok/libm/e_remainder.c:27-31 | the definition of the nearest remainder leaves no choice |
| `NearestRemainder.Subtract` | libpok/libm/e_remainder.c:67-80 | the tail computes that remainder, every intermediate result is representable, and the sign is minus exactly for a negative result or, rounding downward, for the difference of two equal numbers |
| `NearestRemainder.ReduceByDouble` | libpok/libm/e_remainder.c:61-62 | fmod by p + p, with a doubled pattern that never overflows |
| `NearestRemainder.Remainder` | libpok/libm/e_remainder.c:42-84 | x - n*p with n the integer nearest to x/p, ties to even, for all finite x and finite non-zero p (IEEE 754-2008, section 5.3.1); a zero result has the sign of x if and only if it is not, rounding downward, the difference of two equal numbers: \|x\| differs from \|p\| and \|x\| mod 2\|p\| is \|p\| |
| `NearestRemainder.ThreeByOne` | libpok/libm/e_remainder.c:67-80 | x = 3.0, p = 1.0 is such a case |
| `Division.Udivdi3` | kernel/libc/__udivdi3.c:17-42 | the quotient, for every divisor but zero; both loops end and lose no bit |
| `Division.Umoddi3` | kernel/libc/__umoddi3.c:17-20 | the remainder |
| `WaitQueue.InsertKeepsOrder` | kernel/core/lockobj.c:446-459 | insertion keeps descending priority order |
| `WaitQueue.InsertAddsOne` | kernel/core/lockobj.c:446-459 | insertion adds the newcomer and nothing else |
| `WaitQueue.InsertIsStable` | kernel/core/lockobj.c:446-459 | the newcomer becomes the last of its priority; every class of equal priority keeps its order |
| `WaitQueue.RoomForNewcomer` | kernel/core/lockobj.c:446-459 | pigeonhole: queued threads are distinct and the newcomer is absent, so the unchecked insertion never meets a full buffer |
| `WaitQueue.InsertDistinct` | kernel/core/lockobj.c:446-459 | queues of distinct threads stay so |
| `WaitQueue.RemoveAt` | kernel/core/lockobj.c:481-503 | removal deletes the first occurrence and keeps the order of the rest |
| `WaitQueue.RemoveDistinct` | kernel/core/lockobj.c:481-503 | after removal exactly that thread is gone |
| `LockFifo.Fifo.EnqueueLast` | kernel/core/lockobj.c:439-445 | appends to the sequence, or reports a full buffer, for every head and last |
| `LockFifo.Fifo.FindPlace` | kernel/core/lockobj.c:447-451 | the scan finds the place before the first waiter of lower priority |
| `LockFifo.Fifo.ShiftBehind` | kernel/core/lockobj.c:452-455 | the shift moves the waiters behind that place one slot on, across the wrap |
| `LockFifo.Fifo.EnqueueByPriority` | kernel/core/lockobj.c:446-459 | refines stable insertion; on a full buffer it would forget all other waiters |
| `LockFifo.Fifo.GetHead` | kernel/core/lockobj.c:434-436 | the first waiter |
| `LockFifo.Fifo.Dequeue` | kernel/core/lockobj.c:468-475 | drops the first waiter |
| `LockFifo.Fifo.FindThread` | kernel/core/lockobj.c:484-494 | finds the first occurrence, or reports that there is none |
| `LockFifo.Fifo.CloseGap` | kernel/core/lockobj.c:495-499 | the shift that closes the gap, across the wrap |
| `LockFifo.Fifo.RemoveThread` | kernel/core/lockobj.c:481-503 | deletes the first occurrence |
| `LockObject.LockObj.constructor` | kernel/core/lockobj.c:69-108 | initial values and queueing disciplines by kind |
| `LockObject.LockObj.LockSection` | kernel/core/lockobj.c:256-274 | the first section of a lock is the step `Acquire` |
| `LockObject.LockObj.ResumeSection` | kernel/core/lockobj.c:276-285 | a thread that resumes past its deadline leaves the queue |
| `LockObject.LockObj.UnlockSection` | kernel/core/lockobj.c:298-371 | the three scenarios of an unlock: a waiter is handed the resource, in order, exactly if there is one and none is free; otherwise a semaphore below its maximum goes up by one, one at or above it stays, and any other lock is free |
| `LockObject.LockObj.QueueForEvent` | kernel/core/lockobj.c:177-192 | the waiter joins the event queue by priority |
| `LockObject.LockObj.Signal` | kernel/core/lockobj.c:214-229 | wakes the first waiter, if there is one |
| `LockObject.LockObj.Broadcast` | kernel/core/lockobj.c:231-249 | wakes all waiters in order |
| `LockProtocol.StepKeepsInv` | kernel/core/lockobj.c:158-377 | every step of every thread keeps the places of threads and the account of resources |
| `LockProtocol.LockSafety` | kernel/core/lockobj.c:251-377 | over all interleavings nobody waits while a resource is available, and completed acquisitions + hand-overs in flight + current value never exceed initial value + unlocks |
| `LockProtocol.ExactAccount` | kernel/core/lockobj.c:251-371 | over all interleavings from creation, without inequality: completed acquisitions + hand-overs in flight + current value + hand-overs lost + unlocks of a lock that was already free to its maximum = initial value + unlocks, both kinds of unlock counted from the steps |
| `LockProtocol.UnlockRaises` | kernel/core/lockobj.c:318-337 | with nobody waiting an unlock adds one to a semaphore unless it is free and at its maximum, and frees any other lock |
| `LockProtocol.StartIsSafe` | kernel/core/lockobj.c:69-108 | a created object satisfies the invariant |
| `LockProtocol.MutualExclusion` | kernel/core/lockobj.c:251-377 | a mutex or event unlocked only by its holder never has two holders; once a hand-over is lost to a timeout it never has one again |
| `LockProtocol.ResumptionIsSafeIff` | kernel/core/lockobj.c:275-285 | a resumed lock does not ask whether it was handed the resource: exclusion survives exactly when it was, or timed out |
| `LockProtocol.ResumptionWithoutGrant` | kernel/core/lockobj.c:275-285 | a run with two holders, when a waiter is made runnable without a grant |
| `LockProtocol.LostHandOverIff` | kernel/core/lockobj.c:265-285 | no run loses a hand-over to a timeout if and only if there are fewer than two threads or every allowed timeout is 0; the same for runs in which only holders unlock, if a resource is there at the start |
| `LockProtocol.SemaphoreBound` | kernel/core/lockobj.c:318-351 | the value of a semaphore stays within its maximum in all runs if and only if it starts there and the maximum is not 0 |
| `LockWaiting.JoinsByPriority` | kernel/core/lockobj.c:446-459 | a thread that joins by priority delays exactly the waiters of lower priority, each by one |
| `LockWaiting.BoundedWaiting` | kernel/core/lockobj.c:251-377 | over every interleaving, while a thread waits there are no more unlocks than there were threads before it and threads of higher priority that have joined since; with one more it has been handed the resource or has timed out |
| `LockWaiting.WaitIsBounded` | kernel/core/lockobj.c:251-377 | the same at any moment of the life of a created object; in order of arrival, no more unlocks than there were threads before it |
| `LockWaiting.BoundedEventWaiting` | kernel/core/lockobj.c:177-249 | over every interleaving, a thread that still waits for an event has seen no broadcast, and no more signals than there were threads before it and threads of higher priority that have begun to wait since |
| `LockWaiting.SignalWakesOne` | kernel/core/lockobj.c:214-229 | a signal wakes exactly one waiter, and none of higher priority goes on waiting |
| `PortRing.WriteContents` | kernel/middleware/portutils.c:138-156 | writing behind off_e, in two pieces across the end, appends; a write that does not fit drops all that was there and the beginning of its own data |
| `PortRing.ReadContents` | kernel/middleware/portutils.c:78-94 | reading from off_b takes a prefix; a read of nothing from a full region empties it |
| `PortRing.ReadBeyond` | kernel/middleware/portutils.c:74-94 | a read of more than there is goes round the region and leaves the unread bytes followed by the old contents |
| `PortLayout.PasteElsewhere` | kernel/middleware/portcreate.c:93-103 | writing one region leaves every disjoint region alone |
| `PortLayout.OneQueueChanges` | kernel/middleware/portutils.c:120-160 | a write changes the queue of its own port only, and the layout stays |
| `PortLayout.OneQueueAdded` | kernel/middleware/portcreate.c:93-103 | a new region lies apart from all others, and the sizes still add up to size - available_size |
| `Ports.PutAppendsIff` | kernel/middleware/portutils.c:128-158 | an accepted write appends exactly if the data fits in the room left |
| `Ports.FirstInFirstOut` | kernel/middleware/portutils.c:58-159 | over any run of operations that are refused, or are writes with room and reads of what is there: received bytes + contents = initial contents + accepted bytes |
| `Ports.ReadTakesIff` | kernel/middleware/portutils.c:58-97 | a read that is not refused hands out the bytes it removes if and only if it asks for no more than is there, and not for nothing from a port filled to the brim |
| `Ports.FullAfter` | kernel/middleware/portutils.c:58-159 | a write sets the full flag exactly if it fills the port, and a read clears it exactly if it empties the port: a port that has been full refuses writes until the last byte is read |
| `Ports.FullIff` | kernel/middleware/portutils.c:58-159 | over any run of operations: the flag is set exactly if the port has been filled since it was last empty |
| `Ports.PortTable.constructor` | kernel/middleware/portinit.c:37-48 | no port is ready and nothing is allocated |
| `Ports.PortTable.Create` | kernel/middleware/portcreate.c:31-108 | the error of each failing test in order; otherwise one empty queue appears and available_size shrinks by its size |
| `Ports.PortTable.ConsumedSize` | kernel/middleware/portutils.c:46-56 | the number of bytes held |
| `Ports.PortTable.Write` | kernel/middleware/portutils.c:120-159 | refines the write on an independent queue: status, new contents, full flag, all other ports unchanged; and what a write of no bytes does, down to the division by the size of a port of size 0 |
| `Ports.PortTable.Get` | kernel/middleware/portutils.c:58-97 | refines the read on an independent queue for every length, all other ports unchanged |
| `Ports.PortTable.SetMustBeFlushed` | kernel/middleware/portflushall.c:120 | changes that flag of one queue |
| `PortFlush.DeliverIs` | kernel/middleware/portflushall.c:94-113 | every ready IN port gets the data once per route to it, with room or without, whatever the destinations before it did; all other queues are untouched |
| `PortFlush.DeliverAt` | kernel/middleware/portflushall.c:94-113 | destinations with room get the data once per route; queues that are no ready IN port are untouched |
| `PortFlush.FlushDrains` | kernel/middleware/portflushall.c:71-121 | a flush empties exactly the pending OUT ports of the list and changes no other port but ready IN ports |
| `PortFlush.FlushAppendsIff` | kernel/middleware/portflushall.c:71-121 | a ready IN port gets the whole contents of its sources appended, in the order of the list, if and only if it has the room for all of it; it is then full exactly if nothing is left of its room, and a port without inflow stays as it is |
| `PortFlush.FlushPortsTogether` | kernel/middleware/portflushall.c:128-136 | flushing partition after partition is flushing the concatenated list |
| `PortFlush.FlushedPortsAre` | kernel/middleware/portflushall.c:128-136 | a port is flushed if and only if it belongs to a partition that runs or idles |
| `PortFlush.FlushAllDrains` | kernel/middleware/portflushall.c:71-136 | an OUT port ends empty and with nothing to flush if it belongs to such a partition and something was to be flushed, and unchanged otherwise |
| `PortFlush.DeliverAll` | kernel/middleware/portflushall.c:94-113 | the inner loop, on the shared array |
| `PortFlush.FlushOne` | kernel/middleware/portflushall.c:72-120 | the body of the outer loop, on the shared array |
| `PortFlush.FlushPartition` | kernel/middleware/portflushall.c:59-122 | refines the flush of independent queues |
| `PortFlush.FlushAll` | kernel/middleware/portflushall.c:128-136 | the same for all partitions that run or idle |
| `FeedbackQueue.ScheduleKeeps` | mlfq/mlfq.py:17-47 | a call keeps every process in exactly one place (not started, one queue position, completed), and time + remaining work constant; time passes exactly if the process that runs has work left, and one without work is completed at once |
| `FeedbackQueue.JoinKeeps` | mlfq/mlfq.py:59-63 | arrivals keep it too |
| `FeedbackLevels.CallMoves` | mlfq/mlfq.py:17-47 | what a call makes of the queues: newcomers come last in the first one; the head of the first queue that is not empty leaves it and, with work left, comes last in the queue below, or in its own if that is the last; at a multiple of the interval all queues are put in the first one, in order |
| `FeedbackLevels.LevelIs` | mlfq/mlfq.py:17-47 | over runs, a queued process that has been run n times since it joined or since all were last gathered stands in queue min(n, number of queues - 1) |
| `FeedbackLevels.OrderStays` | mlfq/mlfq.py:17-47 | who stands before another in a queue stays before it until it runs or all are gathered |
| `FeedbackLevels.ComesLast` | mlfq/mlfq.py:31-34 | who runs and has work left comes behind everybody in its new queue |
| `FeedbackLevels.NewcomerGoesFirst` | mlfq/mlfq.py:17-47 | with at least two queues, no process that has run since the last gathering runs again before a newcomer has, unless all are gathered before |
| `FeedbackFairness.CallAdvances` | mlfq/mlfq.py:19-41 | in the first queue everybody moves up by one with each call, whatever arrives and whether or not all are reinserted |
| `FeedbackFairness.ScheduleRunsOrKeeps` | mlfq/mlfq.py:17-47 | a call runs a queued process or leaves it queued; at a multiple of the interval everybody is in the first queue |
| `FeedbackFairness.NoStarvation` | mlfq/mlfq.py:17-47 | a queued process runs within reinsert_interval + number of processes + number of uncompleted processes without work calls, whatever arrives meanwhile |
| `FeedbackFairness.NoStarvationWithWork` | mlfq/mlfq.py:17-47 | if all processes bring work, within reinsert_interval + number of processes calls |
| `FeedbackRun.ArrivingAre` | mlfq/mlfq.py:59-63 | each arrived process that has not started joins once, in order |
| `FeedbackRun.ArrivingInOrder` | mlfq/mlfq.py:59-63 | those that arrive in the same round join in the order of their indices |
| `FeedbackRun.WorkQueuedIff` | mlfq/mlfq.py:58-67 | a process with work left is queued exactly if work that has arrived is left over |
| `FeedbackRun.TurnKeeps` | mlfq/mlfq.py:58-71 | time passes in a round only if the work arrived by then exceeds the time; and if it does, time passes or a process without work is completed |
| `FeedbackRun.TurnStuck` | mlfq/mlfq.py:58-71 | a round that neither takes time nor completes a process found nobody queued, and no further round changes anything |
| `FeedbackRun.EndsIff` | mlfq/mlfq.py:58-71 | `run` ends if and only if for every t below the total work the work arrived by t exceeds t |
| `FeedbackRun.DoneHasAllWork` | mlfq/mlfq.py:69-73 | when all work is done the completed list holds every process that brought work once, and one without work if it has been queued and has run |
| `FeedbackRun.WithoutWorkMissing` | mlfq/mlfq.py:69-73 | a process without work can be missing from the result |
| `FeedbackSimulator.Simulator.constructor` | mlfq/mlfq.py:49-56 | the state that `run` starts from |
| `FeedbackSimulator.Simulator.AdmitArrivals` | mlfq/mlfq.py:59-63 | the admission loop |
| `FeedbackSimulator.Simulator.Reinsert` | mlfq/mlfq.py:38-41 | the nested loops gather all queues in the first one, in order |
| `FeedbackSimulator.Simulator.ServeHead` | mlfq/mlfq.py:21-34 | one process runs and moves |
| `FeedbackSimulator.Simulator.ScheduleOne` | mlfq/mlfq.py:17-47 | the whole of `mlfq_schedule` |
| `FeedbackSimulator.Simulator.Run` | mlfq/mlfq.py:49-73 | for all burst times, 0 included: the loop never ends if and only if at some moment before the end no arrived work is left over, and a round then changes nothing; otherwise time equals the total work and the result holds every process that brought work once |
| `Threads.CycleStep` | kernel/core/sched.c:939-943 | `i++` with wrap visits the indices of a partition in cyclic order |
| `Threads.Highest` | kernel/core/sched.c:994-1005 | the scan finds the first eligible thread of the highest key, or that nobody is eligible |
| `WeightedRoundRobin.ScanEndsIff` | kernel/core/sched.c:914-943 | the scan reaches a thread that can run, or comes back to where it started, if and only if it started from a thread of the partition or somebody of the partition can run: from the idle thread, with nobody to elect, it goes on for ever |
| `WeightedRoundRobin.FindNext` | kernel/core/sched.c:914-943 | the loop does not end exactly if the scan does not; otherwise it finds the first eligible thread after `from` |
| `WeightedRoundRobin.Rotate` | kernel/core/sched.c:914-972 | refill and hand on, to the next thread, the same one or the idle one, whenever the scan ends |
| `WeightedRoundRobin.ElectIs` | kernel/core/sched.c:892-973 | the election in terms of the scan: the current thread goes on exactly with capacity and more than one unit of its slice; otherwise the first eligible thread tested, then the current one, then idle; and one unit is charged or the slice refilled |
| `WeightedRoundRobin.ElectWrr` | kernel/core/sched.c:892-973 | the election does not end exactly if the current thread does not go on and the scan does not end; otherwise who is elected; and the slice of the current thread, nothing else changes |
| `WeightedRoundRobin.IdleOverlooksPrevious` | kernel/core/sched.c:895-943 | from the idle thread `prev` is never tested unless it is alone: idle goes on if and only if nobody else is eligible |
| `RoundRobinFairness.QuantumIsWeightIff` | kernel/core/sched.c:901-903 | a turn lasts `weight` elections if and only if the thread has positive remaining capacity or weight 1 |
| `RoundRobinFairness.NextInTurn` | kernel/core/sched.c:914-943 | after each thread comes the next eligible one in cyclic index order |
| `RoundRobinFairness.OneElection` | kernel/core/sched.c:892-973 | one election continues a turn or passes it on, and restores the slice |
| `RoundRobinFairness.WholeTurns` | kernel/core/sched.c:892-973 | consecutive turns are consecutive blocks in cyclic order |
| `RoundRobinFairness.Fairness` | kernel/core/sched.c:892-973 | any window as long as the sum of the quanta, from any moment of a turn, gives the rest of the turn, one block for everybody else in cyclic order, and the beginning of the turn again, and ends in the state it started in |
| `RoundRobinFairness.EverybodyGetsQuantum` | kernel/core/sched.c:892-973 | in such a window each eligible thread is elected exactly its quantum of times and nobody else at all |
| `RoundRobinFairness.FreshTurn` | kernel/core/sched.c:892-973 | a run may start on a fresh turn |
| `RoundRobinFairness.LastRunnerStarves` | kernel/core/sched.c:895-943 | a thread that was the last to run before the partition went idle is never elected again while it is the only one that can run |
| `PriorityRoundRobin.NextPeer` | kernel/core/sched.c:1040-1067 | finds the next eligible thread of the same priority |
| `PriorityRoundRobin.LastScan` | kernel/core/sched.c:1084-1122 | the fallback elects the first of the highest priority, or idle |
| `PriorityRoundRobin.PassOn` | kernel/core/sched.c:1034-1122 | rotation, self-continuation and fallback |
| `PriorityRoundRobin.Choose` | kernel/core/sched.c:993-1122 | preemption, continuation, or passing on |
| `PriorityRoundRobin.ElectPwrr` | kernel/core/sched.c:977-1123 | the election as a relation, and the slice of the current thread |
| `PriorityRoundRobin.NoInversion` | kernel/core/sched.c:977-1123 | the elected thread is eligible and of maximum priority, or idle, if and only if no current thread of another processor goes on with its slice; idle is elected if and only if nobody is eligible, or in the one case described by `Overlooked`, in which all that are eligible have priority 0 |
| `PriorityRoundRobin.OverlookedAlone` | kernel/core/sched.c:1100-1122 | a lone thread of priority 0 is overlooked |
| `PriorityRotation.NextEqual` | kernel/core/sched.c:1023-1067 | who follows a thread nobody has priority over: itself while its slice lasts, then the first equal behind it, or, while `prev` is idle, the first equal of the partition but for its first thread |
| `PriorityRotation.Approaches` | kernel/core/sched.c:977-1123 | each election brings the turn of every equal nearer |
| `PriorityRotation.RotationIff` | kernel/core/sched.c:977-1123 | over runs, all threads of the priority of the current one have their turns within a round if and only if `prev` is not idle, or the current thread is the first of the partition, or an equal other than that first thread comes before it, or there is no other equal; otherwise only the current thread is ever elected |
| `PriorityRotation.SecondStarves` | kernel/core/sched.c:990-991 | the case of two equals of which the second starves |
| `PriorityQuantum.SliceAfter` | kernel/core/sched.c:984-1122 | an election charges the current thread one unit of its slice, or refills it exactly if the thread loses the processor or cannot go on; no other slice is touched |
| `PriorityQuantum.OthersAreRested` | kernel/core/sched.c:977-1123 | over runs, preemptions included, every thread but the current one has a whole slice |
| `PriorityQuantum.WholeTurn` | kernel/core/sched.c:977-1123 | over runs, a thread nobody has priority over keeps the processor from the beginning of its turn for exactly its quantum of elections - its weight, or 1 without positive remaining capacity - and then the next equal begins a turn |
| `PriorityQuantum.ExactShares` | kernel/core/sched.c:977-1123 | from the beginning of a turn, the equals have their turns in cyclic order, each for exactly its quantum of consecutive elections |
| `PriorityQuantum.RoundRepeats` | kernel/core/sched.c:977-1123 | after as many elections as their quanta add up to, the same round begins again |
| `MultilevelFeedback.ElectMlfq` | kernel/core/sched.c:1127-1187 | the current thread goes on exactly if it is runnable, with capacity, and has more than one unit of its slice; otherwise the first eligible thread of the highest level after charge and demotion; a thread that can run and is not demoted goes on; the idle slice stops at 0 |
| `MultilevelFeedback.NeverRisesIff` | kernel/core/sched.c:1151-1159 | levels never rise, except exactly when a thread at level 0 uses up its slice: the unsigned level wraps to 255 |
| `MultilevelFeedback.QuantaAtLevel` | kernel/core/sched.c:1137-1159 | n = 2^(8 - level) - 1 - slice for every n below 255 |
| `MultilevelFeedback.LevelsOverTime` | kernel/core/sched.c:1137-1159 | level 0 is reached with the 127th quantum exactly, level 255 with the 255th |
| `MultilevelFeedback.OnlyQuantaCount` | kernel/core/sched.c:1127-1187 | over a run only the quanta charged to a thread decide its level and slice |
| `MultilevelFeedback.LevelAccounting` | kernel/core/sched.c:1127-1187 | the accounting over whole runs, from the initial level and slice of thread.c |
| `MultilevelFeedback.WholeSlice` | kernel/core/sched.c:1127-1187 | over runs, a turn ends by demotion only: a thread that begins a slice at level l <= 7 keeps the processor for exactly 2^(7-l) elections, whoever becomes eligible meanwhile, and the last of them takes it down a level |
| `MultilevelFeedback.SliceIsQuotient` | kernel/core/sched.c:1158 | the slice is the quotient of 128 by 2^level, for every level at which the shift is defined |
| `RateMonotonic.InsertKeepsSorted` | kernel/core/thread.c:54-65 | insertion keeps the order by period, adds exactly the new thread and is stable |
| `RateMonotonic.PeriodFrom` | kernel/core/thread.c:172-175 | the unsigned period is kept as the signed number of the same 64 bits, and an attribute of 0 leaves the old one |
| `RateMonotonic.StaysLastIff` | kernel/core/thread.c:230-238 | the identifier returned before the sort names the new thread if and only if no thread that was there has a longer period |
| `RateMonotonic.InsertSort` | kernel/core/thread.c:54-65 | the in-place loop is that insertion, and touches nothing else |
| `RateMonotonic.Partition.Create` | kernel/core/thread.c:152-157 | after each creation the threads behind the main one are a period-sorted permutation of those created |
| `RateMonotonic.ElectRms` | kernel/core/sched.c:634-649 | elects the first eligible thread behind the main one, the main one only if no other is eligible, idle if nobody is |
| `RateMonotonic.FirstIsShortestIff` | kernel/core/sched.c:634-649 | on the order kept by creation that thread has the smallest period if and only if no thread left over from before a restart can run with a smaller one |
| `RateMonotonic.Partition.Restart` | kernel/core/partition.c:115-124 | creation begins anew; the threads stay in the table as they are |
| `RateMonotonic.Partition.CreatedIsArranged` | kernel/core/thread.c:152-157 | a partition as creation leaves it, restarted or not, has its used entries behind the main one sorted |
| `RateMonotonic.Partition.StaysArranged` | kernel/core/thread.c:54-65 | whatever the threads do, while their periods stay the order of creation does |
| `RateMonotonic.Partition.Elect` | kernel/core/sched.c:634-649 | on a partition that creation has arranged: the first thread behind the main one that can run, of the shortest period if and only if nobody left over from before a restart can run with a shorter one; the main one only if there is none, idle if nobody can run |
| `RateMonotonic.InfinitePeriodFirst` | kernel/core/thread.c:172-175 | an infinite period is -1, and the thread is inserted before every periodic one |
| `EarliestDeadline.ElectPedf` | kernel/core/sched.c:850-888 | elects the first of the earliest deadlines behind the last thread of deadline 0 in the scan |
| `EarliestDeadline.PedfIs` | kernel/core/sched.c:850-888 | who is elected has a deadline above 0 and lies behind every eligible thread of deadline 0 in the scan; among all such threads its deadline is the earliest, and it is the first of that deadline |
| `EarliestDeadline.EarliestIff` | kernel/core/sched.c:850-888 | a thread of the earliest deadline is elected if and only if somebody is eligible and nobody eligible has deadline 0 |
| `EarliestDeadline.UpdateDeadlines` | kernel/core/sched.c:1396-1407 | the deadline of each partition is the earliest of its runnable threads, or the maximum |
| `EarliestDeadline.ElectPartition` | kernel/core/sched.c:1409-1430 | the first partition of the earliest deadline, or the current one |
| `EarliestDeadline.TwoLevelsAreFlatIff` | kernel/core/sched.c:1396-1430 | on any number of processors, two levels elect a thread of minimum deadline among all partitions that can run on this one if and only if somebody can, no such deadline is 0, and the partition whose deadline is the first least over all processors also has the least counting this one only |
| `EarliestDeadline.OneProcessorIsFlatIff` | kernel/core/sched.c:850-888 | on one processor they do if and only if somebody can run, no such deadline is 0, and one is below UINT64_MAX or the current partition can run |
| `EarliestDeadline.OtherProcessorMisleads` | kernel/core/sched.c:1396-1407 | a partition chosen for the deadline of a thread of another processor |
| `TimeTable.ConformsIff` | kernel/core/sched.c:208-253 | from a conforming state the next election conforms if and only if it comes before the end of the next slot |
| `TimeTable.ConformsMeans` | kernel/core/sched.c:1347-1352 | a conforming state is the slot that contains now mod major_frame |
| `TimeTable.ConformsAlways` | kernel/core/sched.c:208-253 | with at least one election per tick every election conforms |
| `TimeTable.TableIsFollowed` | kernel/core/sched.c:208-253 | the partition at tick now is the allocation of the slot that contains now mod major_frame, and there has been one flush per completed frame (ARINC 653 Part 1, section 2.3.1) |
| `TimeTable.FlushesAtWrap` | kernel/core/sched.c:228-240 | a flush happens exactly at the elections that wrap to slot 0 |
| `TimeTable.Scheduler.Init` | kernel/core/sched.c:187-191 | the initial variables |
| `TimeTable.Scheduler.IsCompliant` | kernel/core/sched.c:174-180 | the sum of the slots is compared with the major frame |
| `TimeTable.Scheduler.ElectPartition` | kernel/core/sched.c:208-253 | the election step on the variables |
| `ProcessorBudget.Activate` | kernel/core/sched.c:317-352 | wakes and replenishes the threads of the partition and processor that are due; nobody of them is left waiting for a time that has come |
| `ProcessorBudget.Prepare` | kernel/core/sched.c:285-433 | activation and charging, before the policy is called |
| `Releases.Supply` | kernel/core/sched.c:317-352 | a thread whose waiting time has come is runnable, otherwise as it was; a released one has its whole capacity, its deadline counted from the old release point, and the next release point one period later; nobody else changes |
| `Releases.ChargedIff` | kernel/core/sched.c:376-412 | one tick of a finite capacity is charged to the thread that has been running if and only if the partition is in normal mode, its error thread does not go on, and the thread is not the idle, main or error thread; nobody else is charged |
| `Releases.LeftOverdueIff` | kernel/core/sched.c:285-431 | after an election a thread is left waiting for a time that has come if and only if the election charged it its last tick when its next release point had passed already |
| `Releases.WokenInTime` | kernel/core/sched.c:317-352 | over an undisturbed run, a thread with a timeout whose budget the first election left waits until the first election of its partition and processor at or after its wake-up time, is not elected before, and is runnable then, with its budget unchanged |
| `Releases.ReleasedInTime` | kernel/core/sched.c:339-352 | the same for a thread that waits for its next activation, with its whole capacity and the next release point one period later |
| `ProcessorBudget.AccountStep` | kernel/core/sched.c:285-433 | one election keeps the account: elections so far + what budget and state still allow <= activations * capacity + elections that were not charged or took a thread that was not runnable |
| `ProcessorBudget.BetweenAccounts` | kernel/core/sched.c:1281-1331 | whatever happens between elections, only a thread switched to without an election, wake-ups without budget, restarts and earlier release points add to the account, each by what it gives |
| `ProcessorBudget.BudgetBound` | kernel/core/sched.c:285-436 | in every run, whatever happens between elections, a thread created at t0 whose period is never below P nor its capacity above C has been elected at most C * (1 + (now - t0 + Advanced) / P) + Uncharged + Skipped + Forced + Woken + Refilled times: time by which release points were moved forward, elections that the next one charged nobody for, after which something else ran by the next one, or of a thread that was not runnable, wake-ups without budget, and budget given back by restarts |
| `ProcessorBudget.ExceedsByWakeUp` | kernel/core/sched.c:1281-1283 | a run beyond the plain bound: the thread is unlocked after its budget has ended |
| `ProcessorBudget.ExceedsByUnchargedElection` | kernel/core/sched.c:359-373 | a run beyond it: an election for a partition that is being initialized charges nobody |
| `ProcessorBudget.ExceedsByRestart` | kernel/core/thread.c:279-287 | a run beyond it: the thread is restarted and unlocked |
| `ProcessorBudget.ExceedsByEarlyRelease` | kernel/core/thread.c:335-341 | a run beyond it: the start of the thread is set anew |
| `ProcessorBudget.ExceedsByErrorThread` | kernel/core/sched.c:1321-1332 | a run beyond it: the error thread is switched to without an election, and the next election charges nobody |
| `BudgetAndLocks.StaysWaitingIff` | kernel/core/sched.c:317-431 | an election before the deadline, if there is one, leaves a thread that waits for a lock waiting if and only if it does not charge it its last tick |
| `BudgetAndLocks.StaysWaitingThroughoutIff` | kernel/core/sched.c:285-436 | over a whole run of elections, a thread that has begun to wait for a lock, with or without timeout, goes on waiting until its deadline if and only if the election that it calls itself does not use up its budget |
| `BudgetAndLocks.WokenIffExhausted` | kernel/core/sched.c:317-352 | it is made runnable by a later election of its partition before its deadline if and only if its budget ended when it blocked |
| `BudgetAndLocks.BudgetBreaksLock` | kernel/core/lockobj.c:265-285 | in a whole run of elections, a thread that waits for a lock and has been handed nothing is elected before its deadline only if its budget ended when it blocked; the lock then returns OK without a grant, and there are two holders |
| `BudgetAndLocks.BudgetDoesBreakLock` | kernel/core/lockobj.c:265-285 | runs in which that happens, with and without timeout |

## Left out

- Context switches, inter-processor interrupts, the rendezvous of processors, address spaces, ELF loading, system call checks, drivers: assembly or hardware.
- Sampling ports, blackboards and the blocking send and receive services, `pok_port_transfer`: thin layers over what is modelled or over copies of fixed size.
- `pok_port_available_size`: its branches do not compute the room left; the model states room as size less consumed bytes.
- `activate_waiting_threads` and the global priority scheduler: the loops share their index and the 8-bit sum of priorities wraps.
- `pok_sched_part_static`, `pok_sched_part_pps` and `pok_sched_part_rr`: the same scans as those modelled, with easier results.
- Flushing with a period of its own or at the end of each window, instead of at the major frame.
- `pok_thread_resume`, restart and suspension, and changes of priority while a thread is queued.
- `libpok/core/allocator.c`: its merging step passes an index that the preceding deletion has shifted, so its runs keep no invariant.
- The mathematical functions that approximate by polynomials: their error bounds are real analysis.
- The ARINC 653 and OSEK wrappers, the examples, and the code generators.
- Overflow of the 64-bit tick counter and of the times computed from it.
- RoundRobinFairness.Fairness: eligibility, weights and the sign of the remaining capacity are taken to stay as they are over the window, which is what a fixed set of always-eligible threads means.
- EarliestDeadline.TwoLevelsAreFlatIff: a snapshot after the activation of threads.
- EarliestDeadline.OneProcessorIsFlatIff: the case of one processor, in which the condition does not need the deadlines.
- FeedbackSimulator.Simulator.constructor: burst times are natural numbers, with at least one queue and an interval of at least 1, as the script presupposes.
- RateMonotonic.Partition.Create: takes the finished thread record; modes, stacks and contexts are not modelled.
- ProcessorBudget.BudgetBound: the policy is taken to leave state and budget of the threads alone, as all the modelled ones do.
- PriorityRoundRobin.ElectPwrr: the idle entry is taken to have priority 0 and no slice, as initialisation leaves it.
- PriorityRotation.RotationIff: eligibility, priorities, weights and the sign of the remaining capacity are taken to stay as they are over the run.
- BudgetAndLocks.StaysWaitingThroughoutIff: the run is one in which nobody unlocks the thread between elections, and which runs it only if it elects it, and elects it only if it is runnable.
- PriorityQuantum.ExactShares: the runs are those of PriorityRotation.RotationIff, from the beginning of a turn, with `prev` not idle or the first thread current; if neither holds, PriorityQuantum.WholeTurn gives the turn after which one does.
- Releases.WokenInTime: the runs are those of BudgetAndLocks.StaysWaitingThroughoutIff.

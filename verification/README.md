# A verified model of the sensing repository's algorithmic core

This project models, in Dafny, the parts of the repository that have an algorithm in them, and proves what
those parts are for. `dafny verify dfyconfig.toml` checks all of it.

| file | what it models |
|---|---|
| `Words.dfy`, `TagFamily.dfy` | AprilTag payloads: bit counting, rotation of the bit grid, nearest-code decoding |
| `UnionFind.dfy` | union-find by size with path compression |
| `Edge.dfy` | clustering of pixels by gradient angle and magnitude, with angle intervals on the circle |
| `Gridder.dfy` | the two-dimensional bucket grid and its lazy iterator |
| `Quad.dfy` | the depth-first search for loops of four segments over one shared path |
| `TagDetector.dfy` | steps five to seven of the detector: oriented segments, child lists from the grid, quads |
| `Slip.dfy` | SLIPstream framing: byte stuffing after RFC 1055, a start byte, a length and a 7-bit checksum |
| `Chains.dfy`, `Tasks.dfy` | linked lists threaded through an array; task control blocks and the Nano-RK ready queue |
| `Scheduling.dfy`, `Kernel.dfy` | one run of the Nano-RK scheduler, waits, activation and signals over table and queue |
| `Periodic.dfy`, `Events.dfy`, `Waits.dfy` | whole runs of tasks that wait for periods, ticks and signals |
| `Budget.dfy`, `Timer.dfy` | the processor time a task gets between releases; why the timer is set as it is |
| `Packets.dfy`, `TxBuffers.dfy` | the transmit buffers: one pool, an active and a free list |
| `Flooding.dfy` | the receive dispatch of a node, floods and routes through a network of such nodes |
| `Neighbours.dfy` | the neighbour table with ageing |
| `Reserve.dfy` | the kernel's rate reserves |
| `Arithmetic.dfy` | truncation, and quotients and remainders by a variable divisor |

Objects that the program changes in place are classes over arrays (`UnionFindSimple`, `Gridder`, `Iterator`,
`QuadList`, `Server`, `ReadyQueue`, `Kernel`, `TxBufferManager`, `Node`, `NeighborList`, `ReserveTable`,
`PopCountTable`, `TagFamily`). Each method is tied by its contract to a function on values, and the theorems
about whole runs are about those functions. Pointers are array indices with -1 for NULL. Machine words are
natural numbers below 2^64 with recursive bit operations; signed bytes are a subset type and wrap; floats are
reals, and pi is the exact rational value of `(float)M_PI`, 13176795/4194304, as in the code. A mask of
signals is the set of its bits. Clock and timer readings are parameters.

## Where the code does not do what its documentation or a reader expects

Each of these is a lemma with the exact condition, and where the failing case is not obvious a lemma with an input.

- The reported Hamming distance is not always the number of flipped bits, even within the recovery bound: it
  is if and only if every orientation of the code equals it or is at least 2e away (`ExactFlipsIff`,
  `FlipsUnderreported`).
- The scheduler can program a wakeup of 0, in one case only: idle, power-down on, a sleep time of exactly 250
  and the earliest wakeup in exactly 500 ticks (`NextWakeBounds`, `WakeupCanBeZero`).
- The comment in `nrk_scheduler.c` lines 202-203 says the period is kept consistent. A READY task keeps its
  phase over v ticks if and only if no boundary is crossed, or v is at least a period and happens to fall on
  the doubled phase (`PhaseKeptIff`, `PhaseLost`).
- A signal sent between the marking of `nrk_event_wait` and the swap-out is lost until the next period
  boundary, and leaves a task in the ready queue that is not READY (`EarlySignalIsLost`, `SignalKeepsOkIff`,
  `CaughtSignalBreaks`).
- A task whose reserve runs out in the run that swaps it out of `nrk_event_wait` is READY again at once, with
  its whole mask as the result, unless the mask has the wakeup signal (`SwapOutWaits`).
- `nrk_wait_ticks` adds the ticks to the timer in 16 bits: the wait is exact if and only if the sum does not
  overflow and is not over before the turn is; a sum that is 0 in 16 bits waits for the period boundary
  (`WokenExactlyIff`).
- A second activation of a suspended task whose wakeup is due makes it READY without undoing its wait
  (`RestartOkIff`, `RestartBreaks`), and a first one accepts a task without a period, which the scheduler would
  divide by (`ActivateOkIff`).
- With a negative range the iterator of the grid still visits the first column of its rectangle, or only its
  first cell when the rows are swapped (`AgreesWithScan`).
- A HELLO message that carries the broadcast address breaks the neighbour count exactly when the table is
  full and a neighbour times out in the same call (`ReportKeepsValidIff`, `BroadcastBreaks`).
- A reserve with a negative `set_access` grants nothing, so the rate bound uses max(set_access, 0)
  (`RateBound`); `nrk_reserve_get` truncates the count to eight bits (`ReserveTable.Get`).

## Model

| member | source | states |
|---|---|---|
| TagFamily.Rotate90 | data_collection/driver_apriltags/src/TagFamily.cc:45-59 | the result is the grid word whose bits are those of the input moved a quarter turn, for every 64-bit word and every grid of at most 64 bits |
| TagFamily.BitTurned | data_collection/driver_apriltags/AprilTags/TagFamily.h:38-46 | bit p of the turned word is the bit of the original that the picture in the header puts there; bits outside the grid vanish |
| TagFamily.SourcePermutes | data_collection/driver_apriltags/AprilTags/TagFamily.h:38-46 | a quarter turn permutes the d*d positions, and four of them bring every position back |
| TagFamily.FourTurns | data_collection/driver_apriltags/src/TagFamily.cc:45-59 | turning a grid word four times gives it back |
| TagFamily.TurnedCount | data_collection/driver_apriltags/src/TagFamily.cc:45-59 | turning keeps the number of set bits |
| TagFamily.TurnedXor | data_collection/driver_apriltags/src/TagFamily.cc:45-63 | turning distributes over exclusive or |
| TagFamily.RotationIsIsometry | data_collection/driver_apriltags/src/TagFamily.cc:45-63 | any number of turns preserves the Hamming distance of grid words |
| TagFamily.HammingCountsDifferences | data_collection/driver_apriltags/src/TagFamily.cc:61-63 | the population count of the exclusive or is the number of positions in which the words differ |
| TagFamily.HammingSymmetric | data_collection/driver_apriltags/src/TagFamily.cc:61-63 | the distance is symmetric |
| TagFamily.HammingTriangle | data_collection/driver_apriltags/src/TagFamily.cc:61-63 | the distance obeys the triangle inequality |
| TagFamily.SameWordsAtZero | data_collection/driver_apriltags/src/TagFamily.cc:61-63 | the distance is zero exactly between equal words |
| TagFamily.PopCountReal | data_collection/driver_apriltags/src/TagFamily.cc:65-72 | clearing the lowest bit until none is left counts the set bits of every 64-bit word |
| TagFamily.PopCountTable.constructor | data_collection/driver_apriltags/AprilTags/TagFamily.h:94-101 | the table holds the bit count of every index below 4096 |
| TagFamily.PopCountTable.PopCount | data_collection/driver_apriltags/src/TagFamily.cc:74-81 | the table-driven count is the number of set bits of every 64-bit word, so it agrees with PopCountReal |
| TagFamily.PopCountTable.HammingDistance | data_collection/driver_apriltags/src/TagFamily.cc:61-63 | the number of differing bit positions |
| Words.CountSplits12 | data_collection/driver_apriltags/src/TagFamily.cc:74-81 | a word has as many set bits as its low twelve bits and the rest together |
| Words.ClearLowest | data_collection/driver_apriltags/src/TagFamily.cc:65-72 | w & (w-1) has one set bit fewer than w |
| Words.CountIsOnes | data_collection/driver_apriltags/src/TagFamily.cc:65-81 | the recursive count is the size of the set of set positions |
| TagFamily.TagFamily.constructor | data_collection/driver_apriltags/src/TagFamily.cc:28-35 | the grid is the largest square with no more than the given number of bits, fit for a word up to 80 bits, and a new family recovers one bit error |
| TagFamily.TagFamily.SetErrorRecoveryBits | data_collection/driver_apriltags/src/TagFamily.cc:37-39 | sets the recovery bound and nothing else |
| TagFamily.TagFamily.SetErrorRecoveryFraction | data_collection/driver_apriltags/src/TagFamily.cc:41-43 | sets the bound to the truncated fraction of half the minimum distance less one |
| TagFamily.RecoveryBitsBound | data_collection/driver_apriltags/AprilTags/TagFamily.h:72-85 | no fraction between 0 and 1 asks for more errors than a family of minimum distance m can correct, and fraction 1 asks for all of them |
| TagFamily.NegativeRecovery | data_collection/driver_apriltags/src/TagFamily.cc:41-43 | a family with a minimum distance below one gets no bits to recover: the half and the fraction are both truncated towards zero |
| TagFamily.TagFamily.Decode | data_collection/driver_apriltags/src/TagFamily.cc:83-112 | reports the closest code and rotation, the first of the closest in (id, rotation) order, its distance, and good exactly when that is within the recovery bound; id -1 for an empty family. If distinct codes are 2e+1 apart under every rotation, e being the recovery bound, then any code seen in any orientation with at most e flipped bits is reported with its own id, as good, at no more than the flips |
| TagFamily.BestStep | data_collection/driver_apriltags/src/TagFamily.cc:95-105 | looking at one more candidate with a strict comparison keeps the first of the closest |
| TagFamily.NearestIsFirst | data_collection/driver_apriltags/src/TagFamily.cc:95-105 | of equally close candidates the one with the lowest id is reported, in the rotation tried first |
| TagFamily.ObservedDistance | data_collection/driver_apriltags/src/TagFamily.cc:83-112 | a turned, corrupted observation is as far from any code as the code it came from, up to the flipped bits |
| TagFamily.UndoneDistance | data_collection/driver_apriltags/src/TagFamily.cc:83-112 | turning back what was applied leaves exactly the flipped bits |
| TagFamily.UniqueDecoding | data_collection/driver_apriltags/AprilTags/TagFamily.h:72-85 | the reason: with codes 2e+1 apart under every rotation, whatever is nearest to an observation with at most e flipped bits is the code observed |
| TagFamily.RotationRecovered | data_collection/driver_apriltags/AprilTags/TagFamily.h:72-85 | if the code is also 2e+1 from its own rotations, the reported rotation undoes the applied one and the flip count is exact |
| TagFamily.ExactFlipsIff | data_collection/driver_apriltags/AprilTags/TagFamily.h:72-85 | the reported distance equals the number of flipped bits for all decodable observations of a code if and only if each of its orientations is equal to it or at least 2e away; the promise of an exact count fails otherwise |
| TagFamily.CloseOrientationsUnderreport | data_collection/driver_apriltags/AprilTags/TagFamily.h:72-85 | the failing direction: two orientations closer than 2e make some observation report fewer flips than were made |
| TagFamily.FlipsUnderreported | data_collection/driver_apriltags/AprilTags/TagFamily.h:72-85 | an input for it: a family of one code and a bound of two bits, and an observation with two flipped bits reported with none |
| UnionFind.UnionFindSimple.constructor | data_collection/driver_apriltags/src/UnionFindSimple.cc:46-52 | every node starts as its own representative with no connections |
| UnionFind.UnionFindSimple.GetRepresentative | data_collection/driver_apriltags/src/UnionFindSimple.cc:6-18 | returns the representative, ends, points every node on the way straight at it, and changes no other node, no class and no size |
| UnionFind.UnionFindSimple.GetSetSize | data_collection/driver_apriltags/src/Edge.cc:81-82 | the recorded size is the cardinality of the class |
| UnionFind.UnionFindSimple.ConnectNodes | data_collection/driver_apriltags/src/UnionFindSimple.cc:25-44 | joins exactly the two classes under the representative of the strictly larger, else the second; afterwards two nodes share a representative iff they are in the closure of all connections so far |
| UnionFind.UnionFindSimple.Attach | data_collection/driver_apriltags/src/UnionFindSimple.cc:35-43 | the loser hangs under the winner, which takes over its size; no other entry changes |
| UnionFind.Compressed | data_collection/driver_apriltags/src/UnionFindSimple.cc:14-15 | path compression changes no class and keeps the forest acyclic and its sizes right |
| UnionFind.AttachedForest | data_collection/driver_apriltags/src/UnionFindSimple.cc:35-43 | hanging one root under the other keeps every parent chain acyclic and leads it to the joined representative |
| UnionFind.AttachedSized | data_collection/driver_apriltags/src/UnionFindSimple.cc:35-43 | the new root records the size of the joined class, and 2^rank stays within it |
| UnionFind.DepthIsLogarithmic | data_collection/driver_apriltags/src/UnionFindSimple.cc:6-44 | two to the length of any parent chain is at most the size of its class |
| Partition.JoinedNames | data_collection/driver_apriltags/src/UnionFindSimple.cc:25-44 | joining two classes names the equivalence closure of the links with one more link |
| Partition.JoinedClass | data_collection/driver_apriltags/src/UnionFindSimple.cc:35-43 | the size of every class after a join |
| Partition.JoinedAt | data_collection/driver_apriltags/src/UnionFindSimple.cc:35-43 | the name of every node after a join: the strictly larger class keeps its name, and of equal classes that of the second node |
| Partition.LinkedIsEquivalence | data_collection/driver_apriltags/src/UnionFindSimple.cc:25-44 | being joined by connections is an equivalence, so the classes that the representatives name exist |
| Partition.ConstantAlongPath | data_collection/driver_apriltags/src/UnionFindSimple.cc:25-44 | nodes linked by any path carry the same label |
| MathUtil.Mod2piWraps | data_collection/driver_apriltags/AprilTags/MathUtil.h:29-38 | the result differs from the argument by whole turns and lies within half a turn of zero |
| MathUtil.Mod2piNearWraps | data_collection/driver_apriltags/AprilTags/MathUtil.h:40-41 | the result differs from v by whole turns and lies within half a turn of ref |
| Edges.MergePair | data_collection/driver_apriltags/src/Edge.cc:81-115 | merges two clusters exactly when they are alike, and then stores the united ranges at the surviving representative; nothing else changes |
| Edges.StoreMerged | data_collection/driver_apriltags/src/Edge.cc:104-114 | the classes are joined and the four ranges stored at the survivor, and nowhere else |
| Edges.MergeOne | data_collection/driver_apriltags/src/Edge.cc:72-115 | one edge does what the specification of an edge says, including nothing for pixels already together |
| Edges.MergeEdges | data_collection/driver_apriltags/src/Edge.cc:69-117 | the union-find and the four arrays end as the fold of all edges over their initial contents |
| Edges.UnionCovers | data_collection/driver_apriltags/src/Edge.cc:90-98 | an angle covered up to whole turns by either range is covered by the shifted union, clamped or not |
| Edges.MergedFaithful | data_collection/driver_apriltags/src/Edge.cc:100-114 | merging keeps: every pixel angle covered up to turns, range length between 0 and one turn, magnitude ranges exactly those of the pixels |
| Edges.MergeAllFaithful | data_collection/driver_apriltags/src/Edge.cc:69-117 | the same after any run of mergeEdges |
| Edges.SingletonsFaithful | data_collection/driver_apriltags/src/Edge.cc:69-117 | the same before the first edge, each pixel a cluster with its own angle and magnitude |
| Edges.ClustersAreConnected | data_collection/driver_apriltags/src/Edge.cc:69-117 | pixels that end in one cluster are joined by a chain of the given edges |
| Edges.JoinsExactly | data_collection/driver_apriltags/src/Edge.cc:81-106 | two clusters are joined by an edge if and only if neither the united angle range nor the united magnitude range exceeds the smaller of the two ranges by more than 100 or 1200 over the number of pixels, whichever nearest turn is taken |
| Edges.ClusterSpread | data_collection/driver_apriltags/src/Edge.cc:69-117 | after any run of edges from single pixels the pixels of a cluster of n differ by at most 1200 * (1 - 1/n) in magnitude, and their angles lie in a range of at most 100 * (1 - 1/n) |
| Edges.SinglesJoinIff | data_collection/driver_apriltags/src/Edge.cc:81-106 | an edge between two pixels that are clusters by themselves joins them if and only if their magnitudes differ by at most 600 |
| Slip.SlipTx | data_collection/driver_accelerometers/slipstream_server.c:379-432 | puts the frame of the payload on the line: END, START, length, stuffed payload, 7-bit checksum, END; nothing for more than 128 bytes |
| Slip.SendByte | data_collection/driver_accelerometers/slipstream_server.c:401-420 | a byte goes out stuffed and is added to the checksum in eight bits |
| Slip.Server.Read | data_collection/driver_accelerometers/slipstream_server.c:198-200 | takes one byte and moves the receiver one step |
| Slip.Server.EndOfFrame | data_collection/driver_accelerometers/slipstream_server.c:205-238 | hands over the payload exactly when length and checksum agree |
| Slip.Server.SlipRx | data_collection/driver_accelerometers/slipstream_server.c:188-271 | follows the receiver automaton to the END of the frame or the end of the line |
| Slip.Server.Serve | data_collection/driver_accelerometers/slipstream_server.c:161-178 | hands over exactly what the receiver automaton delivers over the whole line |
| Slip.NoInnerEnd | data_collection/driver_accelerometers/slipstream_server.c:393-430 | between its first and last byte no length, stuffed byte or checksum of a frame reads as END |
| Slip.CollectsStuffed | data_collection/driver_accelerometers/slipstream_server.c:199-264 | stuffed bytes are stored unstuffed, and nothing is delivered meanwhile |
| Slip.FrameAcceptedIff | data_collection/driver_accelerometers/slipstream_server.c:188-271 | whatever bytes are framed, they are handed over if and only if the first says how many there are between it and the last, and the last is the low seven bits of the sum of those |
| Slip.CorruptByteRejected | data_collection/driver_accelerometers/slipstream_server.c:218-233 | a payload with one byte changed is rejected unless the change is a multiple of 128 |
| Slip.WrongLengthRejected | data_collection/driver_accelerometers/slipstream_server.c:207-212 | a frame with a wrong length byte is rejected |
| Slip.CollectsEscaped | data_collection/driver_accelerometers/slipstream_server.c:243-264 | an ESC in front of a byte that needs none changes nothing, even in front of END |
| Slip.StuffedOnTheWire | data_collection/driver_accelerometers/slipstream_server.c:379-432 | the bytes on the line for a payload of END and ESC |
| Slip.FrameDelivered | data_collection/driver_accelerometers/slipstream_server.c:188-271 | a frame that meets no dangling ESC is delivered, after whatever its first END flushes, and leaves the receiver idle |
| Slip.FrameLost | data_collection/driver_accelerometers/slipstream_server.c:243-264 | a frame that meets a dangling ESC is swallowed, with at most one longer delivery in its place |
| Slip.RoundTrip | data_collection/driver_accelerometers/slipstream_server.c:188-432 | an idle receiver fed the concatenated frames of any payloads delivers exactly those of at most 128 bytes, in order, and is idle again |
| Slip.Resynchronises | data_collection/driver_accelerometers/slipstream_server.c:161-271 | after any bytes at all the frames are delivered in order from the second on, and from the first too unless the garbage ends in a dangling ESC; what a flush adds is exactly stated |
| ReadyQueues.ReadyQueue.constructor | firefly/src/kernel/source/nrk.c:177-187 | an empty queue with all NRK_MAX_TASKS+1 nodes free |
| ReadyQueues.ReadyQueue.HighestReady | firefly/src/kernel/source/nrk_task.c:41-44 | the task at the head of the queue |
| ReadyQueues.ReadyQueue.FindPlace | firefly/src/kernel/source/nrk_task.c:73-103 | finds the first task that the new one goes in front of |
| ReadyQueues.ReadyQueue.LinkBefore | firefly/src/kernel/source/nrk_task.c:105-146 | the task is inserted at its place, both link directions agree, and queue and free list still share out all nodes |
| ReadyQueues.ReadyQueue.Add | firefly/src/kernel/source/nrk_task.c:60-147 | the queue becomes the old one with the task at its place; only with no free node is it dropped |
| ReadyQueues.ReadyQueue.FindTask | firefly/src/kernel/source/nrk_task.c:185-198 | finds the first node of the task |
| ReadyQueues.ReadyQueue.Unlink | firefly/src/kernel/source/nrk_task.c:187-205 | the node leaves the queue and the rest stays linked both ways |
| ReadyQueues.ReadyQueue.Release | firefly/src/kernel/source/nrk_task.c:209-221 | the node goes to the head of the free list |
| ReadyQueues.ReadyQueue.Remove | firefly/src/kernel/source/nrk_task.c:150-222 | the queue becomes the old one without the task; unchanged if it was not queued |
| Chains.LinkedForward | firefly/src/kernel/source/nrk_task.c:105-146 | linking a fresh node at any place of a chain |
| Chains.UnlinkedForward | firefly/src/kernel/source/nrk_task.c:187-205 | taking any node out of a chain |
| Scheduling.EnqueueOk | firefly/src/kernel/source/nrk_task.c:60-147 | adding a task that becomes READY keeps the queue holding each READY task once, idle last, in priority order, and never reaches the insertion at the end |
| Scheduling.DequeueOk | firefly/src/kernel/source/nrk_task.c:150-222 | removing a task that is no longer READY keeps it too |
| Scheduling.EnqueuedBehindEquals | firefly/src/kernel/source/nrk_task.c:79-94 | without elevated priorities a task goes behind all of its own or higher priority and in front of all lower |
| Scheduling.EnqueuedByCeiling | firefly/src/kernel/source/nrk_task.c:79-94 | with elevated priorities a task passes those behind its own ceiling, and those whose ceiling is below it |
| Scheduling.EnqueueUndone | firefly/src/kernel/source/nrk_task.c:60-222 | adding a task and removing it again disturbs nobody else |
| Scheduling.RunKeepsTurn | firefly/src/kernel/source/nrk_scheduler.c:131-377 | over a run of the scheduler, of two queued tasks that are not running the one ahead stays ahead, so equals keep the order in which they became READY |
| Kernels.Kernel.constructor | firefly/src/kernel/source/nrk.c:170-206 | an empty table with the idle task activated, queued and running, in a consistent state |
| Kernels.Kernel.SwapOutCurrent | firefly/src/kernel/source/nrk_scheduler.c:131-152 | a waiting task becomes suspended as its kind of wait says and leaves the queue |
| Kernels.Kernel.ChargeCurrent | firefly/src/kernel/source/nrk_scheduler.c:159-183 | elapsed ticks are taken off the reserve; a task that uses it up is suspended and leaves the queue |
| Kernels.Kernel.AgeTask | firefly/src/kernel/source/nrk_scheduler.c:192-215 | the clocks of one task run down to, never past, zero |
| Kernels.Kernel.WakeTask | firefly/src/kernel/source/nrk_scheduler.c:219-252 | a suspended task that is due becomes ready or starts on the periods it skips |
| Kernels.Kernel.TickTask | firefly/src/kernel/source/nrk_scheduler.c:189-261 | one round of the loop: task, queue and earliest wakeup after it |
| Kernels.Kernel.TickTasks | firefly/src/kernel/source/nrk_scheduler.c:189-262 | the whole loop over the task table |
| Kernels.Kernel.PickNextWake | firefly/src/kernel/source/nrk_scheduler.c:276-344 | the next wakeup for the task about to run, in both power-down configurations |
| Kernels.Kernel.Requeue | firefly/src/kernel/source/nrk_scheduler.c:131-262 | table, queue and earliest wakeup once the elapsed ticks are accounted for |
| Kernels.Kernel.PickTask | firefly/src/kernel/source/nrk_scheduler.c:131-347 | keeps the kernel invariant; the new state and wakeup are those of the specified run |
| Kernels.Kernel.ProgramTimer | firefly/src/kernel/source/nrk_scheduler.c:357-377 | what the timer is set to, with the overrun fallback |
| Kernels.Kernel.Scheduler | firefly/src/kernel/source/nrk_scheduler.c:131-377 | one run of the scheduler: new state, next wakeup and invariant |
| Kernels.Kernel.Activate | firefly/src/kernel/source/nrk_task.c:228-274 | a new task enters the table, and the queue at its place if it has no offset; the invariant holds exactly when it has a priority and a period |
| Kernels.ActivateOkIff | firefly/src/kernel/source/nrk_task.c:228-274 | why: a task without a priority or without a period breaks the table |
| Kernels.Kernel.Reactivate | firefly/src/kernel/source/nrk_task.c:243-274 | a second activation fails unless the task is suspended, and makes it READY if its wakeup is due; the invariant holds exactly when nothing else was pending for it |
| Kernels.RestartOkIff | firefly/src/kernel/source/nrk_task.c:243-274 | the exact condition: a reserve that is not used up, no event awaited and no periods left to skip |
| Kernels.RestartBreaks | firefly/src/kernel/source/nrk_task.c:243-274 | a waiter that has just been signalled fails it |
| Kernels.Kernel.ExpireSoon | firefly/src/kernel/source/nrk_task.c:299-307 | the timer is brought forward by two ticks only when there is still time |
| Kernels.Kernel.WaitUntilNextNPeriods | firefly/src/kernel/source/nrk_task.c:314-342 | marks the running task as waiting for n periods, 0 counting as 1, and brings the timer forward |
| Kernels.Kernel.WaitTicks | firefly/src/kernel/source/nrk_task.c:352-372 | marks the running task as sleeping, the wakeup taken in 16 bits, and says when the scheduler runs next |
| Kernels.Kernel.Terminate | firefly/src/kernel/source/nrk_task.c:278-286 | the task is finished and out of the queue |
| Scheduling.Run | firefly/src/kernel/source/nrk_scheduler.c:131-377 | the specified run keeps the kernel invariant and leaves no task flagged as waiting |
| Scheduling.HeadIsReady | firefly/src/kernel/source/nrk_task.c:41-44 | the head of the queue is a READY task |
| Scheduling.HeadIsHighest | firefly/src/kernel/source/nrk_task.c:41-44 | without elevated priorities no READY task has a higher priority than the head of the queue |
| Scheduling.RunPicksHighest | firefly/src/kernel/source/nrk_scheduler.c:268-270 | so a run of the scheduler leaves a READY task of the highest priority running |
| Scheduling.RunStepsTask | firefly/src/kernel/source/nrk_scheduler.c:131-262 | what a run does to one task depends on that task alone |
| Scheduling.TickAllAt | firefly/src/kernel/source/nrk_scheduler.c:189-262 | the loop ticks every task exactly once |
| Scheduling.NextWakeBounds | firefly/src/kernel/source/nrk_scheduler.c:276-344 | the next wakeup is never beyond 250, the earliest wakeup or the remaining reserve; it is 0 in exactly one case: idle, power-down, sleep time 250 and a wakeup in 500 ticks |
| Scheduling.WakeupCanBeZero | firefly/src/kernel/source/nrk_scheduler.c:296-330 | a consistent kernel state that is in this case, whose run programs a wakeup of 0 |
| Scheduling.NoOversleep | firefly/src/kernel/source/nrk_scheduler.c:254-344 | the wakeup programmed is no later than that of any task still asleep or the end of the running task's reserve, and positive for every sleep time below 250 |
| Timers.NextWakeIsNeeded | firefly/src/kernel/source/nrk_scheduler.c:274-344 | nor is it earlier than needed: unless the processor may sleep it is that of the next task, the end of the reserve of the running task, or 250 |
| Timers.SleepIsNeeded | firefly/src/kernel/source/nrk_scheduler.c:289-322 | a processor that sleeps is left its time to wake up before the next task, as far as there is time for that, and no more |
| Timers.WakeupIsNeeded | firefly/src/kernel/source/nrk_scheduler.c:254-344 | in a run of the scheduler the wakeup programmed is that of a task that was asleep, the end of the running task's reserve, or 250 |
| Periodic.SleeperStep | firefly/src/kernel/source/nrk_scheduler.c:195-250 | a sleeping task stays due at the same time and is released exactly then |
| Periodic.WaiterStep | firefly/src/kernel/source/nrk_task.c:288-342 | a task that waits for p periods is released at the p-th boundary from now or is due then |
| Periodic.ActivatedOnSchedule | firefly/src/kernel/source/nrk.c:294-300 | an activated task is on schedule with its offset |
| Periodic.TaskReleasesAreExact | firefly/src/kernel/source/nrk_scheduler.c:131-250 | over any run of admissible quanta a task stays on schedule and every release falls on offset + k*period |
| Periodic.NextReleaseIsExact | firefly/src/kernel/source/nrk_scheduler.c:131-250 | no boundary is skipped: a task that waits for p periods is next READY exactly at the p-th boundary from then |
| Periodic.KernelRunIsTaskRun | firefly/src/kernel/source/nrk_scheduler.c:131-377 | in a run of the whole kernel in which a task keeps up, that task sees only admissible quanta |
| Periodic.ReleasesAreExact | firefly/src/kernel/source/nrk_scheduler.c:131-377 | exact periodic release in the whole kernel, whatever the other tasks do |
| Periodic.KernelReleaseIsExact | firefly/src/kernel/source/nrk_scheduler.c:131-377 | the same in the whole kernel: the first READY time after a wait for p periods is its next boundary plus p-1 periods, whatever the other tasks do |
| Periodic.SleeperWakes | firefly/src/kernel/source/nrk_scheduler.c:195-250 | a sleeper is READY exactly when its wakeup has elapsed |
| Periodic.WaitTicksIsExact | firefly/src/kernel/source/nrk_task.c:352-372 | nrk_wait_ticks(n) in whole runs of the kernel: the task is READY exactly when its 16-bit wakeup sum says and not before, whatever the other tasks do; that is exactly n ticks after the call for n >= 2 when the sum fits |
| Periodic.WokenExactlyIff | firefly/src/kernel/source/nrk_task.c:352-372 | the wakeup is exact if and only if the sum does not overflow 16 bits and the turn ends in time, or, for a sum that is 0 in 16 bits, the period boundary or end of the turn happens to be there |
| Budgets.ReleaseFillsReserve | firefly/src/kernel/source/nrk_scheduler.c:219-252 | every release gives a task its whole reserve |
| Budgets.ActivationFillsReserve | firefly/src/kernel/source/nrk.c:294-300 | so does an activation without offset |
| Budgets.ReserveIsMetered | firefly/src/kernel/source/nrk_scheduler.c:159-183 | over any run of a task: from a release on, as long as it does not wait, it is charged exactly the ticks of the quanta in which it is current; it has its reserve less their sum, and it is suspended in exactly the quantum that brings the sum to the reserve or more |
| Budgets.HundredTicks | firefly/src/kernel/source/nrk_scheduler.c:159-252 | a task with 40 of 100 ticks left is released with 100, and suspended when it has run for 60 and 40 |
| Budgets.KernelMetersReserve | firefly/src/kernel/source/nrk_scheduler.c:131-377 | the same in runs of the whole kernel, in which moreover no turn outlasts the reserve: a released task gets exactly its reserve |
| Waits.WaitLasts | firefly/src/kernel/source/nrk_scheduler.c:132-158 | without a signal a task that waits with the wakeup signal in its mask returns it in exactly the quantum that brings it to its wakeup, and one that waits without goes on waiting |
| Waits.DozeBegins | firefly/src/kernel/source/nrk_task.c:352-372 | a task on schedule that waits for ticks before its next boundary keeps its period clock |
| Waits.TicksKeepSchedule | firefly/src/kernel/source/nrk_scheduler.c:195-250 | and released from that wait it is on schedule again |
| Waits.TerminatedForever | firefly/src/kernel/source/nrk_scheduler.c:131-250 | a task that has terminated never comes back and never is in the ready queue again, whatever runs, signals and calls follow |
| Waits.TaskIsSame | firefly/src/kernel/source/nrk_scheduler.c:131-250 | whatever happens in the kernel, runs of the scheduler and signals leave the priority, the registered signals, the period and the reserve of a task alone |
| Waits.WaitIsSame | firefly/src/kernel/source/nrk_task.c:288-372 | nor do the calls by which a task waits |
| Waits.ActivatedIs | firefly/src/kernel/source/nrk.c:294-300 | a new task has the priority, period and reserve asked for and has registered for no signal |
| Periodic.PhaseKeptIff | firefly/src/kernel/source/nrk_scheduler.c:201-213 | over v ticks without a wait a READY task keeps its phase if and only if no boundary is crossed, or v is at least a period and falls on the doubled phase; the comment at lines 202-203 promises it always |
| Periodic.PhaseLost | firefly/src/kernel/source/nrk_scheduler.c:201-213 | a READY task whose phase a late run changes |
| Kernels.Kernel.SignalCreate | firefly/src/kernel/source/nrk_events.c:40-54 | the lowest signal not in use, or an error when all 32 are |
| Kernels.Kernel.SignalRegister | firefly/src/kernel/source/nrk_events.c:112-123 | registers a created signal with the running task only |
| Kernels.Kernel.EventWait | firefly/src/kernel/source/nrk_events.c:196-216 | marks the running task as waiting for the mask if it has registered one of its signals, else returns at once |
| Kernels.Kernel.EventSignal | firefly/src/kernel/source/nrk_events.c:125-193 | every task that waits with the signal in its mask is to be released, nobody else changes, and the result says whether there was one; table and queue stay in order exactly unless the running task is caught between marking and swap-out |
| Events.SignalKeepsOkIff | firefly/src/kernel/source/nrk_events.c:138-171 | signalling changes no queue position and keeps table and ready queue consistent exactly unless it catches a task that is marked but still queued |
| Events.CaughtSignalBreaks | firefly/src/kernel/source/nrk_events.c:138-171 | a kernel state in which a signal catches the running task |
| Events.SwapOutWaits | firefly/src/kernel/source/nrk_scheduler.c:131-183 | the swap-out turns a marked task into a waiting one, or returns the wakeup signal at once when its own wakeup is due; only when the reserve runs out in the same run and the mask has no wakeup signal, the task is READY at once without a signal |
| Events.SignalWakesExactly | firefly/src/kernel/source/nrk_events.c:140-171 | a waiting task is made runnable by a signal of its mask and untouched by any other |
| Events.OthersUnaffected | firefly/src/kernel/source/nrk_events.c:140-171 | a task that does not wait is untouched |
| Events.EventStep | firefly/src/kernel/source/nrk_events.c:125-193 | signals and ticks keep a waiting task on its way or return it with a signal of its mask |
| Events.EventWaitReturnsItsSignal | firefly/src/kernel/source/nrk_events.c:196-216 | whatever signals are sent, a completed wait returns a signal of its mask |
| Events.SignalReleasesExactly | firefly/src/kernel/source/nrk_events.c:125-193 | in the whole kernel a signal makes READY in the next run, with itself as result, exactly the tasks that wait for it; every other task is as it would be without the signal |
| Events.WaitStarts | firefly/src/kernel/source/nrk_events.c:196-216 | in the whole kernel the run that swaps a marked task out leaves it waiting, or back with its wakeup signal |
| Events.PendingStep | firefly/src/kernel/source/nrk_events.c:125-216 | a signal, a run of the scheduler or anything another task does keeps a waiting task waiting or answers it |
| Events.KernelWaitIsAnswered | firefly/src/kernel/source/nrk_events.c:196-216 | over any run of the kernel nrk_event_wait returns only with a signal of its mask that was sent meanwhile, or the wakeup signal, and the task stays out of the queue until then |
| Events.EarlySignalIsLost | firefly/src/kernel/source/nrk_events.c:196-216 | a signal between the marking and the swap-out does not wake the task in that run, unless its period boundary is due in it |
| Gridders.Gridder.constructor | data_collection/driver_apriltags/AprilTags/Gridder.h:43-60 | an empty grid of whole cells that overshoots the given span by at most one cell, or has no cells if the corners are swapped |
| Gridders.Gridder.Add | data_collection/driver_apriltags/AprilTags/Gridder.h:70-81 | the object is the newest of its cell, or ignored off the grid; all other cells unchanged |
| Gridders.Gridder.Find | data_collection/driver_apriltags/AprilTags/Gridder.h:175 | a new iterator over the clamped rectangle, with everything still to come, for any range |
| Gridders.Iterator.constructor | data_collection/driver_apriltags/AprilTags/Gridder.h:143-166 | starts at the first cell of the clamped rectangle |
| Gridders.Iterator.HasNext | data_collection/driver_apriltags/AprilTags/Gridder.h:106-110 | true exactly when something is left, and what is left is unchanged, however often it is asked |
| Gridders.Iterator.Next | data_collection/driver_apriltags/AprilTags/Gridder.h:112-116 | takes the first of what is left |
| Gridders.Iterator.FindNext | data_collection/driver_apriltags/AprilTags/Gridder.h:119-140 | moves past the current object to the next one, over empty cells and row ends, and ends |
| Gridders.Iterator.NextCell | data_collection/driver_apriltags/AprilTags/Gridder.h:125-139 | finds the next cell that holds an object, or the end |
| Gridders.AgreesWithScan | data_collection/driver_apriltags/AprilTags/Gridder.h:106-140 | row by row an iterator yields exactly the objects that a full scan of the add calls finds in the cells it visits, each once; for a rectangle with swapped corners these are its first cell or its first column |
| Gridders.QuerySwept | data_collection/driver_apriltags/AprilTags/Gridder.h:143-166 | with a range that is not negative the cells visited are those of the query |
| Gridders.NearIsCovered | data_collection/driver_apriltags/AprilTags/Gridder.h:143-160 | an object on the grid within range of the query in both coordinates lies in the clamped rectangle |
| Gridders.NearIsYielded | data_collection/driver_apriltags/AprilTags/Gridder.h:106-166 | so it is among what the iterator yields |
| Gridders.CoveredIsNear | data_collection/driver_apriltags/AprilTags/Gridder.h:143-160 | and what a query on the grid visits is less than a cell out of range |
| Gridders.FindAll | data_collection/driver_apriltags/AprilTags/Gridder.h:106-175 | the loop around find ends and collects the scan of the cells visited, with every near object in it |
| Quads.Search | data_collection/driver_apriltags/src/Quad.cc:52-157 | appends the passing loops that continue the path, in order, and leaves the path up to the present depth as it was |
| Quads.SearchChildren | data_collection/driver_apriltags/src/Quad.cc:140-156 | the same over all children |
| Quads.SearchChild | data_collection/driver_apriltags/src/Quad.cc:141-155 | one child, skipped when its theta exceeds that of the first segment |
| Quads.FindQuads | data_collection/driver_apriltags/src/TagDetector.cc:391-397 | the quads are the examined loops, over all starts, that pass the geometric tests |
| Quads.LoopsAre | data_collection/driver_apriltags/src/Quad.cc:52-157 | the loops examined from a path are exactly its continuations by allowed steps that close |
| Quads.ExaminedExactly | data_collection/driver_apriltags/src/Quad.cc:140-156 | a walk is examined if and only if it is a closed walk of four steps in the children graph whose first segment has maximal theta |
| Quads.ExaminedOnce | data_collection/driver_apriltags/src/Quad.cc:145-149 | with duplicate-free child lists no loop is examined twice from the same start |
| Quads.ExaminedRotations | data_collection/driver_apriltags/src/Quad.cc:145-155 | a closed walk is examined from exactly those of its segments that have the largest theta |
| Quads.WalkIsQuad | data_collection/driver_apriltags/src/TagDetector.cc:356-384 | on handed child lists the four segments of a closed walk have four different thetas, so they are different |
| Quads.WalkTurnsOnce | data_collection/driver_apriltags/src/TagDetector.cc:362-364 | its four turns add up to exactly one whole turn to the right |
| Quads.RightTurnIff | data_collection/driver_apriltags/src/TagDetector.cc:362-364 | a right turn is one by less than half a turn, up to whole turns |
| Quads.ExaminedFromOneIff | data_collection/driver_apriltags/src/Quad.cc:143-155 | what handedness is for: on child lists that need not be handed, with distinct thetas, a closed walk is examined from one rotation only if and only if its largest segment comes up once or the walk goes there and back |
| Quads.QuadExaminedOnce | data_collection/driver_apriltags/src/Quad.cc:145-155 | on handed child lists every closed walk is examined from exactly one of its rotations, thetas distinct or not |
| Quads.ExaminedTwice | data_collection/driver_apriltags/src/TagDetector.cc:362-364 | what the test of step six prevents: child lists that are not handed, and a walk on them that is examined from two rotations |
| TagDetectors.OrientedIsDrawn | data_collection/driver_apriltags/src/TagDetector.cc:272-320 | whichever way the gradients vote, step five lets a segment run against its theta |
| TagDetectors.IntersectionIsOnBoth | data_collection/driver_apriltags/src/GLine2D.cc:27-52 | the intersection of lines that are not nearly parallel lies on both |
| TagDetectors.ParallelDoesNotFollow | data_collection/driver_apriltags/src/TagDetector.cc:366-373 | a segment whose direction differs from its parent by whole or half turns is not made its child |
| TagDetectors.FollowerTurnsRight | data_collection/driver_apriltags/src/TagDetector.cc:362-373 | what passes the tests of step six turns right from its parent by less than half a turn |
| TagDetectors.ImageIsCovered | data_collection/driver_apriltags/src/TagDetector.cc:342 | the grid of step six has cells of ten pixels and keeps every point of the image, edges included |
| TagDetectors.AroundAre | data_collection/driver_apriltags/src/TagDetector.cc:346-361 | the grid yields exactly the segments that begin in the cells around the end of the parent |
| TagDetectors.AroundDistinct | data_collection/driver_apriltags/src/TagDetector.cc:346-361 | each of them once |
| TagDetectors.ChildrenAre | data_collection/driver_apriltags/src/TagDetector.cc:352-386 | the children of a segment are exactly those of them that pass the tests |
| TagDetectors.NearFollowerIsChild | data_collection/driver_apriltags/src/TagDetector.cc:352-386 | no child is missed: a segment that begins within half a length of the end of its parent in both coordinates and passes the tests is a child |
| TagDetectors.MayFollowIff | data_collection/driver_apriltags/src/TagDetector.cc:352-382 | drawn segments pass the tests if and only if the child turns right by less than half a turn, and the lines, not nearly parallel, have a point in common, with a first coordinate other than -1, within the parent's length of the end of the parent and of the start of the child |
| TagDetectors.ChildrenTurn | data_collection/driver_apriltags/src/TagDetector.cc:352-386 | so the children of a segment are exactly those that begin in the cells visited and are like that |
| TagDetectors.ChildIsNear | data_collection/driver_apriltags/src/TagDetector.cc:352-361 | a child begins less than half the length of its parent and one cell from its end in either coordinate |
| TagDetectors.JoinedIsChild | data_collection/driver_apriltags/src/TagDetector.cc:352-386 | a segment that begins exactly at the end of another and turns right from it is its child |
| TagDetectors.GraphIsValid | data_collection/driver_apriltags/src/TagDetector.cc:352-386 | no child list names a segment twice |
| TagDetectors.GraphIsHanded | data_collection/driver_apriltags/src/TagDetector.cc:352-386 | the child lists of step six are handed, which the search relies on |
| TagDetectors.WalksExaminedOnce | data_collection/driver_apriltags/src/TagDetector.cc:339-397 | on them every closed walk has four different segments and is examined from exactly one rotation, once |
| TagDetectors.CornersAreExamined | data_collection/driver_apriltags/src/TagDetector.cc:339-397 | four segments joined corner to corner, each turning right, are a closed walk of the child lists and are examined from exactly one corner |
| TagDetectors.QuadsReportedOnce | data_collection/driver_apriltags/src/TagDetector.cc:339-397 | so no quad is reported twice, from whichever corner: exactly one rotation of a closed walk can be reported, and it is if it passes the geometric tests |
| TagDetectors.FillGrid | data_collection/driver_apriltags/src/TagDetector.cc:342-349 | the grid holds every segment by its first point |
| TagDetectors.FindChildren | data_collection/driver_apriltags/src/TagDetector.cc:352-386 | collects the child list of one parent from the iterator |
| TagDetectors.LinkChildren | data_collection/driver_apriltags/src/TagDetector.cc:339-387 | step six: the child lists of all segments |
| TagDetectors.DetectQuads | data_collection/driver_apriltags/src/TagDetector.cc:339-397 | steps six and seven: the quads are the passing walks that are examined on the child lists of step six |
| TxBuffers.TxBufferManager.constructor | firefly/src/net/networkstack/BufferManager.c:558-573 | all MAX_TX_QUEUE_SIZE buffers free, none waiting or held |
| TxBuffers.TxBufferManager.InsertTxAq | firefly/src/net/networkstack/BufferManager.c:1061-1117 | fails exactly when no buffer is free; else the packet waits behind its equals and betters |
| TxBuffers.TxBufferManager.FindSlot | firefly/src/net/networkstack/BufferManager.c:1085-1097 | finds the first waiting packet of strictly lower priority |
| TxBuffers.TxBufferManager.Store | firefly/src/net/networkstack/BufferManager.c:1098-1114 | fills the buffer and puts it at its place |
| TxBuffers.TxBufferManager.LinkActive | firefly/src/net/networkstack/BufferManager.c:1102-1114 | head, tail, links and count are right after an insertion anywhere |
| TxBuffers.TxBufferManager.RemoveTxAq | firefly/src/net/networkstack/BufferManager.c:1120-1140 | hands out the first waiting packet, or NULL exactly when there is none |
| TxBuffers.TxBufferManager.TakeActive | firefly/src/net/networkstack/BufferManager.c:1126-1138 | the head of the active list and its packet leave the list |
| TxBuffers.TxBufferManager.InsertTxFq | firefly/src/net/networkstack/BufferManager.c:1142-1159 | a held buffer becomes the last of the free list |
| TxBuffers.TxBufferManager.LinkFree | firefly/src/net/networkstack/BufferManager.c:1146-1156 | head, tail, links and count of the free list are right after it |
| TxBuffers.TxBufferManager.RemoveTxFq | firefly/src/net/networkstack/BufferManager.c:1162-1179 | takes the first free buffer, or NULL exactly when there is none |
| TxQueues.StepKeepsOrder | firefly/src/net/networkstack/BufferManager.c:1061-1179 | every operation keeps the queue in priority order, first come first served within one |
| TxQueues.LeaveInOrder | firefly/src/net/networkstack/BufferManager.c:1061-1179 | over any run of operations a packet leaves before another only if it was accepted first or has the higher priority; without insertions in between priorities descend |
| TxQueues.Conserved | firefly/src/net/networkstack/BufferManager.c:1061-1179 | over any run every accepted packet is removed once or still waits, and free, waiting and held buffers add up to the same number |
| NetworkLayer.Node.RouteAddr | firefly/src/net/networkstack/NetworkLayer.c:243-266 | the next hop of the first valid entry for the address, else broadcast |
| NetworkLayer.Node.RoutePacket | firefly/src/net/networkstack/NetworkLayer.c:268-286 | a packet goes on with one ttl less, from this node to its next hop, or has expired |
| NetworkLayer.Node.ProcessNwCtrlPkt | firefly/src/net/networkstack/NetworkLayer.c:441-561 | what becomes of a control packet, and of the routing table and gateway |
| NetworkLayer.Node.SetRoutingTable | firefly/src/net/networkstack/NetworkLayer.c:1247-1260 | installs the table and gateway of the message |
| NetworkLayer.Node.Receive | firefly/src/net/networkstack/NetworkLayer.c:758-822 | one turn of the receive loop: delivered, processed, sent on, dropped or halted, as the addresses say |
| NetworkLayer.Node.constructor | firefly/src/net/networkstack/NetworkLayer.c:1234-1245 | no route is known, so every packet is broadcast |
| Flooding.ForwardedLives | firefly/src/net/networkstack/NetworkLayer.c:268-286 | a copy that is sent on has one life less and one hop more, and some life left |
| Flooding.RunSpans | firefly/src/net/networkstack/NetworkLayer.c:268-286 | over any run hops and life of every copy in flight add up to the same number |
| Flooding.HopsAreBounded | firefly/src/net/networkstack/NetworkLayer.c:268-286 | a packet sent off with ttl MAX_NETWORK_DIAMETER always has ttl at least 1, and its hops and ttl add up to MAX_NETWORK_DIAMETER |
| Flooding.StepWeight | firefly/src/net/networkstack/NetworkLayer.c:758-822 | the exact balance of either potential over one transmission |
| Flooding.PotentialFalls | firefly/src/net/networkstack/NetworkLayer.c:758-822 | with at most D hearers the sum of (D+1)^ttl, and the tighter number of transmissions, fall with every transmission |
| Flooding.FloodingTerminates | firefly/src/net/networkstack/NetworkLayer.c:758-822 | each packet causes finitely many transmissions under any routing tables, even one that arrives with a corrupt ttl |
| Flooding.FloodTakesExactly | firefly/src/net/networkstack/NetworkLayer.c:758-822 | the tighter bound is exact: when all hearers send on, a run spends precisely one unit of it per transmission |
| Flooding.FloodExists | firefly/src/net/networkstack/NetworkLayer.c:758-822 | every application packet without a route has such a run in every mesh around its sender, in which each transmission is heard by all nodes but the one that sends, and it ends with nothing in flight |
| Flooding.FirstEntryDecides | firefly/src/net/networkstack/NetworkLayer.c:243-264 | the first table entry for an address decides, and without one the packet is broadcast |
| Flooding.TravelsRoute | firefly/src/net/networkstack/NetworkLayer.c:758-822 | delivery along a route: where the first entry of each node names the next, every node before the last sends the packet on to the next with one ttl less, unless it is its source or the time is up, and the last takes it: an application packet is delivered, a greeting or its configuration processed |
| Flooding.ReachesIff | firefly/src/net/networkstack/NetworkLayer.c:758-822 | the packet reaches the last node if and only if its ttl lasts and it does not pass its source on the way |
| Flooding.ThreeStations | firefly/src/net/networkstack/NetworkLayer.c:758-822 | a route over three nodes and what each of them does |
| Flooding.OnlyNextHopSendsOn | firefly/src/net/networkstack/NetworkLayer.c:766-782 | however many nodes hear a routed application packet, only the next hop sends it on |
| Flooding.RoutedIsLinear | firefly/src/net/networkstack/NetworkLayer.c:758-822 | so where there are routes a packet never multiplies, and takes at most one transmission per unit of ttl |
| Flooding.BroadcastStaysLocal | firefly/src/net/networkstack/NetworkLayer.c:762-764 | an application packet or a greeting to everyone is taken by all who hear it and sent on by none |
| Flooding.BroadcastSpreads | firefly/src/net/networkstack/NetworkLayer.c:471-556 | neighbour lists and configurations for everyone are broadcast on by every node but their source or the node configured |
| Flooding.UnknownIsLost | firefly/src/net/networkstack/NetworkLayer.c:817-821 | a packet of an unknown type is dropped by all |
| Reserves.ReserveTable.constructor | firefly/src/kernel/source/nrk_reserve.c:42-48 | no reserve is in use |
| Reserves.ReserveTable.Create | firefly/src/kernel/source/nrk_reserve.c:52-64 | takes the first reserve not in use, or fails exactly when there is none |
| Reserves.ReserveTable.Update | firefly/src/kernel/source/nrk_reserve.c:105-122 | replenishes a reserve that is past its period, and no other |
| Reserves.ReserveTable.Get | firefly/src/kernel/source/nrk_reserve.c:83-103 | the accesses left after an update, in eight bits; 0 for a reserve not in use |
| Reserves.ReserveTable.Consume | firefly/src/kernel/source/nrk_reserve.c:124-153 | succeeds exactly when the reserve is in use and something is left after an update, and takes one |
| Reserves.ReserveTable.Set | firefly/src/kernel/source/nrk_reserve.c:155-178 | a full allowance that lasts one period from now |
| Reserves.CallPays | firefly/src/kernel/source/nrk_reserve.c:105-153 | what a call grants is paid for by the allowance it leaves |
| Reserves.SuccessesBounded | firefly/src/kernel/source/nrk_reserve.c:105-153 | successes never exceed what is left plus a full allowance per possible replenishment |
| Reserves.RateBound | firefly/src/kernel/source/nrk_reserve.c:105-153 | in any interval of length len at most max(set_access, 0) * (len / period + 2) consumptions succeed |
| Reserves.LastCallTime | firefly/src/kernel/source/nrk_reserve.c:105-110 | a reserve shows the time of the last call |
| Reserves.RateBoundAttained | firefly/src/kernel/source/nrk_reserve.c:105-153 | some calls reach that bound |
| Neighbours.NeighborList.constructor | firefly/src/net/networkstack/NetworkLayer.c:1208-1212 | an empty, consistent table |
| Neighbours.NeighborList.AddNeighbor | firefly/src/net/networkstack/NetworkLayer.c:136-209 | the table after a report and the result, for any table; from a consistent one the sanity trap is not reached, and reports from real addresses keep it consistent |
| Neighbours.NeighborList.AgeAll | firefly/src/net/networkstack/NetworkLayer.c:147-169 | the first pass refreshes the reporter, ages the others and drops those that time out |
| Neighbours.NeighborList.AgeOne | firefly/src/net/networkstack/NetworkLayer.c:150-168 | one entry of it |
| Neighbours.NeighborList.Enter | firefly/src/net/networkstack/NetworkLayer.c:187-205 | the second pass fills the first vacant entry |
| Neighbours.NeverTrapped | firefly/src/net/networkstack/NetworkLayer.c:199-205 | the MAX_NGBS sanity check never fires on a consistent table, whatever is reported |
| Neighbours.ReportKeepsValidIff | firefly/src/net/networkstack/NetworkLayer.c:136-209 | a report keeps count and addresses consistent, except exactly when it carries the broadcast address to a full table as a neighbour times out |
| Neighbours.BroadcastBreaks | firefly/src/net/networkstack/NetworkLayer.c:136-209 | a full table and a report that break it |
| Neighbours.RunValid | firefly/src/net/networkstack/NetworkLayer.c:136-209 | over any run of reports from real addresses count equals the number of valid entries and no address is listed twice |
| Neighbours.ListedIff | firefly/src/net/networkstack/NetworkLayer.c:158-168 | a neighbour with r reports to go is listed after reports by others if and only if there were fewer than r |
| Neighbours.LeavesExactly | firefly/src/net/networkstack/NetworkLayer.c:154-168 | after an accepted report a neighbour leaves exactly when TIMEOUT_COUNTER reports by others follow |
| Neighbours.DroppedIsBlank | firefly/src/net/networkstack/NetworkLayer.c:158-168 | the entry of a neighbour that timed out is blank, unless the reporter has taken it |
| Neighbours.AcceptedIff | firefly/src/net/networkstack/NetworkLayer.c:171-209 | a report is accepted if and only if its neighbour is listed, or there is room, or one is dropped to make room |
| Neighbours.ReportIsRecorded | firefly/src/net/networkstack/NetworkLayer.c:150-205 | an accepted report is on record with its signal strength, and with whether the neighbour is new, until fewer than TIMEOUT_COUNTER reports by others have followed |

## Left out

- Floating-point rounding: angles, magnitudes and coordinates are reals; conversions to int truncate but do not overflow.
- `Edge::edgeCost` and `Edge::calcEdges`: they only supply edges, and the clustering results hold for every list of edges; the sort of the edges is not modelled either.
- The rest of the image pipeline, line fitting and homographies: the votes for the direction of a segment are a parameter, the geometric tests of the quad search are one arbitrary predicate on the path, and the interpolation functions of Quad are not modelled.
- Trigonometry: cosine and sine are any function of the angle to unit vectors that turns over after half a turn; distances are compared by their squares.
- Decoding with a tag family of more than 80 bits, whose grid would not fit a word, and the message about a number of bits that is no square.
- Gridders.Gridder.constructor: requires a positive cell size and corners not swapped by two cells or more, for which the vector of rows or columns would get a negative size.
- Gridders.Gridder.Find: requires a grid with at least one cell, because the iterator reads its first cell at once.
- Serial line, sockets and ports: a failed or blocking read is the end of the line, a failed write is repeated until it succeeds.
- Console output of `main` outside frames.
- Semaphores, priority ceilings and resource events, signal deletion and unregistering: a task key can carry an elevated priority, but no modelled operation raises one.
- Kernels.Kernel.Activate: requires a place in the task table and, for a task without an offset, a priority, because the C code would follow a NULL pointer behind idle.
- Stack setup, the idle task's work, statistics, the time-of-day clock and error logging of the kernel.
- `nrk_wait` and `nrk_wait_until`, and the other wrappers that convert times to ticks before waiting.
- Periodic.ReleasesAreExact: assumes that the observed task waits only for its periods, suspends before its period ends, stays within its reserve, and that no run of the scheduler comes later than programmed; the skipped time of a wait for n periods fits 32 bits.
- Periodic.WaitTicksIsExact: assumes that nothing else is pending for the task when it calls, and that no run of the scheduler comes later than programmed.
- Events.KernelWaitIsAnswered: follows the task from its swap-out on, where `Events.WaitStarts` leaves it; the call up to the swap-out is one step, and signals that catch it inside are the subject of SignalKeepsOkIff and EarlySignalIsLost.
- ReadyQueues.ReadyQueue.Add: requires that a task to insert in front of exists, or that the queue is empty and two nodes are free, because the C code would follow a NULL pointer; EnqueueOk shows that a kernel with its idle task queued always meets it.
- ReadyQueues.ReadyQueue.Remove: requires that the task is not the only one queued, for the same reason.
- Receive queues, transport layer, packing and unpacking: the contents of a ROUTE_CONFIG message are a parameter.
- Sending on a transmission: which nodes hear it, and whether a hearer has room to queue it, is arbitrary.
- `shouldIMultihop` and `multihop`, which nothing calls any more.
- `nrk_reserve_delete`, which reads an uninitialised index, and the error callback of a reserve.
- Reserves.RateBound: assumes a clock that does not run backwards or wrap, and a period of at least one tick; a call of `nrk_reserve_set` starts a new interval.
- TxBuffers.TxBufferManager.InsertTxFq: the buffer must be one that was removed and not yet returned, as its callers do.
- Budgets.KernelMetersReserve: follows a task from a release until it waits again, in runs in which no run of the scheduler comes later than programmed; Budgets.ReserveIsMetered needs only the former.
- Waits.TicksKeepSchedule: assumes that no run of the scheduler skips the wakeup or a period boundary of the sleeping task.
- Flooding.TravelsRoute: each station hears the transmission of the one before and has room to queue the packet.

# Escapement: verified models of its kernels

Escapement is a tickless real-time kernel in three variants (hard, soft with (m,k)-firm
tasks, power-aware), with lock-free queues and buffers between tasks. These files model its
hardest parts in Dafny and prove what its comments and tools promise of them, over every
input and every run. `dafny verify dfyconfig.toml` checks everything.

## What is modelled

- **Dynamic reclaiming** (`EdfStar`, `Speed`, `DraKernel`, `DraSafety`, `DraReclaim`,
  `DraReady`, `DraMimic`, `PowerAware`, `DraRecovery`). `DraKernel` specifies what the power-aware kernel's timer handler and
  `OSEndTask` do to its ready queue, its simulated queue, `RemainingWork` and the speed;
  `PowerAware` is the code, loops and fields, proved to do that. `DraSafety` runs it against
  the full-speed EDF* schedule in which every instance takes its WCET: work is counted
  exactly in 256ths of a tick, which the kernel does not know, and the kernel's lazily
  drained queue is compared with the eager one by what lies ahead of each instance.
  `DraReclaim` is the other side: how much time it gives, and the speed that follows;
  `DraReady` tells which instances are ready.
  `DraRecovery` cuts the simulation's update off at any of its stores.
- **The announced-operation FIFO queue** (`AbstractQueue`, `AnnouncedFifo`, `FifoIndex`).
  Before each access to shared memory, `Preempt` may run any number of whole operations, each
  preempted in turn at its own accesses: the stack of frames is the recursion, which only a
  number of arrivals still to come bounds. A preemption clears the LL/SC reservation, so an SC
  fails exactly when another frame has run. The log of operations is the linearization; it and
  the queues between its entries only grow, from the queue a constructor leaves.
- **The 4-slot and 3-slot buffers** (`FourSlot`, `ThreeSlot`, `BufferReads`). One writer and
  one reader, a step for each statement, in any order; record numbers are unbounded. In the
  3-slot buffer either side's reservation may also be lost at any time for no reason.
- **The timer handler of the hard kernel under EDF** (`TimerQueues`, `LateWrap`, `HardTimer`,
  `HardRuns`, `Server`, `EventRuns`, `EventTasks`, `EventMoves`, `LivePool`, `DmRanks`).
  `TimerQueues` specifies passes, wraparounds, ends and signals on the TCBs and queues,
  `HardTimer` is the code, `HardRuns` tells which instances begin, go on and end. `Server` is the
  total bandwidth server, and `EventRuns` finds its grants in the runs. `EventTasks` and
  `EventMoves` follow the event-driven tasks from place to place, `LivePool` the TCBs created and
  deleted live; `DmRanks` is the numbering of deadline-monotonic priorities.
- **The soft kernel** (`FirmPattern`, `FirmTask`, `Admission`, `FirmSafety`, `FirmReference`,
  `FirmExact`).
  The (m,k) pattern and the handler's counters for it, the admission test in 32-bit
  arithmetic (a newtype, so every intermediate value is shown to fit), its specification,
  that specification's soundness, the test of tools/differential.py, and how far what is counted
  is from what is promised.
- **The response-time analyses** (`ResponseTime`, `FixedPriority`, `ResponseExact`,
  `ResponseCosts`, `EdfResponse`, `EdfSchedule`, `EdfExact`, `EdfCosts`): the iterations of
  tools/response_times.py, the fixed-priority and earliest-deadline schedules they bound, and the
  schedules that reach the bound, without the kernel's costs and with them.

`Arith`, `Common` and `Counting` hold what these share.

Times are unbounded integers except where a wraparound or a 32-bit value is the point
(`TimerQueues`, `FirmTask`, `Server`, `Admission`, `FifoIndex`, `Speed.ScaleFits`). The timer
handler takes no time and is taken whole, with the ends and signals between two of its runs.

Four claims hold under a condition, each with a counterexample beside it:

- a wraparound keeps the hard kernel's queues if and only if no late event-driven instance is
  ready before a late periodic one, and no task of a period of a turn or more is later than
  its remainder (`TimerQueues.WrapKeeps`; `LateWrap.LateEventReorders` is a run that ends
  where it does not);
- `NextPeriodicArrival` keeps the parts of a split time in order if and only if the task is no
  later than that remainder (`TimerQueues.NextAddsPeriod`, `TimerQueues.TooLate`);
- the soft kernel's split times stay in order as long as each release is served in the turn of
  the clock it falls in: a wraparound keeps the order if and only if none is left
  (`FirmTask.FirmTcb.Wrap`, `FirmTask.FirmTcb.ServeUntil`); its admission test sees the time of
  a mandatory instance rightly, in order or not, if and only if the time is not before the
  deadline or its high part is not past that of the deadline (`Admission.SpanTo`;
  `FirmReference.LateUnseen` is one that is not seen);
- a time bounds every response of a task under fixed priorities if and only if, for each
  number of its instances one after the other, a window that fits them ends within that time
  of the last release (`ResponseExact.BoundExactly`). With the task's level below a load of 1
  only the instances of one busy period matter, so the tasks alone decide it
  (`ResponseExact.FitsWithin`, `ResponseExact.BoundHolds`). What the tool gives looks at one
  instance: it is a bound when it is no longer than the period, as `ValidTiming` ensures of a
  deadline and the tool does not (`FixedPriority.ResponseBounded`); past the period it may
  still be one (`ResponseExact.PastPeriodBounds`) or not (`ResponseExact.DeadlinePastPeriod`).

Where the code and its comments differ the code is followed: the comment above
`GetDRASlackTime` calls the simulated queue an exact mimic of the ready queue, but a released
TCB's old instance is taken out undrained, and a release that does not change the head is
inserted before the simulation is brought up to date. The kernel's queue can then be below the
mimic (`DraMimic.StrictlyBelow` is a run), never above it, which is what `DraSafety` proves and
needs, and never by more than what releases took out of it since the full-speed schedule last had
nothing to do (`DraReclaim.RunAbove`): with nothing taken out it is exact
(`DraReclaim.ExactMimic`).

## Model

| member | source | states |
|---|---|---|
| DraSafety.NeverLater | Escapement/EscapementHardPA.c:1592-1729 | in every run an instance never has more work left, exactly, than the full-speed schedule has time left for it |
| DraSafety.DeadlinesKept | Escapement/EscapementHardPA.c:1592-1729 | deadlines kept at full speed with every WCET taken are kept at the speeds chosen |
| DraSafety.EndsNoLater | Escapement/EscapementHardPA.c:556-603 | ends served before releases, no instance the full-speed schedule is through with is ready once time goes on |
| DraSafety.RunKeepsInv | Escapement/EscapementHardPA.c:783-924 | every run keeps: each instance within its own canonical time, the running one within its speed times the canonical time ahead, RemainingWork above the exact work, the kernel's queue below the canonical one |
| DraSafety.TickKeeps | tools/speed_reference.py:146-169 | a tick of the running task keeps that invariant: only the first canonical instance loses time |
| DraSafety.TickNoneLate | Escapement/EscapementHardPA.c:1807-1817 | no instance waiting behind the running one is the first of the full-speed schedule |
| DraSafety.EndKeeps | Escapement/EscapementHardPA.c:556-603 | so does OSEndTask |
| DraSafety.TimerKeeps | Escapement/EscapementHardPA.c:783-924 | so does the timer handler, whatever it releases or skips |
| DraSafety.ReleaseKeeps | Escapement/EscapementHardPA.c:783-841 | so does one release, the simulation brought up to date before it or not |
| DraSafety.AccountKeeps | Escapement/EscapementHardPA.c:1342-1349 | the work counted as done, rounded down, leaves RemainingWork no less than the work left |
| DraSafety.ChooseOnTime | Escapement/EscapementHardPA.c:1592-1729 | the speed chosen ends the head within the canonical time up to its own |
| DraSafety.SimToKeeps | Escapement/EscapementHardPA.c:1428-1496 | draining lazily keeps the kernel's queue below the canonical one |
| DraSafety.InsertBelow | Escapement/EscapementHardPA.c:1820-1840 | inserting an instance, its TCB's old one unlinked undrained, keeps the queue below the canonical one |
| DraSafety.SlackBelow | Escapement/EscapementHardPA.c:1789-1817 | the slack given is never above the canonical time up to the instance |
| DraMimic.StrictlyBelow | Escapement/EscapementHardPA.c:1795-1800 | a run, ends before releases, after which the kernel's simulated queue, brought up to date, has less ahead of an instance than the full-speed schedule |
| DraSafety.HandlerReady | Escapement/EscapementHardPA.c:1820-1825 | in every run the instance still simulated of a TCB is before the one released |
| Speed.SpeedIsSlowest | Escapement/EscapementHardPA.c:1704-1721 | the speed is the slowest allowed at which the work, taken exactly, fits in the time, or the fastest |
| Speed.Slowest | tools/speed_reference.py:83-89 | the slowest point whose rounded-down product covers the work |
| Speed.ScanSpeeds | Escapement/EscapementHardPA.c:1709-1721 | the scan down from the fastest point finds that point |
| Speed.ScaleRoundsDown | Escapement/EscapementHardPA.c:40-47 | ScaleBy256ths is the whole product rounded down, for any time |
| Speed.ScaleFits | Escapement/EscapementHardPA.c:40-47 | and none of its intermediate values leaves 31 bits |
| EdfStar.DrainAhead | Escapement/EscapementHardPA.c:1474-1495 | draining lowers what lies ahead of every instance by the time elapsed, to nothing |
| EdfStar.DrainTwice | Escapement/EscapementHardPA.c:1474-1495 | updating to one time then to a later one is updating to the later |
| EdfStar.PlaceSorted | Escapement/EscapementHardPA.c:935-950 | insertion in EDF* order keeps a queue in order |
| EdfStar.PlaceAhead | Escapement/EscapementHardPA.c:958-982 | an insertion adds its time ahead of the instances after it, and no others |
| DraKernel.SlackIsAhead | Escapement/EscapementHardPA.c:1807-1817 | the slack GetDRASlackTime gives is what lies ahead of the instance, with its own time, when it is simulated, and none otherwise |
| DraKernel.SlackIsSum | Escapement/EscapementHardPA.c:1807-1817 | it is the sum of the times of the entries up to the task's first, in any queue |
| DraReclaim.RunAbove | Escapement/EscapementHardPA.c:1428-1496 | in every run the simulated queue, brought up to date, has no less ahead of any instance than the full-speed schedule but for what releases took out of it since that last had nothing to do |
| DraReclaim.ExactMimic | Escapement/EscapementHardPA.c:1791-1800 | with nothing taken out the two have the same ahead of every instance |
| DraReclaim.SpeedChosen | Escapement/EscapementHardPA.c:1592-1729 | in every run, after each pass and each end, the speed is the slowest allowed at which the head's RemainingWork fits in its slack, taken exactly, or the fastest |
| DraReclaim.SlackIsWhole | Escapement/EscapementHardPA.c:1791-1817 | with nothing taken out that slack is all the full-speed schedule has left up to the instance's own time |
| DraReclaim.RunExact | Escapement/EscapementHardPA.c:1342-1349 | in every run RemainingWork is what the exact speeds left of the WCET, above it by less than a tick for each time the work was counted |
| DraReady.ReadyIs | Escapement/EscapementHardPA.c:783-841 | in every run the ready queue goes by EDF*, an instance enters it with the release that finds its task without one, and leaves it only at the head, its work done |
| PowerAware.InsertQueue | Escapement/EscapementHardPA.c:935-950 | the loop inserts before the first node the new one precedes |
| PowerAware.Relink | Escapement/EscapementHardPA.c:1826-1840 | one walk takes the TCB's old instance out and puts the new one in |
| PowerAware.PowerKernel.UpdateSimulation | Escapement/EscapementHardPA.c:1468-1496 | the loop drains the queue by the time elapsed and sets the clock, entry by entry |
| PowerAware.PowerKernel.InsertSimulated | Escapement/EscapementHardPA.c:1826-1840 | the simulated queue becomes the one specified |
| PowerAware.PowerKernel.SlackTime | Escapement/EscapementHardPA.c:1807-1817 | the walk gives the sum of the times up to the task's entry, 0 when it has none |
| PowerAware.PowerKernel.ChooseSpeed | Escapement/EscapementHardPA.c:1592-1729 | the speed becomes the one specified, nothing else changes |
| PowerAware.PowerKernel.UpdateWork | Escapement/EscapementHardPA.c:1342-1349 | RemainingWork of the task, and the time of the update, change as specified |
| PowerAware.PowerKernel.EndTask | Escapement/EscapementHardPA.c:556-603 | OSEndTask has the effect DraSafety reasons about |
| PowerAware.PowerKernel.Arrive | Escapement/EscapementHardPA.c:783-841 | so has one arrival, with the flag that puts the update off |
| PowerAware.PowerKernel.TimerInterrupt | Escapement/EscapementHardPA.c:679-924 | so has the whole handler |
| DraRecovery.CutOffAndRecover | Escapement/EscapementHardPA.c:1428-1571 | an update cut off after any number of stores, recovered by the handler, leaves the queue and the clock of an uninterrupted drain |
| DraRecovery.Simulation.Recover | Escapement/EscapementHardPA.c:698-704 | completing the pending pair, then updating, does it |
| DraRecovery.Simulation.Update | Escapement/EscapementHardPA.c:1468-1496 | at every store the pending pair, completed, is on the way: later drains agree, and time gone plus time left is conserved |
| DraRecovery.Simulation.Int32Cas2 | Escapement/EscapementHardPA.c:1514-1536 | cut off anywhere, the pair completed is done whole or not begun |
| DraRecovery.Simulation.MixCas2 | Escapement/EscapementHardPA.c:1543-1571 | the same for the pair of the clock and the queue's head |
| DraRecovery.Simulation.FinishInt | Escapement/EscapementHardPA.c:1530-1535 | completing a pair from any phase does not depend on what was already stored |
| DraRecovery.Simulation.FinishMix | Escapement/EscapementHardPA.c:1561-1570 | the same |
| DraRecovery.DrainConserves | Escapement/EscapementHardPA.c:1474-1495 | the clock and the times left add up to the same until the queue is empty |
| DraRecovery.PopOnTheWay | Escapement/EscapementHardPA.c:1490-1494 | one pair that takes the head out keeps the drain on its way |
| DraRecovery.PartOnTheWay | Escapement/EscapementHardPA.c:1485-1488 | so does one that shortens it |
| AnnouncedFifo.FifoQueue.Enqueue | Escapement/EscapementHard.c:1425-1452 | under any nested preemption it takes effect exactly once between call and return, on the queue the operations before it left, and its answer is that effect's; the operation it preempted is completed |
| AnnouncedFifo.FifoQueue.Dequeue | Escapement/EscapementHard.c:1319-1351 | the same for a dequeue |
| AnnouncedFifo.FifoQueue.Perform | Escapement/EscapementHard.c:1319-1351 | an operation leaves none announced, and every operation announced before it finished |
| AnnouncedFifo.FifoQueue.Help | Escapement/EscapementHard.c:1365-1410 | a helper completes an operation from any state others left it in, and never applies it twice |
| AnnouncedFifo.FifoQueue.TryDequeue | Escapement/EscapementHard.c:1379-1409 | each turn of the loop ends the operation or is charged to a preemption |
| AnnouncedFifo.FifoQueue.TryEnqueue | Escapement/EscapementHard.c:1474-1501 | the same for an enqueue |
| AnnouncedFifo.FifoQueue.AdvanceIndex | Escapement/EscapementHard.c:1511-1519 | an index passes the place of an operation once, whatever frames do it |
| AnnouncedFifo.FifoQueue.CompletePending | Escapement/EscapementHard.c:1319-1351 | the operation announced is completed before a new one |
| AnnouncedFifo.FifoQueue.Preempt | Escapement/EscapementHard.c:1302-1519 | what a frame can count on after any number of whole operations |
| AnnouncedFifo.FifoQueue.constructor | Escapement/EscapementHard.c:1012-1022 | a created queue is empty, none announced, and meets the invariant |
| AnnouncedFifo.FifoQueue.Full | Escapement/EscapementHard.c:1548-1574 | so does the pool of free nodes, full |
| AnnouncedFifo.FifoQueue.InOrder | Escapement/EscapementHard.c:1319-1502 | in every state reached from such a start what went in comes out once, in order, and one SIGNAL at most is pending, for an event that woke none |
| AnnouncedFifo.FifoQueue.Calls | Escapement/EscapementHard.c:1319-1452 | any operations in sequence, preempted by any others, keep that, each answered by its own entry of the log, in the order called |
| AnnouncedFifo.UseQueue | Escapement/EscapementHard.c:1548-1598 | a queue from its creation on is first in, first out and loses no signal |
| AnnouncedFifo.UsePool | Escapement/EscapementHard.c:1602-1620 | the pool of free nodes hands each node out once, in order |
| AnnouncedFifo.WrappedAdvance | Escapement/EscapementHard.c:1511-1519 | on the 32-bit indices the test and the store of an index agree with the unbounded ones while it is less than a turn ahead |
| AnnouncedFifo.DequeueSlotTells | Escapement/EscapementHard.c:1365-1410 | what a dequeue reads at its index tells how far it has got |
| AnnouncedFifo.EnqueueSlotTells | Escapement/EscapementHard.c:1460-1502 | the same for an enqueue |
| AnnouncedFifo.StoreApplies | Escapement/EscapementHard.c:1379-1409 | one store into its place is the whole effect of an operation on the array |
| AnnouncedFifo.StoredIsApplied | Escapement/EscapementHard.c:1379-1409 | after the store the array holds the queue the log has led to |
| AbstractQueue.FirstInFirstOut | Escapement/EscapementHard.c:1311-1351 | items come out once each, in the order they went in, none lost |
| AbstractQueue.LegalCallersDiffer | Escapement/EscapementHard.c:1365-1410 | no operation takes effect twice |
| AbstractQueue.AnswersAre | Escapement/EscapementHard.c:1311-1351 | every answer is determined by the operations before it: the oldest item not delivered, a refusal only when full, the SIGNAL exactly while one is pending |
| AnnouncedFifo.FifoQueue.Determined | Escapement/EscapementHard.c:1319-1502 | so are those of the array's operations, in every state reached from a start |
| AbstractQueue.SignalsConserved | Escapement/EscapementHard.c:980-1006 | one SIGNAL at most is pending, and it stands for one event that found none |
| FifoIndex.MaxIndex | Escapement/EscapementHard.c:1302-1308 | a multiple of the length, below 0xFFFFFFFF |
| FifoIndex.MaxIndexIsSmallest | Escapement/EscapementHard.c:1294-1308 | the smallest one not below 0xFFFFFFFF less the length |
| FifoIndex.NextWraps | Escapement/EscapementHard.c:1511-1519 | the next index is the unbounded one's, wrapped |
| FifoIndex.SameEntry | Escapement/EscapementHard.c:1294-1300 | a wrapped index and the unbounded one name the same array entry |
| FifoIndex.WrappedIndex | Escapement/EscapementHard.c:1511-1519 | a stored index is the unbounded one wrapped: it advances with it, names the same entry and tells two apart less than a turn apart |
| FourSlot.ReadsAreWholeAndRise | Escapement/EscapementHard.c:1765-1781 | in every run the slot the reader holds is not written and holds the record last read, and reads never go backwards |
| FourSlot.ReadsAreFresh | Escapement/EscapementHard.c:1893-1906 | a read returns a record no older than the last published in Latest when it began, in the window between Index and Latest too |
| FourSlot.CallReads | Escapement/EscapementHard.c:1829-1847 | once a write has ended, a call returns a record after three steps of the reader, whatever the writer does between, no older than that of the last write ended when it was made |
| FourSlot.NothingYet | Escapement/EscapementHard.c:1831-1832 | before the first write has ended nothing is read |
| FourSlot.WriteEnds | Escapement/EscapementHard.c:1765-1808 | a write ends with seven steps of the writer, whatever the reader does |
| FourSlot.RunDelivers | Escapement/EscapementHard.c:1829-1847 | whatever mix of calls made the reads of a run, the read-only-once ones deliver each record they find, once and in the order written |
| FourSlot.RunDeliversFresh | Escapement/EscapementHard.c:1829-1847 | after such a call the last record delivered is no older than the last published in Latest when the call began |
| FourSlot.RunKeepsInv | Escapement/EscapementHard.c:1765-1781 | every interleaving keeps the invariant |
| FourSlot.WriteKeepsPairs | Escapement/EscapementHard.c:1776-1778 | how the pair announced and the pair taken alternate, through each store of the writer |
| FourSlot.ReadKeepsPairs | Escapement/EscapementHard.c:1893-1906 | and through each step of the reader |
| FourSlot.HeldSlotKept | Escapement/EscapementHard.c:1776-1781 | no step of the writer changes the slot the reader holds |
| FourSlot.MoveKeepsNumbers | Escapement/EscapementHard.c:1765-1781 | the latest pair names the newest record but between the stores of Index and Latest |
| FourSlot.MoveNamed | Escapement/EscapementHard.c:1770-1774 | only the store of Index changes what a pair names |
| FourSlot.WriteKeepsReads | Escapement/EscapementHard.c:1765-1781 | what a read under way may return only gets newer |
| ThreeSlot.ReadsAreWholeAndRise | Escapement/EscapementHard.c:1782-1803 | in every run the slot the writer fills is neither the one held nor one the reader will be handed, a reader still asking included; reads are whole and never go backwards |
| ThreeSlot.ReadsAreFresh | Escapement/EscapementHard.c:1912-1928 | a read returns a record no older than that of the last completed write when it began |
| ThreeSlot.CallReads | Escapement/EscapementHard.c:1912-1928 | once a write has ended, a call returns a record after five steps of the reader and three for each SC of its that fails, no older than that of the last write ended when it was made |
| ThreeSlot.NothingYet | Escapement/EscapementHard.c:1831-1832 | before the first write has ended nothing is read |
| ThreeSlot.WriteEnds | Escapement/EscapementHard.c:1782-1808 | a write ends with seven steps of the writer and two for each SC of its that fails |
| ThreeSlot.RunDelivers | Escapement/EscapementHard.c:1829-1847 | the same of the reads of a run of this buffer |
| ThreeSlot.RunDeliversFresh | Escapement/EscapementHard.c:1829-1847 | and of the last record delivered |
| ThreeSlot.RunKeepsInv | Escapement/EscapementHard.c:1782-1803 | every interleaving keeps the invariant, SCs failing for no reason too |
| ThreeSlot.NextSlot | Escapement/EscapementHard.c:1748-1751 | each entry of the table is neither the slot read nor the latest |
| ThreeSlot.WriteKeepsSlots | Escapement/EscapementHard.c:1790-1803 | a reservation still held means Reading unchanged, and the writer's slot stays apart |
| ThreeSlot.ReadKeepsSlots | Escapement/EscapementHard.c:1912-1928 | so does each step of the reader |
| ThreeSlot.WriteKeepsReads | Escapement/EscapementHard.c:1782-1803 | no record the reader holds or may be given is written over |
| BufferReads.DeliveredOnce | Escapement/EscapementHard.c:1839-1843 | OS_READ_ONLY_ONCE delivers each record at most once, in increasing order, whatever other reads come between |
| BufferReads.DeliveredAll | Escapement/EscapementHard.c:1875-1878 | and delivers every record such a read finds |
| TimerQueues.RunKeepsValid | Escapement/EscapementHard.c:738-881 | in every run of passes, overruns, ends, signals and wraparounds each TCB is in the ready queue once or a zombie out of it, the head's deadline is the earliest, each periodic task is in the arrival queue once, its next arrival is as many periods from the start as it had releases, and the deadline of an instance under way is that of its own release, in absolute time |
| TimerQueues.InsertBefore | Escapement/EscapementHard.c:931-949 | the comparison of split times is that of absolute ones, event-driven times beyond the wraparound included |
| TimerQueues.NextAddsPeriod | Escapement/EscapementHard.c:593-602 | exactly one period is added, and the parts stay in order if and only if the task is late by no more than its remainder |
| TimerQueues.RunFits | Escapement/EscapementHard.c:593-602 | in every run with a pass in each turn of the clock, the sums of every release, the next arrival and the deadline, fit in 32 bits |
| TimerQueues.TooLate | Escapement/EscapementHard.c:593-602 | a later task breaks the order of the arrival queue: two tasks released from 0, one served a turn late |
| TimerQueues.ReleaseKeeps | Escapement/EscapementHard.c:806-853 | one release, or one skipped, keeps the queues, the grid of arrivals and the deadlines on it |
| HardRuns.PassReleases | Escapement/EscapementHard.c:806-853 | a pass makes every periodic release whose time has come and none before its time; the first starts an instance with its own deadline when none is under way, which goes on otherwise |
| HardRuns.PassStarts | Escapement/EscapementHard.c:806-853 | and starts every event-driven task that waits and whose time has come, and no other |
| HardRuns.InstanceGoesOn | Escapement/EscapementHard.c:738-881 | in every run an instance under way stays so with its deadline, but for the clamp of a late event-driven one, until it is at the head and ends |
| HardRuns.InsertPlace | Escapement/EscapementHard.c:892-922 | an insertion is behind every lower key and before every other |
| EventRuns.EventGrants | Escapement/EscapementHard.c:1204-1211 | in every run whose clock does not go back the grants to event-driven tasks are those of a run of the server, each for its task's workload and no sooner than its previous deadline, and the last one's deadline is in the TCB |
| EventRuns.EventStarts | Escapement/EscapementHard.c:838-846 | there is one grant for each event-driven instance a pass or a signal starts, at its time, and no other |
| EventRuns.EventBandwidth | Escapement/EscapementHard.c:1204-1211 | so the instances of the TCBs ask for no more than the whole of any interval |
| EventRuns.ComesBack | Escapement/EscapementHard.c:1165-1177 | a task that waits starts at the first pass from its previous deadline on, and stays until then |
| EventRuns.StartsOrWaits | Escapement/EscapementHard.c:1165-1187 | a task signalled starts at once from its previous deadline on, and waits for it before |
| TimerQueues.ReleaseGoesOn | Escapement/EscapementHard.c:823-836 | a release changes neither an instance under way nor its deadline |
| TimerQueues.ServeGoesOn | Escapement/EscapementHard.c:823-836 | nor does a whole pass |
| TimerQueues.ReleaseAhead | Escapement/EscapementHard.c:806-854 | each release brings the arrivals forward, so that the pass ends |
| TimerQueues.ServedAll | Escapement/EscapementHard.c:806-854 | the pass ends with no arrival due |
| TimerQueues.ServeOthers | Escapement/EscapementHard.c:806-854 | a pass leaves alone what is not in the arrival queue |
| TimerQueues.WrapKeeps | Escapement/EscapementHard.c:746-782 | a wraparound keeps the queues exactly under its condition, changes no absolute arrival, and no deadline but to clamp a late event-driven one |
| TimerQueues.WrappedOrder | Escapement/EscapementHard.c:753-779 | the ready queue keeps its order exactly when no late event-driven instance is before a late periodic one |
| LateWrap.LateEventReorders | Escapement/EscapementHard.c:769-776 | a run from the start reaches a state in which a wraparound breaks the ready queue's order |
| TimerQueues.EndKeeps | Escapement/EscapementHard.c:561-578 | an end keeps the queues, the grid of arrivals and the deadlines on it |
| HardRuns.EndIs | Escapement/EscapementHard.c:561-578 | the instance that ends is the one that runs, of the earliest deadline of those ready; all else is unchanged, and the others stay ready in their order |
| TimerQueues.SignalKeeps | Escapement/EscapementHard.c:1155-1197 | so does a task signalled, whether it waits or is released |
| HardTimer.HardKernel.ArrivalQueueInsert | Escapement/EscapementHard.c:892-949 | the loop inserts by absolute time |
| HardTimer.HardKernel.ReadyQueueInsert | Escapement/EscapementHard.c:892-922 | the loop inserts by deadline, before equals |
| HardTimer.HardKernel.NextPeriodicArrival | Escapement/EscapementHard.c:593-602 | the TCB and its place change as specified |
| HardTimer.HardKernel.ReleaseFirst | Escapement/EscapementHard.c:806-854 | one turn of the handler's loop is one release as specified |
| HardTimer.HardKernel.ServeArrivals | Escapement/EscapementHard.c:806-854 | the loop is a whole pass as specified, and ends |
| HardTimer.HardKernel.Shift | Escapement/EscapementHard.c:746-782 | the three loops shift each time once |
| HardTimer.HardKernel.Reschedule | Escapement/EscapementHard.c:1155-1197 | one task taken from the list is where specified |
| HardTimer.HardKernel.EmptyReschedule | Escapement/EscapementHard.c:1155-1197 | the tasks of the list are signalled one after the other |
| HardTimer.HardKernel.TimerInterrupt | Escapement/EscapementHard.c:738-881 | the handler has the effect specified: the shift, the pass over the arrivals due, then the tasks signalled, and leaves nothing due |
| Server.BandwidthKept | Escapement/EscapementHard.c:1204-1211 | in every run the workloads released from t1 on with a deadline by t2 are at most t2 - t1, and deadlines are those of a clock that never wraps |
| Server.BandwidthUsed | Escapement/EscapementHard.c:1204-1211 | no deadline is later than it must be: the interval up to each, from some release on, is wholly asked for |
| Server.StepKeepsInv | Escapement/EscapementHard.c:777-779 | the clamp at 0 changes no deadline granted later |
| EventTasks.RunKeepsInv | Escapement/EscapementHard.c:1073-1197 | in every run each event-driven task is in exactly one place, an event holds tasks or one SIGNAL but not both, and its signals are those that woke a task, coalesced or are pending |
| EventTasks.RoomToSuspend | Escapement/EscapementHard.c:1073-1103 | a task suspending itself always finds room in its event's queue |
| EventTasks.SuspendMoves | Escapement/EscapementHard.c:1073-1103 | a suspension leaves every task in one place |
| EventMoves.StepMoves | Escapement/EscapementHard.c:1073-1197 | each step moves one task at most: a signal the one that has waited longest, a suspension its own task behind the others or, a SIGNAL pending, to the list, and the lists hand theirs on |
| EventMoves.QueueAfter | Escapement/EscapementHard.c:1073-1113 | an event's queue gains the task suspended at its end, loses its first to a signal, gains or loses the SIGNAL, and changes no other way |
| EventMoves.SignalCounts | Escapement/EscapementHard.c:1108-1113 | a signal is absorbed only by one already pending |
| EventTasks.SignalMoves | Escapement/EscapementHard.c:1108-1113 | so does a signal |
| EventTasks.OtherMoves | Escapement/EscapementHard.c:1127-1197 | and so do the steps of the lists |
| LivePool.Pool.CreateTask | Escapement/EscapementHard.c:412-452 | a block goes from the free list to the requests, or none is left |
| LivePool.Pool.DeleteTask | Escapement/EscapementHard.c:455-477 | a deletion is asked for once |
| LivePool.Pool.ServeOne | Escapement/EscapementHard.c:489-511 | a created task arrives, a deleted one between instances returns its block, one under way is marked |
| LivePool.Pool.ServeLiveRequests | Escapement/EscapementHard.c:489-511 | each task created arrives, each deletion asked for is served, the block back in the pool or marked, and every other block is left alone |
| LivePool.Pool.Arrive | Escapement/EscapementHard.c:807-820 | a task whose deletion was served is not released, its block returns to the pool, and its deletion stays served |
| LivePool.Pool.DoAll | Escapement/EscapementHard.c:390-522 | over any calls in any order, requests coming between any two turns of the handler, a task is not released after its deletion is served until its block is handed out again |
| LivePool.Pool.Do | Escapement/EscapementHard.c:390-522 | each call keeps the lists and the states, and a deletion served until the block is handed out |
| LivePool.Pool.TakeRequests | Escapement/EscapementHard.c:492-495 | the handler takes over the requests made so far |
| LivePool.Pool.FreeLive | Escapement/EscapementHard.c:514-522 | a block in no list goes back to the pool |
| LivePool.ChainPush | Escapement/EscapementHard.c:390-402 | one link threads the free blocks and the requests apart |
| DmRanks.Application.Create | Escapement/EscapementHard.c:528-553 | after any creations each priority is the rank by deadline, then order of creation, and the tail's is the number of tasks |
| DmRanks.Application.GetTaskPriority | Escapement/EscapementHard.c:528-553 | the tasks of later deadline go down by one and the others are counted |
| DmRanks.RanksPermute | Escapement/EscapementHard.c:528-553 | the ranks are all the numbers below the number of tasks |
| DmRanks.RanksInOrder | Escapement/EscapementHard.c:528-553 | a task has a smaller rank exactly when it has priority |
| DmRanks.NewTask | Escapement/EscapementHard.c:528-553 | a new task raises the ranks of those it has priority over, and no others |
| FirmPattern.MandatoryRises | Escapement/EscapementSoft.c:1006-1012 | an instance is mandatory exactly where ceil(n m / k) rises |
| FirmPattern.ExactlyM | Escapement/EscapementSoft.c:1006-1012 | any k consecutive instances hold exactly m mandatory ones |
| FirmPattern.NeverUndercounts | Escapement/EscapementSoft.c:624-629 | n consecutive instances hold at most ceil(n m / k) mandatory ones |
| FirmPattern.SpreadIsNext | Escapement/EscapementSoft.c:1006-1012 | the expression gives the first mandatory instance at or after n |
| FirmTask.FirmTcb.Release | Escapement/EscapementSoft.c:1001-1046 | each release is marked mandatory exactly when the pattern says, and the time of the next mandatory one is kept exactly |
| FirmTask.FirmTcb.Wrap | Escapement/EscapementSoft.c:889-901 | wraparounds change neither absolute time, and keep the parts in order if and only if no release of the turn is left unserved |
| FirmTask.FirmTcb.ServeUntil | Escapement/EscapementSoft.c:860-1046 | served at its times up to any time, a task keeps both its times exact and in order |
| FirmTask.FirmTcb.constructor | Escapement/EscapementSoft.c:391-413 | the first release is mandatory |
| FirmTask.MultiplyExact | Escapement/EscapementSoft.c:422-434 | Multiply46_16 is exact |
| FirmTask.MultiplyFits | Escapement/EscapementSoft.c:422-434 | for multipliers of eight bits no intermediate value overflows |
| FirmTask.NextMandatoryIsFirst | tools/differential.py:109-113 | the next mandatory instance is the first from there on |
| FirmTask.MandatoryByCounter | Escapement/EscapementSoft.c:1034-1038 | comparing the counters modulo k tells whether an instance is mandatory |
| Admission.IsTaskSchedulable | Escapement/EscapementSoft.c:599-701 | the test answers as its specification does, early returns included, and no value leaves 32 bits |
| Admission.AddTask | Escapement/EscapementSoft.c:611-645 | one task's work is added, or found too much exactly when it is |
| Admission.MulDivUp | Escapement/EscapementSoft.c:580-584 | MulDivUp is ceil(a m / k), without overflow |
| Admission.SpreadOf | Escapement/EscapementSoft.c:580-584 | MulDiv of MulDivUp is the pattern's expression, without overflow |
| Admission.DivideFirst | Escapement/EscapementSoft.c:580-584 | dividing first changes neither rounding |
| Admission.NotBefore | Escapement/EscapementSoft.c:614-616 | the comparison of split times is that of whole ones |
| Admission.SpanTo | Escapement/EscapementSoft.c:617-621 | their difference with the deadline is right, above 0 or not, if and only if the test does not miss the time, which with its parts in order it never does |
| FirmSafety.AdmittedEnds | Escapement/EscapementSoft.c:586-701 | an instance admitted with nothing else ready gets all it needs by its deadline, in every schedule in which mandatory instances preempt it |
| FirmSafety.AdmittedEndsUnderEdf | Escapement/EscapementSoft.c:531-566 | in particular by earliest deadline first |
| FirmSafety.TaskBound | Escapement/EscapementSoft.c:611-645 | a task's mandatory instances take no more than the test counts |
| FirmReference.SameAnswer | tools/differential.py:414-445 | for any set of tasks, in any order of the arrival queue and at any turn of the clock, the kernel's answer is the reference's |
| FirmReference.AdmissionTest | tools/differential.py:414-445 | the reference's loops give its answer: the WCET before the deadline, and with it every task's mandatory work |
| FirmExact.AdmitsNear | tools/differential.py:414-429 | an optional instance starts only if its WCET and every mandatory instance from then on, each up to the deadline, fit before it, and does whenever they fit with a WCET of each task to spare |
| FirmExact.TermNear | tools/differential.py:426-443 | what is counted of a task is no less than its mandatory instances before the deadline ask for, and no more than a WCET above |
| FirmReference.ReferenceTerm | tools/differential.py:432-443 | the reference's search for a task's first mandatory release and its count of the work from there |
| FirmReference.KernelAdmits | Escapement/EscapementSoft.c:531-566 | the condition under which the kernel starts an optional instance, whose deadline a wraparound may have taken below 0 |
| FirmReference.SameTerms | tools/differential.py:414-445 | the kernel's tasks ask for what the reference's do |
| FirmReference.DemandPermuted | Escapement/EscapementSoft.c:611-645 | the order of the tasks does not matter to the test |
| FirmReference.SeenSees | Escapement/EscapementSoft.c:1001-1046 | the TCBs as the handler leaves them are what the test needs and what the reference describes, an instant when no mandatory instance is released |
| FirmReference.LateUnseen | Escapement/EscapementSoft.c:611-621 | a release served after the wraparound that followed it can hide the next mandatory instance from the test |
| ResponseTime.ResponseTime | tools/response_times.py:54-67 | the iteration ends with the least time that covers its own window, a fixed point, or with none exactly when none is within the deadline |
| ResponseTime.LoadRises | tools/response_times.py:62-63 | a longer window holds no less work |
| ResponseCosts.EnoughWithCosts | tools/response_times.py:8-15 | a time is enough with the kernel's costs exactly when it is without them for the tasks that restore a context each and a handler for each task above all |
| ResponseCosts.CostsExactly | tools/response_times.py:8-19 | a time bounds every response in the schedules where each release enters its handler and each other instance restores a context if and only if the windows of that task set fit, whether the handlers are entered with the tasks or not |
| ResponseCosts.WorstResponseWithCosts | tools/response_times.py:54-67 | with any costs no bound is below the tool's answer, which is a bound when it is within the period; when it has none, a deadline can be missed |
| ResponseExact.BoundExactly | tools/response_times.py:4-19 | a time bounds every response of a task, in every fixed-priority schedule with releases a period apart, if and only if for every k a window that covers k + 1 of its instances and what the higher priorities ask in it ends within that time of the release of the last, releases as often as they can be |
| ResponseExact.WorstResponse | tools/response_times.py:54-67 | without costs, no bound is below the tool's answer, which is a bound when it is within the period; when it has none, a deadline can be missed |
| ResponseExact.BoundHolds | tools/response_times.py:54-67 | with the load of a task and the higher priorities below 1, whether a time bounds its responses is decided from the tasks alone |
| ResponseExact.FitsWithin | tools/response_times.py:54-67 | only the instances that begin in one busy period of those tasks need be looked at |
| ResponseExact.BoundFits | tools/response_times.py:30-35 | all released at 0 and as often as they can be, for their whole WCET, the tasks show each window |
| ResponseExact.DoneFits | tools/response_times.py:62-63 | in that schedule an instance is done only after a window that covers it and those before |
| ResponseExact.WindowBy | tools/response_times.py:54-67 | the iteration, for any number of instances, finds such a window by a limit exactly when there is one |
| ResponseExact.PastPeriodBounds | tools/response_times.py:54-67 | an answer of the tool past the period that bounds every response |
| ResponseExact.DeadlinePastPeriod | tools/response_times.py:54-67 | and one, within the deadline, that does not |
| FixedPriority.ResponseBounded | tools/response_times.py:54-67 | in every fixed-priority schedule with releases a period apart, every instance is served within what the analysis gives, when that is no longer than the period |
| FixedPriority.FitsBounds | tools/response_times.py:54-67 | windows that fit any number of instances bound every response |
| FixedPriority.EnoughFits | tools/response_times.py:54-67 | what the analysis gives, no longer than the period, fits any number of them |
| FixedPriority.LastQuiet | tools/response_times.py:145-148 | before any time, back to one with nothing pending of a task and the higher priorities, only those run |
| FixedPriority.ArrivedWindow | tools/response_times.py:62-63 | releases a period apart bring at most a WCET for each period begun |
| FixedPriority.AboveBound | tools/response_times.py:62-63 | from a quiet time, higher priorities take no more than the analysis counts |
| EdfResponse.BusyPeriod | tools/response_times.py:70-83 | for a load below 1, and only then, it ends with the least positive solution of the demand equation, 0 when nothing costs anything |
| EdfResponse.StaysBelow | tools/response_times.py:70-83 | no window met is longer than the costs over one less the load |
| EdfResponse.EdfWindow | tools/response_times.py:103-117 | the inner iteration rises to its least fixed point, within the busy period |
| EdfResponse.WithinDemand | tools/response_times.py:103-117 | over the busy period a window asks for no more than the demand |
| EdfResponse.Offsets | tools/response_times.py:94-101 | the offsets tried are exactly those below the busy period where deadlines meet |
| EdfResponse.EdfResponseTime | tools/response_times.py:86-119 | the bound is the largest response over those offsets, at least the WCET and at most the deadline; none is given exactly for an overload or a response past it |
| EdfSchedule.EdfResponseBounded | tools/response_times.py:86-119 | for a load below 1 every instance in every earliest-deadline schedule, ties any way, is served within what the analysis gives, whatever the releases a period apart and the work of the others |
| EdfCosts.AskedWithCosts | tools/response_times.py:30-40 | what is asked of the processor with the costs is what is asked without them of the handlers and the tasks that restore a context, deadlines far enough off |
| EdfCosts.DemandWithCosts | tools/response_times.py:76-81 | so is the demand of the busy period, every task restoring |
| EdfCosts.LoadWithCosts | tools/response_times.py:74-75 | and the load |
| EdfCosts.CostsAreEdf | tools/response_times.py:38-40 | schedules with the handlers over all tasks, in the order of the releases, and the tasks by deadline are earliest-deadline ones of that task set |
| EdfCosts.EdfCostsExactly | tools/response_times.py:22-45 | for a load below 1 and any costs a time bounds every response in those schedules if and only if it bounds each response looked at |
| EdfCosts.WorstEdfResponseWithCosts | tools/response_times.py:86-119 | with any costs the tool's answer is the least bound on the responses; when it has none for a load below 1, a deadline can be missed |
| EdfExact.EdfExactly | tools/response_times.py:22-45 | for a load below 1 and no costs the analysis is exact: a time bounds every response in every earliest-deadline schedule if and only if it bounds each response looked at |
| EdfExact.WorstEdfResponse | tools/response_times.py:86-119 | without costs the tool's answer is the least bound on the responses; when it has none for a load below 1, a deadline can be missed |
| EdfExact.WindowReached | tools/response_times.py:122-142 | at any offset the window is reached: others released at 0, the task at its offset, ties against it |
| EdfExact.DoneCovers | tools/response_times.py:28-31 | in that schedule the instance at the offset is done only after a window that covers what it asks for |
| EdfSchedule.LastQuietBy | tools/response_times.py:22-35 | before a release, back to the last time all that was due by its deadline was served, only instances due by it run |
| EdfSchedule.QuietAfter | tools/response_times.py:70-83 | no such time is as long as the busy period |
| EdfSchedule.WindowEnds | tools/response_times.py:104-117 | a window that covers what it asks for is long enough for the instance |
| EdfSchedule.SameAsked | tools/response_times.py:94-101 | between two offsets the analysis looks at, the window does not change |

## Left out

- DraSafety: event-driven tasks under dynamic reclaiming and their excess, `DM_SLACK`, OTE, and the time the handler and a switch take.
- DraRecovery: the simulated queue is walked by index rather than by pointer, an SC of the empty-queue clock store does not fail, and no further interrupt cuts off the handler itself.
- PowerAware: TCBs are values in queues held as sequences, so link fields and the stale `CompletionTime` of a TCB out of the queue do not appear.
- AnnouncedFifo: the queue's own indices are unbounded, tied to the 32-bit ones by `WrappedAdvance` as long as no index goes a whole turn during one preemption; a descriptor is a heap object created as it is announced, not marked pointers on a stack.
- AnnouncedFifo.FifoQueue.TryEnqueue: the free-node pool of the user queues is the same queue started full; nodes and their contents are opaque.
- FourSlot: the buffers are state machines over values, a step for each store, since writer and reader interleave; bytes of a record are not told apart, a slot being filled is torn as a whole, and memory is sequentially consistent.
- ThreeSlot: the same, and nothing bounds how often an SC fails.
- TimerQueues.RunKeepsValid: a run goes on after a wraparound only where the queues are still in order, the states it leaves out of order not being followed further; a deadline clamped at a wraparound is kept as clamped.
- TimerQueues.RunFits: the deadline of an instance unfinished for more than two turns of the clock, shifted at each, leaves 32 bits.
- HardTimer.HardKernel.TimerInterrupt: the reschedule list is given whole, and pushes on it during the handler are left to `EventTasks`.
- TimerQueues: deadline-monotonic scheduling, where the ready queue goes by priority and event-driven tasks wait in relative periods; the flags of the timer hardware, so that a pass is one reading of the time.
- Server: `SynchronousTaskDeadlines` is unbounded; a server more than two turns ahead of the clock would leave 32 bits.
- EventTasks: the operations on the reschedule list are atomic, their LL/SC retries not shown.
- LivePool: the arrival queue is a set of blocks, its order being that of `TimerQueues`; a handle kept after its block was handed out again is the new task's.
- DmRanks: an allocation never fails, so creation is refused only past 255 tasks.
- FirmTask: deadline-monotonic scheduling and the ready queues of optional instances.
- Admission.IsTaskSchedulable: event-driven tasks and deadline-monotonic scheduling; the clock read is at most 2^30, its value before the handler shifts it.
- FirmSafety.AdmittedEnds: other instances may miss their deadlines for the one admitted, which the test does not claim to exclude.
- ResponseTime: costs and times are whole numbers where the tool takes floating point.
- EdfResponse: the order in which the offsets are tried is free.
- EdfSchedule: the kernel's costs, which `EdfCosts` adds.
- FixedPriority: the kernel's costs, which `ResponseCosts` adds.
- ResponseCosts.CostsExactly: earlier instances of the task analysed restore no context, as the analysis counts them.
- EdfCosts.EdfCostsExactly: the same; and where every handler is entered with its task the bound holds but need not be reached, a task released at an offset entering its own later than the analysis counts.
- Ports, context switches, speed drivers, sleep, allocation, tracing and measurement, reporting and board tools: hardware or input and output.

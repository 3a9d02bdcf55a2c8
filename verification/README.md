# PPSSPP core models

A Dafny model of the parts of PPSSPP in which a mistake is hard to see by reading one function, and proofs of
what they promise. `dafny verify dfyconfig.toml` checks all of it.

- **Event scheduler** (Core/CoreTiming.cpp). `EventQueue` is the queue as a stable sort; `TimingModel` and
  `TimingRuns` are the clock over one call and over whole runs; `PeriodicEvents` is the rescheduling idiom;
  `EventLists`, `EventStores` and `CoreTiming` are the intrusive lists, the two node pools and the scheduler class on
  the heap, which refines the model; `WakeupProtocol` is the hand-over from other threads as a step machine;
  `EmulatedTime` is the microsecond clock. A callback is an oracle: for the number of the firing, the event and its
  lateness, the scheduler calls it makes and the cycles it eats.
- **Save states** (Common/ChunkFile.h, Common/ChunkFile.cpp). `SaveFormat` has schemas, values and bytes; `ChunkFile` is
  the traversal in its four modes as a function on buffer, cursor, mode and error, which the class in `PointerWraps`
  computes; `SaveStates` and `SaveSafety` have the theorems; `LinkedListState` is DoLinkedList over the heap lists and
  `SchedulerStates` the DoState of the scheduler.
- **Emitters**. `LogicalImm`, `Arm64Machine`, `Arm64Constants` and `Arm64Spill` (Common/Arm64Emitter.cpp), `BitSets`
  (Common/BitSet.h), `ArmImmediates`, `ArmMachine` and `ArmConstants` (Common/ArmEmitter.cpp), `X64Emitter` and
  `X64NormalOps` (Common/x64Emitter.cpp) and `X64Analyzer` (Common/x64Analyzer.cpp). Each is proved against a small
  decoder or machine written from the processor manuals: DecodeBitMasks and the instruction descriptions of the Arm
  Architecture Reference Manual for A-profile (chapters C4, C6 and J1), section A5.2.4 and chapter A8 of the ARMv7-A
  edition, and sections 2.1.5 and 2.2.1 of volume 2A of the Intel 64 and IA-32 manual.
- **Ring buffer** (Common/FixedSizeQueue.h): `FixedSizeQueues`, an array refining a sequence.
- **Cheat interpreter** (Core/CwCheat.cpp): `CheatCodes` is a list of codes as a function on memory, `CwCheat` the
  engine with its cursor.

`Words` has machine words with their bitwise operators and `ByteOrder` little-endian numbers.

## Findings

Where the code does not do what its surroundings suggest, a lemma gives an input and another the exact condition.

| member | input | holds exactly when |
|---|---|---|
| `EmptyAdvanceLosesTicks` | Advance with no events and a slice of 1 moves GetTicks from 1 to 0 | slice 0, or at least 10000 (`EmptyAdvanceKeepsTicks`); over runs the losses are the only ones (`TicksConserved`) |
| `FarEventClosesSlice` | a head event 2^31 cycles away leaves downcount negative | `AdvanceOpensSlice` |
| `IdleOvershootsAncientHead` | a head event 2^31 + 1 cycles back is passed by 101 cycles | `IdleStaysAtDueHead` |
| `IdleGoesBack` | Idle from a downcount of -2 moves GetTicks from 2 to 1 | downcount at least -1 and no negative cap below it (`IdleMovesClock`) |
| `LateCallbackDrifts` | a callback 2^31 cycles late: its next event is 2^32 cycles off | no callback is 2^31 cycles late (`NoDrift`) |
| `EatingFirstDrifts` | a callback that eats cycles before rescheduling by period - cyclesLate | it reschedules before it eats (`NoDrift`) |
| `MidAppendIsPassedOver` | append, test, then raise | the flag is up or nothing is queued (`EveryPassDelivers`) |
| `RestoredQueueWaits` | a loaded shared list with the flag down | the same |
| `StringsStopAtNul` | a string with a NUL in it | no NUL (same lemma) |
| `FailedReadLinksNode` | one event and the marker 2, read into an empty list, leave the tail pointer null | no node was linked (`DoLinkedList`) |
| `FarPageMissed` | a constant whose page is 2^31 bytes or more away | no distance is cut (`MOVI2R`) |
| `StackIndexIsLost` | RSP as index is read as no index | the index is not RSP (`SeenIsMeant`) |
| `ByteForWiderMov` | MOV of an 8-bit immediate to a 32-bit operand writes a breakpoint | not XCHG, and not a byte immediate of MOV or TEST with a wider operand (`FormExists`) |
| `CmnDiffers` | CMN with the negative of 0 or of 0x80000000 | neither of them (`CmnIsCmp`); CMPI2R never emits those |
| `NoBaseIsShort` | MOV EAX, [4]: the length is 4 too short | the operand has a base register (`LoadIsReported`, `StoreIsReported`) |
| `BytesBehindAreReported` | MOV EAX, [RAX] reports the bytes behind it as displacement | there are displacement bytes, or those behind are 0 (same lemmas) |
| `ByteStoreIsWide` | MOV byte [RAX], 5 is reported with operand size 4 | the store is not of a byte immediate (`StoreIsReported`) |
| `EqualValuesStillSkip` | equal values compared for equality still skip a line | the operand's middle digits are 0 or its address is not valid (`ComparisonFallsThrough`) |

## Model

| member | source | states |
|---|---|---|
| `EventQueue.InsertStable` | Core/CoreTiming.cpp:292-308 | Adding an event keeps the queue sorted by time and puts the event behind all those of its own time: the one stable order of the old events with the new one last. |
| `EventQueue.InsertAllStable` | Core/CoreTiming.cpp:556-562 | Adding a list of events to a sorted queue one by one gives a stable sort of the two: sorted, and the events of each time in the order queue first, list next. |
| `EventQueue.StableOrderUnique` | Core/CoreTiming.cpp:292-308 | There is only one stable order of given events, so that the queue is determined by what was scheduled and when. |
| `EventQueue.WithoutStable` | Core/CoreTiming.cpp:323-365 | Unscheduling removes exactly the picked events: the others of each time stay, in order. |
| `EventQueue.RemovalStep` | Core/CoreTiming.cpp:347-362 | One turn of a removal loop: the node looked at is dropped exactly if it is picked, and then its time is the one the result is taken from. |
| `TimingModel.AdvanceKeepsTicks` | Core/CoreTiming.cpp:585-615 | Advance moves GetTicks by exactly the cycles its callbacks ate, less what its empty-queue branch takes. |
| `TimingModel.EmptyAdvanceKeepsTicks` | Core/CoreTiming.cpp:596-604 | With no events, Advance leaves the clock alone if and only if the slice was 0 or at least 10000 cycles long. |
| `TimingModel.EmptyAdvanceLosesTicks` | Core/CoreTiming.cpp:596-604 | A state in which Advance moves the clock back: an empty queue and a slice of one cycle. |
| `TimingModel.AdvanceOpensSlice` | Core/CoreTiming.cpp:605-615 | With a queue at rest that is not empty, the new slice ends no later than the head event, and at it if it is at most 100000000 cycles away; and the exact condition on the distance and on what the callbacks ate for downcount to be positive. |
| `TimingModel.FarEventClosesSlice` | Core/CoreTiming.cpp:608-614 | A head event 2^31 cycles away gives a slice that is not open: the cast to int turns the distance negative. |
| `TimingModel.IdleMovesClock` | Core/CoreTiming.cpp:630-656 | Idle moves GetTicks by the cycles it books and at most one more, and never back if and only if downcount is at least -1 and a negative cap is not below it. |
| `TimingModel.IdleGoesBack` | Core/CoreTiming.cpp:630-656 | A state in which Idle moves the clock back: a downcount of -2. |
| `TimingModel.IdleStopsAtHead` | Core/CoreTiming.cpp:636-648 | Idle passes neither the present nor the head event by more than one cycle, whenever the head is less than 2^31 cycles behind globalTimer. |
| `TimingModel.IdleStaysAtDueHead` | Core/CoreTiming.cpp:633-655 | For a head event that is due, at any distance, the exact condition under which Idle passes the present by no more than its nudge. |
| `TimingModel.IdleOvershootsAncientHead` | Core/CoreTiming.cpp:639-648 | A head event further back than 2^31 cycles past which Idle runs by 101 cycles. |
| `TimingRuns.TicksConserved` | Core/CoreTiming.cpp:239-242 | Over every run of executing, idling, scheduling, forcing checks and advancing, GetTicks moves by exactly the cycles executed, idled and eaten, plus one for each nudge of Idle, less the losses of Advance on an empty queue. |
| `TimingRuns.StepKeepsTicks` | Core/CoreTiming.cpp:575-656 | The same for one step of a run. |
| `TimingRuns.TicksNeverGoBack` | Core/CoreTiming.cpp:239-242 | Over every run that idles only from a downcount of at least -1 and with no negative cap, GetTicks goes back by no more than those losses. |
| `TimingRuns.PunctualLoopRests` | Core/CoreTiming.cpp:530-548 | With callbacks that eat nothing and schedule strictly into the future, the firing loop comes to rest within as many turns as events were due. |
| `TimingRuns.FiresExactlyTheDue` | Core/CoreTiming.cpp:530-548 | Over a sorted queue it fires exactly the events due when it began, each once, in order of time and then of insertion, with cyclesLate the time since, cut to 32 bits; what the callbacks add is merged in behind and does not fire. |
| `PeriodicEvents.FireKeepsGrid` | Core/CoreTiming.cpp:530-548 | From its grid of times an event of a kind that reschedules itself by period - cyclesLate stays on it over a firing if and only if the firing is of another kind or less than 2^31 cycles late. |
| `PeriodicEvents.NoDrift` | Core/CoreTiming.h:31-34 | Over every run, the k-th firing of an event that reschedules itself by period - cyclesLate is the one due at t0 + k * period, for every k, if and only if none of its callbacks was 2^31 cycles late. |
| `PeriodicEvents.DriftIsWraps` | Core/CoreTiming.cpp:530-548 | Over every run, with callbacks as late as may be: each firing, and the event pending, is off the grid by exactly what the cast of cyclesLate to int took off at the firings before, a sum of multiples of 2^32 that never cancel out. |
| `PeriodicEvents.LateCallbackDrifts` | Core/CoreTiming.cpp:540 | A callback that is 2^31 cycles late puts its next event 2^32 cycles off the grid. |
| `PeriodicEvents.FirstTracks` | Core/CoreTiming.h:31-34 | Before its first firing an event sets its own grid. |
| `PeriodicEvents.EatingFirstDrifts` | Core/CoreTiming.h:31-34 | A callback that eats cycles before it reschedules itself leaves the grid by as many cycles. |
| `EventLists.EventList.Add` | Core/CoreTiming.cpp:292-308 | The walk through the next pointers links the node in at the place Insert gives, keeps the nodes linked, none twice, and the order. |
| `EventLists.EventList.Append` | Core/CoreTiming.cpp:260-264 | The append through the tail pointer adds the event at the end; the tail pointer is again the last node. |
| `EventLists.EventList.Remove` | Core/CoreTiming.cpp:367-416 | The two loops of a removal unlink exactly the picked nodes, free each of them, keep the tail pointer, and return the time of the last one removed. |
| `EventLists.EventList.HasKind` | Core/CoreTiming.cpp:428-439 | IsScheduled: true if and only if an event of the type is in the queue. |
| `CoreTiming.Scheduler.Init` | Core/CoreTiming.cpp:205-215 | The first state satisfies the pointer invariants; slice and downcount are 20000. |
| `CoreTiming.Scheduler.ScheduleEvent` | Core/CoreTiming.cpp:313-320 | Over the heap: the event is inserted in the model queue, lists and pools stay acyclic and disjoint, and every node is kept. |
| `CoreTiming.Scheduler.ScheduleEventThreadsafe` | Core/CoreTiming.cpp:252-267 | Over the heap: the event is appended to the shared list, the flag is up, the tail pointer is the last node and the count of lent nodes covers the list. |
| `CoreTiming.Scheduler.UnscheduleEvent` | Core/CoreTiming.cpp:323-365 | Exactly the matching events are gone, the nodes are all kept, and the result is the time left of the last one. |
| `CoreTiming.Scheduler.UnscheduleThreadsafeEvent` | Core/CoreTiming.cpp:367-416 | The same for the shared list, its tail pointer and the count of lent nodes. |
| `CoreTiming.Scheduler.ForceCheck` | Core/CoreTiming.cpp:575-583 | The cycles of the slice are booked and the slice is closed, GetTicks unchanged. |
| `CoreTiming.Scheduler.Idle` | Core/CoreTiming.cpp:630-656 | The method refines the Idle of the clock model. |
| `CoreTiming.Scheduler.MoveEvents` | Core/CoreTiming.cpp:550-573 | The flag is down, the shared list is drained into the queue by a stable merge, and nodes move between the pools without loss. |
| `CoreTiming.Scheduler.ProcessFifoWaitEvents` | Core/CoreTiming.cpp:530-548 | The loop with its callbacks refines the firing loop of the model; a node is in no list while its callback runs, and in the pool afterwards. |
| `CoreTiming.Scheduler.Advance` | Core/CoreTiming.cpp:585-615 | Refines the Advance of the model, all pointer invariants kept. |
| `CoreTiming.Scheduler.ClearPendingEvents` | Core/CoreTiming.cpp:282-290 | The queue is empty and every node is kept. |
| `CoreTiming.Scheduler.Shutdown` | Core/CoreTiming.cpp:217-237 | Every node that was in a list or a pool is deleted, exactly once, and lists and pools are empty. |
| `CoreTiming.DeletePool` | Core/CoreTiming.cpp:223-228 | A deletion loop deletes exactly the nodes of its pool, each once. |
| `WakeupProtocol.ReachableInv` | Core/CoreTiming.cpp:252-267 | In every state of every interleaving: the lock has one owner; if an event is queued and the flag is down, then the CPU thread is between its clear and the end of its drain or a producer is between its append and its raise; everything taken or queued is in the order of its append. |
| `WakeupProtocol.EveryPassDelivers` | Core/CoreTiming.cpp:550-562 | From every reachable state with the CPU thread elsewhere: its next pass leaves none of the queued events queued, however the threads interleave, if and only if the flag is up or nothing is queued. |
| `WakeupProtocol.SettledPassDelivers` | Core/CoreTiming.cpp:592-593 | In particular every pass delivers unless a producer is between its append and its raise. |
| `WakeupProtocol.MidAppendIsPassedOver` | Core/CoreTiming.cpp:260-266 | A run in which a pass leaves an event queued: the producer had appended it and not yet raised the flag. |
| `WakeupProtocol.RestoredQueueWaits` | Core/CoreTiming.cpp:705-711 | A shared list filled while the flag is down, as loading a state fills it, is touched by no number of passes. |
| `EmulatedTime.TimeBase.GetGlobalTimeUs` | Core/CoreTiming.cpp:135-141 | The method computes the clock of the model, division truncating toward zero. |
| `EmulatedTime.TimeBase.SetClockFrequencyMHz` | Core/CoreTiming.cpp:102-113 | The new base is the time shown at the change. |
| `EmulatedTime.ChangeIsContinuous` | Core/CoreTiming.cpp:102-113 | The microseconds shown just after a change of frequency are those shown just before it. |
| `EmulatedTime.TimeNeverGoesBack` | Core/CoreTiming.cpp:135-141 | Over every interleaving of ticks and changes the microseconds do not decrease. |
| `EmulatedTime.LagIsBounded` | Core/CoreTiming.cpp:102-141 | After k changes the clock is behind the exact piecewise time by at least 0 and less than k + 1 microseconds. |
| `SaveFormat.U32RoundTrip` | Common/ChunkFile.cpp:75-87 | Counts and versions come back from their four bytes. |
| `SaveStates.Traverse` | Common/ChunkFile.h:207-469 | In all four modes, for every schema and value, maps and sets in any asymmetric order of their keys: over the bytes of the value the traversal yields the value, whatever the object held before a read, and leaves the cursor exactly behind them. |
| `SaveStates.TraverseSection` | Common/ChunkFile.cpp:26-49 | A section of an older version is read by a newer program that still supports it, cursor in step. |
| `SaveSafety.SaveThenLoad` | Common/ChunkFile.h:597-631 | MEASURE returns the length of the bytes; WRITE fills exactly those bytes of a buffer at least as long; READ of that buffer rebuilds the value in any object. |
| `SaveSafety.WriteFills` | Common/ChunkFile.h:619-631 | WRITE leaves what is behind the measured bytes as it was and reports no error. |
| `SaveSafety.ReadsBack` | Common/ChunkFile.h:597-608 | READ of the bytes in front of any suffix rebuilds the value and stops at the suffix. |
| `SaveSafety.VerifyAccepts` | Common/ChunkFile.h:669-691 | VERIFY finds no difference in what WRITE wrote. |
| `SaveSafety.EncodingIsInjective` | Common/ChunkFile.h:207-469 | No two values of a schema have the same bytes. |
| `SaveSafety.StringsStopAtNul` | Common/ChunkFile.cpp:89-100 | A string comes back up to its first NUL, hence whole if and only if it has none; the cursor is in step in any case. |
| `SaveSafety.FoundSection` | Common/ChunkFile.cpp:31-48 | With the marker there, the version decides: in range it is returned, else the read fails. |
| `SaveSafety.MissingSection` | Common/ChunkFile.cpp:31-48 | With no marker and no nameless version-1 section there, version 0 is returned at an unmoved cursor if the range allows it, else the read fails. |
| `SaveSafety.LegacySection` | Common/ChunkFile.cpp:33-35 | With no name but the version 1 there, the section is found if the marker follows, and else the read fails. |
| `SaveSafety.LegacySectionLoads` | Common/ChunkFile.cpp:33-35 | A section of version 1 written before there were names loads, cursor behind it. |
| `SaveSafety.OptionalSectionSkipped` | Common/ChunkFile.cpp:31-48 | What follows an optional section reads the same from a stream without that section. |
| `SaveSafety.OlderSectionLoads` | Common/ChunkFile.cpp:26-49 | A section written with an older version yields its value, later fields reset. |
| `SaveSafety.ErrorNeverLowers` | Common/ChunkFile.cpp:51-58 | No Do of a schema lowers the error or changes the mode other than to MEASURE by failing. |
| `SaveSafety.FailureSticks` | Common/ChunkFile.cpp:51-58 | After a failure no Do of a schema changes the object, the buffer or the error; it moves the cursor only. |
| `PointerWraps.PointerWrap.SetError` | Common/ChunkFile.cpp:51-58 | The method refines the error latch of the model. |
| `PointerWraps.PointerWrap.DoVoid` | Common/ChunkFile.cpp:75-87 | Four modes over the buffer and the cursor, as in the model. |
| `PointerWraps.PointerWrap.ExpectVoid` | Common/ChunkFile.cpp:60-73 | A mismatch on reading is reported and does not advance the cursor. |
| `PointerWraps.PointerWrap.DoMarker` | Common/ChunkFile.cpp:149-156 | A wrong marker on reading is a failure. |
| `PointerWraps.PointerWrap.FindSection` | Common/ChunkFile.cpp:26-49 | The method refines the search for a section of the model. |
| `PointerWraps.PointerWrap.DoText` | Common/ChunkFile.cpp:89-100 | The method refines the string traversal of the model. |
| `PointerWraps.PointerWrap.ReadEntries` | Common/ChunkFile.h:213-226 | The read loop of a map refines the model. |
| `PointerWraps.PointerWrap.ReadItems` | Common/ChunkFile.h:445-455 | The read loop of a set refines the model. |
| `PointerWraps.PointerWrap.Do` | Common/ChunkFile.h:207-469 | The traversal over buffer and cursor, with its loops, computes the traversal the theorems are about. |
| `LinkedListState.ListTraverse` | Common/ChunkFile.h:519-582 | Over the bytes of a saved event list every mode yields that list, whatever list was there before a read: shorter, longer or empty; lists of the older layout, whatever their padding holds, are read as well. |
| `LinkedListState.ListErrorNeverLowers` | Common/ChunkFile.h:519-582 | No DoLinkedList lowers the error or changes the mode other than to MEASURE by failing. |
| `LinkedListState.ListFailureSticks` | Common/ChunkFile.h:519-582 | After a failure a DoLinkedList changes neither the list nor the buffer nor the error; it moves the cursor only. |
| `LinkedListState.DoLinkedList` | Common/ChunkFile.h:519-582 | Over the heap: values and wrapper as in the model; nodes that were there stay in place; only missing nodes are taken from the pool or allocated and only surplus ones freed, and the count of lent nodes moves with the length of the list; the tail pointer is the last node, unless a read failed, and then if and only if no node was linked; without a read no node moves, and after a failure no event changes either. |
| `LinkedListState.FailedReadLinksNode` | Common/ChunkFile.h:551-557 | Bytes whose read fails after one node was linked, so that the tail pointer of an empty list stays behind. |
| `LinkedListState.Finish` | Common/ChunkFile.h:551-577 | The end of the loop: a marker other than 0 is a failure; a read that did not fail cuts the list off and frees the rest. |
| `SchedulerStates.SchedulerTraverse` | Core/CoreTiming.cpp:692-727 | In all four modes: over the bytes of a saved scheduler DoState yields it, whatever scheduler stood there before a read, with the number of event types resized, and leaves the cursor behind them; sections of versions 1 and 2 are read, the clock base that version 1 lacks being reset. |
| `SchedulerStates.SchedulerComesBack` | Core/CoreTiming.cpp:692-727 | Measuring, writing and reading agree: what one scheduler saves any other loads. |
| `SchedulerStates.SchedulerErrorNeverLowers` | Core/CoreTiming.cpp:692-727 | DoState never lowers the error, and after a failure changes nothing but the cursor. |
| `SchedulerStates.DoState` | Core/CoreTiming.cpp:692-727 | Over the heap: both lists, the clocks and the event types become what the model says; every node is kept and the stores stay disjoint; flag, downcount and log are untouched; if nothing fails and the list read is in order, the scheduler satisfies all its invariants again. |
| `LogicalImm.IsImmLogical` | Common/Arm64Emitter.cpp:60-255 | For 32 and 64 bits: true if and only if some n, imm_s and imm_r decode to the value, and then the returned fields do. |
| `LogicalImm.FindStripe` | Common/Arm64Emitter.cpp:132-211 | From the powers of two it isolates it finds the one run of ones repeated every 2 to 64 bits that the word is, or there is none. |
| `LogicalImm.EncodedIsStriped` | Common/Arm64Emitter.cpp:96-113 | Every encoding that decodes decodes to a word that, normalised as the code does, is such a repeated run. |
| `LogicalImm.FieldsDecode` | Common/Arm64Emitter.cpp:216-254 | The fields derived from a repeated run decode to the value it was normalised from. |
| `LogicalImm.StripedPasses` | Common/Arm64Emitter.cpp:132-211 | A repeated run passes the tests, and only its own start, end and distance are found. |
| `LogicalImm.PassesIsStriped` | Common/Arm64Emitter.cpp:132-211 | What passes the tests is a repeated run. |
| `LogicalImm.CountLeadingZeros` | Common/Arm64Emitter.cpp:26-35 | The loop returns the number of leading zeros: the bit after them is set and those above are not. |
| `Arm64Constants.DecodeMoveWide` | Common/Arm64Emitter.cpp:702-710 | The word of MOVZ, MOVN or MOVK decodes to its operands. |
| `Arm64Constants.DecodeAddress` | Common/Arm64Emitter.cpp:795-801 | The word of ADR or ADRP decodes to its signed distance, for all 21 bits. |
| `Arm64Constants.DecodeAdd` | Common/Arm64Emitter.cpp:732-742 | The word of an ADD with an immediate decodes to its operands. |
| `Arm64Constants.DecodeOrn` | Common/Arm64Emitter.cpp:599-608 | The word of the ORN used decodes to its operands. |
| `Arm64Constants.PageValueIs` | Common/Arm64Emitter.cpp:1916-1943 | ADRP with its distance cut to 32 bits, plus the low bits, gives the immediate if and only if the distance fits; the low 32 bits are right in any case. |
| `Arm64Constants.FarPageMissed` | Common/Arm64Emitter.cpp:1916-1943 | An immediate and a code pointer for which the sequence loads another value. |
| `Arm64Constants.Emitter.MOVI2R` | Common/Arm64Emitter.cpp:1871-1959 | For every width, immediate, code pointer and optimize flag, the emitted words executed from any registers leave a value that is the immediate if and only if no page distance was cut short, and change nothing else; its low 32 bits are right in any case. |
| `BitSets.Iterator.Next` | Common/BitSet.h:100-113 | Iteration moves to the next set bit above the last one, or to the end. |
| `BitSets.Elements` | Common/BitSet.h:93-162 | A loop over the set visits exactly its bits, in ascending order. |
| `BitSets.CountSetBits` | Common/BitSet.h:14-24 | The bit trick returns the number of set bits. |
| `BitSets.CountIsSize` | Common/BitSet.h:155-162 | Which is the number of elements visited. |
| `Arm64Spill.LayoutIs` | Common/Arm64Emitter.cpp:3615-3689 | Every register of the mask has exactly one 16-byte cell, whichever way of pushing is taken. |
| `Arm64Spill.PushDoes` | Common/Arm64Emitter.cpp:3615-3689 | The push lowers SP by 16 bytes a register, writes each register to its own cell and no other memory, and keeps the registers. |
| `Arm64Spill.PopDoes` | Common/Arm64Emitter.cpp:3691-3770 | The pop loads each register from the cell the push gave it and raises SP as much. |
| `Arm64Spill.PopUndoesPush` | Common/Arm64Emitter.cpp:3615-3770 | For every mask and choice of tmp, and any use of the registers in between that keeps SP and the cells: the pop restores every register of the mask, keeps the others, and SP is back. |
| `Arm64Spill.FloatEmitter.ABI_PushRegisters` | Common/Arm64Emitter.cpp:3615-3689 | The loops over runs, islands and pairs emit the sequence that is proved about. |
| `Arm64Spill.FloatEmitter.ABI_PopRegisters` | Common/Arm64Emitter.cpp:3691-3770 | And those of the pop. |
| `X64Emitter.MemoryDecodes` | Common/x64Emitter.cpp:220-357 | For every base, index, scale and displacement, with RSP, R12, RBP and R13 as bases and without a base, the decoder reads the bytes back as the operand, before any bytes. |
| `X64Emitter.RipDecodes` | Common/x64Emitter.cpp:230-251 | A relative operand resolves to its address from where the instruction ends. |
| `X64Emitter.RegisterDecodes` | Common/x64Emitter.cpp:253-257 | A register operand is read back, high-byte registers included. |
| `X64Emitter.RestDecodes` | Common/x64Emitter.cpp:220-357 | Any operand is read back. |
| `X64Emitter.SeenIsMeant` | Common/x64Emitter.cpp:278-346 | The operand read is the one meant if and only if the index is not RSP. |
| `X64Emitter.StackIndexIsLost` | Common/x64Emitter.cpp:278-346 | RAX + RSP * 2 is read as RAX. |
| `X64Emitter.AddressIsIntended` | Common/x64Emitter.cpp:278-346 | The 64-bit address computed from any registers is the one meant if and only if the index is not RSP or RSP times the scale is 0 modulo 2^64. |
| `X64Emitter.XEmitter.WriteRex` | Common/x64Emitter.cpp:161-193 | The prefix is written if and only if a field, the width or a low-byte register needs it. |
| `X64Emitter.XEmitter.WriteRest` | Common/x64Emitter.cpp:220-357 | What is written is read back as the operand wherever it stands. |
| `X64NormalOps.RegFormDecodes` | Common/x64Emitter.cpp:1223-1237 | The register forms decode to the operation with its operands in order. |
| `X64NormalOps.RmImmDecodes` | Common/x64Emitter.cpp:1149-1192 | The forms with an immediate behind an operand decode to the operation, the operand and the sign-extended immediate. |
| `X64NormalOps.RegImmDecodes` | Common/x64Emitter.cpp:1133-1188 | The short forms for the accumulator and for MOV decode to the register and the immediate. |
| `X64NormalOps.ShorteningKeepsValue` | Common/x64Emitter.cpp:1157-1166 | The immediate cut to one byte sign-extends to the one given. |
| `X64NormalOps.FormExists` | Common/x64Emitter.cpp:1194-1201 | An immediate is written if and only if the operation is not XCHG and it is not MOV or TEST of a wider operand with an 8-bit immediate; there the form in the table is the breakpoint byte 0xCC. |
| `X64NormalOps.ByteForWiderMov` | Common/x64Emitter.cpp:1194-1201 | A byte moved to a 32-bit operand: such a form. |
| `X64NormalOps.WriteNormalOp` | Common/x64Emitter.cpp:1257-1281 | For every operation, width and pair of operands with a case in the code, the bytes decode to exactly the instruction asked for, relative operands resolved behind the immediate; where there is none the opcode written is the breakpoint byte. |
| `X64Analyzer.DisassembleMov` | Common/x64Analyzer.cpp:20-230 | The method with its byte-wise walk computes what the lemmas are about and fills the fields. |
| `X64Analyzer.LoadIsReported` | Common/x64Analyzer.cpp:184-229 | On any load that the decoder knows: refused if and only if it is of one byte with a wider prefix; else size and registers are right; the length is, if and only if there is a base register, and else 4 too short; the displacement is, if and only if the mode has displacement bytes, or there is no base register, or the four bytes behind the operand are 0. |
| `X64Analyzer.BytesBehindAreReported` | Common/x64Analyzer.cpp:136 | MOV EAX, [RAX]: the four bytes behind the instruction are reported as its displacement. |
| `X64Analyzer.NoBaseIsShort` | Common/x64Analyzer.cpp:106-138 | MOV EAX, [4] without a base register: 3 of its 7 bytes are counted. |
| `X64Analyzer.StoreIsReported` | Common/x64Analyzer.cpp:140-183 | On any store that the decoder knows: refused if and only if it is of a byte register; else length and displacement as for loads; the immediate is right with a base register and else the low bytes of the displacement; a byte immediate is reported with the size of a wider operand and a 64-bit one not as an immediate. |
| `X64Analyzer.ByteStoreIsWide` | Common/x64Analyzer.cpp:144-149 | MOV byte [RAX], 5 is reported with operand size 4. |
| `X64Analyzer.WideningIsReported` | Common/x64Analyzer.cpp:191-213 | MOVZX and MOVSX from any memory operand are accepted with the source size and the kind of extension, length and displacement as for loads; MOVSXD is not. |
| `X64Analyzer.MOVSX` | Common/x64Emitter.cpp:838-869 | What is written decodes to the sign extension asked for, or the plain move for equal widths. |
| `X64Analyzer.MOVZX` | Common/x64Emitter.cpp:871-903 | What is written decodes to the zero extension asked for, the 32-bit form serving for 64 bits. |
| `X64Analyzer.WrittenLoadIsRead` | Common/x64Analyzer.cpp:20-230 | Any MOV load from memory that the emitter wrote is reported as above; the displacement is right if and only if the emitter writes one (and it writes none where it is 0 and the base allows it), or there is no base register, or the four bytes behind are 0. |
| `X64Analyzer.WrittenStoreIsRead` | Common/x64Analyzer.cpp:20-230 | Any MOV store to memory that the emitter wrote is. |
| `X64Analyzer.WrittenWideningIsRead` | Common/x64Analyzer.cpp:20-230 | Any MOVZX or MOVSX that the emitter wrote is. |
| `ArmImmediates.TryMakeOperand2` | Common/ArmEmitter.cpp:61-71 | True if and only if the word is a byte rotated right by an even amount, and then the operand expands to the word. |
| `ArmImmediates.TryMakeOperand2_AllowInverse` | Common/ArmEmitter.cpp:73-82 | True if and only if the word or its complement is encodable; the operand expands to the one the flag names. |
| `ArmImmediates.TryMakeOperand2_AllowNegation` | Common/ArmEmitter.cpp:84-93 | The same with the negative. |
| `ArmMachine.CmnIsCmp` | Common/ArmEmitter.cpp:341-354 | Comparing by CMN with the negative sets the flags of CMP, for every register content, if and only if the value is neither 0 nor 0x80000000. |
| `ArmMachine.CmnDiffers` | Common/ArmEmitter.cpp:341-354 | At 0 the carry differs, at 0x80000000 the overflow. |
| `ArmConstants.Windows` | Common/ArmEmitter.cpp:519-532 | The byte windows taken two bits at a time are encodable and together are the word. |
| `ArmConstants.ShiftedWindows` | Common/ArmEmitter.cpp:120-129 | So are those of the two-operand form. |
| `ArmConstants.ResultChains` | Common/ArmEmitter.cpp:298-328 | Applying ORR, BIC, ADD or SUB to two parts in turn is applying it once to the parts combined. |
| `ArmConstants.ARMXEmitter.TrySetValue_TwoOp` | Common/ArmEmitter.cpp:106-131 | If it succeeds the code loads the value, or for the value 0 nothing is emitted; if not, nothing is emitted either. |
| `ArmConstants.ARMXEmitter.MOVI2R` | Common/ArmEmitter.cpp:492-540 | With and without ARMv7 and for both values of optimize, the code leaves the value in the register and changes nothing else. |
| `ArmConstants.ARMXEmitter.ADDI2R` | Common/ArmEmitter.cpp:197-237 | The code leaves rs + val in rd, at most the scratch register lost besides. |
| `ArmConstants.ARMXEmitter.SUBI2R` | Common/ArmEmitter.cpp:239-251 | The code leaves rs - val in rd. |
| `ArmConstants.ARMXEmitter.ANDI2R` | Common/ArmEmitter.cpp:253-331 | The code leaves rs & val in rd, through AND, BIC, UBFX, a chain of BICs or the scratch register. |
| `ArmConstants.ARMXEmitter.ORI2R` | Common/ArmEmitter.cpp:375-433 | The code leaves the bitwise or of rs and val in rd. |
| `ArmConstants.ARMXEmitter.EORI2R` | Common/ArmEmitter.cpp:435-457 | The code leaves the exclusive or of rs and val in rd. |
| `ArmConstants.ARMXEmitter.CMPI2R` | Common/ArmEmitter.cpp:333-354 | The flags are those of comparing rs with val, whichever form is taken. |
| `FixedSizeQueues.RingSplits` | Common/FixedSizeQueue.h:60-96 | A stretch of the ring is two spans of the storage, and the rest of the ring goes on behind them. |
| `FixedSizeQueues.FixedSizeQueue.Push` | Common/FixedSizeQueue.h:51-57 | Adds one element at the end, through the wrap. |
| `FixedSizeQueues.FixedSizeQueue.PopFront` | Common/FixedSizeQueue.h:98-124 | Takes the oldest element. |
| `FixedSizeQueues.FixedSizeQueue.PushPointers` | Common/FixedSizeQueue.h:60-76 | Two disjoint spans that are exactly the next size slots behind what the queue holds, which stays as it was. |
| `FixedSizeQueues.FixedSizeQueue.PopPointers` | Common/FixedSizeQueue.h:78-96 | Two disjoint spans that hold the oldest min(size, count) elements in order. |
| `FixedSizeQueues.FixedSizeQueue.PushAll` | Common/FixedSizeQueue.h:60-76 | A producer that fills the spans has added its data in order, the exact wrap included. |
| `CheatCodes.TurnsLeadOn` | Core/CwCheat.cpp:288-303 | A run is the chain of its turns, each the one code at its place, ending in the final state. |
| `CheatCodes.EachLineOnce` | Core/CwCheat.cpp:195-223 | Codes are run in the order of the list and no line belongs to two: each turn begins at or behind the end of the one before, skipped lines included. |
| `CheatCodes.FaultsExactly` | Core/CwCheat.cpp:347-354 | A turn reads a missing operand if and only if its code needs one and takes in the rest of the list. |
| `CheatCodes.WellFormedRunsOut` | Core/CwCheat.cpp:288-303 | A list in which every such code begins with 0 and has a line behind it is run to its end. |
| `CheatCodes.StopperEnds` | Core/CwCheat.cpp:579-587 | Behind a stopper whose word is not in memory nothing is run; behind any other the next line is. |
| `CheatCodes.SkippedLinesDoNothing` | Core/CwCheat.cpp:225-237 | Rewriting the lines that a failed test skips, but for whether they begin with 0 and whether they are 0, changes neither memory nor the rest of the run. |
| `CheatCodes.RunSame` | Core/CwCheat.cpp:288-745 | A run depends on nothing in front of the cursor. |
| `CheatCodes.ComparisonFallsThrough` | Core/CwCheat.cpp:656-735 | A comparison of two places in memory runs on into the test below it: the exact condition under which the next line is run. |
| `CheatCodes.EqualValuesStillSkip` | Core/CwCheat.cpp:656-735 | Comparing equal values for equality still skips a line. |
| `CheatCodes.PatchElsewhere` | Core/CwCheat.cpp:386-404 | A patch leaves alone what none of its valid cells covers. |
| `CheatCodes.PatchedCell` | Core/CwCheat.cpp:386-404 | And leaves in each valid cell its value, unless a later one overlaps it. |
| `CwCheat.CWCheatEngine.GetNextCode` | Core/CwCheat.cpp:195-223 | Returns the numbers of the code at the cursor; one whose first number does not begin with 0 takes in all remaining lines. |
| `CwCheat.CWCheatEngine.SkipCodes` | Core/CwCheat.cpp:225-237 | Skips up to count codes, and none behind one that is 0. |
| `CwCheat.CWCheatEngine.SkipAllCodes` | Core/CwCheat.cpp:239-241 | The cursor is behind every code, by wrapping past 0. |
| `CwCheat.CWCheatEngine.PatchMemory` | Core/CwCheat.cpp:392-403 | The loop of the patch codes writes the cells of the model. |
| `CwCheat.CWCheatEngine.PointerCommand` | Core/CwCheat.cpp:416-500 | The pointer code with its further lines refines the model. |
| `CwCheat.CWCheatEngine.TestCommand` | Core/CwCheat.cpp:588-706 | The tests and where they skip to, as in the model. |
| `CwCheat.CWCheatEngine.Run` | Core/CwCheat.cpp:288-745 | Terminates for every list, exited, with memory and cursor as the model has them. |

## Left out

- Integer widths of the clock: globalTimer, slicelength, downcount and event times are unbounded integers, except for the casts to int the code writes; s64 and int overflow is not modelled.
- Termination of ProcessFifoWaitEvents for arbitrary callbacks: Advance and the firing loop take a bound within which the callbacks come to rest; PunctualLoopRests gives it for callbacks that eat nothing.
- RegisterEvent and UnregisterAllEvents, advanceCallback, the MHz-change callbacks and GetGlobalTimeUsScaled.
- SchedulerStates.DoState: without the callbacks on a change of frequency; a negative number of event types, at which resize throws, clears the wrapper's flag; of an event type only whether it is registered is kept; the struct of the older versions is taken to have 4 bytes of padding.
- The removal loops are written four times in the source; they are modelled once, over what an event is matched by and whether the list has a tail pointer.
- The externalEventSection lock, the atomic flag and the threads exist in WakeupProtocol only, where each access is one atomic step; the heap classes are sequential.
- EventStores counts lent nodes for both queues; the source does so for the shared one, the only one whose count is read.
- CoreTiming.Scheduler.MoveEvents: clears the tail pointer when the last node leaves the list, not after the loop.
- LinkedListState.DoLinkedList: the payload of a new node is blank before it is read; in the code it is what the allocator left.
- PointerWraps.PointerWrap.Do: reading outside the buffer and a failed VERIFY assertion clear a flag; what the program does then is not modelled.
- The order of a map's or set's keys is a parameter of its schema, which must be asymmetric. Unordered containers, multimaps, pointers as elements, wide strings, tm and the file header with its compression are not modelled.
- Encoders add fields at their places where the source ORs them; the fields do not overlap.
- Arm64Spill.PushDoes: is about instructions with their operands, not words, and about 16-byte cells; SP does not wrap.
- ArmConstants.ARMXEmitter.MOVI2R: and the other ARM helpers are about instructions, not words; R15 is not an operand.
- Arm64Constants.Emitter.MOVI2R: the differences of 64-bit addresses wrap where C++ leaves signed overflow undefined.
- The general-register spill of ARM64, TBZ and TBNZ, IsImmArithmetic, branches and fixups.
- X64NormalOps.WriteNormalOp: code pointers do not wrap at 2^64; the 32-bit build, VEX, shifts, bit tests and the SSE tables are not modelled.
- X64Emitter.XEmitter.WriteRest: a relative operand must be in reach of 32 bits, as the code asserts.
- BitSets.Iterator.Next: 32-bit sets only; the code shifts an int.
- FixedSizeQueues.FixedSizeQueue.PushPointers: a sequential queue; LockFreeBlockQueue is not modelled.
- CwCheat.CWCheatEngine.Run: reading the first number of a missing operand is undefined in C++; the model stops there and says so. Instruction-cache invalidation, the ini file, the split of a line into its two numbers and the real memory map are not modelled; an address is valid or not as a whole, and a list has an even number of parts.
- CheatCodes.EachLineOnce: the case 0x9 of the pointer codes cannot be reached, since the leading digit is compared with its sign, and is not modelled.
- The literal pool and float helpers of the ARM emitter, the MIPS emitter, colour conversion, thunks and ABI calls.

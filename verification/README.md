# Verification of the NoRa32 console

The repository holds an emulator for a small RISC-V console, the console's kernel and system
library, and the tool that builds its cartridges. This project models the parts whose correctness
is hard to see and proves what they promise. `dafny verify dfyconfig.toml` checks everything.

* **Lock-free queue** (`Mpmc*.dfy`): the multi-producer multi-consumer ring with a sequence number
  per slot, its two futex semaphores and the kernel's wait and wake calls, as one transition system
  with a step per atomic operation. `MpmcInvariant` is the inductive invariant, `MpmcRing` and
  `MpmcSafety` show that each kind of step keeps it, `MpmcTheorems` draws the conclusions for every
  run of any number of threads on a ring of any size, and `MpmcProgress` shows that every fair
  schedule takes every call to its end.
* **Heap** (`HeapSpec`, `Heap`, `HeapTheorems`): a first-fit allocator over block headers. The class
  edits headers in place; it is proved equal to functions on the list of blocks, about which the
  promises are proved.
* **Scheduler** (`SchedulerSpec`, `Scheduler`, `SchedulerTheorems`, `SchedulerRuns`, `SchedulerLaws`):
  priorities with round robin, sleeping with deadlines, futexes and the preemption timer, the traps
  that enter the kernel, and what holds over every sequence of them. `MpmcKernel` ties the queue model
  to it: every trap is, for the queue, one of the steps that its model allows.
* **Cartridge filesystem** (`Adler`, `CartImage`, `CartFs`, `CartFsTheorems`, `CartFsVisits`,
  `CartFsEnds`): the writer that back-patches a byte buffer, the reader that walks the bytes, their
  round trip, and on which bytes the reader comes to an end.
* **Sound** (`Adpcm`, `Nrad`, `Spu`, `SpuTheorems`, `Envelope`): the block codec and stream format of
  the tool, the voice decoder of the emulated hardware, their agreement, and the volume envelope.
* **Emulator** (`PageCache`, `ClockSpec`, `ClockTheorems`, `Sync`, `Ring`, `Dma`, `MemoryMap`): the cache
  of decoded pages; lazy time keeping, with the timing of all five devices, the event loop and the
  frame loop; the 32-bit ring buffer and the DMA engine built on it.
* **Arithmetic** (`Fp32`, `Arith`): the fixed-point square root.

Objects that the source updates in place are classes whose methods are proved against functions of
the old state; the theorem modules then speak about those functions. A value that comes from outside
the modelled code is a parameter: clock readings, the outcome of a stack allocation, the page that a
random score selects for eviction, the decoder of one instruction word, the instructions that the
emulated CPU executes with the cycles they take, which names are in UTF-8.

Where the code does not do what one would expect, the code is modelled and the difference is proved:

* a lookup in the filesystem never restores the path that it has used up, so that a missing file may
  be answered with another one (`LookupMisleads`, `LookupThroughFile`, `LookupSkipsDirectory`); for
  every path `LookupAnswers` gives the answer, and `MissingPathIff` says when a missing path is
  reported;
* an empty directory seems to hold what is behind it: the check gives the right counts if and only if
  there is none (`CheckIff`), and otherwise too high ones or, if the last entry is one, an error
  (`CheckOfTree`);
* a visit need not end, since pointers may lead back: `EndlessVisit` is an image, `CheckEndsIff` and
  `LookupEndsIff` say exactly when the check and a lookup end, and `ForwardEnds` when every visit does,
  as it does on all that the writer makes (`TreeVisitEnds`);
* a futex wait whose deadline passes within its own call returns as if it had been woken
  (`FallsAsleep`); with zero ticks, documented as no timeout, it returns at once (`EcallFutexWait`);
* a task spawned into a dead slot does not preempt a less important one (`SpawnKeepsTop`);
* an allocation request that wraps around is served with an empty payload (`WrappedRequestIsShort`,
  `AllocAddsOne`);
* a DMA transfer to a place behind its source that overlaps it copies what it has written itself,
  unless it is done in one pass through its buffer (`PlainIff`, `OverwrittenFirst`);
* an attack of the volume envelope never goes over to the decay by itself (`AttackGoesOn`);
* an image that ends exactly with the ROM is refused (`OpensImage`);
* an audio stream without samples cannot be decoded again (`RoundTrip` of `Nrad`);
* starting a voice keeps its loop target (`TwoDecodersAgree`);
* the square root may be one too large in the last place: `OneMoreHappens` is an instance, and
  `RoundedUpIff` says exactly when.

## Model

| member | source | states |
|---|---|---|
| `MpmcTheorems.StepInv` | nr32-sys/src/sync/fifo.rs:45-127 | every atomic step of every thread keeps the invariant that ties sequence numbers, claimed slots, semaphore tokens and sleepers together |
| `MpmcTheorems.ReachableInv` | nr32-sys/src/sync/fifo.rs:26-141 | the invariant holds in every reachable state, for any capacity and any number of threads |
| `MpmcTheorems.StepRefinesQueue` | nr32-sys/src/sync/fifo.rs:52-127 | a successful claim on the write or read index is one enqueue or dequeue of an atomic queue, and every other step leaves that queue unchanged |
| `MpmcTheorems.ExecRefinesQueue` | nr32-sys/src/sync/fifo.rs:45-141 | replaying the claims of any run on an atomic queue never dequeues from an empty one and gives the same contents and outputs |
| `MpmcTheorems.FinishedCalls` | nr32-sys/src/sync/fifo.rs:80-141 | a finished pop returned the value of the push claim with its own number; no two finished calls of a kind share a number |
| `MpmcTheorems.OneOwnerPerSlot` | nr32-sys/src/sync/fifo.rs:59-118 | two threads that are past their claims and not yet done with their slots own different slots |
| `MpmcTheorems.AccessesAreSafe` | nr32-sys/src/sync/fifo.rs:59-118 | a pusher writes only into a slot whose last value was moved out, a popper reads only the value of its own position, not read before |
| `MpmcTheorems.EachTakenOnce` | nr32-sys/src/sync/fifo.rs:98-127 | each pop claim reads exactly the value of the push claim with the same number, or has not read yet |
| `MpmcTheorems.TokenConservation` | nr32-sys/src/sync/semaphore.rs:25-68 | the two semaphore values and the calls in flight add up to the capacity |
| `MpmcTheorems.SpinsOnlyForOwner` | nr32-sys/src/sync/fifo.rs:45-127 | a call spins only while another thread is between its claim of the same slot and its store to the sequence number |
| `MpmcTheorems.NoLostWakeup` | nr32-sys/src/sync/semaphore.rs:47-68 | while a thread sleeps, the semaphore value is at most the posters still to wake plus the woken waiters still to retry |
| `MpmcTheorems.NoDeadlock` | nr32-sys/src/sync/semaphore.rs:47-68 | when nobody can move, sleeping pushers mean a full queue, sleeping poppers an empty one, and never both |
| `MpmcTheorems.RefusedOnlyAtZero` | nr32-sys/src/sync/semaphore.rs:25-44 | a non-blocking call is refused only after seeing its semaphore at zero |
| `MpmcProgress.TurnWorks` | nr32-sys/src/sync/fifo.rs:45-127 | a step of any call leaves less work for all calls together, however many others it sets back, unless its thread spins, which no other thread notices |
| `MpmcProgress.SomebodyHelps` | nr32-sys/src/sync/fifo.rs:45-127 | in every reachable state in which a call is neither over nor asleep, some thread gets on with its next step |
| `MpmcProgress.RoundWorks` | nr32-sys/src/sync/fifo.rs:45-127 | every round in which each thread has a turn, in any order and however often, leaves less work, until all calls are over or asleep |
| `MpmcProgress.FairRunEnds` | nr32-sys/src/sync/fifo.rs:45-127 | from every reachable state every fair schedule gets to where all calls are over or asleep, within a number of rounds that depends on the number of threads only |
| `MpmcProgress.CallsEnd` | nr32-sys/src/sync/fifo.rs:45-141 | there each call that was under way is finished, or did not block and is refused, or sleeps: a push because the queue is full, a pop because it is empty |
| `MpmcProgress.SomeRounds` | nr32-sys/src/sync/fifo.rs:45-127 | from every state there is such a schedule |
| `MpmcTheorems.OneSlotNeedsTheSemaphores` | nr32-sys/src/sync/fifo.rs:49-59 | with one slot the sequence numbers alone do not exclude two owners; the tokens do |
| `MpmcKernel.WaitTrap` | nr32-rt/src/main.rs:246-264 | the kernel's futex wait of a thread is the wait step of the queue model, followed by sleepers that return on their own |
| `MpmcKernel.WakeTrap` | nr32-rt/src/scheduler.rs:232-281 | the sleeper that the scheduler chooses for a wake of one is a thread that the queue model may choose, nobody is chosen only if nobody sleeps, and the call never gets stuck |
| `MpmcKernel.OtherTrap` | nr32-rt/src/main.rs:54-103 | any other trap is, for the queue, nothing but sleepers that return on their own |
| `Heap.NrHeap.Init` | nr32-rt/src/allocator.rs:61-83 | the heap becomes one free block over all aligned room, or stays empty when there is too little |
| `Heap.NrHeap.FindFit` | nr32-rt/src/allocator.rs:104-112 | the walk over the headers ends, reads only headers of the list, and stops at the first free block that is large enough or after the last block |
| `Heap.NrHeap.RawAlloc` | nr32-rt/src/allocator.rs:93-142 | walking and editing headers in place gives the block list and pointer of the specification, and keeps links, tiling and header checks |
| `Heap.NrHeap.Take` | nr32-rt/src/allocator.rs:112-134 | the block becomes used and gives up its tail if more than the minimum would be left, headers and links following |
| `Heap.NrHeap.RawFree` | nr32-rt/src/allocator.rs:145-184 | a pointer that does not read as a block is refused without change; otherwise the block list is that of a free with both merges |
| `Heap.NrHeap.MergeNext` | nr32-rt/src/allocator.rs:162-170 | a free block absorbs a free next one, header and link included |
| `Heap.NrHeap.MergePrev` | nr32-rt/src/allocator.rs:172-180 | a free previous block absorbs it |
| `Heap.NrHeap.Relink` | nr32-rt/src/allocator.rs:237-249 | exactly the neighbours' back and forward pointers change |
| `HeapTheorems.LiveDisjoint` | nr32-rt/src/allocator.rs:93-142 | live payloads are 16-aligned, inside the heap and pairwise disjoint, headers between them |
| `HeapTheorems.AllocFailsIff` | nr32-rt/src/allocator.rs:93-142 | an allocation fails exactly when the alignment is unsupported or no free block is large enough, and then changes nothing |
| `HeapTheorems.AllocIs` | nr32-rt/src/allocator.rs:93-142 | in bytes: the first free block with room for the size rounded up to 16 is taken, whole if at most 32 bytes would be left, and split otherwise |
| `HeapTheorems.AllocAddsOne` | nr32-rt/src/allocator.rs:93-142 | a successful allocation adds one live payload and leaves the others alone; it is large enough if and only if the request does not wrap |
| `HeapTheorems.WrappedRequestIsShort` | nr32-rt/src/allocator.rs:101-107 | a request near the word size is answered with an empty payload |
| `HeapTheorems.FreeRemovesOne` | nr32-rt/src/allocator.rs:145-184 | a free removes exactly its payload from the live ones, merges included |
| `HeapTheorems.FreeUndoesAlloc` | nr32-rt/src/allocator.rs:93-184 | freeing what was just allocated restores the block list |
| `HeapTheorems.DoubleFreeOnList` | nr32-rt/src/allocator.rs:145-184 | freeing a block on the list that is already free changes nothing |
| `HeapTheorems.EveryRunIsWellFormed` | nr32-rt/src/allocator.rs:93-184 | over every sequence of calls, blocks tile the heap and no two neighbours are both free |
| `HeapTheorems.Confluence` | nr32-rt/src/allocator.rs:61-184 | once nothing is live, in whatever order things were freed, the heap is again the single block that was initialised |
| `HeapTheorems.BytesConserved` | nr32-rt/src/allocator.rs:61-184 | headers and payload sizes always add up to the heap |
| `SchedulerSpec.PickIsBest` | nr32-rt/src/scheduler.rs:144-164 | the next task is the first runnable one of the highest priority in cyclic order, and the idle task if and only if none is above it |
| `SchedulerSpec.RunUntilIsEarliest` | nr32-rt/src/scheduler.rs:167-202 | the timer is the minimum of all limits: no later than any of them, and equal to one |
| `SchedulerSpec.RoundRobin` | nr32-rt/src/scheduler.rs:144-164 | k consecutive calls pick the k runnable tasks of the highest priority once each, as a rotation of their order |
| `SchedulerSpec.CandidateIsBest` | nr32-rt/src/scheduler.rs:232-251 | a futex wake-up chooses the last of the sleepers with the highest priority, and nobody only if nobody sleeps there |
| `SchedulerSpec.WakesBest` | nr32-rt/src/scheduler.rs:254-281 | exactly the asked number or all sleepers of that futex wake, none less important than one that sleeps on, nothing else changes |
| `Scheduler.Kernel.MaybeWakeUpTasks` | nr32-rt/src/scheduler.rs:218-229 | exactly the sleepers whose time has come run again, with a timeout as result |
| `Scheduler.Kernel.FindNext` | nr32-rt/src/scheduler.rs:144-164 | the search loop finds the task of the specification |
| `Scheduler.Kernel.TimerFor` | nr32-rt/src/scheduler.rs:167-202 | the loop over the tasks computes the timer of the specification |
| `Scheduler.Kernel.Schedule` | nr32-rt/src/scheduler.rs:127-215 | the whole new state: saved context, woken sleepers, timer, accounting and switch |
| `Scheduler.Kernel.SwitchToTask` | nr32-rt/src/scheduler.rs:359-378 | the registers resume the task; what they resume it as is `ResumesAs` |
| `Scheduler.Kernel.FutexWakeOne` | nr32-rt/src/scheduler.rs:232-251 | the loop finds the sleeper of the specification and changes only its state |
| `Scheduler.Kernel.FutexWake` | nr32-rt/src/scheduler.rs:254-281 | asking for none is an error; otherwise the number woken, and a reschedule if and only if a woken task is more important than the caller |
| `Scheduler.Kernel.WakeUpState` | nr32-rt/src/scheduler.rs:284-299 | all tasks in the state run again, with a reschedule if and only if one is more important than the current task |
| `Scheduler.Kernel.SleepCurrentTask` | nr32-rt/src/scheduler.rs:335-347 | the deadline saturates, and no ticks means only a reschedule; `SchedulerRuns.FallsAsleep` and `SleepRun` say what the sleep is |
| `Scheduler.Kernel.CurrentTaskSetState` | nr32-rt/src/scheduler.rs:350-356 | the current task waits in that state and another one is chosen; `SchedulerRuns.WaiterStep` says until when |
| `Scheduler.Kernel.SpawnTask` | nr32-rt/src/scheduler.rs:70-112 | the first dead slot is reused without a reschedule; otherwise the task is appended, with one if it is more important; the task in that slot can run, has the priority and type asked for, and starts at the task runner with its registers on top of its stack |
| `Scheduler.Kernel.ExitCurrentTask` | nr32-rt/src/scheduler.rs:114-124 | the current task dies with the lowest priority and another one is chosen; `SchedulerRuns.ExitIsFinal` and `DeadRun` say that this is final |
| `Scheduler.Kernel.EcallFutexWait` | nr32-rt/src/main.rs:246-264 | the caller sleeps if and only if the word has the expected value and there are ticks; a different value is an error without effect; the result goes into the register of the caller |
| `Scheduler.Kernel.EcallFutexWake` | nr32-rt/src/main.rs:266-271 | the number woken or the error, the return behind the instruction, and the whole state after the trap |
| `Scheduler.Kernel.EcallSleep` | nr32-rt/src/main.rs:172-178 | a sleep is on no futex, and its result always is a timeout |
| `Scheduler.Kernel.EcallWaitFor` | nr32-rt/src/main.rs:179-182 | waiting for a device, whose result is success |
| `Scheduler.Kernel.EcallSpawn` | nr32-rt/src/main.rs:183-200 | the slot of the new user task, which is as `SpawnTask` says, or the error when there is no stack; and the caller's register gets the result |
| `Scheduler.Kernel.EcallExit` | nr32-rt/src/main.rs:201-205 | an exit, after which nothing is written for the caller |
| `Scheduler.Kernel.SaveResult` | nr32-rt/src/asm.rs:93-143 | the trap handler writes the result over what the scheduler may have put into the banked register |
| `Scheduler.Kernel.constructor` | nr32-rt/src/scheduler.rs:40-56 | the kernel starts with the idle task alone, of the lowest priority and a system task, about to run it in its mode with interrupts enabled |
| `SchedulerRuns.ApplyKeepsOk` | nr32-rt/src/main.rs:52-309 | every trap leaves the idle task runnable and a runnable task current |
| `SchedulerRuns.RunKeepsOk` | nr32-rt/src/main.rs:52-309 | so it is after every sequence of traps, which discharges the premise of `ScheduledIsTop` |
| `SchedulerRuns.SleeperStep` | nr32-rt/src/scheduler.rs:218-281 | a trap leaves a sleeper as it is, unless it wakes it on its futex, or reschedules after its deadline, which gives it a timeout |
| `SchedulerRuns.SleepRun` | nr32-rt/src/scheduler.rs:218-347 | over every sequence of traps a task sleeps until it is woken or its time is over, whichever comes first, and then waits for its turn with the result that belongs to that |
| `SchedulerRuns.ResumesRight` | nr32-rt/src/scheduler.rs:218-347 | when it is current again it finds a timeout if and only if its time was over before anybody woke it, and its own result if and only if it was woken |
| `SchedulerRuns.FallsAsleep` | nr32-rt/src/main.rs:246-264 | a futex wait puts its caller to sleep until the deadline, unless that is over within the same trap; then it returns as if woken |
| `SchedulerRuns.SleepFallsAsleep` | nr32-rt/src/main.rs:172-178 | the same for a plain sleep, which always ends with a timeout |
| `SchedulerRuns.WaiterStep` | nr32-rt/src/scheduler.rs:284-299 | a task that waits for a device waits until exactly that device reports |
| `SchedulerRuns.ExitIsFinal` | nr32-rt/src/scheduler.rs:114-124 | after its exit the caller is dead and not current |
| `SchedulerRuns.DeadRun` | nr32-rt/src/scheduler.rs:97-124 | over every sequence of traps a dead task stays dead and never is current until its slot is used again |
| `SchedulerRuns.SpawnsNew` | nr32-rt/src/scheduler.rs:70-91 | every task that can be spawned is one that the runs allow |
| `SchedulerRuns.FallsWaiting` | nr32-rt/src/main.rs:179-182 | a task that begins to wait for a device does wait, and will find success |
| `SchedulerLaws.ResumesAs` | nr32-rt/src/scheduler.rs:359-378 | a task that `schedule` switches to is resumed in the mode of its type and with interrupts enabled; without a switch the registers stay |
| `SchedulerLaws.ApplyKeepsMode` | nr32-rt/src/scheduler.rs:359-378 | every trap returns in the mode of the task that is current, with interrupts enabled |
| `SchedulerLaws.RunKeepsMode` | nr32-rt/src/scheduler.rs:359-378 | so it is after every sequence of traps |
| `SchedulerLaws.ContextStep` | nr32-rt/src/main.rs:151-164 | every trap leaves every task where it was, but a system call brings its caller behind its instruction |
| `SchedulerLaws.SpawnStarts` | nr32-rt/src/scheduler.rs:70-112 | a new task goes on at the task runner with its stack, whether at once or later |
| `SchedulerLaws.TicksStep` | nr32-rt/src/scheduler.rs:206-214 | every trap keeps the books: the ticks billed to all tasks and the date of the last switch move together, but for what is written off with a task |
| `SchedulerLaws.RunTicks` | nr32-rt/src/scheduler.rs:206-214 | in every run without spawns and exits all the time between switches is billed once |
| `SchedulerLaws.TimerIsNeeded` | nr32-rt/src/scheduler.rs:166-203 | the timer is set a second ahead, or to when a more important task wakes up, or a slot ahead for one that is equally important: never without such a reason |
| `SchedulerLaws.PreemptsForBetter` | nr32-rt/src/scheduler.rs:70-300 | a device, a futex wake or a spawn takes the machine from the current task only for a more important one |
| `SchedulerTheorems.ScheduledIsTop` | nr32-rt/src/scheduler.rs:127-215 | after scheduling no runnable task is more important than the current one |
| `SchedulerTheorems.FutexWakeKeepsTop` | nr32-rt/src/scheduler.rs:254-281 | a wake-up keeps that |
| `SchedulerTheorems.StateWakeKeepsTop` | nr32-rt/src/scheduler.rs:284-299 | waking a state up keeps that |
| `SchedulerTheorems.SpawnKeepsTop` | nr32-rt/src/scheduler.rs:97-111 | spawning keeps that if and only if no dead slot is used or the new task is not more important |
| `SchedulerTheorems.SpawnMayNotPreempt` | nr32-rt/src/scheduler.rs:97-102 | a concrete state in which it does not |
| `SchedulerTheorems.TimerInTime` | nr32-rt/src/scheduler.rs:167-204 | the timer fires by the wake-up time of every more important sleeper, within a slot under contention, within a second, and not in the past |
| `SchedulerTheorems.ContextsKept` | nr32-rt/src/scheduler.rs:127-137 | whoever runs or waits before a reschedule goes on at the same place after it |
| `SchedulerTheorems.FutexWakeKeepsContexts` | nr32-rt/src/scheduler.rs:254-281 | the same for a wake-up |
| `SchedulerTheorems.EachRunsOnce` | nr32-rt/src/scheduler.rs:127-215 | round robin for runs of the kernel with other changes between the calls |
| `Adler.Adler32.Update` | nr32-sys/src/adler32.rs:14-21 | data in any number of pieces gives the sums of RFC 1950 over all of it, reduced in every step, and no 32-bit sum wraps |
| `Adler.KnownChecksums` | nr32-sys/src/adler32.rs:10-34 | known values, one of which exceeds the modulus |
| `Adler.ChangedByteShows` | nr32-sys/src/adler32.rs:10-34 | data that differ in a single byte have different checksums |
| `CartImage.Cart.WriteFilename` | multitool/src/cart.rs:406-422 | a name that fits is padded to 16 bytes, a longer one is refused without change |
| `CartImage.Cart.Dump` | multitool/src/cart.rs:331-404 | recursive printing with back-patched pointers and checksums appends the bytes of the tree, and fails if and only if a name does not fit |
| `CartImage.Cart.Finish` | multitool/src/cart.rs:395-401 | padding to 16 bytes, then next pointer and type into the first word of the entry |
| `CartImage.Cart.DumpEntries` | multitool/src/cart.rs:377-392 | entries are linked, and the last one's pointer is erased |
| `CartImage.Cart.LoadFs` | multitool/src/cart.rs:206-242 | the cartridge gets padding, the image with length and checksum, and a script operation with its place |
| `CartImage.Cart.AddOp` | multitool/src/cart.rs:185-204 | one 16-byte operation is set, or there is no room left and nothing changes |
| `CartImage.EraseIs` | multitool/src/cart.rs:385-391 | masking the first byte and clearing three erases the pointer and keeps the type |
| `CartFs.EntryView` | nr32-sys/src/fs.rs:187-262 | the accessors give back name, type, contents, checksum and next pointer of the tree's entry |
| `CartFs.NameRoundTrip` | nr32-sys/src/fs.rs:228-235 | a padded name without NUL is read back whole, also when it fills the field |
| `CartFs.VisitR` | nr32-sys/src/fs.rs:114-136 | on any bytes and for any visitor, the loop over positions and the recursion visit what the pointers say, if the fuel suffices |
| `CartFs.MoreFuel` | nr32-sys/src/fs.rs:114-136 | fuel decides whether there is a result, not which |
| `CartFs.WrittenWalk` | nr32-sys/src/fs.rs:114-136 | in an image that holds a tree without empty directories the visit ends and is a visit of the tree |
| `CartFs.FindEntry` | nr32-sys/src/fs.rs:151-174 | path lookup on any bytes is a visit with a path that gets shorter; on a written image it is the lookup in the tree |
| `CartFs.Fsck` | nr32-sys/src/fs.rs:66-105 | on any bytes: a wrong image checksum, or a bad file whose name is not in UTF-8, is an error, otherwise the counts of a full visit |
| `CartFs.FromRom` | nr32-sys/src/fs.rs:33-64 | exactly which ranges of ROM open as a filesystem, and which sums overflow |
| `CartFs.OpenedIff` | nr32-sys/src/fs.rs:33-64 | what can be opened, and what is then opened, in terms of the bytes of the ROM; and when opening panics |
| `CartFs.EntryAtIs` | nr32-sys/src/fs.rs:138-149 | where there is an entry, and when asking for one panics |
| `CartFs.ContentsAtIs` | nr32-sys/src/fs.rs:208-217 | which entries have contents, on any bytes, and what they are |
| `CartFs.UpToNulIs` | nr32-sys/src/fs.rs:228-235 | a name is what is before the first NUL, or the whole field |
| `CartFs.DirectoryLength` | multitool/src/cart.rs:331-404 | the length field of a directory counts its entries |
| `CartFsTheorems.LookupFinds` | nr32-sys/src/fs.rs:151-174 | looking up the path of any entry finds the place where the writer put it |
| `CartFsTheorems.EntryVisible` | nr32-sys/src/fs.rs:176-262 | at that place the reader sees that entry |
| `CartFsTheorems.MissingName` | nr32-sys/src/fs.rs:156-168 | what is left of the path and of the walk after a directory without the name |
| `CartFsTheorems.MissingIsReported` | nr32-sys/src/fs.rs:151-174 | the case of a directory and one more name: it is reported missing if and only if no later entry, there or further up, has that name |
| `CartFsTheorems.LookupAnswers` | nr32-sys/src/fs.rs:151-174 | for every path: the answer is the end of the chain in which each name leads to the first entry with that name in or after the entry before it, and a missing entry if and only if the chain breaks |
| `CartFsTheorems.MissingPathIff` | nr32-sys/src/fs.rs:151-174 | every path that is not in the tree is reported missing if and only if its chain breaks |
| `CartFsTheorems.PathIsChain` | nr32-sys/src/fs.rs:151-174 | the chain of the path of an entry is there and ends at that entry |
| `CartFsTheorems.LookupFollows` | nr32-sys/src/fs.rs:114-168 | from any entry of any listing on, the walk follows the chain and leaves the same rest of the path |
| `CartFsTheorems.ChainGoesOn` | nr32-sys/src/fs.rs:156-168 | a chain that does not end inside a directory goes on behind it with what is left of the path |
| `CartFsTheorems.LookupMisleads` | nr32-sys/src/fs.rs:156-168 | a tree and a path that does not exist in it, but is answered: a name missing in a directory |
| `CartFsTheorems.LookupThroughFile` | nr32-sys/src/fs.rs:156-168 | another one: a path through a file |
| `CartFsTheorems.LookupSkipsDirectory` | nr32-sys/src/fs.rs:156-168 | another one: a directory missing in the middle |
| `CartFsTheorems.FoundHasName` | nr32-sys/src/fs.rs:151-174 | whatever a lookup answers is an entry with the last name of the path |
| `CartFsTheorems.WalkVisitsAll` | nr32-sys/src/fs.rs:107-136 | a visit that is never cut short meets every entry exactly once |
| `CartFsTheorems.CheckPasses` | nr32-sys/src/fs.rs:66-105 | the check counts every directory, file and byte of the tree and finds no bad file |
| `CartFsTheorems.CheckIff` | nr32-sys/src/fs.rs:66-136 | the check gives the right counts for the image of a tree if and only if the tree has no empty directory |
| `CartFsTheorems.EmptyDirsCount` | nr32-sys/src/fs.rs:114-136 | a check that ends without error has met every entry of the tree, and more than there are if a directory is empty |
| `CartFsVisits.ForwardEnds` | nr32-sys/src/fs.rs:114-136 | on any bytes, if no pointer that is reached leads back, every visit ends, whatever the visitor, within as many pointers as there is room for entries |
| `CartFsVisits.OutrunTrail` | nr32-sys/src/fs.rs:114-136 | a visit that has not ended has followed as many pointers as it was allowed, into directories and past those that it has left |
| `CartFsVisits.TrailEndless` | nr32-sys/src/fs.rs:114-136 | a visit that gets to where it does not end does not end |
| `CartFsVisits.CheckEndsIff` | nr32-sys/src/fs.rs:76-136 | on any bytes the check goes on for ever if and only if its way, which passes a directory only if nothing in it stops the check, comes back to an entry; else it ends within as many pointers as entries have room |
| `CartFsVisits.CleanLeaves` | nr32-sys/src/fs.rs:76-136 | where nothing that is reached stops the check, it ends well if it ends |
| `CartFsVisits.LeavesClean` | nr32-sys/src/fs.rs:76-136 | where it ends well, nothing that is reached could have stopped it |
| `CartFsVisits.SoundIff` | nr32-sys/src/fs.rs:76-104 | which entries stop the check, by their bytes |
| `CartFsVisits.CheckCounts` | nr32-sys/src/fs.rs:76-136 | on any bytes a check that ends well has counted the directories, the files, the bad files and their bytes that it has met |
| `CartFsVisits.LookupEndsIff` | nr32-sys/src/fs.rs:114-174 | on any bytes a lookup goes on for ever if and only if it gets to a circle of pointers without the name that it looks for there; else it ends within as many pointers for each name as entries have room |
| `CartFsEnds.WithinLeads` | multitool/src/cart.rs:377-404 | every pointer the writer makes, and every directory, leads on: to an entry further on, or past the last one only from an empty directory |
| `CartFsEnds.TreeVisitEnds` | nr32-sys/src/fs.rs:114-136 | every visit of the image of any tree ends, empty directories or not |
| `CartFsEnds.TreeClean` | nr32-sys/src/fs.rs:76-136 | something in the image of a tree stops the check if and only if its last entry is an empty directory |
| `CartFsEnds.CheckOfTree` | nr32-sys/src/fs.rs:66-136 | the check of the image of any tree ends: with an error if and only if the last entry is an empty directory, otherwise with the right counts if no directory is empty and too high ones if one is |
| `CartFsEnds.DamageIsFound` | nr32-sys/src/fs.rs:66-74 | damage to any single byte of an image behind its checksum makes the check fail |
| `CartFsEnds.EndlessVisit` | nr32-sys/src/fs.rs:114-136 | an image with right header and checksum of which the check, and every lookup whose first name is not in it, goes on for ever |
| `CartFsTheorems.ImageHolds` | multitool/src/cart.rs:206-239 | the image begins with its length and checksum and holds the tree |
| `CartFsTheorems.OpensImage` | nr32-sys/src/fs.rs:33-64 | an image in ROM opens if and only if it ends before the end of the ROM |
| `CartFsTheorems.CartHoldsImage` | multitool/src/cart.rs:185-242 | the cartridge's operation leads to the image |
| `CartFsTheorems.CartKeepsRest` | multitool/src/cart.rs:206-243 | all other bytes of the cartridge stay, and the gap before the image is filled with ones up to a multiple of 1024 |
| `CartFsTheorems.FilesystemRoundTrip` | multitool/src/cart.rs:206-242 | written, put in ROM, opened and looked up in its bytes: every entry comes back under its path with its contents, and the check counts every entry once |
| `Adpcm.TopNibbleIs` | multitool/src/audio.rs:570-574 | shifting a nibble to the top of a 16-bit word extends its sign |
| `Adpcm.DecodeBlock` | multitool/src/audio.rs:556-591 | the two loops decode the nibbles in order, low one first, each predicted from the two samples before |
| `Adpcm.ChooseShift` | multitool/src/audio.rs:476-517 | the first pass finds the extreme differences and the shift that covers them |
| `Adpcm.ShiftIsLeast` | multitool/src/audio.rs:476-517 | the shift is the least up to 12 for which every difference of the block is from -8 * 2^s to 8 * 2^s - 1, and 12 if there is none |
| `Adpcm.NibbleIs` | multitool/src/audio.rs:519-534 | a nibble is the difference over 2^s, rounded down, or the nearest nibble there is |
| `Adpcm.FittingSample` | multitool/src/audio.rs:519-540 | whatever the prediction, a sample whose difference fits comes back short by less than 2^s |
| `Adpcm.EncodeBlock` | multitool/src/audio.rs:469-554 | the words hold exactly the nibbles of the second pass, whatever the samples |
| `Adpcm.EncodeSamples` | multitool/src/audio.rs:519-551 | the second pass, with its accumulator flushed every four samples |
| `Adpcm.UnpackInjective` | multitool/src/audio.rs:540-550 | nibbles fix the words that hold them |
| `Adpcm.Lockstep` | multitool/src/audio.rs:523-591 | the decoder reproduces the encoder's reconstruction sample for sample, for every predictor and shift, saturated or not |
| `Adpcm.DecodeSplit` | multitool/src/audio.rs:566-588 | decoding can be cut anywhere, given the last two samples |
| `Adpcm.CoarseValue` | multitool/src/audio.rs:533-538 | a shift that leaves three bits and a sign saturates nothing and loses less than one step |
| `Adpcm.FilterZeroEach` | multitool/src/audio.rs:476-538 | without prediction each sample comes back at most 2^s - 1 too small, for the shift that the first pass chose |
| `Adpcm.FilterZeroError` | multitool/src/audio.rs:483-604 | hence the error of a block is at most its length times 2^s - 1, and none for s = 0 |
| `Nrad.HeaderRoundTrip` | multitool/src/audio.rs:430-440 | the fields of a block header do not overlap |
| `Nrad.TryFilter` | multitool/src/audio.rs:397-402 | coding with a filter and decoding again gives its words, reconstruction and error |
| `Nrad.AdpcmError` | multitool/src/audio.rs:596-604 | the sum of absolute differences |
| `Nrad.ChooseFilter` | multitool/src/audio.rs:397-428 | the search with its early exit keeps the first filter with the smallest error, and the first block has none |
| `Nrad.DumpNrad` | multitool/src/audio.rs:387-452 | the stream is the one described block by block: padding, filter, shift, stop and loop bits, carried samples |
| `Nrad.StreamUnique` | multitool/src/audio.rs:387-452 | that description fixes every word |
| `Nrad.DecodeNrad` | multitool/src/audio.rs:112-156 | the loop decodes blocks up to the stop bit, with the errors for a short stream and an unknown filter |
| `Nrad.BestIsFirstMinimum` | multitool/src/audio.rs:407-428 | no filter does better than the one kept, and no earlier one as well |
| `Nrad.RoundTrip` | multitool/src/audio.rs:112-452 | decoding a dumped stream gives the encoder's reconstruction, whole blocks, and the loop point rounded down to a block; no samples give an unexpected end |
| `Nrad.BlockErrorBound` | multitool/src/audio.rs:402-428 | each block's error is at most that of filter 0 and so at most 28 (2^s - 1) |
| `Nrad.SmallBlocksAreLossless` | multitool/src/audio.rs:402-428 | a block of samples of at most four bits comes back unchanged |
| `Nrad.SmallSoundIsLossless` | multitool/src/audio.rs:112-156 | sound of samples from -8 to 7 comes back sample for sample, followed by its last sample up to the end of its last block |
| `Nrad.OutcomeIs` | multitool/src/audio.rs:112-156 | on any words, decoding ends at the first block that is cut off, has an unknown filter or is the last, and how |
| `Nrad.ErrorAdds` | multitool/src/audio.rs:596-606 | the error of a block adds up sample by sample |
| `Envelope.EveryConfigIsOk` | src/spu.rs:510-709 | every register value gives divider steps from 1 to 0x8000 and bounded level steps |
| `Envelope.CycleInRange` | src/spu.rs:443-477 | in every phase and from every 16-bit level the divider sum fits 16 bits, and the level is in [0, 0x7fff] from the next level step on |
| `Envelope.NextLevelSaturates` | src/spu.rs:462-467 | the wrapping sum with its sign test is a saturating sum |
| `Envelope.ReleaseCycle` | src/spu.rs:443-477 | a cycle of a release never raises the level and always comes nearer to silence |
| `Envelope.ReleaseEnds` | src/spu.rs:443-482 | a release ends within max(level, 1) * 0x8000 cycles, or 0x8000 * 0x8000 from a negative level, linear or exponential, whatever its rate |
| `Envelope.ReleaseNeverRises` | src/spu.rs:443-482 | the level falls or stays from any cycle of a release to any later one |
| `Envelope.Adsr.RunCycle` | src/spu.rs:443-477 | from every 16-bit level, the object with its precomputed parameters does what the specification says |
| `Envelope.Adsr.SetRaw` | src/spu.rs:429-441 | the precomputed parameters follow the register |
| `Envelope.RegisterLayout` | src/spu.rs:602-709 | period, size and mode of each phase, and the sustain level, are those of the documented bits of the register |
| `Envelope.CycleIs` | src/spu.rs:443-477 | one cycle in terms of the register: once in a period the level changes, by the size of the step, in proportion to the level if it falls exponentially, and by a quarter above 0x6000 if it rises so |
| `Envelope.LinearRamp` | src/spu.rs:443-477 | a linear attack or sustain is a straight line: after n cycles the level has changed by the size of a step for each full period, up to the end of its range |
| `Envelope.RiseReachesTop` | src/spu.rs:443-477 | an attack, and a sustain with bit 13 clear, never falls and reaches the highest level within 0x8000 cycles for each level |
| `Envelope.FallReachesZero` | src/spu.rs:443-477 | a sustain with bit 13 set never rises and reaches 0 |
| `Envelope.DecayCycle` | src/spu.rs:468-470 | the decay never rises, and goes over to sustain with the first level step that is not above the sustain level of bits 24-21 |
| `Envelope.DecayEnds` | src/spu.rs:443-477 | every decay ends in sustain |
| `Envelope.AttackGoesOn` | src/spu.rs:443-477 | an attack never ends by itself |
| `Envelope.Adsr.BeginRelease` | src/spu.rs:479-482 | a release starts with an empty divider at the level reached |
| `Envelope.Adsr.BeginAttack` | src/spu.rs:484-488 | an attack starts at level 0 |
| `Spu.Voice.Start` | src/spu.rs:298-303 | what starting a voice resets and what it keeps |
| `Spu.Voice.ReadHeader` | src/spu.rs:162-180 | at a block start: stop, go to the loop target, or read on, and remember a loop start |
| `Spu.Voice.Decode4` | src/spu.rs:324-354 | four samples enter the FIFO and none is dropped |
| `Spu.Voice.RunVoiceDecoder` | src/spu.rs:158-186 | the FIFO is filled to at least 11 samples with the stream that the block walk gives, or the voice stops |
| `Spu.Voice.Step` | src/spu.rs:313-321 | the phase moves on and its whole part is discarded, never more than there is |
| `Spu.Voice.NextRawSamples` | src/spu.rs:358-368 | four samples are there, the oldest ones not yet discarded |
| `Spu.Voice.RunVoiceCycle` | src/spu.rs:128-155 | one cycle of a voice: decoding, hearing, envelope and step |
| `Spu.Voice.Play` | src/spu.rs:91-106 | at cycle i the four samples heard are those at phase + i steps of the whole decoded stream |
| `SpuTheorems.PlayBlock` | src/spu.rs:158-186 | seven rounds decode a block and end at the next block start, across the end of the RAM |
| `SpuTheorems.TwoDecodersAgree` | src/spu.rs:158-368 | the hardware pushes the samples that the tool decodes, whatever was played before, and then stops or loops where the tool sees the loop point |
| `SpuTheorems.DumpIsPlayable` | multitool/src/audio.rs:387-452 | whatever the encoder dumps is such a stream |
| `SpuTheorems.NoPrediction` | src/spu.rs:743-767 | filter 0 and the numbers without a filter predict nothing |
| `SpuTheorems.OddShift` | src/spu.rs:324-326 | a shift beyond 12 is read as 12 |
| `SpuTheorems.VoicePlaysReconstruction` | src/spu.rs:158-368 | so a voice plays the encoder's reconstruction |
| `PageCache.LutIdxOfPage` | src/cpu/decoder.rs:96-125 | page numbers and page bases are inverse to each other |
| `PageCache.Decoder.Invalidate` | src/cpu/decoder.rs:52-57 | nothing is cached any more |
| `PageCache.Decoder.EvictPage` | src/cpu/decoder.rs:66-90 | the page is unlisted, whichever is chosen, and is no longer the last used one |
| `PageCache.Decoder.DecodeInstructions` | src/cpu/decoder.rs:167-200 | every half-word of a page is decoded from memory, the last one across the page end |
| `PageCache.Decoder.DecodePage` | src/cpu/decoder.rs:167-697 | at most 64 pages, and table and pages list each other |
| `PageCache.Decoder.FetchInstruction` | src/cpu/decoder.rs:127-164 | a fetch equals decoding from a memory seen since the last invalidation; the branch for a wrong base is never taken |
| `PageCache.OpIsDirect` | src/cpu/decoder.rs:182-200 | the word assembled for each half-word of a page is the one in memory, also across the page end and the memory end |
| `PageCache.DirectIs` | src/cpu/decoder.rs:127-200 | what a fetch decodes, byte by byte: odd addresses are refused, unmapped ones panic, and behind the loaded ROM there are ones |
| `PageCache.Replay` | src/cpu/decoder.rs:52-164 | over every run of fetches, stores, evictions and fences, each fetch is a direct decoding of a memory since the last fence |
| `PageCache.NoStoreSinceFence` | src/cpu/decoder.rs:52-57 | without a store since then that is the current memory |
| `ClockSpec.MinIsLeast` | src/sync.rs:35-38 | a minimum is below all dates and one of them |
| `ClockSpec.TimerRuns` | src/systimer.rs:20-50 | a run of the timer keeps what it owes to the clock, and it runs again later than now |
| `ClockSpec.TimerStoreIs` | src/systimer.rs:66-92 | a store replaces one half of one register, and the interrupt line follows |
| `ClockSpec.GpuRuns` | src/gpu.rs:331-357 | the same for the GPU, if it runs no later than 61 cycles after its event: adding one frame then is enough |
| `ClockSpec.SpuRuns` | src/spu.rs:91-106 | the same for the SPU, which keeps less than one sample of cycles for the next run |
| `ClockSpec.InputRuns` | src/input_dev.rs:41-82 | the same for the input device, whatever is left in its queue |
| `ClockSpec.InputStores` | src/input_dev.rs:84-122 | the same for its stores, whatever they do to the queue and the divider |
| `ClockSpec.InputIsExact` | src/input_dev.rs:41-82 | bytes leave from the front, and what they take and what is spent on the next one is all the time there was |
| `ClockSpec.InputConfIs` | src/input_dev.rs:84-104 | from a store to CONF on a byte takes 8 * 16 cycles for each count of the divider, starting anew, and bit 0 clears the queue |
| `ClockSpec.InputTxIs` | src/input_dev.rs:113-123 | a store to TX appends a byte unless 16 wait |
| `ClockSpec.TimerEvent` | src/systimer.rs:20-50 | the timer asks to run when its interrupt begins and not a cycle earlier, or in a second |
| `ClockSpec.GpuEvent` | src/gpu.rs:331-357 | the GPU asks to run when the frame ends and not a cycle earlier |
| `ClockSpec.InputEvent` | src/input_dev.rs:41-82 | the input device asks to run when the queue is empty and not a cycle earlier |
| `ClockSpec.DmaRuns` | src/dma.rs:138-166 | the same for the DMA engine, which gives back at most what it got, and less than the price of a word while it runs |
| `ClockTheorems.PassOk` | src/sync.rs:103-133 | in a pass no device gets more cycles than from its last run to its event, and after its check it is due later |
| `ClockTheorems.PassAdvances` | src/sync.rs:103-133 | after a pass the first event is later, so that `handle_events` ends |
| `ClockTheorems.HandleEvents` | src/sync.rs:103-133 | it ends with no event due, the date unchanged and everything owed to the clock kept |
| `ClockTheorems.PassIsRecent` | src/sync.rs:47-62 | the assertion of `resync` holds: in a pass no device is 300 cycles ahead of the date that is handled |
| `ClockTheorems.DoKeeps` | src/lib.rs:155-330 | loads and stores of an instruction keep everything, even before the events due since it began are handled |
| `ClockTheorems.AccessIsCurrent` | src/sync.rs:46-64 | a device that is accessed has run up to the date of the access, but for less than a tick, and no other has run for it |
| `ClockTheorems.StepKeeps` | src/cpu.rs:336-866 | so does every instruction, up to the longest one |
| `ClockTheorems.RebaseKeeps` | src/sync.rs:75-85 | no absolute date changes, and the next event is again after date 0 |
| `ClockTheorems.TakeGoesOn` | src/lib.rs:127-148 | time never runs back, and every instruction and every wait takes some |
| `ClockTheorems.InterruptIsExact` | src/systimer.rs:34-50 | when no event is due, the interrupt line is high if and only if mtime, brought up to date, has reached mtimecmp |
| `ClockTheorems.TimerIsExact` | src/systimer.rs:20-32 | mtime, brought up to date, is the date in units of 32 cycles, but for what stores have moved it by |
| `ClockTheorems.FramesAreExact` | src/gpu.rs:349-356 | exactly one frame has ended for every 752640 cycles since power-on, none early and none late |
| `ClockTheorems.SendingIsExact` | src/input_dev.rs:52-79 | when no event is due, the input device has sent all its bytes if and only if it knows that it has |
| `ClockTheorems.DmaIsSoon` | src/dma.rs:94-101 | the end of a DMA transfer is noticed less than 128 cycles after it |
| `ClockTheorems.DatesFit` | src/sync.rs:73-85 | no date is 2^28 cycles or more from that of the CPU, so that dates fit into 32 bits |
| `ClockTheorems.StartIsStarted` | src/lib.rs:55-74 | at power-on all is as `run_frame` expects it |
| `ClockTheorems.EveryRun` | src/lib.rs:127-148 | after every run from power-on, whatever the program: no event is due, and frames, samples, timer and interrupt line are exactly those of the date |
| `ClockTheorems.TurnEnded` | src/lib.rs:127-148 | a turn of the frame loop brings the end of the frame nearer |
| `ClockTheorems.FrameEnds` | src/lib.rs:127-148 | at the end of `run_frame` the sound is up to date and the next call can start |
| `Sync.Machine.Resync` | src/sync.rs:47-62 | the elapsed cycles are handed out once, and none when the date lies behind |
| `Sync.Machine.Rewind` | src/sync.rs:91-95 | cycles given back are handed out again |
| `Sync.Machine.RefreshFirstEvent` | src/sync.rs:35-38 | the first event is the minimum of all |
| `Sync.Machine.NextEvent` | src/sync.rs:136-140 | the event is counted from the device's own date, and the first event follows |
| `Sync.Machine.FastForward` | src/sync.rs:65-71 | the date jumps to the first event, unless that lies at or before the last rebase |
| `Sync.Machine.Rebase` | src/sync.rs:75-85 | the loop moves every date by the same amount |
| `Sync.Machine.CheckForIrq` | src/systimer.rs:34-50 | the interrupt line follows the comparison, and the timer is due when mtime reaches mtimecmp, but within a second |
| `Sync.Machine.TimerRun` | src/systimer.rs:20-32 | whole ticks are counted and the remainder is given back |
| `Sync.Machine.TimerStore` | src/systimer.rs:66-92 | the store comes between a run and a new check |
| `Sync.Machine.GpuRun` | src/gpu.rs:331-357 | the cycles of the frame count down, and the counter of frames wraps |
| `Sync.Machine.SpuRun` | src/spu.rs:91-106 | one sample for every 512 cycles, the remainder given back |
| `Sync.Machine.Send` | src/input_dev.rs:52-71 | the loop sends one byte whenever the cycles of a byte have passed |
| `Sync.Machine.InputRun` | src/input_dev.rs:41-82 | the device runs again when all its bytes have been sent |
| `Sync.Machine.InputConf` | src/input_dev.rs:84-107 | a new divider, a cleared count, and the queue cleared if asked for |
| `Sync.Machine.DmaRun` | src/dma.rs:138-166 | the clock's side of the run of the DMA engine is that of the engine itself |
| `Sync.Machine.DmaStore` | src/dma.rs:168-192 | stores to the three registers, accepted exactly when the transfer stays in memory |
| `Sync.Machine.HandleFirst` | src/sync.rs:110-129 | the five checks of a pass, although the first event changes between them |
| `Sync.Machine.HandleEvents` | src/sync.rs:103-133 | the loop, with the date moved back for each pass, does what the specification says |
| `Sync.Machine.StepCpu` | src/cpu.rs:336-866 | an instruction, as far as time and devices go |
| `Sync.Machine.RunFrame` | src/lib.rs:127-148 | whatever the program, the call ends with a frame over, unless the program stops or is used up, with exactly the sound up to then, and the next call can start |
| `Ring.WriteSlot` | src/fifo.rs:29-52 | the write index points behind the newest element although both indices wrap at 2^32 |
| `Ring.ReadSlot` | src/fifo.rs:64-74 | the wrapped read index points to the oldest element |
| `Ring.Fifo.Push` | src/fifo.rs:41-52 | appends to the queue, or drops the value when it is full |
| `Ring.Fifo.Pop` | src/fifo.rs:64-74 | takes the oldest element off the queue |
| `Ring.Fifo.Front` | src/fifo.rs:76-84 | shows the oldest element |
| `Ring.Fifo.At` | src/fifo.rs:93-107 | indexing counts from the oldest element |
| `Ring.Fifo.Discard` | src/fifo.rs:86-90 | drops the oldest elements, at most all |
| `Dma.Engine.RefillBuf` | src/dma.rs:49-82 | words buffered and words left always add up, and reading stops only when full, done or out of cycles |
| `Dma.Engine.DrainBuf` | src/dma.rs:107-134 | the buffer is written out in order to consecutive words, and no other word changes |
| `Dma.Engine.CopyPass` | src/dma.rs:84-135 | a pass moves as many words as the buffer holds, as are left, and as the cycles pay for |
| `Dma.Engine.RunDmaCycles` | src/dma.rs:84-136 | as many words are moved as the cycles pay for, the rest is given back, and RAM is as after these passes |
| `Dma.Engine.Run` | src/dma.rs:138-166 | the end is signalled in the call that reaches it; an unfinished transfer gives back less than the price of a word and asks to run again in 128 cycles, otherwise the engine rests for a second |
| `Dma.Engine.CopyInSlices` | src/dma.rs:84-166 | however the cycles are split, how much is copied depends only on their sum, and the end is signalled exactly once |
| `Dma.Engine.SetSource` | src/dma.rs:171-174 | a store to an address register redirects what is left of a transfer |
| `Dma.SlicesAdd` | src/dma.rs:100-110 | cycles given back and added to the next call pay for what one large call pays for |
| `Dma.PlainCopy` | src/dma.rs:84-136 | however the words are split into passes, the copy is the plain one unless its target starts inside its source, behind its start |
| `Dma.CopiedWord` | src/dma.rs:49-136 | word for word, by addresses: each word moved from ROM, or from RAM without upward overlap, is at its place |
| `Dma.OtherWords` | src/dma.rs:84-136 | every other word of RAM is left alone |
| `Dma.PaysExactly` | src/dma.rs:55-82 | reading a word takes 1 cycle from RAM and 20 from ROM |
| `Dma.OverwrittenFirst` | src/dma.rs:84-136 | the first word that such a copy gets wrong, and what it gets instead |
| `Dma.RightBefore` | src/dma.rs:84-136 | all words before that one are right |
| `Dma.PlainIff` | src/dma.rs:84-136 | the engine copies faithfully whatever RAM holds if and only if the ranges do not overlap in that way or there was only one pass |
| `Fp32.Sqrt` | nr32-sys/src/math/fp32.rs:98-122 | the root of x * 2^16, rounded down or one more, and rounded down unless x * 2^16 is that near to the next square; zero and negative values as documented |
| `Fp32.NewtonRound` | nr32-sys/src/math/fp32.rs:117-119 | no round divides by zero, truncates or saturates, and each brings the estimate nearer |
| `Fp32.GuessNear` | nr32-sys/src/math/fp32.rs:107-114 | the first estimate is within 5/8 to 8/5 of the root |
| `Fp32.RoundedUpIff` | nr32-sys/src/math/fp32.rs:98-122 | the result is one more than the root f if and only if (f+1)^2 - x * 2^16 is at most the squared distance of the third estimate from f+1; never when 64 times the former is above f+1 |
| `Fp32.OneMoreHappens` | nr32-sys/src/math/fp32.rs:98-122 | an instance |

## Left out

- Mpmc: weak memory orders and the wrap-around of the 32-bit counters; the target has one hart, and the model is sequentially consistent with unbounded counters. Timeouts of a wait are spurious wake-ups, which nr32-common/src/syscall.rs:64 allows.
- MpmcProgress.FairRunEnds: schedules in which calls begin or compare-exchanges fail without a reason all the time; if they stop at some point, it holds from there.
- Mpmc: dropping a queue and its elements.
- Heap.NrHeap.RawFree: memory is a map from addresses to headers, so payload bytes that happen to read as a header are excluded by its precondition, which the source also leaves to its caller; the flags are reduced to the one that is used.
- Scheduler: stack memory (its allocation is a parameter), banked registers other than the one for a result, the statistics that are logged, 64-bit overflow of mtime.
- Scheduler.Kernel.SpawnTask: the entry point and arguments that are stored on the new stack.
- CartImage: reading the directory from disk and sorting it; files that change while they are read; the checksum of the writer comes from a library and is taken to be that of RFC 1950.
- CartFs.VisitR: the source has no fuel; when a visit needs more than any, which is to say that it does not end, is said for the check, for lookups and for pointers that lead forward, but for no other visitor (the source has none). Positions and lengths that overflow 32 bits are taken to panic, as they do in both build profiles.
- CartFs.Fsck: what UTF-8 is; the predicate is a parameter.
- CartFs.FromRom: a build without overflow checks, in which an end address beyond 32 bits wraps around instead of a panic.
- Nrad: the magic number and the sample rate before the blocks, bytes behind the stop block, the average error that is logged.
- Spu: the interpolation filter, volumes and mixing of the 24 voices, and the register interface of a voice.
- PageCache: hit scores and the random numbers that choose a page for eviction; any page may be chosen. Decoding one instruction word is a parameter.
- Sync: what the devices compute besides their timing (commands and pictures of the GPU, sound, bytes received), the interrupt controller, and when the CPU wakes up from a wait, which is a parameter.
- Sync.Machine.DmaStore: a store that makes a DMA transfer leave memory ends the run, although the source panics only when the transfer gets there.
- Sync.Machine.RunFrame: the instructions are given as a finite list, and what they do to registers and memory is not part of them; a frame that ends during an access to the GPU is noticed by the loop at the next event.
- Dma: transfers to the GPU with its stalls, and addresses outside RAM and ROM, which the source does not implement.
- Fp32: the other operators, the reciprocal root and the trigonometric tables.
- The instruction set, the GPU, the front ends, score files, and the loading of programs and audio files: many independent cases, or input and output.

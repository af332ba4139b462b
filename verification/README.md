# SanderOSUSB: a verified model of the kernel's self-contained state machines

SanderOSUSB is a small 32-bit kernel. This project models the parts of it that are algorithms rather than
hardware access, and proves what they promise over every input, every step and every run:

- the **heap** (`HeapModel`, `HeapTable`, `Heap`, `HeapRuns`): a fixed table of records that is bubble-sorted in
  place, searched for an exact fit and otherwise grown, proved to behave like a map from addresses to disjoint blocks;
- the **scheduler** (`Scheduler`, `SchedulerRuns`): pre-emptive round robin over ten slots with one shared register
  set, proved to behave as if every task owned its registers, and to be fair;
- the **SFS file system** (`SfsModel`, `SfsFacts`, `SfsPaths`, `SfsRuns`, `SfsReads`, `Sfs`): directory and
  sector-ownership tables mirrored on a disk of 512-byte sectors;
- **network packets** (`Checksum`, `Packets`, `Network`, `NetworkRuns`, `Dns`): Internet checksums computed three
  different ways, TCP stream numbers, the echo reply, and the in-place encoder of DNS names;
- the **ELF loader** (`ElfModel`, `Elf`, `ElfExecutable`), the **EHCI receive chain** (`Ehci`) and the **number
  printers and the decimal parser** (`Numerals`).

Code that updates globals or buffers in place is a class or a method over arrays; each method is tied to a function
or relation on values, and the promises are lemmas about those. `Common` holds the byte type and shared helpers.
To verify all files together: `dafny verify dfyconfig.toml`.

## What the proofs found

Several properties one would expect do not hold of the code as it is. The model keeps the code's behaviour and
states exactly when it does what is expected.

- `realloc` copies the old size into a block of the new size. It leaves the other owners' bytes alone, whatever memory
  holds, if and only if no other block in use starts between the end of the new block and the end of the copy; so
  growing is safe, and shrinking may not be (`Heap.ReallocSparesOthersIff`, `Heap.ShrinkingDestroysThirdBlock`).
- `free` and `getallocsize` step through the table by 12 records at a time, because `sizeof(MemoryBlock)*i` is added
  to a `MemoryBlock` pointer (`kernel/dev/memory.c:155` and `:212`). In a sorted table they find a block if and only
  if the number of blocks above it is a multiple of 12 (`Heap.WalkFindsIff`). After a malloc the same holds for the
  blocks there were before, while a block that it has just added is found if and only if their number is a multiple
  of 12 (`Heap.FoundAfterMallocIff`): of the first two blocks a kernel allocates, the second is not found and cannot
  be freed (`Heap.SecondMallocIsNotFreed`). The allocator takes the step as a parameter, so that its contracts hold
  for the code as it is and for the walk over every record.
- A request for no bytes would return an address that the next new block gets as well
  (`HeapModel.EmptyBlockIsHandedOutTwice`).
- The sort of the heap table ends in order if and only if no block stood behind two empty records before it
  (`HeapTable.MemCleanup`); the heap never comes to such a table, since it keeps its empty records last.
- `createTask` enables interrupts before it counts the slot it has filled. From start-up on no slot is given to two
  tasks if and only if calls never overlap there (`SchedulerRuns.SlotsDistinctIff`). Two overlapping calls fill one
  slot twice (`SchedulerRuns.OverlapFillsSlotTwice`), and at the last slot they count eleven slots where there are
  ten (`SchedulerRuns.OverlapPassesTen`).
- `createTask` fails exactly once nine calls were completed, whatever was killed, and returns with interrupts
  disabled: no task is switched until user code enables them (`SchedulerRuns.FailsAfterNineIff`,
  `SchedulerRuns.FailedCreateStopsScheduling`).
- SFS writes at offset 0 of the buffer into every sector, because the offset is kept in eight bits: what was written is
  read back if and only if it repeats with period 512 and the free sectors were enough (`SfsReads.RoundTripIff`,
  `SfsReads.DifferentSectorsAreLost`, `SfsReads.LostFile`, `SfsReads.LongFilesAreCut`).
- Writing `x/y` while `x` is not listed creates `x`; the same path then leads to `y` (`SfsReads.NestedPathMovesOn`).
  After a write a path leads to the written file if and only if it ended there or comes back to it, with no empty
  component in the way unless an entry is left unused (`SfsReads.WriteKeepsTargetIff`).
- A path with an empty component, such as a leading slash, works only while the SFS directory has an unused entry
  (`SfsPaths.LeadingSlash`, `SfsPaths.EmptyNameIff`). A write to another file changes what is read through it if and
  only if it takes the last one (`SfsReads.WriteKeepsOtherReadIff`, `SfsReads.SlashedFileHidden`).
- `sfs_new_file` for a listed name adds a second entry. It hides the file if and only if an unused entry stands before
  the old one (`SfsRuns.NewFileHidesIff`), which never happens in runs from an empty directory
  (`SfsRuns.UnwrittenFileStays`).
- The echo reply's incrementally updated checksum is right if and only if the 16-bit subtraction does not borrow
  (`Network.EchoReplyVerifies`); requests on which it borrows exist (`Network.BorrowingRequestExists`).
- The reply to an incoming TCP segment acknowledges exactly the segment if and only if the segment is a push without
  TCP options and with as many padding bytes as SYN and FIN flags, or has no data and one of these flags
  (`NetworkRuns.ReplyAcknowledgesSegmentIff`). TCP options and Ethernet padding are acknowledged as data
  (`NetworkRuns.OptionsAreAcknowledgedAsData`, `NetworkRuns.PaddingIsAcknowledgedAsData`).
- A handled segment whose acknowledgment number and acknowledge value are both 0x1010, which stands for the stored
  numbers, is not recorded (`NetworkRuns.SendsFollowSegmentIff`).
- The EHCI buffers tile the target if and only if the request has at most 131072 bytes (`Ehci.TilesIff`).
- `hexdump` prints magnitudes: above 2^31 the numeral does not denote the argument (`Numerals.HexdumpFitsAndDenotes`).

## Model

| member | source | states |
|---|---|---|
| HeapModel.AllocDetermined | kernel/dev/memory.c:97-151 | block, result and new heap of an allocation are determined by the heap and the request: the lowest fitting free block, else the first aligned address above everything, else failure |
| HeapModel.AllocKeepsSafe | kernel/dev/memory.c:97-151 | allocation keeps all blocks disjoint, non-empty and in memory, returns a used block of exactly the requested size with no address bit in the tag, never takes a block in use, and moves or resizes nothing |
| HeapModel.FreeKeepsSafe | kernel/dev/memory.c:153-162 | release keeps all blocks disjoint and in place, clears the flag of the released block and changes no other |
| HeapModel.ReleasedIsReused | kernel/dev/memory.c:97-162 | the next request of a released block's size makes no new block: it gets this block or a free one below it, and this one if there is none below |
| HeapModel.MaskIsRemainder | kernel/dev/memory.c:105-126 | for tags 2^k - 1 the bit test asks exactly for multiples of 2^k |
| HeapModel.EmptyBlockIsHandedOutTwice | kernel/dev/memory.c:113-136 | after a new block of no bytes, in use, the next new block gets the same address |
| HeapModel.AlignmentIsNear | kernel/dev/memory.c:121-126 | for tags 2^k - 1 the alignment loop ends less than 2^k addresses above the top |
| HeapModel.RoomForAligned | kernel/dev/memory.c:121-126 | so 2^k - 1 bytes more than requested above the top are room enough for the allocation |
| HeapTable.PermutedRepresents | kernel/dev/memory.c:63-95 | the heap a table stands for does not depend on the order of its records |
| HeapTable.LastRecordTellsFull | kernel/dev/memory.c:113 | the last record is empty exactly when fewer blocks than records exist |
| HeapTable.WeightOfSwap | kernel/dev/memory.c:86-89 | swapping two neighbours changes the sum of slot times address by the difference of their addresses, so each swap of the sort lowers it |
| HeapTable.MemSwapEntries | kernel/dev/memory.c:63-73 | exchanges two records and nothing else |
| HeapTable.PassKeeps | kernel/dev/memory.c:82-93 | a pass permutes the table, keeps empty records last, and lowers the sum of slot times address whenever it changes anything |
| HeapTable.PassKeepsStranded | kernel/dev/memory.c:82-93 | a pass neither strands a block behind two empty records nor frees one |
| HeapTable.SettledIsSortedIff | kernel/dev/memory.c:80-93 | a table that a pass leaves as it is, so that the sort ends, is in order exactly if no block stands behind two empty records |
| HeapTable.EarlyStopLeavesDisorder | kernel/dev/memory.c:90-92 | a table with an empty pair before a block that a pass leaves as it is although it is out of order |
| HeapTable.CleanupPass | kernel/dev/memory.c:82-93 | the loop performs exactly a pass and reports whether it changed anything |
| HeapTable.MemCleanup | kernel/dev/memory.c:78-95 | from every table the sort ends with a permutation; it is in descending order if and only if no block stood behind two empty records before the sort |
| HeapTable.SlotIsBlocksAbove | kernel/dev/memory.c:78-95 | in a sorted table the slot of a block is the number of blocks above it |
| HeapTable.ReachedIff | kernel/dev/memory.c:154-156 | in a sorted table a walk by 12 records, or by any step, finds a block if and only if the number of blocks above it is a multiple of the step |
| HeapTable.SecondBlockIsMissed | kernel/dev/memory.c:154-156 | of two blocks the lower one is listed and not found by any walk by more than one record |
| Heap.LastFitIsLowest | kernel/dev/memory.c:102-110 | in a sorted table the last fitting record is the fitting block with the lowest address |
| Heap.NoRecordFits | kernel/dev/memory.c:102-112 | when no record fits no free block fits |
| Heap.SlotZeroIsTop | kernel/dev/memory.c:114-119 | after sorting the end of slot 0 is the end of the highest block |
| Heap.Allocator.constructor | kernel/dev/memory.c:8-15 | an empty table stands for the empty heap |
| Heap.Allocator.MemSet | kernel/dev/memory.c:168-175 | the named bytes get the value, all others stay |
| Heap.Allocator.MemCpy | kernel/dev/memory.c:186-192 | the target gets the source's bytes unless it overlaps the source from above; nothing else changes |
| Heap.Allocator.FindFit | kernel/dev/memory.c:100-110 | finds the lowest fitting free block or none |
| Heap.Allocator.NextFree | kernel/dev/memory.c:114-126 | the alignment loop ends at the first aligned address at or above the top |
| Heap.Allocator.FirstEmpty | kernel/dev/memory.c:128-129 | finds the first empty record |
| Heap.Allocator.Grow | kernel/dev/memory.c:113-136 | adds one free block on top, in the first empty slot, exactly when the table is not full |
| Heap.Allocator.SetUsed | kernel/dev/memory.c:144-157 | changes the flag of one block and nothing else |
| Heap.Allocator.MallocAlign | kernel/dev/memory.c:97-151 | performs exactly an allocation step of the map heap and zeroes exactly the returned block, or fails and changes nothing; and in which slots it leaves the old blocks and the new one |
| Heap.Allocator.Malloc | kernel/dev/memory.c:164-166 | an allocation step without alignment |
| Heap.Allocator.Free | kernel/dev/memory.c:153-162 | if the record of the block is in a slot the walk comes by, the block is no longer in use and its bytes are zero, and every other block and byte is as before; otherwise nothing changes; the table is left sorted |
| Heap.WalkFindsIff | kernel/dev/memory.c:154-156 | in a sorted table the walk as written finds exactly the blocks with a multiple of 12 blocks above them, where a walk over every record would find all |
| Heap.FirstEmptySlot | kernel/dev/memory.c:127-135 | the record a new block gets is in the slot whose number is the number of blocks |
| Heap.FoundAfterMallocIff | kernel/dev/memory.c:97-156 | in the table a malloc leaves, a block from before is found exactly if the number of blocks above it, and a block just added exactly if the number of blocks before, is a multiple of the step |
| Heap.SecondMallocIsNotFreed | kernel/dev/memory.c:153-218 | of two blocks allocated one after the other from start-up the second is not found and stays in use after free |
| Heap.FreedIsMallocedAgain | kernel/dev/memory.c:97-162 | from start-up malloc, free and malloc of the same size return the same address |
| Heap.Allocator.GetAllocSize | kernel/dev/memory.c:210-218 | the size of the block at the address if its record is in a slot the walk comes by, -1 otherwise |
| Heap.Allocator.Realloc | kernel/dev/memory.c:220-229 | for every size, smaller ones included: an allocation step, memory byte by byte as the copy and the release leave it, and whether the old block was found and released |
| Heap.Allocator.MoveBlock | kernel/dev/memory.c:224-228 | the same for a block in use, step by step: size, allocate, copy, release |
| Heap.NewBlockIsDisjoint | kernel/dev/memory.c:225-227 | a block allocated while another is in use neither is nor overlaps it |
| Heap.ReallocComposes | kernel/dev/memory.c:220-229 | allocation, copy and release compose to this effect on heap and memory, also where the copy runs into the block it reads from |
| Heap.ReallocKeepsContents | kernel/dev/memory.c:220-229 | shrinking or growing, the result holds the old contents as far as it reaches if the block was found, and zero elsewhere |
| Heap.ReallocSparesOthersIff | kernel/dev/memory.c:224-228 | whatever memory holds the other blocks in use keep their bytes, if and only if none of them starts between the end of the new block and the end of the copy; none does when growing |
| Heap.ShrinkingDestroysThirdBlock | kernel/dev/memory.c:220-229 | a heap and request where six bytes of a third block in use become bytes of the old block |
| HeapRuns.StepKeeps | kernel/dev/memory.c:97-162 | every allocation, release and owner's store keeps the heap safe and all extents, and touches no other block in use |
| HeapRuns.AllocateEffect | kernel/dev/memory.c:97-151 | an allocation leaves a block in use of exactly the requested zero bytes, at an address without bits of the tag, one more or reused, and every other block and byte as before |
| HeapRuns.ReleaseThenAllocate | kernel/dev/memory.c:97-162 | over a release and the next request of the same size the heap gains no block |
| HeapRuns.RunKeeps | kernel/dev/memory.c:97-162 | over every run blocks stay disjoint, and an extent once created stays |
| HeapRuns.PrivateUntilReleased | kernel/dev/memory.c:97-162 | over every run a block in use keeps its extent, and its bytes until its owner stores into it or releases it |
| HeapRuns.LiveAllocationsAreDisjoint | kernel/dev/memory.c:97-162 | two results of allocations never overlap while the first is not released |
| HeapRuns.GrowCounts | kernel/dev/memory.c:111-136 | without alignment a new block is made only when all blocks of that size are in use |
| HeapRuns.BlocksEqualPeak | kernel/dev/memory.c:101-144 | over every run without alignment the number of blocks of a size equals the largest number of them ever in use at once |
| Scheduler.Multitasking.constructor | kernel/hal/i386/multitasking.c:104-109 | slot 0 is active and stands for what already runs, no task is counted |
| Scheduler.Multitasking.IrqTimer | kernel/dev/timer.c:32-39 | the running task's timer advances by one, wrapping at 2^31, and its ticks when the timer is then a multiple of 18 |
| Scheduler.Multitasking.SelectNext | kernel/hal/i386/multitasking.c:39-47 | the loop ends at the first active slot in cyclic order whenever some slot is active |
| Scheduler.IsNextIff | kernel/hal/i386/multitasking.c:39-47 | the selected slot is active and every slot after the running one, going round, up to it is not |
| Scheduler.Multitasking.SaveRegisters | kernel/hal/i386/multitasking.c:19-37 | all seventeen registers go to the running task's slot |
| Scheduler.Multitasking.LoadRegisters | kernel/hal/i386/multitasking.c:49-67 | all seventeen registers come from the selected slot |
| Scheduler.Multitasking.IrqMultitasking | kernel/hal/i386/multitasking.c:15-71 | the processor's registers go to the slot of the running task, those of the selected active slot come to the processor, no other slot changes; this is the interrupt step of the machine |
| Scheduler.Multitasking.KillTask | kernel/hal/i386/multitasking.c:77-79 | the slot is no longer active, its registers and all other slots stay |
| Scheduler.Multitasking.FillSlot | kernel/hal/i386/multitasking.c:81-98 | up to sti: the next uncounted slot is active with eip the entry point, esp the end of the stack, segments 0x08 and 0x10, eflags 0x202 and zero elsewhere; or the call fails when ten are counted and leaves interrupts off |
| Scheduler.Multitasking.PublishSlot | kernel/hal/i386/multitasking.c:99-101 | after sti: counts a slot and returns its number |
| Scheduler.Multitasking.CreateTask | kernel/hal/i386/multitasking.c:81-102 | with nothing between the two parts: the next slot is filled in the same way, counted and returned |
| Scheduler.Multitasking.StartSleep | kernel/dev/timer.c:23-25 | resets the running task's timer and nothing else |
| Scheduler.Multitasking.ResetTicks | kernel/dev/timer.c:18-21 | resets the running task's ticks and nothing else |
| SchedulerRuns.SchedulerRefinesPrivateRegisters | kernel/hal/i386/multitasking.c:15-102 | every step is a step of a machine in which each task owns its registers and an interrupt only changes which task runs |
| SchedulerRuns.TaskRunsUninterrupted | kernel/hal/i386/multitasking.c:15-102 | over every interleaving the user steps of one task form one unbroken run |
| SchedulerRuns.CountedSlotsStay | kernel/hal/i386/multitasking.c:81-102 | over every interleaving a slot that is counted is never filled again, and the count never falls |
| SchedulerRuns.SameSlotIff | kernel/hal/i386/multitasking.c:81-102 | two calls fill the same slot if and only if no call was completed between them |
| SchedulerRuns.SlotsDistinctIff | kernel/hal/i386/multitasking.c:81-102 | over every run from start-up no slot is filled twice if and only if no call fills a slot while another has filled and not counted one |
| SchedulerRuns.OverlapFillsSlotTwice | kernel/hal/i386/multitasking.c:98-100 | every run in which task 0 is about to call createTask goes on with a pre-emption after sti and a call of task 1 that fills the same slot for another entry point |
| SchedulerRuns.OverlapPassesTen | kernel/hal/i386/multitasking.c:98-100 | a run from start-up with one overlap in which both calls succeed and the count becomes eleven |
| SchedulerRuns.ResumesWhereItStopped | kernel/hal/i386/multitasking.c:15-71 | a resumed task sees exactly the registers it had when it was pre-empted |
| SchedulerRuns.CreatedTaskRun | kernel/hal/i386/multitasking.c:81-102 | a created task's run starts at the registers createTask set, in a slot other than 0, if no other call fills a slot before one is completed |
| SchedulerRuns.CreatedTaskStartsAtEntry | kernel/hal/i386/multitasking.c:81-102 | the first user step of a created task finds the entry point in eip and the end of its stack in esp |
| SchedulerRuns.KilledTaskIsNotDispatched | kernel/hal/i386/multitasking.c:39-79 | over every run a counted task that is killed is not dispatched again |
| SchedulerRuns.DispatchedWithinTen | kernel/hal/i386/multitasking.c:39-47 | a task that stays active is dispatched within at most ten interrupts, whatever is created or killed meanwhile |
| SchedulerRuns.EveryoneElseGetsATurn | kernel/hal/i386/multitasking.c:39-47 | between two dispatches of one task every other task that stays active is dispatched |
| SchedulerRuns.TimerCountsOwnInterrupts | kernel/dev/timer.c:32-39 | over every run a task's timer counts exactly the interrupts taken while it ran, modulo 2^32, until it sleeps |
| SchedulerRuns.SleepTakesOwnInterrupts | kernel/dev/timer.c:23-30 | when sleep(ms) sees its end condition, at least ms interrupts were taken while the task itself ran |
| SchedulerRuns.TicksCountEighteenths | kernel/dev/timer.c:32-39 | over every run without overflow a task's ticks grow by the multiples of 18 its timer comes to, so by n / 18 over n of its own interrupts from a fresh timer on |
| SchedulerRuns.CountIsPublished | kernel/hal/i386/multitasking.c:81-102 | over every run from start-up the count is one more than the calls completed, and a filled slot that is not counted belongs to a call in progress |
| SchedulerRuns.NineCallsFillTheTable | kernel/hal/i386/multitasking.c:81-102 | without overlapping calls the count follows from the number of calls, and is ten from nine calls on |
| SchedulerRuns.FailsAfterNineIff | kernel/hal/i386/multitasking.c:81-102 | over every run from start-up createTask fails if and only if nine calls were completed before, whatever was killed |
| SchedulerRuns.TenthCallFails | kernel/hal/i386/multitasking.c:81-102 | without overlapping calls it fails exactly from its tenth call on |
| SchedulerRuns.FailedCreateStopsScheduling | kernel/hal/i386/multitasking.c:81-102 | over every run after a failed createTask no timer interrupt arrives and the same task stays current until user code enables interrupts |
| SfsFacts.DecodeUndoesEncode | kernel/fs/sfs.c:26-39 | the directory read back from its sector is the directory written |
| SfsFacts.DecodedEntry | kernel/fs/sfs.c:26-39 | entry i of a directory sector has its name in twelve bytes from byte 16 i on, then its identifier, then three more bytes |
| SfsFacts.EncodedEntry | kernel/fs/sfs.c:26-39 | and is stored there |
| SfsFacts.Pigeonhole | kernel/fs/sfs.c:132-147 | identifiers 2 to n - 1 cannot all be taken by fewer than n - 2 entries |
| SfsFacts.FreshIdExists | kernel/fs/sfs.c:132-147 | the search always stops, at the least unused identifier from 2 and at most at 34 |
| SfsFacts.NamedEntry | kernel/fs/sfs.c:180-194 | the identifier found for a listed name is that of an entry with this name |
| SfsFacts.ListedId | kernel/fs/sfs.c:180-194 | a listed name leads to an identifier from 2 that no other entry has |
| SfsFacts.AddedKeeps | kernel/fs/sfs.c:148-156 | adding a file keeps identifiers distinct and other names' identifiers, and lists the new name exactly when an entry is unused |
| SfsFacts.ClaimTakesFree | kernel/fs/sfs.c:208-217 | only sectors that were free and not below the start are claimed |
| SfsFacts.SectorThreeFirst | kernel/fs/sfs.c:206-217 | sectors 0 to 2 are never claimed and a free sector 3 is the first to be |
| SfsFacts.ClaimsLowest | kernel/fs/sfs.c:206-217 | the lowest free sectors are claimed |
| SfsFacts.ClaimCount | kernel/fs/sfs.c:208-217 | exactly as many sectors are claimed as wanted, or all free ones if there are fewer |
| SfsFacts.CountIsOwned | kernel/fs/sfs.c:206-217 | the count it speaks of is the number of sectors with that owner |
| SfsFacts.SameContents | kernel/fs/sfs.c:279-287 | a file's bytes depend only on which sectors it owns and what they hold |
| SfsFacts.ContentsInOrder | kernel/fs/sfs.c:279-287 | a file's bytes are those of its sectors in ascending order, each after as many others as lie below it |
| SfsFacts.UniformContents | kernel/fs/sfs.c:219-225 | a file whose sectors all hold the same bytes reads as that many copies |
| SfsRuns.WriteOwners | kernel/fs/sfs.c:199-217 | after a write a sector belongs to the file, or to whoever owned it before; the file gets only sectors from 3 on that were free or its own |
| SfsRuns.WriteDisk | kernel/fs/sfs.c:161-227 | a write changes on the disk only the two table sectors and the file's own sectors |
| SfsRuns.WriteKeepsWellFormed | kernel/fs/sfs.c:161-227 | a write keeps identifiers distinct, reserved sectors reserved, and both tables equal to their copies on disk |
| SfsRuns.NewFileKeepsWellFormed | kernel/fs/sfs.c:129-159 | so does a new file, whose identifier is unused and between 2 and 34 |
| SfsRuns.WriteKeepsOtherFiles | kernel/fs/sfs.c:161-227 | a write changes neither identifier nor contents of any other listed name |
| SfsPaths.ResolveStableIff | kernel/fs/sfs.c:46-101 | after more files are listed a path that leads to a listed file still does, if and only if it passes no empty component or the empty name is still found; else it stops at the empty name |
| SfsPaths.CleanMeetsNone | kernel/fs/sfs.c:51-98 | a path without empty components passes none |
| SfsPaths.TakenName | kernel/fs/sfs.c:60-69 | a component is what stands before the next slash, the end or the thirteenth byte |
| SfsPaths.PaddedBytes | kernel/fs/sfs.c:56-69 | its name is padded with zeroes to twelve bytes |
| SfsPaths.DotEndsResolution | kernel/fs/sfs.c:70-73 | a name with a dot ends resolution, listed or not |
| SfsPaths.LeadsToCreatedIff | kernel/fs/sfs.c:46-101 | once the name at which a path stops gets listed, the path leads to it if and only if it stopped at its end or at a dot, or returns to the same name at its end, with no empty component in the way unless the empty name is found |
| SfsPaths.ListedPathEnds | kernel/fs/sfs.c:46-101 | a path that leads to a listed file ends there |
| SfsPaths.EmptyNameIff | kernel/fs/sfs.c:73-90 | the empty name is found exactly while an entry is unused |
| SfsPaths.LeadingSlash | kernel/fs/sfs.c:51-98 | a leading slash is skipped only while the empty name is found; otherwise resolution stops at the empty name |
| SfsPaths.EmptyNameAfterAdding | kernel/fs/sfs.c:148-156 | after a file is added it is found exactly if two entries were unused |
| SfsReads.WriteKeepsOtherReadIff | kernel/fs/sfs.c:161-289 | reading another listed file by its path gives the same bytes after the write if and only if the path passes no empty component or the write leaves an entry unused; else it finds nothing |
| SfsReads.LastEntryHidesSlashedFiles | kernel/fs/sfs.c:46-289 | a write that takes the last unused entry hides every file read through a leading slash |
| SfsReads.SlashedFileHidden | kernel/fs/sfs.c:46-289 | a file system with 31 files and a path whose write hides the file read by /a |
| SfsReads.WrittenContents | kernel/fs/sfs.c:161-227 | after a write the file's sectors are as many as wanted and free, and all hold the buffer's first 512 bytes |
| SfsReads.ListedAfterWrite | kernel/fs/sfs.c:148-156 | the written name is listed afterwards if and only if it was listed or an entry was unused |
| SfsReads.ReadsBack | kernel/fs/sfs.c:161-289 | what sfs_read returns for a path that still leads to the written file |
| SfsReads.SmallFileRoundTrip | kernel/fs/sfs.c:161-289 | a write of less than 512 bytes is read back exactly when a sector is free, and reads as empty otherwise |
| SfsReads.RoundTripIff | kernel/fs/sfs.c:161-289 | for every size, through a path that still leads to the file, a write is read back, before and after a remount, if and only if the free sectors were enough and the bytes repeat with period 512 |
| SfsReads.DifferentSectorsAreLost | kernel/fs/sfs.c:219-225 | a file of more than 512 bytes whose second sector starts with another byte than its first is never read back |
| SfsReads.LongFilesAreCut | kernel/fs/sfs.c:206-217 | a file of more than 509 sectors is never read back |
| SfsReads.LostFile | kernel/fs/sfs.c:161-289 | while no file is listed yet, a path and 513 bytes that are written to a file then listed and not read back |
| SfsReads.WriteKeepsTargetIff | kernel/fs/sfs.c:46-227 | for every path: after a write it leads to the written name if and only if it ends there, or comes back to it at its end, with no empty component in the way unless an entry is left unused |
| SfsReads.WrittenIsReadBackIff | kernel/fs/sfs.c:46-316 | what is written through a path is read back through it, before and after a remount, if and only if the file could be listed, the path arrives at it, the free sectors were enough, and the bytes repeat with period 512 |
| SfsReads.SlashNeedsSpareEntry | kernel/fs/sfs.c:46-316 | for a path with a leading slash this says that an entry must stay unused or the file be listed before |
| SfsReads.ElsewhereReadsOld | kernel/fs/sfs.c:161-289 | if the path leads to another name after the write, it reads as what that file held before, or as nothing |
| SfsReads.NestedPathMovesOn | kernel/fs/sfs.c:46-289 | writing to x/y while x is not listed lists x; then x/y leads to y and reads as the old contents of y, or as nothing |
| SfsRuns.RemountRestores | kernel/fs/sfs.c:291-316 | mounting the disk of a well-formed file system gives back the same state and the same reads |
| SfsRuns.MountsEmpty | kernel/fs/sfs.c:291-316 | a disk with empty tables in sectors 1 and 2 mounts as a well-formed file system, from which all runs can start |
| SfsRuns.FreshDiskBytes | kernel/fs/sfs.c:9-24 | the bytes of such a disk: 0xCD and 1 at bytes 3 and 4 of the boot sector, table sector 1 at byte 7, its size 1 at byte 9, zeroes in sectors 1 and 2 |
| SfsRuns.FreshDiskExists | kernel/fs/sfs.c:291-316 | there is such a disk |
| SfsRuns.NewFileKeepsOtherFiles | kernel/fs/sfs.c:129-159 | creating a file changes neither identifier nor contents of any other listed name |
| SfsRuns.NewFileHidesIff | kernel/fs/sfs.c:129-194 | a second entry of a listed name hides the first if and only if an unused entry stands before it |
| SfsRuns.RunKeepsPacked | kernel/fs/sfs.c:129-227 | over every run unused entries stay behind all others if they were |
| SfsRuns.UnwrittenFileStays | kernel/fs/sfs.c:129-289 | over every run from such a directory a listed file keeps identifier and contents until it is written, whatever files are created |
| SfsRuns.RunSurvivesRemount | kernel/fs/sfs.c:129-316 | after every sequence of writes and new files a remount restores the state |
| SfsRuns.UntouchedFileStays | kernel/fs/sfs.c:129-289 | over every run a listed file that no call is about keeps identifier and contents |
| SfsReads.RunKeepsNamesNonEmpty | kernel/fs/sfs.c:129-227 | over every run only unused entries bear the empty name |
| SfsReads.UntouchedFileReadsTheSameIff | kernel/fs/sfs.c:129-289 | over every run a path to a listed file that no call is about reads the same, if and only if it passes no empty component or the empty name is still found |
| SfsReads.WrittenStaysReadable | kernel/fs/sfs.c:129-316 | after a write that is read back, every run of calls about other files, and a remount at any point of it, leaves the path reading as the bytes written |
| Sfs.Driver.FillName | kernel/fs/sfs.c:52-68 | the buffer gets the next path component, cut at 12 bytes and padded with zeroes |
| Sfs.Driver.SfsGetDetail | kernel/fs/sfs.c:46-101 | the goto loop ends with the name at which resolution through listed names stops; an empty path leaves the old name |
| Sfs.Driver.FindListed | kernel/fs/sfs.c:180-194 | the first entry with the name in the buffer, if any |
| Sfs.Driver.SfsExists | kernel/fs/sfs.c:229-254 | tells whether the path leads to a listed name |
| Sfs.Driver.FindFreshId | kernel/fs/sfs.c:132-147 | ends with the least unused identifier from 2, at most 34 |
| Sfs.Driver.SfsNewFile | kernel/fs/sfs.c:129-159 | performs exactly the new-file step and keeps the tables mirrored |
| Sfs.Driver.CountSectors | kernel/fs/sfs.c:164-176 | one sector more than the full ones: the least number of sectors with more room than the size |
| Sfs.Driver.ReleaseSectors | kernel/fs/sfs.c:199-205 | frees exactly the sectors of the identifier |
| Sfs.Driver.ClaimSectors | kernel/fs/sfs.c:206-217 | claims free sectors from 3 on in order, up to the wanted number |
| Sfs.Driver.StoreSectors | kernel/fs/sfs.c:219-225 | every sector of the identifier gets the first 512 bytes of the buffer, since the offset never leaves 0 |
| Sfs.Driver.SfsWrite | kernel/fs/sfs.c:161-227 | performs exactly the write step on tables and disk and keeps them mirrored |
| Sfs.Driver.SfsRead | kernel/fs/sfs.c:256-289 | returns the bytes of the file's sectors in order, or nothing for an unlisted name, and changes only the name buffer |
| Sfs.Driver.InitialiseSFS | kernel/fs/sfs.c:291-316 | mounts exactly when bytes 3 and 4 of the boot sector are 0xCD and 1; then the ownership table is the sector named by bytes 7 and 8, and the directory is read entry by entry from the sector as many later as byte 9 says |
| Sfs.Driver.Remount | kernel/fs/sfs.c:291-316 | mounting again at any moment succeeds and changes nothing |
| Checksum.OcSumIsNorm | kernel/dev/ethernet.c:180-204 | the end-around-carry sum of RFC 1071 is the residue of the plain sum |
| Checksum.SmallChecksums | kernel/dev/ethernet.c:180-204 | the checksums of no byte, one, two and three bytes; a last single byte is the upper half of a word |
| Checksum.TwoFoldsSuffice | kernel/dev/ethernet.c:198-199 | for every 32-bit sum two folds give the ones' complement residue |
| Checksum.ByteOrderIndependent | kernel/dev/ethernet.c:180-204 | adding words in the other byte order gives the swapped sum (RFC 1071 section 2) |
| Checksum.FilledChecksumVerifies | kernel/dev/ethernet.c:180-204 | data verifies once its zeroed field is replaced by the checksum |
| Checksum.AddWords | kernel/dev/ethernet.c:183-195 | the loop adds all words, a last odd byte included, within 32 bits |
| Checksum.NetChecksum | kernel/dev/ethernet.c:180-204 | returns the RFC 1071 checksum of the data, in network order |
| Packets.NativeOfSwapped32 | kernel/dev/ethernet.c:9-14 | a swapped 32-bit value, stored by the processor, reads in network order as the value |
| Packets.PseudoHeaderBytes | kernel/dev/ethernet.c:228-246 | the pseudo-header holds the two addresses as in memory, zero, protocol 6 and the length in network order |
| Packets.ReceiverAgrees | kernel/dev/ethernet.c:228-246 | a segment that verifies with this pseudo-header passes the receiver's check on the packet's bytes alone |
| Network.FlagBits | kernel/dev/ethernet.c:552-555 | FIN, SYN, PSH and ACK are bits 0, 1, 3 and 4 of byte 47 |
| Network.NetStack.OffsetFlagsValue | kernel/dev/ethernet.c:222 | the flags word has the header length in its upper four bits and the flags below |
| Network.SegmentControl | kernel/dev/ethernet.c:222-225 | a receiver reads that word, the window and a zero urgent pointer from a finished segment |
| Network.SegmentFields | kernel/dev/ethernet.c:218-225 | a receiver reads the ports and numbers of a finished segment in network order |
| Network.NineTermsVerify | kernel/dev/ethernet.c:138-150 | a header whose checksum is the folded complement of the nine terms verifies |
| Network.NetStack.FillEthernetHeader | kernel/dev/ethernet.c:73-77 | destination, own address and type, nothing else |
| Network.NetStack.FillIpv4Header | kernel/dev/ethernet.c:122-151 | for all lengths, protocols and addresses the 20 header bytes carry the given fields and verify (RFC 791 section 3.1); the identifier then advances modulo 2^16 |
| Network.NetStack.Ipv4Checksum | kernel/dev/ethernet.c:138-150 | the nine terms fit 32 bits and are folded and complemented |
| Network.NetStack.NextNumbers | kernel/dev/ethernet.c:206-217 | the sentinel pair takes the stored numbers and advances them by the payload; an acknowledging segment replaces them |
| Network.NetStack.FillTcpHeader | kernel/dev/ethernet.c:208-247 | a verifying IPv4 header and a TCP header that a receiver reads as the given ports, numbers, header length, flags and window, with no urgent pointer and the checksum of pseudo-header and header |
| Network.NetStack.AddPayload | kernel/hal/i386/interrupts.c:359-368 | the loop adds the payload's words in network order, an odd last byte padded by the zero stored behind it |
| Network.AddedPayloadChecksum | kernel/hal/i386/interrupts.c:370-378 | adding payload words to a header's checksum gives the checksum of one pass over both |
| Network.SegmentVerifies | kernel/hal/i386/interrupts.c:370-378 | a segment with that checksum verifies over pseudo-header, header and payload |
| Network.NetStack.SendTcp | kernel/hal/i386/interrupts.c:345-384 | for every payload that fits the IP length, odd ones included, the packet carries the payload and, in network order, the stream's numbers, five header words with PSH and ACK (bytes 0x50 0x18) and window 64240, and passes a receiver's checks of both layers (RFC 9293 section 3.1) |
| Network.NetStack.HandleTcp | kernel/dev/ethernet.c:550-580 | exactly segments with ACK and PSH, SYN or FIN are answered, by a bare acknowledgment (bytes 0x50 0x10, window 512) with ports and addresses exchanged that passes a receiver's checks; its numbers are the segment's acknowledgment number and the value for its data, or the stored ones for the sentinel |
| Network.EchoReplyVerifies | kernel/dev/ethernet.c:614-618 | given a request that verifies, the reply verifies if and only if subtracting 0x0800 from the complemented checksum does not borrow |
| Network.BorrowingRequestExists | kernel/dev/ethernet.c:614-618 | a frame with an echo request that verifies and on which the subtraction borrows |
| Network.NetStack.HandleIcmp | kernel/dev/ethernet.c:600-626 | exactly echo requests are answered, by a copy with type 0 under a verifying IPv4 header, whose ICMP checksum verifies under that condition |
| NetworkRuns.QuietRunsOnlySend | kernel/dev/ethernet.c:206-217 | over every run without a recorded segment the stream advances by the bytes sent, whatever is opened or ignored meanwhile |
| NetworkRuns.SendsAreBackToBack | kernel/dev/ethernet.c:206-217 | between two recorded segments, whatever else arrives or is opened, sends carry adjacent sequence ranges modulo 2^32 from the acknowledgment number on, all with the acknowledge value computed for the segment |
| NetworkRuns.SendsFollowSegmentIff | kernel/dev/ethernet.c:210-217 | the sends after a handled segment carry its numbers, over every such run, if and only if these are not both 0x1010 or the stream held them already |
| NetworkRuns.ReplyAcknowledgesSegmentIff | kernel/dev/ethernet.c:565-574 | exactly when the reply's acknowledge value is the sequence number after the segment, whose length follows from IP total length, data offset, SYN and FIN (RFC 9293 sections 3.1 and 3.4) |
| NetworkRuns.OptionsAreAcknowledgedAsData | kernel/dev/ethernet.c:565-568 | a push of 100 bytes with twelve bytes of options, of which the reply acknowledges 112 |
| NetworkRuns.PaddingIsAcknowledgedAsData | kernel/dev/ethernet.c:565-568 | a push of one byte in a padded frame, of which the reply acknowledges six |
| Dns.LabelsJoin | kernel/dev/ethernet.c:411-429 | the labels of a name, joined by dots, are the name |
| Dns.LabelsHoldNoDot | kernel/dev/ethernet.c:411-429 | and none of them holds a dot |
| Dns.JoinedByDots | kernel/dev/ethernet.c:411-429 | joining puts one dot between two labels |
| Dns.ReadsWire | kernel/dev/ethernet.c:411-429 | the wire form of proper labels reads back as those labels, and ends where it was written to end |
| Dns.WireRoundTripIff | kernel/dev/ethernet.c:411-429 | the encoded name reads back as its labels if and only if each is non-empty and at most 63 bytes long |
| Dns.ScanLabel | kernel/dev/ethernet.c:419-426 | the scan finds the length of the next label, and the bytes it reads are disjoint from those already overwritten |
| Dns.EncodeQuestion | kernel/dev/ethernet.c:411-431 | the in-place loop ends with the wire form of all labels, type 1 and class 1 after it, and nothing else changed |
| ElfModel.EntryInside | kernel/exec/elf.c:131-132 | the entries the loop visits lie inside their section |
| Elf.SymbolSame | kernel/exec/elf.c:87-112 | a symbol has the same value at any time during relocation |
| Elf.EntrySame | kernel/exec/elf.c:131-138 | so have a relocation entry's target, kind and symbol |
| Elf.ProgressStep | kernel/exec/elf.c:142-147 | patching one target completes exactly that entry and disturbs no other |
| Elf.NameIsPrintf | kernel/exec/elf.c:99 | the comparison of a name ends at the first difference and reads nothing behind it |
| Elf.ElfGetSymval | kernel/exec/elf.c:87-112 | section symbols get their address in the image, absolute ones their value, external ones printf if their six bytes say so and the error stub otherwise, at the offsets of the file format |
| Elf.ApplyEntry | kernel/exec/elf.c:132-151 | one turn of the loop applies one entry to the original word |
| Elf.RelocateSection | kernel/exec/elf.c:130-153 | all entries of a section are applied, once each |
| Elf.PlainSymbol | kernel/exec/elf.c:87-112 | the symbol's value follows from the bytes at the format's own offsets: records of 40 and 16 bytes |
| Elf.RelocatedIsPlain | kernel/exec/elf.c:130-147 | every relocation of a loaded image turned its word A into S + A for type 1 and S + A - P for type 2, with entry, target and symbol found at the format's own offsets |
| Elf.LoadRelocatable | kernel/exec/elf.c:119-165 | every word with a type-1 relocation becomes S + A and every word with a type-2 relocation S + A - P modulo 2^32, no other byte changes, and the entry point is returned |
| Elf.EntryIsFirstCode | kernel/exec/elf.c:139-158 | without a symbol value of -1 the entry point is the first code section not at offset 0 |
| Elf.OneEntryIsRelocatable | kernel/exec/elf.c:119-158 | every image with one code word and one relative entry against it meets the loader's assumptions, and its word A becomes A - P |
| Elf.OneSymbolIsRelocatable | kernel/exec/elf.c:119-158 | so does every image with one code word, one symbol in that section and one entry of type 1 or 2 by it |
| Elf.OneSymbolIsApplied | kernel/exec/elf.c:87-147 | whose word becomes S + A or S + A - P with S the image address plus 212 plus the symbol's value |
| ElfExecutable.CopySection | kernel/exec/elf.c:171-175 | one section arrives at its address, the image and all other memory stay |
| ElfExecutable.LoadedIsPlain | kernel/exec/elf.c:168-175 | a loaded section's bytes stand at the address in byte 12 of its record, from the offset in byte 16, as many as byte 20 says |
| ElfExecutable.LoadExecutable | kernel/exec/elf.c:166-184 | all sections of type 1 with an address arrive there in this sense, no other memory changes, and the word at byte 24 of the header is returned |
| Ehci.TokenHoldsLength | kernel/dev/ehci.c:579-595 | the length can be read back from the token |
| Ehci.TokenBits | kernel/dev/ehci.c:592-595 | toggle, three allowed errors, IN and active are set, and no other bit but the length |
| Ehci.FillPiece | kernel/dev/ehci.c:578-604 | one descriptor gets its length, flags and address, and the stop conditions are computed |
| Ehci.Append | kernel/dev/ehci.c:573-575 | the next descriptor is new and linked behind the last |
| Ehci.BuildReceiveChain | kernel/dev/ehci.c:562-609 | the loop ends with a chain of max(1, ceil(n/512)) descriptors in link order, closed by the terminator |
| Ehci.PiecesCoverRequest | kernel/dev/ehci.c:579-591 | the lengths add up to the request and only the last piece may be short |
| Ehci.TilesIff | kernel/dev/ehci.c:596-598 | the buffers are contiguous if and only if the request has at most 131072 bytes |
| Numerals.DigitsDenote | kernel/dev/video.c:1639-1653 | the numeral of a number denotes it, in every base and with either set of digits |
| Numerals.DigitCharacters | kernel/dev/video.c:1639-1644 | the digits are 0 to 9 and then the letters in order, small in itoa and capital in itos and convert |
| Numerals.DigitCount | kernel/dev/video.c:1657-1659 | a number has at most k digits if and only if it is below base^k |
| Numerals.PutDigits | lib/modern.c:20-24 | the backward loop leaves the numeral just before the end and nothing else |
| Numerals.Itos | lib/modern.c:11-27 | returns the zero-terminated numeral inside the buffer |
| Numerals.Convert | kernel/dev/video.c:1591-1616 | the same for the kernel's variant, zero included |
| Numerals.DecimalFront | lib/modern.c:354-362 | a decimal numeral's value is its first digit times a power of ten plus the rest |
| Numerals.StrtolDecimal | lib/modern.c:343-377 | computes the number that up to nine characters denote in base 10, without leaving 32 bits |
| Numerals.PrintThenParse | lib/modern.c:11-378 | parsing what itos prints in base 10 gives the number back for all numbers below 10^9 |
| Numerals.WriteReversed | kernel/dev/video.c:1639-1644 | truncating division writes the digits of the absolute value backwards, for the smallest value too |
| Numerals.ReverseInPlace | kernel/dev/video.c:1648-1653 | reverses the range and nothing else |
| Numerals.Itoa | kernel/dev/video.c:1619-1655 | leaves the zero-terminated numeral, with a minus sign only in base 10; an unsupported base gives the empty string |
| Numerals.PrintedDenotes | kernel/dev/video.c:1619-1655 | in base 10 the numeral denotes the value for every 32-bit value |
| Numerals.HexdumpFitsAndDenotes | kernel/dev/video.c:1657-1661 | nine of hexdump's ten bytes suffice, and the numeral denotes the argument if and only if that is at most 2^31 |
| Numerals.Hexdump | kernel/dev/video.c:1657-1661 | itoa stays inside the ten bytes |

## Left out

- Heap.Allocator.MallocAlign: asks for a positive size (see `HeapModel.EmptyBlockIsHandedOutTwice`) and, when the heap must grow, for room below the end of memory; the source checks neither. The endless loop on a full table is the result `None`.
- Heap.Allocator.Free: walks in steps of 12 records to the end of the table; the source's walk goes on behind it, over memory that is not part of this model.
- Heap.Allocator.GetAllocSize: walks to the end of the table, for the same reason.
- Heap.Allocator.Realloc: asks for the null pointer or a block in use, and that the copy, as the allocation, stays inside memory.
- Scheduler.Multitasking.IrqMultitasking: asks for an active task once tasks exist, without which the source's selection loop never ends, and for at most ten counted slots.
- Scheduler.Multitasking.PublishSlot: reads and counts the slot in one step; a pre-emption between these matters only when calls overlap already. Interrupts with more than ten slots counted, which only overlapping calls bring about, are not modelled: the source then looks behind the table.
- Scheduler.Multitasking.StartSleep: the waiting loop of sleep is not a method; what it waits for is stated over runs.
- Scheduler.Multitasking.FillSlot: takes the address of the new stack as a parameter; that stacks of different tasks do not overlap is `HeapRuns.LiveAllocationsAreDisjoint`. The endless loop when memory runs out is not modelled.
- Scheduler.Multitasking.KillTask: asks for a slot below ten, which the source does not check.
- Sfs.Driver.SfsWrite: asks for a non-empty resolved name, since the empty name matches unused entries and would hand every free sector to the call; for a size that does not overflow the sector count; and for a buffer of 512 bytes, which the source reads for every size.
- Sfs.Driver.SfsRead: returns the bytes instead of storing them at growing offsets of the caller's buffer.
- Network.NetStack.HandleTcp: the port handler that a push is passed to is not called; building the reply is modelled.
- Network.NetStack.SendTcp: the destination's hardware address is a parameter; the ARP exchange that finds it is not modelled.
- Elf.LoadRelocatable: asks that the targets overlap neither each other nor the tables and that everything referred to lies in the image; symbols of NOBITS sections get the section's file offset, because the allocated address only reaches a local copy.
- ElfExecutable.LoadExecutable: asks that target ranges overlap neither each other nor the file image.
- Ehci.BuildReceiveChain: requests above 2^32 - 512 bytes, for which the 32-bit byte counter wraps; descriptors are objects linked by reference rather than by address.
- Numerals.StrtolDecimal: base 10 and at most nine characters, beyond which the source's power overflows; base 16 uses exclusive or in place of a power.
- Numerals.Itoa: the 71-character digit table is the function TableDigit.
- The stack and segment mechanics of the context switch; only the register record is modelled.
- The queue heads, controller registers and completion wait of the EHCI driver.
- UDP, DHCP, ARP and TFTP packets, and the DNS reply: they reuse the header fillers shown here or only copy fields.
- sfs_dir, which only lists names, the device dispatch around the SFS calls, and the checks that stop the kernel on a sector size other than 512.
- The dispatch of received frames on EtherType and protocol; each branch is modelled on a frame of its kind.
- Drivers, interrupt set-up, paging, graphics, terminal, the other file systems and the user programs.

# TitorOS and BarrelOS: a Dafny model of the memory, scheduling and boot code

The project models the parts of the repository where several routines share state and states what every run of
them keeps. It has seven groups of modules.

* **Frames and address spaces** (`Words`, `Least`, `FrameBitmap`, `Paging`, `Machine`, `Ledger`, `CopyOnWrite`,
  `AddressSpaces`, `Panics`, `MemoryRuns`, `ForkRefinement`, `KernelMemory`). Physical memory is 2^20 frames of 1024
  words. A word is a record of the fields the paging hardware reads; `Words` proves fields and 32-bit values
  interchangeable and relates each mask the kernel uses to an update of the fields, and `KernelMemory` changes entries
  only through those masks. `Machine` says what `kmalloc`, `mem_copy`, `mmap`, `fork`, the copy-on-write fault and the
  address-space part of `exec` do to memory. `Ledger` is the invariant: a book that gives each marked frame one role and, for tables
  and pages, the one entry that may write it. `MemoryRuns` draws the consequences for every run in any interleaving, and
  `ForkRefinement` compares runs with a memory that copies at once and knows no frames.
  `KernelMemory` is the kernel's code in the source's own form: a class that reaches page tables only through the
  recursive mapping of the loaded directory and copies pages in loops, each method proved equal to the function of the
  same name in `Machine`.
* **Scheduling** (`Scheduling`, `RingScheduler`, `ContextSwitch`). The ring, the queue of blocked terminal readers,
  and `switch_kstack` with its stacks. `RingScheduler` holds the linked nodes and the pointer queue; `Scheduling` holds
  the properties of runs.
* **Boot memory map** (`MemoryMap`, `BootPaging`). The E820 passes over the table in place, and the four-level page
  tables the placed kernel is entered with.
* **C library heap** (`LibcHeap`, `HeapRuns`). `malloc` and `free` on an array of words with the headers in the heap.
* **Strings and paths** (`Strtok`, `PathLookup`). `strtok` with its static pointers, and `getnode` driven by it.
* **Formatted output** (`Printf`, `PrintfOutput`). `printf` against a renderer, and what the renderer prints for each
  conversion.
* `Least` is the least number a set leaves out, which is what each first-fit search of the kernel finds; `Limits` holds
  sizes that several modules share.

Where the code does something its comments do not say, the model follows the code:

* `fork` clears write bits in the child's directory only, so isolation is one-way: `MemoryRuns.ParentStoresShowThrough`
  and `MemoryRuns.AncestorsAreUntouched` are the two sides. `ForkRefinement.PlainExactly` is the exact condition under
  which a store leaves copy-on-write indistinguishable from copying.
* `mmap` stores into whatever table the directory names, and after `fork` parent and child name the same one, so each
  one's `mmap` takes the page from the other (`MemoryRuns.MmapShowsThrough`). `AddressSpaces.MmapTakesExactly` gives the
  exact condition, for every range, caller and reader.
* The alignment pass on the E820 table assumes that a region reaches its first page boundary; a shorter region gets a
  size near 2^64. `MemoryMap.MapIsExactForInput` gives the exact condition,
  `MemoryMap.ShortRegionIsReachable` a list that fails it, and `MemoryMap.UnorderedListsOverlap` shows why the
  list has to be in address order. What holds for a list in any order is `MemoryMap.MapIsSound` and
  `MemoryMap.MapIsExactInAnyOrder`.
* `malloc` writes a header outside the block for three pairs of block size and rounded request;
  `LibcHeap.MallocKeepsExactly` gives them and `HeapRuns.TightSplitIsReachable` a program that meets one. The first
  block's size leaves out its own header, so the last block of the list ends twelve bytes after the mapped heap;
  `HeapRuns.MappedExactly` and `HeapRuns.HeaderMappedExactly` say which payloads and headers that touches, and
  `HeapRuns.UnmappedIsReachable` and `HeapRuns.UnmappedHeaderIsReachable` that programs get there.
* When idle is the only ready process the scheduler switches it to itself with a stack pointer read before the call;
  `ContextSwitch.SelfSwitchExactly` says when that is harmless, `ContextSwitch.SelfSwitchInRun` what that means
  in a run, and `ContextSwitch.StraySelfSwitchIsReachable` is a run where it is not.
* The terminal's queue pointers never move back, so a page of 1024 entries serves 1024 reads in all;
  `Scheduling.QueueFits` says exactly which runs stay inside it, and `Scheduling.QueueOverrunIsReachable` is one that
  does not.
* The kernel's address is cut to 32 bits; `MemoryMap.Place` states when nothing is lost, and `BootPaging.WindowExactly`
  when the page tables built from it reach the whole kernel.

A kernel panic, or a loop the source never leaves, is a `None` or `false` result. `Panics` says exactly when the
operations on memory panic.

## Model

| member | source | states |
|---|---|---|
| Words.ClearWriteMask | barrelOS/kernel/vmm.c:138 | for every 32-bit word, the mask that clears bit 1 changes the write field and no other |
| Words.UsedMasks | barrelOS/kernel/vmm.c:55-66 | setting and clearing bit 11 changes the in-use field and no other |
| Words.RetargetMasks | barrelOS/kernel/vmm.c:166-167 | the two statements that redirect an entry replace its frame, set its write bit and keep every other flag |
| Words.KernelEntryMask | barrelOS/kernel/vmm.c:57 | a frame address plus 0x803 is a used, writable, present kernel entry for that frame |
| Words.UserEntryMask | barrelOS/kernel/vmm.c:113 | a frame address plus 0x807 is a used, writable, present user entry for that frame |
| Words.SumBits | barrelOS/kernel/vmm.c:192 | flags added to a frame address give the same word whether by addition or by bitwise or |
| Words.FieldsOfBits | barrelOS/kernel/vmm.c:88-98 | every choice of fields is the fields of a 32-bit value, so with the next row fields and words correspond one to one |
| Words.FieldsDetermineWord | barrelOS/kernel/vmm.c:88-98 | two words with equal fields are equal, so working with fields loses nothing |
| FrameBitmap.SetBitBits | barrelOS/kernel/pmm.c:28 | setting bit k makes bit k one and leaves every other bit |
| FrameBitmap.ClearBitBits | barrelOS/kernel/pmm.c:35 | clearing bit k makes bit k zero and leaves every other bit |
| FrameBitmap.AllOnes | barrelOS/kernel/pmm.c:44 | a word differs from all-ones exactly when one of its 32 bits is clear |
| FrameBitmap.FrameAllocator.constructor | barrelOS/kernel/pmm.c:10-22 | exactly the frames whose address is below 0x800000 are marked at start-up |
| FrameBitmap.FrameAllocator.Puse | barrelOS/kernel/pmm.c:24-29 | the set of marked frames gains the address's frame and nothing else |
| FrameBitmap.FrameAllocator.Pfree | barrelOS/kernel/pmm.c:31-36 | the set of marked frames loses the address's frame and nothing else |
| FrameBitmap.FrameAllocator.Pmalloc | barrelOS/kernel/pmm.c:39-59 | the least unmarked frame is returned, as an aligned address that fits 32 bits, and marked; it panics only when every frame is marked |
| FrameBitmap.NeverTwice | barrelOS/kernel/pmm.c:39-59 | in every run a frame is handed out twice only if it was freed in between |
| FrameBitmap.KernelFramesAreKept | barrelOS/kernel/pmm.c:14-18 | in every run from start-up a frame below 8 MiB is handed out only after it was freed |
| Paging.PageEntrySplits | barrelOS/kernel/vmm.c:230-235 | page_entry of an address is, as an address, slot 1023, the address's directory slot and its table slot |
| Paging.PageEntryIsInjective | barrelOS/kernel/vmm.c:230-235 | two addresses have one entry if and only if they lie on one page |
| Paging.AddressLayout | barrelOS/kernel/vmm.c:11-17 | user space, the kernel's code, its heap and the page tables lie in the directory slots the model gives them |
| Paging.RecursiveMapping | barrelOS/kernel/scheduler.c:144-145 | with the directory in its own last slot, the walk of page_entry reaches the table entry, and of page_entry of its page the directory entry |
| Paging.RecursiveMappingOfAddresses | barrelOS/kernel/vmm.c:127-130 | the same for the byte addresses the fault handler computes |
| Machine.ViewIsWalk | barrelOS/kernel/vmm.c:84-98 | what a process can read and write is what the two-level walk allows user accesses |
| Ledger.WritePage | barrelOS/drivers/utils.c:35-40 | the contents of user pages and of heap pages that are not directories are nobody's invariant |
| Ledger.SetUsed | barrelOS/kernel/vmm.c:54-66 | taking or releasing a heap page that has a frame keeps the invariant, unless it is a directory that is released |
| Ledger.Attach | barrelOS/kernel/vmm.c:57 | giving an empty heap slot an unmarked frame keeps the invariant |
| Ledger.DetachFrame | barrelOS/kernel/vmm.c:140-141 | clearing a heap entry turns its frame into a page, or a table if its contents are ready, that nothing refers to |
| Ledger.LinkTable | barrelOS/kernel/vmm.c:148-149 | a directory entry pointed at an unowned table becomes its one writer |
| Ledger.LinkPage | barrelOS/kernel/vmm.c:166-167 | a table entry pointed at an unowned page becomes its one writer |
| Ledger.AddProcess | barrelOS/kernel/scheduler.c:138-150 | a heap page with the forked directory becomes a process and the invariant holds for it |
| CopyOnWrite.KmallocKeeps | barrelOS/kernel/vmm.c:39-61 | kmalloc takes a page nobody was using, changes no other slot and no page contents, and nothing user mode reaches |
| CopyOnWrite.MemCopyKeeps | barrelOS/drivers/utils.c:29-42 | after mem_copy the destination equals the source, the buffer page is free again, and nothing user mode reaches has changed |
| CopyOnWrite.CopyToHeapFills | barrelOS/kernel/scheduler.c:134-139 | kmalloc and mem_copy fill one heap page that was not in use with the contents of the source, and every heap page in use keeps its frame and contents |
| CopyOnWrite.CowTableKeeps | barrelOS/kernel/vmm.c:133-155 | the table half: every process reads and may write exactly the pages it did before |
| CopyOnWrite.CowPageKeeps | barrelOS/kernel/vmm.c:158-168 | the page half: every process reads what it did, and only the faulting page becomes writable |
| CopyOnWrite.CowFaultKeeps | barrelOS/kernel/vmm.c:123-169 | the fault is invisible: every page of every process reads the same, the faulting page has become writable, no other page's writability has changed, and the invariant holds |
| CopyOnWrite.CowFaultProgress | barrelOS/kernel/vmm.c:123-169 | the faulting process's set of readable, non-writable pages loses exactly the faulting page |
| CopyOnWrite.FaultKeepsFlags | barrelOS/kernel/vmm.c:147-168 | the two entries of the faulting page get a new frame and the write bit and keep every other flag |
| AddressSpaces.ForkKeeps | barrelOS/kernel/scheduler.c:125-159 | the child reads exactly what the parent reads and can write none of it; its entries below the last, the kernel's among them, are the parent's without write bits, and the last maps its own directory for the kernel alone; nobody else notices |
| AddressSpaces.ForkFills | barrelOS/kernel/scheduler.c:127-158 | fork takes four different heap pages that were not in use: one has the contents of the parent's descriptor table, one is the child's directory, and every heap page in use keeps its contents |
| AddressSpaces.MmapPageKeeps | barrelOS/kernel/vmm.c:191-193 | one page of mmap maps a frame nobody was using, with its old contents, and changes no page but this slot of this table |
| AddressSpaces.MmapSparesExactly | barrelOS/kernel/vmm.c:192 | one page of mmap leaves a mapped page of any process on its frame if and only if it is not the same slot of the same table; under an absent or writable entry a page another process can write never is |
| AddressSpaces.MmapTakesExactly | barrelOS/kernel/vmm.c:182-198 | a whole range, under any directory entries: a mapped page of any process keeps its frame if and only if the range does not take it; a page taken is on a frame nobody was using, every other page is as before |
| AddressSpaces.MmapGivesExactly | barrelOS/kernel/vmm.c:182-198 | a page of the range can be written afterwards if and only if its directory entry was absent or writable |
| AddressSpaces.MmapIsContained | barrelOS/kernel/vmm.c:182-198 | for a range under absent or writable directory entries: all of it becomes writable, and the caller's other private pages, everybody else's writable pages and every page of earlier processes stay as they were |
| AddressSpaces.ExecKeeps | barrelOS/kernel/scheduler.c:168-177 | after exec the process maps exactly its program pages and its stack page, all writable, and no page of any other process has changed, shared or not |
| AddressSpaces.ExecKeepsKernel | barrelOS/kernel/scheduler.c:169-171 | exec leaves the kernel's half of every directory as it is |
| AddressSpaces.StoreKeeps | barrelOS/kernel/vmm.c:84-98 | a user store changes one word, in exactly the pages that read the stored frame, and no other process's writable page |
| Panics.FaultPanicsExactly | barrelOS/kernel/vmm.c:123-169 | the fault succeeds if and only if the heap has two unused slots and there are frames for those of the first two that have none, and one more if the table is copied too |
| Panics.ForkPanicsExactly | barrelOS/kernel/scheduler.c:125-159 | fork succeeds if and only if the descriptor table can be read, the heap has four unused slots and there are frames for those of the first four that have none |
| Panics.MmapPanicsExactly | barrelOS/kernel/vmm.c:182-198 | mmap succeeds if and only if there is a free frame for each page and for each table the range lacks, and uses exactly these |
| Panics.ExecPanicsExactly | barrelOS/kernel/scheduler.c:168-177 | exec succeeds if and only if there are free frames for the program, its tables, the stack page and the stack's table if the program does not reach it; no frame of the old program is given back |
| MemoryRuns.BootInv | barrelOS/boot/pdt.asm:8-37 | the boot image after init_vmm satisfies the invariant, whatever the rest of memory holds |
| MemoryRuns.StepKeepsInv | barrelOS/kernel/scheduler.c:125-177 | every operation of every process keeps the invariant, mmap under shared entries included |
| MemoryRuns.EveryRunHasSingleWriters | barrelOS/kernel/scheduler.c:125-177 | in every state of every run from boot a table has at most one writable directory entry and a frame at most one page of one process that can write it |
| MemoryRuns.EveryRunClosesKernel | barrelOS/kernel/scheduler.c:144-145 | in every state of every run from boot no process can read or write through the kernel's half of its directory, its own page tables included |
| MemoryRuns.UserModeReachesDataOnly | barrelOS/kernel/vmm.c:84-98 | wherever user mode can read there is user data: no directory, no page table, no heap page, none of the kernel's 8 MiB |
| MemoryRuns.WritablePagesAreIsolated | barrelOS/kernel/vmm.c:123-197 | while a process takes no step and no mmap takes the page, a page it can write keeps its contents and its writability, whatever else the others do |
| MemoryRuns.AncestorsAreUntouched | barrelOS/kernel/scheduler.c:139-150 | for shared pages too: while a process takes no step, no earlier process stores and no mmap takes the page, it reads the page as before, whatever its descendants store |
| MemoryRuns.PrivateMmapTakesNone | barrelOS/kernel/vmm.c:190-194 | an mmap under absent or writable directory entries takes no page another process can write and none of an earlier process |
| MemoryRuns.ParentStoresShowThrough | barrelOS/kernel/scheduler.c:140-142 | the other direction fails: right after fork a store of the parent to a page it can write is read by the child |
| MemoryRuns.MmapShowsThrough | barrelOS/kernel/scheduler.c:140-142 | right after fork an mmap of a page by the child moves the parent's page to the same new frame, and the other way round |
| MemoryRuns.StoreSeenExactly | barrelOS/kernel/scheduler.c:140-142 | a store changes what another page reads if and only if they share the frame, and then that page is a later process's and read-only |
| MemoryRuns.FrameRoles | barrelOS/kernel/vmm.c:39-68 | a frame is on the heap, a user table or a user page and never two of these, in at most one heap slot, marked, and above the kernel's 8 MiB |
| MemoryRuns.CowFaultMovesFrames | barrelOS/kernel/vmm.c:135-167 | the handler takes from the heap only the new page and the new table, loses no mark, and neither frame was in anybody's address space |
| ForkRefinement.RunIsPlain | barrelOS/kernel/vmm.c:123-169 | in every run a page reads what its process's own stores made of it, until an earlier process stores a different word into the frame it shares, an mmap takes it, or its process calls exec |
| ForkRefinement.WritablePagesArePlain | barrelOS/kernel/vmm.c:123-169 | a page a process can write stays so and is never disturbed, whatever other processes store, as long as the others' mmaps go through absent or writable entries and the process itself neither maps over the page nor execs |
| ForkRefinement.ForkIsACopy | barrelOS/kernel/scheduler.c:138-150 | after fork, over every run that does not disturb the page, parent and child each read the parent's page at the fork with their own stores applied: the lazy copy refines an eager one, exec by anybody else included |
| ForkRefinement.PlainExactly | barrelOS/kernel/scheduler.c:140-142 | a store is seen where an eager copy would not show it if and only if it is by an earlier process, to a frame the reader shares, and changes the word |
| ForkRefinement.NoAlias | barrelOS/kernel/vmm.c:133-168 | a page a process can write is on a frame that no other page of the process is on |
| ForkRefinement.FaultIsInvisible | barrelOS/kernel/vmm.c:123-169 | in every reachable state the fault changes nothing any process reads, unlocks exactly the faulting page, and the count of read-only pages falls by one |
| ForkRefinement.ForkShares | barrelOS/kernel/scheduler.c:125-159 | in every reachable state the forked child reads all its parent reads and can write none of it, and nobody else notices |
| ForkRefinement.ExecMapsExactly | barrelOS/kernel/scheduler.c:168-177 | in every reachable state exec leaves exactly the program pages and the stack page mapped, none read-only, and no page of any other process changes |
| KernelMemory.Kernel.constructor | barrelOS/kernel/vmm.c:25-37 | setting the recursive slot and clearing slot 0 of the loaded image gives the boot state |
| KernelMemory.Kernel.FindSlot | barrelOS/kernel/vmm.c:43-49 | the search through the recursive mapping finds the first heap slot not in use |
| KernelMemory.Kernel.Kmalloc | barrelOS/kernel/vmm.c:39-61 | the code does to memory and bitmap what Machine.Kmalloc says, and panics exactly when it says so |
| KernelMemory.Kernel.CopyWords | barrelOS/drivers/utils.c:35-40 | the copy loop makes the destination frame equal the source frame and changes nothing else |
| KernelMemory.Kernel.MemCopy | barrelOS/drivers/utils.c:29-42 | the two loops through the buffer page do what Machine.MemCopy says |
| KernelMemory.Kernel.PageFault | barrelOS/kernel/vmm.c:99-171 | a missing table is filled only while mmap allows it, a user write below USER_LIMIT does what Machine.CowFault says, and every other case panics |
| KernelMemory.Kernel.Mmap | barrelOS/kernel/vmm.c:182-198 | the loop, with the faults it takes, does what Machine.Mmap says for the rounded-up number of pages |
| KernelMemory.Kernel.Fork | barrelOS/kernel/scheduler.c:125-159 | the code, with the copy of the descriptor table through a buffer page, does what Machine.Fork says and leaves a consistent machine |
| KernelMemory.Kernel.Exec | barrelOS/kernel/scheduler.c:168-177 | the code does what Machine.Exec says and leaves a consistent machine |
| KernelMemory.Kernel.SwitchTo | barrelOS/kernel/scheduler.c:34-36 | loading another process's directory leaves the kernel's own mappings in place |
| Scheduling.ScheduleKeeps | barrelOS/kernel/scheduler.c:25-32 | the search ends at a ready process because idle is one, and only turns the ring |
| Scheduling.ChildRunsNext | barrelOS/kernel/scheduler.c:148-150 | a forked child is ready and the next call of the scheduler runs it |
| Scheduling.StepKeepsInv | barrelOS/drivers/screen.c:178-197 | in every interleaving of ticks, reads, Enter and forks the processes not ready are exactly the queue entries between head and tail, each once; the running process and idle are ready |
| Scheduling.WakeOrder | barrelOS/drivers/screen.c:178-197 | over every run the processes woken, then those still waiting, are those waiting at the start, then those that called read, in order |
| Scheduling.QueueFits | barrelOS/drivers/screen.c:194-196 | every read of a run stores inside the queue page if and only if the entries before and the reads of the run are at most 1024 together |
| Scheduling.QueueOverrunIsReachable | barrelOS/drivers/screen.c:194-196 | one process that reads, is woken and runs again 1025 times makes a run that leaves the queue page |
| Scheduling.Nearer | barrelOS/kernel/scheduler.c:29-31 | a scheduler call brings a ready process at least one link nearer, a fork puts it at most one link back, and it stays ready |
| Scheduling.RunsInTime | barrelOS/kernel/scheduler.c:25-43 | in every run a ready process d links away runs within d plus the number of forks scheduler calls |
| RingScheduler.Scheduler.constructor | barrelOS/kernel/scheduler.c:79-111 | idle and the first process form the ring and the queue is empty |
| RingScheduler.Scheduler.Search | barrelOS/kernel/scheduler.c:29-31 | following next links ends at the first ready process after the running one |
| RingScheduler.Scheduler.Schedule | barrelOS/kernel/scheduler.c:25-43 | the linked ring is turned as Scheduling.Schedule says |
| RingScheduler.Scheduler.SendBuffer | barrelOS/drivers/screen.c:192-197 | the running process is queued, waits and another runs, as Scheduling.Read says |
| RingScheduler.Scheduler.CompleteBuffer | barrelOS/drivers/screen.c:178-186 | the reader at the head is made ready and the head moves, or nothing happens, as Scheduling.Enter says |
| RingScheduler.Scheduler.Fork | barrelOS/kernel/scheduler.c:148-150 | the child is linked in just after the running process with its state, as Scheduling.Fork says |
| ContextSwitch.Cpu.SwitchKstack | barrelOS/kernel/initkernel.asm:41-74 | the pushes, the exchange of stack pointers, the pops and the return do what Switch says |
| ContextSwitch.ResumesAsLeft | barrelOS/kernel/initkernel.asm:41-74 | under any interleaving a process switched out resumes with its six registers, its stack pointer and its return address |
| ContextSwitch.ChildStartsAtFirstret | barrelOS/kernel/scheduler.c:57-70 | a forked child first resumes at firstret with the stack pointer on the parent's interrupt frame with eax 0 and eflags 0x282 |
| ContextSwitch.SelfSwitchExactly | barrelOS/kernel/scheduler.c:42 | a process switched to itself carries on where it was if and only if the stored stack pointer is its present one |
| ContextSwitch.SelfSwitchInRun | barrelOS/kernel/scheduler.c:42 | in every run a process switched to itself carries on where it was if and only if it is at the stack depth of its last switch |
| ContextSwitch.StraySelfSwitchIsReachable | barrelOS/kernel/scheduler.c:42 | a run in which a process switched to itself, with its stack moved since the last time, does not come back to its own frame |
| MemoryMap.AbsorbCovers | titorOS/bootloader/stage2/stage2.c:80-96 | the inner loop moves bytes from the list into the growing range and loses and adds none, in any order of entries |
| MemoryMap.MergeKeepsBytes | titorOS/bootloader/stage2/stage2.c:74-109 | for entries in any order that do not wrap, the usable bytes after merging are the usable bytes before without the first MiB |
| MemoryMap.AbsorbInOrder | titorOS/bootloader/stage2/stage2.c:80-96 | in address order the inner loop leaves only regions that start beyond the merged one |
| MemoryMap.MergedPages | titorOS/bootloader/stage2/stage2.c:74-109 | for an ordered list the pages inside merged regions are the pages all of whose bytes are usable and above 1 MiB |
| MemoryMap.AlignKeepsPages | titorOS/bootloader/stage2/stage2.c:112-124 | aligning a region that reaches its first boundary keeps exactly the pages inside it |
| MemoryMap.AlignBad | titorOS/bootloader/stage2/stage2.c:117-118 | a shorter region comes out listing the last page of the address space, or page 0 |
| MemoryMap.CompactKeepsPages | titorOS/bootloader/stage2/stage2.c:127-133 | compaction keeps the pages of the usable entries |
| MemoryMap.MapIsExact | titorOS/bootloader/stage2/stage2.c:73-133 | for an ordered list without wrap the final table lists exactly the wholly usable pages above 1 MiB if and only if every merged region reaches its first page boundary |
| MemoryMap.MapIsExactForInput | titorOS/bootloader/stage2/stage2.c:73-133 | the same condition on the list itself: where a usable entry starts above 1 MiB, its page is usable from its start up to the entry, or from the entry's start to its end |
| MemoryMap.ReachExactly | titorOS/bootloader/stage2/stage2.c:73-124 | every merged region reaches its first boundary if and only if that holds of the list |
| MemoryMap.ShortRegionIsReachable | titorOS/bootloader/stage2/stage2.c:117-118 | a list of one region of 256 bytes for which the final table lists the last page of the address space |
| MemoryMap.MapIsOrdered | titorOS/bootloader/stage2/stage2.c:73-133 | and then its regions are usable, page aligned, in address order and disjoint |
| MemoryMap.MapIsSound | titorOS/bootloader/stage2/stage2.c:73-133 | for a list in any order without wrap every page listed is wholly usable and above 1 MiB if and only if every merged region reaches its first page boundary |
| MemoryMap.MapIsExactInAnyOrder | titorOS/bootloader/stage2/stage2.c:73-133 | for a list in any order without wrap the final table is exact if and only if, besides, no wholly usable page above 1 MiB is divided between merged regions |
| MemoryMap.UnorderedListsOverlap | titorOS/bootloader/stage2/stage2.c:80-96 | a list out of order whose merged regions share a page |
| MemoryMap.UnorderedListsLosePages | titorOS/bootloader/stage2/stage2.c:80-96 | a list out of order that passes every other condition and loses a usable page |
| MemoryMap.Combine | titorOS/bootloader/stage2/stage2.c:74-109 | the nested loops over the table compute Merged |
| MemoryMap.Align | titorOS/bootloader/stage2/stage2.c:112-124 | the alignment loop, in 64-bit arithmetic, computes AlignAll |
| MemoryMap.Truncate | titorOS/bootloader/stage2/stage2.c:127-133 | compacting in place leaves the usable entries, in order, at the front |
| MemoryMap.Place | titorOS/bootloader/stage2/stage2.c:136-143 | the address of the first region at least ksize long is returned, cut to 32 bits, which loses nothing if and only if it is below 4 GiB |
| MemoryMap.BuildMap | titorOS/bootloader/stage2/stage2.c:68-144 | the four passes leave FinalTable in the table and place the kernel in its first large enough region |
| MemoryMap.PlacedOnUsableMemory | titorOS/bootloader/stage2/stage2.c:136-143 | for a list in any order without short merged regions, every byte of the region chosen for the kernel is usable and above 1 MiB |
| MemoryMap.PlacementIsAligned | titorOS/bootloader/stage2/stage2.c:138 | the kernel's address is page aligned whenever the map is exact |
| BootPaging.BuildTables | titorOS/bootloader/stage2/stage2.c:43-62 | the stores and loops fill the seven pages with the entries of Built |
| BootPaging.UpperEntry | titorOS/bootloader/stage2/stage2.c:43-58 | of the upper three levels exactly the six entries stored name a table, none a large page, and none for user mode |
| BootPaging.TablesMapExactly | titorOS/bootloader/stage2/stage2.c:43-62 | the four-level walk, which reads write, user, page-size and execute-disable bits, lets supervisor mode load and store at v for v below 2 MiB and at kaddr for the kernel's 2 MiB, maps no other canonical address, and nothing for user mode |
| BootPaging.AlignmentIsNeeded | titorOS/bootloader/stage2/stage2.c:61-62 | the kernel's first byte is mapped to kaddr if and only if kaddr is page aligned |
| BootPaging.WindowExactly | titorOS/bootloader/stage2/stage2.c:61-62 | for every kaddr below 4 GiB the whole kernel window maps to kaddr on if and only if kaddr is page aligned and its 2 MiB end at or below 4 GiB |
| BootPaging.PlacedKernelIsMapped | titorOS/bootloader/stage2/stage2.c:138 | a kernel placed by an exact map is reached at the top of the address space |
| LibcHeap.BlocksAreDisjoint | barrelOS/libc/stdlib.c:17-45 | no word belongs to two blocks of a tiled heap |
| LibcHeap.EveryWordHasABlock | barrelOS/libc/stdlib.c:17-45 | every word of a tiled heap belongs to a block |
| LibcHeap.MallocKeeps | barrelOS/libc/stdlib.c:31-43 | taking a block, split or whole, leaves blocks in address order that tile the heap, with fd links in order and bk links to earlier blocks |
| LibcHeap.MallocKeepsExactly | barrelOS/libc/stdlib.c:32-35 | malloc leaves a tiled heap if and only if it is not one of the three splits without room for a header |
| LibcHeap.LargeRequestsAreSafe | barrelOS/libc/stdlib.c:19 | requests from 5 to 2^32 - 4 bytes never meet those splits |
| LibcHeap.Heap.constructor | barrelOS/libc/init_libc.c:18-22 | one free block of HEAP_SIZE bytes tiles the heap |
| LibcHeap.Heap.Search | barrelOS/libc/stdlib.c:21-29 | following fd finds the lowest block that fits, and falls off the end only if none does |
| LibcHeap.Heap.Malloc | barrelOS/libc/stdlib.c:17-45 | the first fitting block is taken, the words are AfterMalloc, the pointer is its payload, and the heap stays valid outside the three bad splits |
| LibcHeap.Heap.Free | barrelOS/libc/stdlib.c:47-50 | only the used mark of the pointer's block changes and the heap stays valid |
| HeapRuns.MallocGives | barrelOS/libc/stdlib.c:21-44 | for every request the first block that is unused and large enough is taken and gets at least the rounded request and at most twice it; the rounding loses nothing up to 2^32 - 4 and gives 0 above |
| HeapRuns.FreeIsExact | barrelOS/libc/stdlib.c:47-50 | after free exactly the freed block is no longer live, its size is kept, and no other word has changed |
| HeapRuns.MallocLives | barrelOS/libc/stdlib.c:31-44 | after malloc exactly the block it returns has become live |
| HeapRuns.FreedBlocksServe | barrelOS/libc/stdlib.c:17-50 | in every run, once a block has been freed, every safe request up to its size is served with a block that was not live |
| HeapRuns.BoundariesGrow | barrelOS/libc/stdlib.c:33-41 | malloc keeps every block boundary and adds at most one, just after the request |
| HeapRuns.WriteKeeps | barrelOS/libc/stdlib.h:3-7 | a write to a live payload touches no header and leaves the list as it is |
| HeapRuns.EveryRunIsTiled | barrelOS/libc/stdlib.c:17-50 | in every run of malloc, free and payload writes in which no malloc splits too tightly the blocks tile the heap in address order |
| HeapRuns.LargeIsSafe | barrelOS/libc/stdlib.c:19 | requests from 5 to 2^32 - 4 bytes never split too tightly, in any state |
| HeapRuns.TightSplitIsReachable | barrelOS/libc/stdlib.c:32-35 | malloc(12), free and malloc(4) on a fresh heap meet a split without room for a header |
| HeapRuns.PayloadsKeepTheirContents | barrelOS/libc/stdlib.c:17-50 | over every stretch of a run a word of a live payload keeps its value until its block is freed or it is written |
| HeapRuns.PayloadsAreDisjoint | barrelOS/libc/stdlib.c:17-45 | live payloads share no word with each other or with any header |
| HeapRuns.MappedExactly | barrelOS/libc/init_libc.c:18-20 | a live payload lies in the mapped bytes if and only if its block is not the last of the list |
| HeapRuns.HeaderMappedExactly | barrelOS/libc/init_libc.c:18-20 | the header of a block lies in the mapped bytes if and only if the block is not the last of the list or has at least 12 bytes |
| HeapRuns.UnmappedHeaderIsReachable | barrelOS/libc/stdlib.c:32-41 | eleven requests on a fresh heap after which a block header has two words that are not mapped |
| HeapRuns.UnmappedIsReachable | barrelOS/libc/init_libc.c:18-20 | malloc(HEAP_SIZE) on a fresh heap gives a payload whose last words are not mapped |
| Strtok.TokensAreMaximal | barrelOS/libc/string.c:37-58 | the tokens are exactly the maximal non-empty stretches without delimiters, in order |
| Strtok.BlankKeepsText | barrelOS/libc/string.c:44-48 | overwriting the delimiters leaves every other character as it was |
| Strtok.Tokenizer.First | barrelOS/libc/string.c:41-49 | the delimiters are overwritten once and the first token is current with the others to come |
| Strtok.Tokenizer.Again | barrelOS/libc/string.c:50-57 | a call with NULL moves to the next token, and returns NULL for ever after the last |
| Strtok.AllTokens | barrelOS/libc/string.c:37-58 | calling with the string and then NULL yields every token in order and then NULL, and where each starts the array holds the token's own text up to a terminator |
| PathLookup.ComponentsOfReprint | barrelOS/kernel/vfs.c:86-106 | the components of a path printed from names are those names, so printed paths are canonical |
| PathLookup.StopsAtTheEnd | barrelOS/kernel/vfs.c:85 | the printed path equals the given one only when every component has been used |
| PathLookup.CanonicalExactly | barrelOS/kernel/vfs.c:85-87 | a path is canonical if and only if it is empty or starts with a slash, does not end in one, and has no two together |
| PathLookup.DescendIsChain | barrelOS/kernel/vfs.c:89-123 | the walk ends at a node if and only if a chain of nodes leads there, each the first dirent with the component's name, at an index below 256, of a directory |
| PathLookup.GetNode | barrelOS/kernel/vfs.c:70-137 | a node is returned if and only if the path is canonical and such a chain leads from the root to it |
| PathLookup.NewVnode | barrelOS/kernel/vfs.c:139-153 | a name is appended unless a sibling has it, and sibling names stay distinct |
| PathLookup.RegisterAllExactly | barrelOS/kernel/vfs.c:139-153 | a sequence of calls succeeds if and only if all names, old and new, are different, and then leaves the old names and the new ones in order |
| PathLookup.NamesFitExactly | barrelOS/kernel/vfs.c:139-153 | a sequence of calls that succeeds stays inside the page of 68 nodes if and only if the old names and the new ones before the last call leave room for two |
| Printf.DecimalDecodes | barrelOS/libc/stdio.c:32-47 | the decimal digits give the number back, and only zero starts with a zero |
| Printf.FormatDecimal | barrelOS/libc/stdio.c:33-45 | ten digits by falling divisors, less leading zeros, are the decimal form |
| Printf.HexDecodes | barrelOS/libc/stdio.c:49-63 | the hexadecimal digits give the number back, are 2, 4, 6 or 8, and no more than needed |
| Printf.FormatHex | barrelOS/libc/stdio.c:51-62 | eight shifted digits in the letter's case, less up to three pairs of zeros, are the hexadecimal form |
| Printf.Printf | barrelOS/libc/stdio.c:9-91 | the output is the renderer's for every format that suits its arguments, and the format string is left as it was |
| PrintfOutput.StringPrints | barrelOS/libc/stdio.c:73-75 | after any plain text and before any format, %s prints its argument |
| PrintfOutput.CharPrints | barrelOS/libc/stdio.c:67-71 | %c prints the low byte of its argument, or nothing for a terminator |
| PrintfOutput.PercentPrints | barrelOS/libc/stdio.c:26-30 | %% prints one percent sign |
| PrintfOutput.UnknownPrints | barrelOS/libc/stdio.c:77-82 | an unknown letter is printed after its percent sign |
| PrintfOutput.UnsignedPrints | barrelOS/libc/stdio.c:32-47 | %u prints decimal digits only, which give the argument back without a leading zero |
| PrintfOutput.HexPrints | barrelOS/libc/stdio.c:49-65 | %x and %X print 0x and 2, 4, 6 or 8 digits, in lower and upper case respectively, which give the argument back |

## Left out

- Kernel-mode stores into user memory (such as `exec` reading the program in): write protection in supervisor mode is never switched on, so copy-on-write concerns user stores only.
- TLB behaviour and CR3 flushes, the interrupt entry code, GDT, IDT, PIC and TSS: hardware plumbing.
- `mmiomalloc` and device frames: MMIO space is not reserved in the bitmap.
- Machine.Fork: does not model the contents of the process record, because it holds no page-table words; its heap page is allocated.
- KernelMemory.Kernel.Mmap: ranges are required to lie below USER_LIMIT, because the source takes any hint and would write kernel tables through a larger one.
- KernelMemory.Kernel.MemCopy: copies whole pages to a heap page, which is every use the paging code makes of mem_copy; the terminal's and ext2's shorter copies are not part of this model.
- KernelMemory.Kernel.CopyWords: copies 1024 words where the source copies 4096 bytes, because page tables are read as words.
- KernelMemory.Kernel.PageFault: the branch for a missing page is modelled for the table entries `mmap` stores to, because the flag that allows it is set only around those stores.
- Process ids: fork gives every child the same pid, so processes are identified by position or by reference.
- RingScheduler.Scheduler.SendBuffer: a read needs room in the queue page, because the source writes past the page after 1024 reads; the runs in Scheduling have no such limit.
- Terminal line contents, the keyboard, drawing and the copy to the reader after it wakes: only the waiting protocol is modelled.
- The `switch_kstack` call's argument pushes are part of the running process's own work, as its compiled code makes them.
- The number of E820 entries and ksize are parameters; BIOS calls, ELF loading and `init_kernel` are not part of this model.
- LibcHeap.Heap.Malloc: the words after the heap that a bad split can overwrite are two words of slack in the array, so that the code is modelled for every request.
- Strtok.Tokenizer.First: delimiters are fewer than 256 in any use, so the 8-bit counter over them is an unbounded one here.
- PathLookup.GetNode: directories are those without an enumdir function, nodes are values because the lookup only reads them, and the page-sized path buffers are not bounded.
- PathLookup.NewVnode: names are not cut to the 32-byte name field, which the source overruns with a longer name.
- Printf.Printf: arguments have the kinds the format asks for, and formats ending in a lone % are excluded because the source reads past their end.
- ext2, devfs, tmpfs, NVMe, PCI, timers and `titorOS/kernel`: device code or unfinished code.

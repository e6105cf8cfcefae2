# ArdaOS: a verified model of the kernel's data structures

ArdaOS is a small 32-bit x86 kernel. This project models the parts of it that keep
hand-written data structures sound over long runs, and proves what they keep. Code
that changes things step by step is modelled by classes whose methods have the
source's loops and in-place updates; each method is proved equal to a function on
plain values, and the results below are about those functions, over every input and
every run. `dafny verify dfyconfig.toml` checks everything.

| part | value-level files | classes |
|---|---|---|
| FAT16 store | `FatCodec`, `FatVolume`, `FatDisk`, `FatFiles`, `FatProofs`, `FatInvariant`, `FatRead`, `FatReadBack`, `FatNames`, `FatRuns`, `FatOverwrite`, `FatImage`, `FatCursor`, `FatOnDisk`, `FatWalk`, `PathSpec` | `FatStore`, `Paths` |
| kernel heap | `HeapSpec`, `HeapProofs` | `Heap` |
| program launch and kill | `LaunchSpec`, `LaunchRoom`, `System` | `Launch` (on `Heap` and `Sched`) |
| scheduler | `SchedSpec`, `SchedProofs` | `Sched` |
| address spaces, `sys_sbrk` | `PagingSpec`, `PagingProofs`, `Sbrk`, `PageRights` | `Paging` |
| user `malloc` | `UserHeap` | `UserAlloc` (on `Paging`) |
| ELF loader | `ElfSpec`, `ElfFile`, `ExecLoad` | `Elf` (on `Paging`) |
| programs side by side | `Isolation` (on launch, address spaces and loader) | |
| named pipes | `PipeSpec` | `Pipes` |
| TCP frame and checksums | `ChecksumSpec`, `TcpReceiver` | `Checksum` |
| damage-tracked drawing | `DamageSpec` | `Compositor` |

**FAT16 store.** The disk is a sequence of 512-byte sectors; every operation is the list
of single-sector writes it issues, in order. Power may fail after any one of them, in
any run of writes and deletes: live entries then still stand on allocated, properly
ended chains and no two share a cluster. Between operations clusters in use are exactly
those of live chains, both FAT copies agree and every chain is long enough; a write
keeps this exactly when the file fits its chain (a new file gets one cluster). The disk
may be of any size that holds the root directory; the FAT may name clusters past its
end, and the code hands those out too. A write that finds room is read back with its
size (512 if the one asked for is not between 1 and 10240), and with its bytes exactly
when those that went past the end are zero, so whole if its sectors lie on the disk. After any run of files that fit and lie on the disk, a name
reads as what was last written to it since it was last deleted; after any run at all
each of its bytes is the last one that landed at its place on the disk. Another file
keeps its bytes exactly when the sectors written spare those it occupies: always if the
file fits, not if it runs over. Cursor reads of any sizes join up to a prefix of the
whole file. Names are found whatever their case, and a path of several names is found
where a descent name by name ends. What a write and a delete leave on the disk is told
byte by byte, at the offsets of the format; layout follows the Microsoft FAT specification 1.03, sections "FAT Data
Structure" and "FAT Directory Structure".

**Heap, launch, scheduler.** The next-fit list tiles the 4 MB and stays coalesced; it is
determined by the blocks in use, so any launches and kills that end with the same
programs end with the same list, whatever is scheduled in between. No block is more than
19 bytes larger than the request, the rest of it stays free, and what was freed can be
had again; from boot exactly 53 programs find memory. The task ring stays
one cycle under every event; a task that stays runnable runs within one round, and so
does one that was blocked once it is woken; a sleeper wakes on exactly its tick.

**Address spaces.** Mapping a private page of one directory changes no other directory.
Over any run of task creation, `sys_sbrk`, program and library loading and driver
allocations all heaps stay mapped, and heap bytes of two tasks are one physical byte
exactly when the addresses are equal and both tasks run on the kernel's own directory
(or are one task). Every mapped page of
a task's own, its heap included, is open to stores from the program; at boot the first
4 MB are not. Starting a program changes nothing that programs on other directories
read in their images and heaps. From the bytes of an ELF file (System V gABI, chapters 4
and 5) a segment reads as the file says. After loading any list of headers, the bytes a program
sees are told by the last segment on each page and the last one to fill each place of
the image.

**Programs side by side.** Over any run of launching, loading, killing, `sbrk`, library
mapping, stores to stacks and other kernel memory and stores by programs to their own
segments and heaps, with at most eight tasks ever created, the one physical memory
behind the page tables behaves as a private memory for each program: it reads what the
loader put into its image, told from its file alone, and what it stored itself. A store
anywhere else leaves a program its memory exactly when it does not count on the byte or
the byte was there already.

**User heaps.** Over any run of `malloc` and `free` in the first eight tasks, direct
`sbrk` by any task, loading and task creation, the blocks of each task lie apart and
below its break in every state exactly when no request wraps down into its heap and no
program moves its break below its last block; then no two live allocations of these
tasks share a byte of physical memory.

**Pipes.** Each of the sixteen pipes is a FIFO under any interleaving of opens, reads
and writes over the whole pool, and two opens meet exactly when eight characters agree. A
read gets what it asks for or all there is; a write is taken whole or fills the pipe.

**TCP frame.** A host that checks both sums reads off the frame exactly the addresses,
ports, numbers, flags and payload that were to be sent.

Points where the code is stronger or weaker than it looks:

- A `malloc` request within 3 of 2^32 wraps to 0 when it is rounded up and is answered
  with an empty block; every smaller request gets a block that is large enough.
- `wake_task_by_id` leaves `sleep_ticks` behind, so a task that later waits for a key
  can be woken by the timer; it runs again unaided exactly when that counter is not 0.
- A file larger than its clusters is read back whole, as far as the disk reaches,
  because it runs on into the next sectors; a neighbour that lies there changes
  (`FatRuns.OversizeExample`).
- The allocator never compares a cluster with the end of the disk. The FAT of c.img, the
  image the system boots from (20480 sectors), names clusters up to 5119 and the disk
  ends after cluster 5102; once those are taken a new file is written with success and
  reads as zeros (`FatImage.ImageLosesFile`).
- The ninth task gets the kernel's own page directory, and so does every later one. The
  first eight keep their heaps apart from all others; two later ones replace each
  other's heap pages as they grow, and since all programs are linked at one address
  (sdk/app.ld:6) loading the tenth replaces the pages of the ninth
  (`ExecLoad.LaterProgramReplacesIff`).
- A page behind a kernel table is one entry for all tasks, so a heap grown past 0x800000
  maps over the kernel heap of everybody (`SbrkProofs.GrowthLeaksIff`).
- The loader places every PT_LOAD segment at its page offset of one 64 KB image. Two
  segments on pages of their own are both right exactly when they hold the same byte
  wherever they fill the same place of it, in particular if those places are disjoint.
- `map_shared_library` drops the page offset of the physical address, so it is right
  exactly when both addresses have the same one.
- The loop of `net_checksum` takes the byte behind an odd range into the sum, which is
  right exactly when that byte is zero.
- The sequence number advances by data, SYN and FIN, as section 3.3 of RFC 793 counts
  them, exactly when there is at most one of the three (`Checksum.SequenceIff`).
- The wallpaper ignores the clip rectangle; the plain background keeps to it.
- `fat16_find_entry` reports success and leaves the caller's entry untouched exactly on
  an empty path and on a single slash; `ardaos_read_file` of a blank name then returns
  the size an uninitialised entry held. `vfs_read` returns 0 while 2 GB or more are left.
- User `malloc` adds its header size in 32 bits and hands the sum to `sbrk` as an `int`.
  A request within the size of the heap of 4 GB moves the break down or not at all; the
  next block then overlaps the one before or gets its very address
  (`UserHeapProofs.WrappedRequestsClash`) and is linked to itself, so that the next walk
  along the list never ends.
- The comment above `malloc` in sdk/libc.c speaks of next-fit; the code is first-fit,
  and so is the model.

## Model

| member | source | states |
|---|---|---|
| HeapProofs.NextFitIsCyclicFirst | src/memory.c:129-157 | the search finds a block exactly when some free block is large enough, and then the first one in cyclic order from the cursor |
| HeapProofs.MallocComplete | src/memory.c:125-161 | null exactly for size 0 or when nothing is large enough, and then nothing changes; otherwise the pointer is live |
| HeapProofs.MallocKeepsInv | src/memory.c:125-161 | every request, wrapping ones included, keeps the list tiling the 4 MB, coalesced, the cursor on a node and the running total exact |
| HeapProofs.MallocBigEnoughIff | src/memory.c:127 | the block covers the request exactly when rounding up to 4 does not wrap |
| HeapProofs.WrappedRequestExample | src/memory.c:127 | a concrete wrapped request is answered with an empty block |
| HeapProofs.MallocAllocated | src/memory.c:125-161 | malloc adds exactly one block, at a new address, to the allocated set |
| HeapProofs.MallocTakes | src/memory.c:129-157 | where the block comes from and what is left: a free block that was large enough, whole if at most 16 bytes were to spare, else its front with a free block of all the rest behind it; the next search begins behind it |
| HeapProofs.MallocWastesLittle | src/memory.c:134-150 | the block is at most 19 bytes larger than the request |
| HeapProofs.MallocAfterFree | src/memory.c:163-179 | freeing null does nothing; after any other free the next request gets the lowest block that fits |
| HeapProofs.FreedCanBeHad | src/memory.c:125-179 | what was freed can be had again: a request of no more than that size succeeds |
| HeapProofs.FreeKeepsInv | src/memory.c:163-179 | freeing a live pointer keeps the invariant and releases that block and nothing else |
| HeapProofs.FreeUndoesMalloc | src/memory.c:125-179 | freeing a fresh allocation restores the block list and the running total |
| HeapProofs.Canonical | src/memory.c:163-179 | the allocated blocks determine the whole list |
| HeapProofs.PayloadsDisjoint | src/memory.c:125-161 | two live pointers never share a byte and all bytes lie in the heap |
| HeapProofs.RunKeepsInv | src/memory.c:116-179 | any run of malloc and valid free keeps the invariant, and sizes positive if no request wraps |
| HeapProofs.AnyRunFromBoot | src/memory.c:116-179 | from boot every run keeps the invariant, and runs that leave the same blocks allocated leave the same list and total |
| KernelHeap.Heap.constructor | src/memory.c:116-123 | one free block over the whole range |
| KernelHeap.Heap.Malloc | src/memory.c:125-161 | the linked headers, cursor and total after the call are those of the value-level malloc |
| KernelHeap.Heap.Search | src/memory.c:129-157 | the pointer loop terminates and finds the cyclic first fit |
| KernelHeap.Heap.Claim | src/memory.c:134-150 | splitting and taking a block in place |
| KernelHeap.Heap.Free | src/memory.c:163-179 | marking, merging and resetting the cursor in place |
| KernelHeap.Heap.Coalesce | src/memory.c:169-177 | one pass over the headers merges every run of free neighbours |
| LaunchSpec.AlignImage | src/kernel.c:235 | the image address is page aligned, at most a page above the raw pointer, with room for the stashed word below it |
| LaunchProofs.LaunchKeepsWF | src/kernel.c:231-243 | a launch takes three new blocks; stashed pointer and 64 KB image fit in the first; other programs keep theirs |
| LaunchProofs.KillKeepsWF | src/task.c:157-187 | a kill frees exactly the three blocks of that program |
| LaunchProofs.ImagesApart | src/kernel.c:231-243 | no byte belongs to the memory of two programs |
| LaunchProofs.RunConserves | src/kernel.c:219-246 | launches and kills that end with the programs they began with end with the same block list |
| LaunchProofs.LaunchThenKill | src/kernel.c:219-246 | exec then kill restores the block list |
| LaunchRoom.MallocFresh | src/memory.c:125-161 | if only the last block is free a request is served from its front, header and payload end to end |
| LaunchRoom.LaunchFresh | src/kernel.c:231-243 | a launch then takes 78160 bytes: the addresses and sizes of image, task_t and stack |
| LaunchRoom.LaunchesSucceed | src/kernel.c:231-243 | any number of launches succeed, one behind the other, as long as that block is large enough |
| LaunchRoom.FiftyThreePrograms | src/kernel.c:231-243 | from boot the first 53 launches succeed, at these addresses, and the 54th does not |
| SystemProofs.ScheduleKeepsPrograms | src/boot.asm:111-148 | ticks, switches, sleeping, waking and blocking leave the running programs and what they hold as they are |
| SystemProofs.RunCallsKeepsOk | src/kernel.c:210-246 | over any mix of launches, kills and scheduling the user tasks of the ring are the running programs, with memory of their own |
| SystemProofs.RunCallsConserves | src/kernel.c:210-246 | such a run ends with the block list it started with whenever it ends with the programs it started with |
| Launch.Kernel.Boot | src/task.c:16-33 | heap, task ring and the two kernel tasks agree after boot; the heap is the one from which 53 programs can be launched |
| Launch.Kernel.Exec | src/kernel.c:231-243 | allocation, stashing and list insertion on heap and ring give the launched state |
| Launch.Kernel.Kill | src/task.c:157-187 | unlinking and the three frees through the stashed pointer give the killed state; unknown ids change nothing |
| Launch.Kernel.TimerInterrupt | src/boot.asm:111-148 | sweep and switch; heap and programs stay valid, so that exec and kill can follow |
| Launch.Kernel.Yield | src/boot.asm:324-359 | the same for a switch |
| Launch.Kernel.Sleep | src/task.c:360-369 | for sleeping |
| Launch.Kernel.Wake | src/task.c:139-150 | for waking |
| Launch.Kernel.Block | src/kernel.c:161-172 | and for waiting for a key |
| SchedProofs.SkipReaches | src/boot.asm:111-148 | the skip loop stops at a runnable task no later than any given runnable one |
| SchedProofs.SwitchPicksRunnable | src/boot.asm:324-359 | a switch always ends on a runnable task |
| SchedProofs.StepKeepsInv | src/task.c:35-187 | create, kill, wake, block, sleep, tick and switch keep one ring with unique ids that holds the current task |
| SchedProofs.RunKeepsInv | src/task.c:35-187 | the same over every run |
| SchedProofs.AnyRunFromBoot | src/task.c:16-33 | the same from boot |
| SchedProofs.DispatchedWithin | src/boot.asm:111-148 | a task that stays runnable is dispatched within its distance in the ring |
| SchedProofs.Fairness | src/boot.asm:111-148 | on an unchanged ring of k tasks it is dispatched within k switches |
| SchedProofs.WokenRuns | src/task.c:139-150 | a wake call makes that task runnable, keeps its counter and touches no other task |
| SchedProofs.WaiterIsBlocked | src/kernel.c:161-172 | a task that waits for a key is blocked, keeps its counter, and no other task changes |
| SchedProofs.RunnableKept | src/timer.c:20-41 | a runnable task stays as it is whatever happens but its own sleep, wait and end: ticks only count for blocked tasks |
| SchedProofs.WokenIsDispatched | src/kernel.c:261-263 | a task that is woken and does not stop again is dispatched by the k-th switch on a ring of k tasks |
| SchedProofs.NewTaskRuns | src/task.c:35-137 | a new task is runnable, with the next id, right behind the head; the others keep their order |
| SchedProofs.KilledIsGone | src/task.c:157-187 | a killed task is gone and the others keep their order |
| SchedProofs.ParkedStep | src/timer.c:20-41 | what one event does to a sleeping task |
| SchedProofs.ParkedRun | src/timer.c:20-41 | while a task sleeps, ticks plus its counter is constant, whatever others do |
| SchedProofs.SleepDeadline | src/task.c:360-369 | a sleeper becomes runnable on exactly the max(1, ms/10)-th tick |
| SchedProofs.WakesByItselfIff | src/task.c:139-150 | a blocked task can run again unaided exactly when its counter is not zero |
| SchedProofs.StaleCounterExample | src/kernel.c:105-116 | a run after which a task waits for a key with a stale counter of 10 |
| Scheduler.Ring.constructor | src/task.c:16-33 | the kernel task alone in its ring |
| Scheduler.Ring.CreateTask | src/task.c:133-136 | insertion behind the head of the linked ring |
| Scheduler.Ring.KillTask | src/task.c:157-187 | unlinks exactly the task of that id, which is no longer reachable |
| Scheduler.Ring.Wake | src/task.c:139-150 | clears the state of that task and nothing else |
| Scheduler.Ring.Block | src/kernel.c:161-172 | blocks the current task |
| Scheduler.Ring.Sleep | src/task.c:360-369 | sets the counter, blocks and switches |
| Scheduler.Ring.TimerSweep | src/timer.c:20-41 | every task once: count down, wake at zero |
| Scheduler.Ring.Sweep | src/timer.c:20-41 | the do/while loop visits every node once and comes back to the head |
| Scheduler.Ring.Switch | src/boot.asm:324-359 | the next-task loop terminates on the next runnable task |
| Scheduler.Ring.TimerInterrupt | src/boot.asm:111-148 | sweep, then switch |
| PagingProofs.AddTableInv | src/task.c:192-209 | a new page table keeps tables private to their directory |
| PagingProofs.MapIsolated | src/task.c:192-209 | mapping a private page changes that page of that directory and no other translation of any |
| PagingProofs.MapReaches | src/task.c:192-209 | mapping any page changes it in that directory alone, or in every directory if it lies behind a kernel table |
| PagingProofs.IsolatedIff | src/task.c:192-209 | for any page: another directory's translation is left alone exactly when the page is private or had that frame there already |
| Paging.BootInv | src/memory.c:46-85 | the directory built at boot shares only static kernel tables |
| Paging.BootRights | src/memory.c:46-85 | at boot a user program may store to the kernel heap, the pool and the frame buffer and nowhere else |
| PageRights.MapOpens | src/task.c:192-209 | mapping a page opens it to user stores, at both levels of the tables, and closes none |
| PageRights.RunStaysOpen | src/task.c:332-358 | after any run every heap page, and every mapped page of a task's own, is open to stores from the program |
| Paging.AddressSpaces.InitPaging | src/memory.c:46-85 | where every page of the first 4 MB, the heap, the pool and the frame buffer maps, and which of them user programs may store to |
| Paging.AddressSpaces.MapVaddrToPaddr | src/task.c:192-209 | the table walk with table creation |
| Paging.AddressSpaces.AllocPageAligned | src/memory.c:187-196 | next page boundary of the pool |
| Paging.AddressSpaces.AllocUserPage | src/memory.c:222-226 | next user frame |
| Paging.AddressSpaces.CreateTaskPageDir | src/memory.c:202-217 | a copy of the kernel directory for the first eight tasks, the kernel's own one for all after that; a fresh break for each |
| Paging.AddressSpaces.SysSbrk | src/task.c:332-358 | break, frames and tables after any call, in 32 bits, wherever the break goes; inside the heap window all heaps stay valid |
| Paging.AddressSpaces.MapFreshPages | src/task.c:342-351 | the loop maps every page of the range, one fresh frame each |
| SbrkSpec.GrowSpecGrows | src/task.c:342-351 | the mapping loop gives each new page the next fresh frame and moves nothing else |
| SbrkSpec.BreakInWindow | src/task.c:332-358 | inside the heap window nothing wraps and the call is the one the heap results are about |
| SbrkSpec.SbrkKeepsHeaps | src/task.c:332-358 | every heap page of every task stays mapped, to a frame of its own in its directory; translations change exactly on the pages mapped anew |
| SbrkProofs.LoadKeepsHeaps | src/task.c:219-246 | loading any program clear of the heaps of its directory keeps every heap translation |
| SbrkProofs.MapKeepsHeaps | src/memory.c:235-245 | so does mapping a shared library |
| SbrkProofs.DmaAllocTakes | src/memory.c:97-104 | the pool pointer moves past the bytes handed out to the next multiple of four |
| SbrkProofs.StepKeepsHeaps | src/task.c:332-358 | task creation (any number), `sys_sbrk`, program and library loading and driver allocations keep all heaps mapped; only growth of another task on the same directory changes a heap translation |
| SbrkProofs.RunKeepsHeaps | src/task.c:332-358 | all heaps mapped, and frames shared only as one page of one directory, over every run with any number of tasks |
| SbrkProofs.RunKeepsTranslations | src/task.c:332-358 | over any run of growing calls, loading and task creation a heap byte keeps its translation, unless another task on its directory grows |
| SbrkProofs.SharedDirectoryIff | src/memory.c:202-217 | two tasks run on one directory exactly when they are one or both came after the eighth |
| SbrkProofs.HeapBytesCoincideIff | src/task.c:332-358 | heap bytes of any two tasks are one physical byte exactly when the addresses are equal and the tasks are one or both came after the eighth; frames likewise |
| SbrkProofs.GrowthReplacesIff | src/task.c:332-358 | when a task grows, a heap page of another turns into a different frame exactly when both came after the eighth and the page lies in the range mapped |
| SbrkProofs.GrowthLeaksIff | src/task.c:332-358 | growth by one task changes what a task on another directory sees exactly when the new break passes 0x800000 |
| SbrkProofs.SharedDirectoryClash | src/memory.c:203 | the ninth and the tenth task each grow by a page and the ninth's first heap byte becomes the tenth's |
| SbrkProofs.SharedDirectoryRun | src/memory.c:203 | concretely, the run from boot that does it |
| UserHeapProofs.MallocKeepsWorldIff | sdk/libc.c:130-164 | any 32-bit request gets the first free block that fits, whole, or a block at the break, which moves by header and rounded size; it is large enough exactly when rounding does not wrap; the blocks stay apart below the break exactly when a free block fits or header and size do not wrap down into the heap |
| UserHeapProofs.FreedIsReused | sdk/libc.c:130-171 | a freed block is had again without moving the break: the request gets it, or an earlier free block that fits |
| UserHeapProofs.MovePlacedIff | sdk/libc.c:123-127 | after a direct `sbrk` the blocks lie below the break exactly when it stays behind the last one |
| UserHeapProofs.WrappedSharesIff | sdk/libc.c:157-163 | after a wrapped request the next block gets the same address exactly when the increment was 0, and overlaps exactly when it reaches back up |
| UserHeapProofs.WrappedRequestsClash | sdk/libc.c:157-163 | a run of a new program that hands out one address twice |
| UserHeapProofs.StepKeepsWorldIff | sdk/libc.c:123-171 | every operation keeps all blocks apart exactly when it is sound: no wrapped request, no break moved below the last block |
| UserHeapProofs.RunKeepsWorldIff | sdk/libc.c:123-171 | so over any run of malloc and free in the first eight tasks, direct `sbrk` by any task, task creation, loading and driver allocations |
| UserHeapProofs.StepTilesIff | sdk/libc.c:123-171 | a sound operation leaves a heap without gaps one exactly when the program does not move the break itself |
| UserHeapProofs.RunTiles | sdk/libc.c:123-171 | so over any sound run the blocks of a task that leaves `sbrk` to malloc fill its heap up to the break |
| UserHeapProofs.LiveBytesApart | sdk/libc.c:123-171 | every byte handed out is mapped, and live allocations share a physical byte only with themselves |
| UserHeapProofs.LiveBytesApartAfterAnyRun | sdk/libc.c:123-171 | the same in every state a sound run from boot can reach |
| UserAlloc.UserHeap.Malloc | sdk/libc.c:130-164 | list walk, reuse or extension by the break, in place, for every increment; the heap stays valid exactly when the request is sound; a block that is handed out twice in a row is linked to itself |
| UserAlloc.UserHeap.Extend | sdk/libc.c:157-163 | a block at the break, wherever that moves |
| UserAlloc.SelfLinkNeverEnds | sdk/libc.c:143-154 | a walk that comes to a block linked to itself never ends |
| UserAlloc.UserHeap.FindFree | sdk/libc.c:143-154 | the list walk finds the first free block that is large enough, or the last block |
| UserAlloc.UserHeap.Append | sdk/libc.c:134-163 | the new block is linked behind the last one, or to itself if it is the last one |
| UserAlloc.UserHeap.Free | sdk/libc.c:166-171 | marks the block, merges nothing |
| ElfProofs.MapRangeWalks | src/task.c:238-245 | the page loop maps its pages to consecutive frames and nothing else |
| ElfProofs.SegmentReadsBack | src/task.c:225-246 | reading at vaddr + j through the tables gives file byte j below filesz and 0 up to memsz |
| ElfProofs.LastLoadReadsBack | src/task.c:219-246 | so the last PT_LOAD of a file, and the only one of a file with one, is right |
| ElfProofs.LoadTouchesOnlyImage | src/task.c:219-246 | every other page of every task translates as before and memory outside the image is unchanged |
| ElfProofs.LoadMeaning | src/task.c:219-246 | for any header list: a page translates by the last segment that maps it, a byte of the image holds what the last segment to fill it put there |
| ElfProofs.SegmentRightIff | src/task.c:219-246 | the k-th PT_LOAD of any header list reads right exactly when, byte by byte, the last segment on the page shows a place the last segment to fill it filled with the same byte |
| ElfProofs.OwnPagesRightIff | src/task.c:219-246 | if later segments keep off its pages: exactly when the last to fill each of its places put the same byte there |
| ElfProofs.DisjointSegmentsRight | src/task.c:219-246 | so a segment whose pages and places no later one touches is right |
| ElfFile.LoaderReadsHeaders | src/task.c:219-229 | from the bytes of a file with any 52-byte header and table of 32-byte program headers, each field at its place, the loader reads entry point and headers as they were written |
| ElfFile.FileReadsBack | src/task.c:219-246 | loaded from those bytes, a segment reads as the file from its p_offset up to p_filesz and as zeros up to p_memsz |
| ElfProofs.TwoSegmentsRightIff | src/task.c:225-246 | of two segments on pages of their own the first is right exactly when both hold the same byte wherever they fill the same place |
| ElfProofs.TwoSegmentsClash | src/task.c:225-246 | in particular with equal page offsets the first byte of the first reads as the first byte of the second |
| ExecLoad.OthersReadIff | src/kernel.c:231-243 | starting a program: in any other directory an address keeps its translation and reads as before exactly when it does not lead into the new image or the loader put the same byte there |
| ExecLoad.NewImageApart | src/kernel.c:231-243 | the new image lies apart from every running program's and below the frames of user heaps |
| ExecLoad.ExecKeepsOthers | src/kernel.c:231-243 | so nothing changes that a running program on another directory reads in its image or its heap |
| ExecLoad.SharedPageIff | src/memory.c:202-217 | programs after the eighth share one directory: a page changes there exactly when a segment of the new program lies on it and puts it elsewhere |
| ExecLoad.LaterProgramReplacesIff | src/task.c:219-246 | so a page that shows the image of a running program there is replaced exactly when the new program has a segment on it |
| Isolation.StepShows | src/kernel.c:219-246 | launch, kill, `sbrk`, library mapping, kernel stores and a program's own stores do to physical memory what they do to private memories, one for each program |
| Isolation.RunShows | src/kernel.c:219-246 | so over any run with up to eight tasks |
| Isolation.RunReads | src/task.c:219-246 | after which every running program reads through its page tables what the loader put into its image and what it stored itself |
| Isolation.FromFileAlone | src/task.c:225-246 | what the loader makes of a cleared image is told by the file alone |
| Isolation.LoadedReads | src/task.c:225-246 | a fresh program reads its file byte by byte where no later segment touches |
| Isolation.StoredReads | src/task.c:332-358 | a store is read back, and other addresses read as before unless two segments show one place |
| Isolation.MovedReads | src/task.c:332-358 | moving the break keeps the image and every heap byte below it |
| Isolation.IdealKeeps | src/kernel.c:219-246 | no event changes what a program reads but its own stores, its own moves of the break and its end |
| Isolation.TwoImages | src/kernel.c:231-243 | images of two running programs have no byte in common |
| Isolation.OwnAlone | src/task.c:332-358 | the byte behind an address of a program's own is in no other program's image or heap |
| Isolation.StrayStoreIff | src/memory.c:46-85 | a store to any byte of memory leaves a program its memory exactly when it does not count on the byte or the byte was there already |
| Isolation.BootShows | src/memory.c:46-85 | a machine without tasks starts such a run |
| ElfProofs.LibraryReadsIff | src/memory.c:235-245 | a mapped library reads as its physical copy exactly when the page offsets agree |
| Elf.Loader.LoadElfSegments | src/task.c:219-286 | entry point, memory and tables after the header loop; nothing happens without the magic byte; the address spaces stay valid if the program keeps clear of the heaps |
| Elf.Loader.LoadSegment | src/task.c:225-246 | one segment: copy, clear, map; the address spaces stay valid |
| Elf.Loader.CopySegment | src/task.c:233-236 | file bytes, then zeros, at the segment's place and nowhere else |
| Elf.Loader.MapPages | src/task.c:238-245 | the page loop; the address spaces stay valid |
| Elf.Loader.MapSharedLibrary | src/memory.c:235-245 | whole pages mapped to consecutive frames; the address spaces stay valid |
| PipeSpec.RunIsFifo | src/disk.c:641-653 | bytes read followed by bytes held are the bytes accepted, over any interleaving |
| PipeSpec.ReadDelivers | src/disk.c:641-653 | a read delivers exactly what was asked for if that much is held, else all of it |
| PipeSpec.WriteAccepts | src/disk.c:731-745 | a write is accepted whole if it fits, else it fills the ring to 512 bytes |
| PipeSpec.DrainedRun | src/disk.c:641-653 | a run that ends with a read of at least what is held empties the pipe, and the readers have got everything accepted |
| PipeSpec.OpenKeepsDistinct | src/disk.c:535-563 | names of open pipes stay distinct; open fails, with -1 and no change, exactly when the name is new and the pool full |
| PipeSpec.SamePipeIff | src/disk.c:535-563 | two opens reach one pipe exactly when the first eight characters agree |
| PipeSpec.PoolIsFifo | src/disk.c:641-653 | each of the sixteen pipes is a FIFO whatever is opened, written and read on all of them in any order |
| PipeSpec.SamePipeInTrafficIff | src/disk.c:535-563 | two opens with any traffic in between reach one pipe exactly when the first eight characters agree |
| Pipes.Pipe.Write | src/disk.c:731-745 | accepts what fits into the ring, in order |
| Pipes.Pipe.Push | src/disk.c:739-743 | one byte joins the end of the ring, wrapping round |
| Pipes.Pipe.Pop | src/disk.c:647-651 | the oldest byte leaves the ring, wrapping round |
| Pipes.Pipe.Read | src/disk.c:641-653 | delivers the oldest bytes and removes exactly those |
| Pipes.PipePool.constructor | src/disk.c:22 | sixteen closed, empty pipes with buffers of their own |
| Pipes.PipePool.OpenFifo | src/disk.c:535-563 | slot search and creation; a new pipe is empty and every other pipe keeps its bytes |
| Pipes.PipePool.WriteTo | src/disk.c:731-745 | a write on one descriptor changes that pipe of the pool and no other |
| Pipes.PipePool.ReadFrom | src/disk.c:641-653 | and so does a read |
| ChecksumSpec.FoldModulo | src/rtl8139.c:99-104 | carry folding keeps the value modulo 0xFFFF (section 1 of RFC 1071) |
| ChecksumSpec.ComplementCompletes | src/rtl8139.c:99-104 | adding the complement of the folded sum folds to 0xFFFF |
| ChecksumSpec.SumUpdate | src/rtl8139.c:353-364 | filling a word changes the sum by that word |
| ChecksumSpec.FilledFieldChecks | src/rtl8139.c:353-364 | a header with its checksum filled in checks out, pseudo-header included, odd lengths included |
| ChecksumSpec.OddRangeIff | src/rtl8139.c:99-104 | an odd range gets its own checksum exactly when the byte behind it is zero |
| Checksum.Nic.NetChecksum | src/rtl8139.c:99-104 | the loop computes the complemented folded sum, of an odd range with the byte behind it, without 32-bit overflow |
| Checksum.Nic.FoldLoop | src/rtl8139.c:362 | the carry-fold loop terminates with the folded sum |
| Checksum.Nic.NetTcpSend | src/rtl8139.c:298-376 | every header field, the payload, the zero padding; IPv4 header (section 3.1 of RFC 791) and segment with pseudo-header (section 3.1 of RFC 793) both fold to 0xFFFF; a receiver reads off the frame what was to be sent; the sequence number advances |
| Checksum.FrameReceived | src/rtl8139.c:316-364 | a receiver that checks lengths and both sums reads off such a frame the addresses, ports, numbers, flags, window and payload put into it |
| Checksum.SequenceIff | src/rtl8139.c:371-373 | the sequence number advances by data, SYN and FIN (section 3.3 of RFC 793) exactly when there is at most one of the three |
| DamageSpec.RowMajor | sdk/wm.c:121-125 | on-screen pixels have distinct addresses inside the buffer |
| DamageProofs.AddDirtyCovers | sdk/wm.c:111-116 | the damage only grows and covers the on-screen part of what is added |
| DamageProofs.AddDirtyLeast | sdk/wm.c:111-116 | and lies in every box that covers both, so it is no larger than it must be |
| DamageProofs.ClipLetsThrough | sdk/wm.c:102-110 | a clip rectangle lets through exactly the pixels on the screen that lie in it |
| DamageProofs.SwapLeavesNoDamage | sdk/wm.c:117-140 | a swap leaves no damage; marking the screen damages every pixel |
| DamageProofs.RectIsPixels | sdk/wm.c:121-153 | filling a rectangle is setting its pixels one by one, each of which shows exactly inside clip and damage |
| DamageProofs.ExpandPacked | sdk/wm.c:89-93 | a 16-bit pixel of 5, 6 and 5 bits becomes red, green and blue of 24 bits, in this order |
| DamageProofs.WallpaperShows | sdk/wm.c:76-97 | the wallpaper shows the picture at every damaged pixel; without one it is the background inside the clip rectangle and 1024 by 768 |
| DamageProofs.AddedSinceSwapCovered | sdk/wm.c:111-116 | everything added since the last swap is covered |
| DamageProofs.PaintInsideDamage | sdk/wm.c:76-153 | drawing under damage is full drawing inside it and nothing outside |
| DamageProofs.RunKeepsDamage | sdk/wm.c:76-153 | over any mix of events the buffers differ only inside the damage |
| DamageProofs.SwapShowsBackBuffer | sdk/wm.c:126-140 | after every swap the two buffers are equal at every pixel |
| DamageProofs.PartialEqualsFullIff | sdk/wm.c:76-153 | a partial redraw shows what a full one would exactly where the damage is or the full one changes nothing |
| Compositor.Display.SetClippingRect | sdk/wm.c:102-106 | the clip rectangle cut to the screen |
| Compositor.Display.ResetClippingRect | sdk/wm.c:107-110 | the clip rectangle is the whole screen |
| Compositor.Display.AddDirtyRect | sdk/wm.c:111-116 | the new damage; buffers in step outside it stay so |
| Compositor.Display.MarkScreenDirty | sdk/wm.c:117-120 | everything is damaged, so the buffers are in step outside it |
| Compositor.Display.PutPixel | sdk/wm.c:121-125 | at most that pixel of the back buffer |
| Compositor.Display.DrawRect | sdk/wm.c:141-153 | exactly the pixels inside rectangle, clip and damage |
| Compositor.Display.DrawWallpaper | sdk/wm.c:76-97 | exactly the pixels inside the damage, clip or not |
| Compositor.Display.SwapBuffers | sdk/wm.c:126-140 | the frame buffer equals the back buffer everywhere |
| FatCodec.TableRoundTrip | src/disk.c:203-211 | decoding an encoded FAT sector gives the table back |
| FatCodec.TableBytesRoundTrip | src/disk.c:203-211 | and encoding a decoded one gives the bytes back, so equal tables are equal sectors |
| FatCodec.EntryRoundTrip | src/disk.h:21-30 | the 32-byte directory entry round trip |
| FatCodec.DirRoundTrip | src/disk.c:194-237 | a directory sector read, changed and written back differs only in the changed slot |
| FatVolume.ClaimIsSafe | src/disk.c:203-215 | claiming a free cluster disturbs no chain |
| FatVolume.PlacedIsTight | src/disk.c:196-237 | after a new file the table entries in use are exactly those of live chains |
| FatVolume.PlacedIsSizedIff | src/disk.c:196-237 | every chain is long enough exactly when the new file fits one cluster |
| FatVolume.RewrittenIsSafeAndTight | src/disk.c:236-237 | rewriting an entry with its chain keeps chains and table exact |
| FatVolume.ReturnedIsSafe | src/disk.c:298-315 | returning a retired entry's chain disturbs no other chain |
| FatVolume.ReturnedIsTight | src/disk.c:298-315 | and leaves nothing allocated that nobody owns |
| FatVolume.ChainEndsIff | src/disk.c:307-312 | clusters linked one to the next are a sound chain exactly when the last holds 0xFFF8 or more |
| FatDisk.ClusterLbaSteps | src/disk.c:409-412 | clusters map to disjoint sector ranges, in order |
| FatDisk.TableWriteView | src/disk.c:209-210 | a first-FAT sector write changes its 256 entries and nothing else of the volume |
| FatDisk.DirWriteView | src/disk.c:237 | a root sector write changes that sector's entries and nothing else of the volume |
| FatDisk.OtherWriteView | src/disk.c:211-234 | second-FAT and data writes leave the volume as it was |
| FatOnDisk.EntryLayout | src/disk.h:21-30 | a directory entry is read from name, extension, attribute, cluster and size at their byte offsets, least significant byte first |
| FatOnDisk.TableLayout | src/disk.c:203-206 | a FAT word from bytes 2i and 2i + 1 |
| FatOnDisk.AreasAt | src/disk.c:409-412 | root directory behind the FATs, 32 sectors of it, then cluster 2 |
| FatOnDisk.NewFileOnDisk | src/disk.c:154-239 | a write that gives its file a cluster takes the lowest free one, marks it 0xFFFF in both FATs and leaves the entry with name, extension, cluster, the size and zeros, in the slot that had the name or the first unused one |
| FatOnDisk.OldFileOnDisk | src/disk.c:154-239 | a write over a file that has clusters changes nothing of its entry but the size, and no FAT |
| FatOnDisk.WriteOrder | src/disk.c:196-238 | both FATs, then the sectors of the buffer at consecutive places, then the entry |
| FatOnDisk.DeleteOnDisk | src/disk.c:276-317 | a delete puts 0xE5 over the first byte of the name, then zeroes the words of the chain in both FATs, and changes nothing else |
| FatProofs.WriteStages | src/disk.c:196-238 | the volume after each sector write of a file write |
| FatProofs.DeleteStages | src/disk.c:296-316 | the volume after each sector write of a delete |
| FatInvariant.WriteIsCrashSafe | src/disk.c:154-239 | after every sector write of `ardaos_write_file` live entries stand on allocated chains and share no cluster |
| FatInvariant.DeleteIsCrashSafe | src/disk.c:276-317 | the same for `ardaos_delete_file` |
| FatInvariant.RunIsCrashSafe | src/disk.c:154-317 | the same after every sector write of every run, oversized files included |
| FatInvariant.WriteKeepsInvIff | src/disk.c:154-239 | the whole invariant survives a write exactly when there is no room for it or the file fits its chain |
| FatInvariant.DeleteKeepsInv | src/disk.c:276-317 | and always survives a delete |
| FatInvariant.RunKeepsInv | src/disk.c:154-317 | and any run of fitting writes and deletes |
| FatInvariant.BlankDiskIsSound | src/disk.c:27-59 | a blank disk of any geometry and any size that holds the root directory satisfies it |
| FatInvariant.AnyRunFromBlank | src/disk.c:154-317 | so from a blank disk every run the code can carry out is crash safe wherever it is cut, and keeps the invariant if its files fit |
| FatInvariant.FirstFileOnBlank | src/disk.c:154-239 | the first file written gets the first slot, cluster 2 and the size passed, if that is 1 to 10240 |
| FatInvariant.WriteMirror | src/disk.c:210-211 | both FAT copies agree after a write |
| FatInvariant.DeleteMirror | src/disk.c:313-314 | and after a delete |
| FatRead.FindEntryIs | src/disk.c:450-491 | the path built from a valid 8.3 name resolves to the root entry of that name |
| FatRead.FindWritten | src/disk.c:165-191 | a later lookup finds the slot a write chose |
| FatRead.FindOther | src/disk.c:458-475 | and other names are found where they were |
| FatRead.GuessIff | src/disk.c:450-491 | the result depends on what the caller's entry held exactly when the path is empty or one slash |
| FatRead.ReadGuessIff | src/disk.c:106-151 | so the whole-file read of such a name returns the size an uninitialised entry held |
| FatRead.NamesNothingIff | src/disk.c:106-127 | the names that do it are the blank ones and a single slash, with a blank extension |
| FatWalk.WalkIsDescent | src/disk.c:450-491 | a path of any number of names, between slashes or backslashes, leads where a descent directory by directory does |
| FatRead.LoadedAmount | src/disk.c:134-150 | whole sectors are loaded, at least one, as many as hold the file; the 511 largest 32-bit sizes wrap and load none |
| FatRead.ParsedMatchIff | src/disk.c:458-475 | for a name parsed from a C string the path walk's byte comparison and `strncmp` find the same entries |
| FatReadBack.WriteThenReadIff | src/disk.c:106-239 | on a disk of any size, after a write that found room: reading the name gives the size written, 512 for sizes outside 1 to 10240, and each byte that lies on the disk, so the bytes written exactly when those past the end are zero; -1 if the name is a directory's |
| FatReadBack.WriteThenRead | src/disk.c:106-239 | in particular the whole file, size and bytes as passed for sizes from 1 to 10240, if its sectors lie on the disk |
| FatReadBack.FittingWriteThenRead | src/disk.c:106-239 | as those of every file that fits its chain do, on a disk that holds all clusters the FAT names |
| FatReadBack.OtherFileAfterWriteIff | src/disk.c:154-239 | for every size accepted: another file keeps its size, and its bytes exactly when every sector written inside its range gets what it held |
| FatReadBack.FittingWriteSpares | src/disk.c:154-239 | a write that fits writes no sector of another file |
| FatReadBack.OtherFilesAfterWrite | src/disk.c:154-239 | so after a write that fits every other file that owns clusters reads as before |
| FatReadBack.OtherFilesAfterDelete | src/disk.c:276-317 | the same after a delete |
| FatReadBack.OversizeSpills | src/disk.c:229-234 | a file larger than a cluster overwrites the first sector of the next cluster |
| FatRuns.OversizeChangesNeighbour | src/disk.c:154-239 | any geometry and names: of two files on a blank disk that reaches as far as the second, rewriting the first larger than a cluster changes what the second reads as |
| FatRuns.OversizeExample | src/disk.c:154-239 | concretely A.TXT and B.TXT of 512 bytes, then 1024 bytes to A.TXT |
| FatRuns.NoRoomIff | src/disk.c:180-218 | a write has no room exactly when it needs a slot and none is unused, or a cluster and none is free |
| FatRuns.RunReads | src/disk.c:106-317 | over any run of deletes and of writes that fit and lie on the disk a name reads as last written since last deleted |
| FatRuns.FittingRunLands | src/disk.c:154-317 | on a disk that holds all clusters the FAT names every run that fits lies on the disk |
| FatRuns.AnyRunReadsLastWrite | src/disk.c:106-317 | the same from a blank disk of any size: size and bytes passed to the last successful write (512 for sizes outside 1 to 10240), -1 if there is none |
| FatOverwrite.RunReadsAny | src/disk.c:106-317 | over any run, oversized files included, a name reads with the size of its last write and each byte as it last landed on the disk |
| FatOverwrite.AnyRunReadsWhatLanded | src/disk.c:106-317 | the same from a blank disk of any size |
| FatImage.PastEndReadsZero | src/disk.c:196-234 | a write whose cluster lies past the end of the disk succeeds and reads as zeros |
| FatImage.NewFileIsLost | src/disk.c:196-234 | which happens to every new file once the first free cluster lies there |
| FatImage.ImageClusters | Makefile:102-103 | on c.img that is so for the clusters after 5102; its FAT names those up to 5119 |
| FatImage.ImageLosesFile | src/disk.c:196-234 | a sound image of that geometry and size on which a new file is lost and the volume stays sound |
| FatNames.FindFailsIff | src/disk.c:165-178 | although a sector's scan stops at a never-used slot, a lookup fails exactly when no live entry matches the name |
| FatNames.WriteKeepsNames | src/disk.c:165-226 | a write never makes a second entry of a name |
| FatNames.DeleteKeepsNames | src/disk.c:276-317 | neither does a delete |
| FatNames.DeleteThenLookupIff | src/disk.c:285-300 | a deleted name is gone exactly when no second live entry had it |
| FatNames.DeleteThenRead | src/disk.c:276-317 | with unique names a deleted file can no longer be read |
| FatCursor.ReadsJoin | src/disk.c:656-684 | for any counts the pieces join without gap or overlap and the offset is the number of bytes delivered |
| FatCursor.ReadsDeliver | src/disk.c:656-684 | below 2 GB reads deliver what was asked until the file ends, then nothing |
| FatCursor.ReadStallsIff | src/disk.c:659-661 | a read before the end delivers nothing exactly when 2 GB or more are left |
| FatCursor.CursorRefinesWhole | src/disk.c:134-148 | for every 32-bit file size the pieces are a prefix of what the whole-file read loads, and how long it is |
| FatCursor.OpenThenReads | src/disk.c:571-600 | the same by name, through open and read |
| FatStore.FreeWord | src/disk.c:205-214 | first free entry of a FAT sector |
| FatStore.FreeChain | src/disk.c:307-312 | following links entry by entry frees exactly the contiguous chain |
| FatFiles.SameTextIff | src/string.c:11-17 | `strncmp` calls two texts equal exactly when they are, if one holds no zero byte |
| FatStore.Strncmp | src/string.c:11-17 | the comparison loop |
| FatStore.MatchSlot | src/disk.c:168-176 | the slot loop with its early stop |
| FatStore.Store.AtaWrite | src/disk.c:78-95 | sectors go out one by one in order; a count of zero means one |
| FatStore.Store.AtaRead | src/disk.c:61-76 | the buffer holds the sectors read and nothing else changes |
| FatStore.Store.FindIn | src/disk.c:165-178 | the directory scan |
| FatStore.Store.ClaimCluster | src/disk.c:196-218 | the first free cluster is claimed in both FATs, or nothing is written |
| FatStore.Store.FindFreeIn | src/disk.c:180-191 | the first unused root slot |
| FatStore.Store.PrepareEntry | src/disk.c:165-227 | the slot, the entry and the claimed cluster a write goes to |
| FatStore.Store.ArdaosWriteFile | src/disk.c:154-239 | the sectors written, in order, and the return code |
| FatStore.Store.ArdaosDeleteFile | src/disk.c:276-317 | the sectors written, in order, and the return code |
| FatStore.Store.Fat16FindEntry | src/disk.c:450-491 | the path walk terminates and finds what the recursive walk finds |
| FatStore.Store.ArdaosReadFile | src/disk.c:106-151 | return code and buffer of the 128-sector chunk loop |
| FatStore.Store.LoadSectors | src/disk.c:137-147 | the chunk loop loads consecutive sectors without gaps |
| FatStore.Store.VfsOpen | src/disk.c:566-600 | first closed descriptor gets size, cluster, first sector and offset 0; otherwise nothing changes |
| FatStore.Store.VfsRead | src/disk.c:655-684 | bytes delivered, new offset, error cases |
| FatStore.Store.CopyOut | src/disk.c:662-683 | the sector-by-sector loop copies exactly the bytes wanted and moves the offset |
| PathSpec.ParseNode | src/disk.c:415-448 | a node is returned exactly when something but one slash is left, and then the path gets shorter |
| PathSpec.BuildThenParseIff | src/disk.c:571-584 | building a path from eleven bytes and parsing it gives them back exactly for valid 8.3 names |
| PathSpec.BuildOfCanonical | src/disk.c:778-789 | the lister prints the same text, so printing and parsing undo each other |
| PathSpec.ParsedIsPlain | src/disk.c:415-448 | what parsing produces is upper case and padded |
| PathSpec.CaseIgnored | src/disk.c:415-448 | capital and small letters are parsed alike |
| PathSpec.ParseFirst | src/disk.c:415-448 | a valid 8.3 name in front of a separator is parsed off and leaves the rest of the path |
| PathSpec.ExtensionAdded | src/disk.c:106-127 | a name without a dot gets the extension passed along |
| PathSpec.ExtensionKept | src/disk.c:106-127 | one with a dot keeps its own, whatever is passed along |
| PathSpec.NameEnds | src/disk.c:106-127 | a name ends at its first space and after 60 bytes |
| Paths.ParsePathNode | src/disk.c:415-448 | the two copying loops parse one node |
| Paths.BuildFullPath | src/disk.c:106-127 | the path buffer of open and read |
| Paths.PrintName | src/disk.c:778-789 | the printed name, and that it parses back |

## Left out

- Device drivers and port I/O: the disk is an array of sectors, a frame an array of bytes; sectors past the end of the disk read as zeros and ignore writes.
- Interrupts inside a kernel operation: each operation is one step (for the store: each sector write).
- `init_disk`: the geometry is a parameter, with a 512-entry root directory that lies on the disk.
- FAT copies beyond the second: the code never writes them.
- Subdirectory contents: the path walk enters them, but the frame results are about files of the root directory.
- FatInvariant.WriteKeepsInvIff: names do not start with 0x00 or 0xE5, which would read as unused entries, and the caller's buffer covers whole sectors.
- FatStore.Store.ArdaosWriteFile: the same names and buffers.
- FatStore.Store.ArdaosDeleteFile: chains are contiguous, as the writes of the code make them.
- FatInvariant.DeleteKeepsInv: the chain must lie in clusters 2 to 255, because the code reads only the first FAT sector.
- FatReadBack.OtherFilesAfterWrite: an entry without clusters and with a non-zero size reads root directory sectors, whose bytes do change.
- `ardaos_list_files` and the loop of `vfs_list_dir` around the name: only the name is modelled.
- vfs_open, vfs_read and vfs_write on keyboard, UDP and TCP descriptors; TCP receive and connection states.
- Launch.Kernel.Exec: nothing is promised when one of the three allocations fails, because the source then writes through a null pointer; copying the program text and clearing the image are not part of it.
- The register frame `create_task` builds and the relocation of system-call addresses.
- Elf.Loader.LoadElfSegments: no PT_DYNAMIC headers; the LIBC load they trigger is not modelled, its mapping is.
- Paging.AddressSpaces.SysSbrk: the table pool below 0xE00000 and frames below 4 GB; the source checks neither.
- SbrkProofs.RunKeepsHeaps: the same limits, and heaps between 0x410000 and 0x800000; programs and libraries are loaded clear of the heap pages in use in their directory.
- UserHeapProofs.RunKeepsWorldIff: the same limits; the ninth and later tasks have no block lists, because others can replace the pages their headers lie on; `free` gets what malloc returned.
- UserAlloc.UserHeap.Malloc: headers that overlap after an unsound request, but for a block linked to itself, and page faults on them.
- ExecLoad.ExecKeepsOthers: pages behind kernel tables, through which every task sees the kernel heap.
- Isolation.RunShows: programs have segments outside the heap window and memory holds all frames handed out; what fresh heap pages hold before the first store is not told.
- Isolation.StrayStoreIff: page tables, block headers and stashed words are kept beside the bytes of memory, so a stray store into them is not modelled.
- The TLB: translations are those of the tables.
- Wrap-around of task ids, tick counters and coordinates of drawing calls at 32 bits.
- Compositor.Display.DrawRect: pixels are addressed by row and column; `DamageSpec.RowMajor` relates this to the flat buffer of the source.
- Text, cursor, windows and events of the user interface, `src/graphics.c`, the physical block bitmap, sound and shell.

# Toy kernel verification

Dafny models and proofs for the parts of the toy i686 kernel where state matters: the kernel heap,
the scheduler with its timer and context switch, the FAT12 reader of the second boot stage, the
physical frame bitmap, the two-level page tables, the boot address map, and the ELF loader.

`dafny verify dfyconfig.toml` checks everything. Nothing here runs the kernel.

## How the project is laid out

Each part has a file that describes the behaviour on values, with the theorems, and where the
source updates its state in place a file with classes whose methods follow the C code step by step
and are proved to do what the value-level functions say.

| part | values and theorems | code |
|---|---|---|
| kernel heap | `HeapModel.dfy` | `KernelHeap.dfy` |
| scheduler, timer, sleep and exit | `SchedulerModel.dfy` | `Scheduler.dfy` |
| context switch | `ContextModel.dfy` | `Cpu.dfy` |
| FAT12 | `FatModel.dfy`, `FatNames.dfy`, `FatLayout.dfy`, `FatPaths.dfy` | `FatFiles.dfy`, `FatDirectory.dfy`, `FatDriver.dfy`, `FatReopen.dfy`, `FileLoader.dfy` |
| frame bitmap | `FrameBitmap.dfy`, `FramePool.dfy`, `KernelFrames.dfy`, `FrameRuns.dfy` | `FrameAllocator.dfy` |
| page tables | `PageTables.dfy` | `AddressSpace.dfy`, `BootMap.dfy` |
| ELF loader | `MemoryBytes.dfy`, `ElfModel.dfy`, `ElfFate.dfy`, `ElfImage.dfy` | `ElfLoader.dfy`, `BootLoad.dfy` |

`Basics.dfy` holds what several parts share. What the value-level functions compute is in turn stated
apart from them: on the disk as clusters end to end, on the text of a path, on an image made of its
headers, on the bytes of the memory regions, on the tasks before a step, and on the words in memory
in plain numbers.

Physical memory is an array of 32-bit words shared by the frame allocator, the page tables and the
loader, so that clearing a frame, writing a table entry and copying a program byte are changes of
the same memory. Which frames their own addresses reach depends on the active map and is a field of
the allocator, `reach`: all memory before paging, 1 MiB under the map that stage 2 leaves to the
kernel, 4 MiB under the kernel's own. Addresses are numbers of bytes (words in `ContextModel`). 32-bit arithmetic is
written out where it can wrap: heap sizes and addresses, the used-block counter, the timer, wake-up
times, total memory, cluster-to-sector arithmetic and the page count of a segment.

## Main results

* **Heap.** Over every admissible run of malloc and free the blocks tile the heap, the last block
  stays free, live blocks are apart and never move or change size until they are freed, and at most
  one pair of neighbours is free-free, none after a malloc. `malloc_next_block` comes back with a
  well-formed heap if and only if the request passes four guards, each of which a caller can check;
  two of the failures are reached from a fresh heap by short runs.
* **FAT12.** Any run of reads on a handle returns, end to end, the bytes reached by following the
  packed chain: on a disk whose data section holds cluster 2, cluster 3 and so on, the clusters of
  the chain end to end, cut at the size of the file. The packing is inverted in both directions.
  Opening a path takes one handle however deep it is and reaches the entry that a walk by first
  matching names reaches, with a leading slash or without, the root being seen through its cache;
  when a second path is right, and how it fails, is in `FatReopen.dfy`. A listed name is found again
  if and only if it is canonical.
* **Frames.** If the guard passes, some bitmap word is zero, so every request for 1 to 32 frames is
  met with the lowest run; for larger ones the scan leaves the bitmap exactly in one described case.
  The kernel's own frames are not kept back: when a request gets to them is stated exactly, for
  single frames, for runs of frames and for any number of frames one after the other. The bitmap
  describes the whole frames of the regions of type 1, rounded up to 32. With at most 128 MiB, over any run from
  INIT_MEMORY on that stays clear of them, a single frame lies in the identity-mapped window and is
  not frame 0. Allocation followed by freeing restores bitmap and counter.
* **Page tables.** Mapping and unmapping change the translation of exactly one page, also when a
  table has to be allocated, and the words written are stated bit by bit; the address map at boot is
  computed exactly, from the memory regions to the jump to the kernel, when three frames are free
  below 1 MiB, which is the exact condition for the tables to lie below what the last loop unmaps.
  Mapping a page keeps the kernel's part of the map if and only if the page is none of the kernel's
  or gets the frame it has.
* **ELF.** A page-aligned PT_LOAD segment of an image put together from its headers, if it shares no
  page, reads as its bytes of the file and then as zeros. After a load every page of the address
  space belongs to the last program header that covers it, holds that header's bytes, or translates
  as before; the image, the kernel's frames and every other data frame in use are untouched, and the
  pages outside user space translate as before, whatever the outcome. The outcome, and the number of
  frames taken, follow from counting pages, missing tables and free frames. All that a load relies
  on is derived from the memory regions and the reservations, for a module that was reserved.
* **Scheduler.** In every reachable state at most one task runs and it is the current one. After a
  tick that ends a slice the current task is the first one behind it in ring order that could run or
  that the tick woke. A runnable task becomes current within its distance in calls of `schedule` and
  within the other tasks' priorities in ticks. The first tick at or after the time asked for wakes a
  sleeper exactly when the wake-up time, rounded up to the clock, is below 2^32, or both wrap at the
  next tick and not again.
* **Context switch.** A task that is resumed finds the registers, flags, return address and stack it
  was switched out with; a new task reaches its entry through the trampoline.

## Where the code departs from what it is meant to do

Each of these is stated by the member named with it.

* A request that equals the size of the last heap block leaves no free tail, and the next request of
  that size, or any later one that no earlier block fits, is handed the same block
  (`HeapModel.ExactTailHandsOutTwice`). A first fit with 1 to 12
  bytes to spare in the middle of the list grows over its neighbour's header
  (`HeapModel.MiddleSlackOverlaps`). Requests of 4 modulo 16 bytes avoid the second case. A request
  within 12 bytes of 4 GiB wraps (`HeapModel.WrapBreaks`), and one that needs more than 255 pages
  never comes back (`HeapModel.CountsForEver`).
* Stage 2 copies files in 64 KiB chunks with a 16-bit length, so full chunks copy nothing: exactly
  the files shorter than 64 KiB arrive (`FileLoader.LoadReproduces`).
* Closing the root directory rewinds it without refilling its cache, so that a later path can miss
  an entry that is there (`FatReopen.SecondOpenFails`).
* A file name whose first dot is at index 11 is taken to have no extension (`FatNames.ExtensionBehindDot`).
* With all handles in use, opening a path of two components or more whose first one is found goes on
  with a null directory (`FatDriver.Driver.Open`).
* The "not a directory" test of `FAT_Open` compares before it masks and never fires: path walking
  goes on into plain files, and so does `FatDriver.Driver.Open`.
* `reserve_memory_block` has no range check and the kernel is linked at 0xC0000000, so reserving the
  kernel and its bitmap keeps no frame back while the counter still rises
  (`FramePool.KernelRangeReservesNothing`). It also counts pages from the size alone
  (`FramePool.PagesCoverRange`).
* So the frames the kernel runs from, from 1 MiB on, and those of its bitmap are handed out and
  cleared like any others. A single frame is one of them or lies behind them exactly when the 256
  frames below 1 MiB are all in use (`KernelFrames.SingleReachesKernel`), which takes a counter of at
  least 256 (`KernelFrames.SingleStaysBelowKernel`); a run of frames overlaps them exactly when no
  free run ends below 1 MiB and one begins before their end (`KernelFrames.RunMeetsKernel`); n frames
  one after the other avoid them exactly when n frames below 1 MiB are free
  (`KernelFrames.SparesIff`). What the machine does after that is not modelled: the runs of
  `FrameRuns.SmallMachine` and the pools of `ElfLoader.Load` are those that stay clear of them.
* `allocate_block` clears frames through their own addresses. Once paging is on those reach the first
  4 MiB only, and behind them lie the pages of the user program: a longer or later run is cleared
  through whatever is mapped there, or the clearing faults. The run found lies within reach exactly
  when some free run of that size does (`KernelFrames.RunBelow`), which never is so for 1024 frames
  or more (`KernelFrames.BigRunLeavesWindow`), as for a first malloc of 5 MiB; with u frames in use
  it is so when (u + 1) * n frames fit (`KernelFrames.RunIsLow`).
* A scan for more than one frame reads behind the bitmap exactly when no run is long enough and the
  last frame described is free (`FramePool.ScanLeavesIff`; one empty word and 33 frames do it,
  `FramePool.ScanLeaves`).
* `get_memory_info` adds up the usable regions and then takes the memory to be one stretch from
  address 0: the frames from 0xA0 to 0xFF, which are not RAM, count as free and are handed out.
* Stage 2 unmaps the pages from 1 MiB to 4 MiB through tables that it reaches at their own addresses:
  they lie below exactly when three frames were free below 1 MiB (`BootMap.BuiltBelowKernel`), and
  otherwise the loop unmaps the page of one of them.
* `elf_load` maps whatever pages the headers name. A segment over one of the kernel's pages takes it
  from the kernel that is running (`ElfModel.KernelPageLost`), so `ElfLoader.Load` is for segments
  between 4 MiB and 3 GiB, those that have no page of the kernel (`ElfModel.PlaceableIff`).
* Freeing lowers the counter for every page, in use or not (`FramePool.ClearRangeExact`).
* `elf_load` copies a segment to the start of its first page whatever `p_vaddr` is
  (`ElfModel.UnalignedReads`), gives a page shared by two segments to the later one only
  (`ElfModel.LastCoverOwns`), and does not look at the result of `map_page_user`, so that it can
  report success with its last page unmapped (`ElfFate.LastUnmappedIff`).
* A sleep whose wake-up time wraps at 32 bits ends at the next tick, and one that ends just before
  the clock wraps is missed (`SchedulerModel.SleepEndsEarlyIffWrapped`,
  `SchedulerModel.SleepMissedIffNoTickLeft`).

## Model

| member | source | states |
|---|---|---|
| `HeapModel.Search` | src/kernel/mm/handler/malloc.c:85-90 | the walk stops at the first free block that is large enough, or at the last block, of any state, when there is none |
| `HeapModel.FirstFit` | src/kernel/mm/handler/malloc.c:85-90 | the walk stops at i if and only if block i is free with at least the size asked for, or is the last one, and no block before it is free with that size |
| `HeapModel.Growth` | src/kernel/mm/handler/malloc.c:101-103 | the least number of pages, at least one, that brings a block to the bytes needed |
| `HeapModel.CountsForEver` | src/kernel/mm/handler/malloc.c:101-103 | the counting loop with its 8-bit counter never ends if and only if 255 pages are too few |
| `HeapModel.SplitIsCut` | src/kernel/mm/handler/malloc.c:45-57 | the split in 32-bit arithmetic cuts the block in two when it ends inside the address space |
| `HeapModel.WrapBreaks` | src/kernel/mm/handler/malloc.c:94-97 | a request whose sum with a header wraps leaves a heap that is not well formed |
| `HeapModel.NextBlockKeepsInv` | src/kernel/mm/handler/malloc.c:76-123 | for every 32-bit request: the call comes back with a well-formed heap if and only if the sum with a header does not wrap, the walk neither stops at a middle block with 1 to 12 bytes to spare nor fits the last block exactly, and the growth takes at most 255 pages and stays in the address space |
| `HeapModel.NextBlockLiveSet` | src/kernel/mm/handler/malloc.c:76-123 | after such a request the blocks in use are those before and the one handed out |
| `HeapModel.NextBlockFresh` | src/kernel/mm/handler/malloc.c:76-123 | the block handed out for such a request overlaps no block in use, header included |
| `HeapModel.NodesApart` | src/kernel/mm/handler/malloc.c:45-57 | in a tiled list the header and payload of different blocks never overlap |
| `HeapModel.MergeTiles` | src/kernel/mm/handler/malloc.c:127-138 | merging conserves the stretch of memory that the list covers |
| `HeapModel.MergeKeepsLive` | src/kernel/mm/handler/malloc.c:127-138 | merging leaves the blocks in use as they are |
| `HeapModel.MergeHalvesPairs` | src/kernel/mm/handler/malloc.c:127-138 | although the walk skips ahead after each join, one pass removes at least half of the free-free pairs |
| `HeapModel.ThreeFree` | src/kernel/mm/handler/malloc.c:127-138 | of three free blocks in a row the first two become one, 12 bytes longer than both, and the third stays apart |
| `HeapModel.MergeKeepsInv` | src/kernel/mm/handler/malloc.c:127-138 | merging keeps a well-formed heap well formed and at least halves its free-free pairs |
| `HeapModel.FreeKeepsInv` | src/kernel/mm/handler/malloc.c:140-148 | freeing any pointer keeps a heap well formed |
| `HeapModel.FreePairs` | src/kernel/mm/handler/malloc.c:140-148 | after a free at most one pair of neighbours is free-free, if that was so before |
| `HeapModel.FreeLive` | src/kernel/mm/handler/malloc.c:140-148 | exactly the block with that payload address goes out of use, and none when there is no such block |
| `HeapModel.MallocKeepsInv` | src/kernel/interrupts/syscall.c:46-60 | the malloc system call keeps the heap well formed and leaves no free-free pair |
| `HeapModel.MallocLive` | src/kernel/interrupts/syscall.c:46-60 | the malloc system call adds the block handed out and changes no other block in use |
| `HeapModel.InitGood` | src/kernel/mm/handler/malloc.c:18-40 | the heap starts out well formed if and only if its page count, a wrapping sum, is neither 0 nor too large for the address space; nothing is in use |
| `HeapModel.FirstRequestSplits` | src/kernel/mm/handler/malloc.c:18-40 | the first request is met from the initial pages if and only if it is not a whole number of pages, except in the last page below 4 GiB, where the sums wrap |
| `HeapModel.HeadNeverEmpty` | src/kernel/mm/handler/malloc.c:82-83 | in a well-formed heap the first block is never empty, so the heap is never set up a second time |
| `HeapModel.RunKeepsGood` | src/kernel/mm/handler/malloc.c:76-148 | over every admissible run the blocks tile the heap up to its page count, the tail is free, at most one pair is free-free, and none after a malloc |
| `HeapModel.RunFromStart` | src/kernel/interrupts/syscall.c:46-60 | the same from the very first request on |
| `HeapModel.BlockPersists` | src/kernel/mm/handler/malloc.c:76-148 | over every admissible run a block in use keeps its address and size until its pointer is freed |
| `HeapModel.NextBlockResidue` | src/kernel/mm/handler/malloc.c:76-123 | with sizes of 4 modulo 16 a request of that kind keeps them so and never meets a middle block with too little slack |
| `HeapModel.InitResidue` | src/kernel/mm/handler/malloc.c:18-40 | the first block has size 4 modulo 16 |
| `HeapModel.ResidueRunAdmissible` | src/kernel/mm/handler/malloc.c:76-148 | a run of requests of 4 modulo 16 is admissible as soon as none wraps or fits the tail exactly and growth fits |
| `HeapModel.ExactTailHandsOutTwice` | src/kernel/mm/handler/malloc.c:85-93 | after an exact fit of the tail the live block is handed out again: to the next request of that size, and to a later request of any size if and only if no block before it fits |
| `HeapModel.TailHandedOut` | src/kernel/mm/handler/malloc.c:85-93 | whatever the state of the last block, a request is handed it if and only if no block before it fits |
| `HeapModel.MiddleSlackOverlaps` | src/kernel/mm/handler/malloc.c:98-118 | growing a middle block puts the new block over the header of its successor |
| `HeapModel.ExactTailRun` | src/kernel/mm/handler/malloc.c:87-93 | into a fresh heap, whose first pointer is 0xD100000C: after a first request of 100 bytes, one of 8068 bytes is handed a block that the next one of 8068 bytes is handed again |
| `HeapModel.MiddleSlackRun` | src/kernel/mm/handler/malloc.c:98-118 | into a fresh heap: two requests of 100 bytes, the first one freed and a request of 96 bytes leave it not well formed |
| `KernelHeap.MallocHeap.Init` | src/kernel/mm/handler/malloc.c:18-40 | sets up one free block over the pages of the first request, in 32-bit arithmetic |
| `KernelHeap.MallocHeap.SplitBlock` | src/kernel/mm/handler/malloc.c:45-57 | splits a node in place, in 32-bit arithmetic |
| `KernelHeap.MallocHeap.GrowBlock` | src/kernel/mm/handler/malloc.c:108-117 | the page loop raises the block and the page total alike |
| `KernelHeap.MallocHeap.GrowAndSplit` | src/kernel/mm/handler/malloc.c:99-118 | counts with the 8-bit counter to the least page count, grows, splits |
| `KernelHeap.MallocHeap.FindBlock` | src/kernel/mm/handler/malloc.c:85-90 | the pointer walk ends at the first-fit position |
| `KernelHeap.MallocHeap.NextBlock` | src/kernel/mm/handler/malloc.c:76-123 | whenever the call comes back, the linked list and the pointer are those of the value-level allocation, wrapping requests included; a request of 0 changes nothing |
| `KernelHeap.MallocHeap.JoinNext` | src/kernel/mm/handler/malloc.c:132-135 | takes the next node into this one |
| `KernelHeap.MallocHeap.MergeFreeBlocks` | src/kernel/mm/handler/malloc.c:127-138 | the merging loop computes the one-pass merge of the list |
| `KernelHeap.MallocHeap.Free` | src/kernel/mm/handler/malloc.c:140-148 | frees the node found by its pointer, the last one excepted, and merges |
| `KernelHeap.MallocHeap.SyscallMalloc` | src/kernel/interrupts/syscall.c:46-60 | sets up on first use, allocates, merges, returns the pointer of the value-level call |
| `SchedulerModel.ScheduleSelects` | src/kernel/scheduler/task.c:118-144 | the next task is the first runnable one after the current task in ring order, the current one last |
| `SchedulerModel.ScheduleKeepsInv` | src/kernel/scheduler/task.c:118-144 | from a state whose idle task can run, exactly the selected task is running and no other task loses or gains the ability to run |
| `SchedulerModel.ScheduleMovesOn` | src/kernel/scheduler/task.c:126-140 | schedule keeps the current task only when no other task can run |
| `SchedulerModel.ScheduleInFull` | src/kernel/scheduler/task.c:118-144 | schedule makes the first task behind the current one that can run the running one, the current one last, pauses the current task if it can run, and changes nothing else |
| `SchedulerModel.TickUsesSlice` | src/kernel/interrupts/pic.c:122-131 | a tick takes one off the slice and preempts only at its end, when the slice is renewed and any other runnable task takes over |
| `SchedulerModel.TickWithinSlice` | src/kernel/interrupts/pic.c:110-124 | a tick within a slice moves the clock on by 10 modulo 2^32, makes ready the blocked tasks whose wake-up time is at most that, takes one off the slice, and changes nothing else |
| `SchedulerModel.TickAtSliceEnd` | src/kernel/interrupts/pic.c:110-131 | on the state before a tick that ends a slice: the next task is the first one behind the current one in ring order, the current one last, that could run or was blocked with a wake-up time of at most the clock plus 10 modulo 2^32; it runs, the current task has a new slice and is paused if it could run, the others are ready if they were woken and as they were if not |
| `SchedulerModel.SleepInFull` | src/kernel/interrupts/syscall.c:29-37 | a sleep of 0 changes nothing; any other blocks the current task until the clock plus ms modulo 2^32, and the first task behind it that can run is the running one; no other task changes |
| `SchedulerModel.ExitInFull` | src/kernel/interrupts/syscall.c:72-78 | exit completes the current task and makes the first task behind it that can run the running one; task_exit only completes it |
| `SchedulerModel.CreatedInFull` | src/kernel/scheduler/task.c:42-78 | the idle task has priority 5; a created task comes last, ready, with a slice of its priority |
| `SchedulerModel.ExitYields` | src/kernel/interrupts/syscall.c:72-78 | exit completes the current task and another task becomes current |
| `SchedulerModel.StepKeepsInv` | src/kernel/interrupts/pic.c:108-135 | every tick, sleep, exit, creation and yield keeps one running task at most, which is current, and slices between 1 and the priority |
| `SchedulerModel.RunKeepsInv` | src/kernel/scheduler/task.c:118-144 | the same over every run |
| `SchedulerModel.ReachableInv` | src/kernel/scheduler/task.c:42-57 | the same in every state reachable from the idle task alone |
| `SchedulerModel.StepOther` | src/kernel/interrupts/pic.c:115-120 | what a step does to a task that is not current: it stays as it is, or is woken by a tick at or after its wake-up time |
| `SchedulerModel.StepCompleted` | src/kernel/interrupts/syscall.c:72-78 | a completed task stays completed under every step |
| `SchedulerModel.CompletedIsFinal` | src/kernel/interrupts/syscall.c:72-78 | the same over every run |
| `SchedulerModel.ScheduleApproaches` | src/kernel/scheduler/task.c:127-140 | each call of schedule strictly lowers the ring distance to a runnable task and uses up the slice in front of it |
| `SchedulerModel.StepApproaches` | src/kernel/interrupts/pic.c:108-135 | each tick lowers the slices left before a runnable task, each switch its distance |
| `SchedulerModel.BoundedWaiting` | src/kernel/interrupts/pic.c:108-135 | a runnable task becomes current before its distance in calls of schedule and before the slices in front of it in ticks have passed, over every run without new tasks |
| `SchedulerModel.WaitBelowPriorities` | src/kernel/scheduler/task.c:118-144 | those slices add up to no more than the priorities of the other tasks |
| `SchedulerModel.StepSleeper` | src/kernel/interrupts/pic.c:115-120 | a step wakes a sleeper if and only if it is a tick whose clock value is at or above its wake-up time |
| `SchedulerModel.RunClock` | src/kernel/interrupts/pic.c:110 | the clock counts ticks of 10 ms modulo 2^32 over every run |
| `SchedulerModel.StillAsleep` | src/kernel/interrupts/syscall.c:29-37 | over every run, clock wraps included, a sleeper stays blocked if and only if no clock value has reached its wake-up time, and is not current meanwhile |
| `SchedulerModel.ReachedOnTime` | src/kernel/interrupts/pic.c:110-120 | on the clock alone: the first value at or above the wrapped wake-up time is the one after the time asked for, if and only if the sleep is on time |
| `SchedulerModel.SleepIsExact` | src/kernel/interrupts/syscall.c:29-37 | over every run: the task is blocked all along and the first tick after the time asked for wakes it, less than 10 ms late, if and only if the wake-up time rounded up to the clock is below 2^32, or clock and wake-up time both wrap at the very next tick and not again |
| `SchedulerModel.SleepEndsEarlyIffWrapped` | src/kernel/interrupts/syscall.c:29-37 | a sleep longer than a tick ends at the very next tick if and only if its wake-up time wraps and the clock does not at that tick |
| `SchedulerModel.SleepMissedIffNoTickLeft` | src/kernel/interrupts/pic.c:110-120 | a wake-up time that does not wrap is missed if and only if the clock wraps before it shows a value at or above it |
| `Scheduler.TaskList.constructor` | src/kernel/scheduler/task.c:42-57 | one ready idle task of low priority, which is current |
| `Scheduler.TaskList.CreateTask` | src/kernel/scheduler/task.c:59-78 | appends a ready task at the end of the list |
| `Scheduler.TaskList.Advance` | src/kernel/scheduler/task.c:128-130 | moves one place on round the ring |
| `Scheduler.TaskList.WalkToRunnable` | src/kernel/scheduler/task.c:127-140 | the do-while walk ends at the first runnable task and never reaches the halting loop |
| `Scheduler.TaskList.Schedule` | src/kernel/scheduler/task.c:118-144 | marks the next task and the one that gives way: the schedule of ScheduleInFull |
| `Scheduler.TaskList.WakeTasks` | src/kernel/interrupts/pic.c:115-120 | wakes exactly the blocked tasks whose time has come |
| `Scheduler.TaskList.TimerTick` | src/kernel/interrupts/pic.c:108-135 | moves the clock on, wakes expired sleepers, counts the slice down, and at its end renews it and schedules: the tick of TickWithinSlice and TickAtSliceEnd |
| `Scheduler.TaskList.Sleep` | src/kernel/interrupts/syscall.c:29-37 | blocks the current task until its wake-up time and schedules, or does nothing for 0 ms: the sleep of SleepInFull |
| `Scheduler.TaskList.Exit` | src/kernel/interrupts/syscall.c:72-78 | completes the current task and schedules |
| `ContextModel.EffectIsSwitch` | src/kernel/scheduler/task.asm:9-30 | a word-by-word description of the switch determines memory and registers: it holds exactly of what the instructions compute |
| `ContextModel.SwitchLeavesOthers` | src/kernel/scheduler/task.asm:15-28 | a switch writes only to the record and stack of the task switched out |
| `ContextModel.ParkedUnchanged` | src/kernel/scheduler/task.asm:9-30 | over any run the record and stack of a task that is not current stay as they are |
| `ContextModel.SwitchLoads` | src/kernel/scheduler/task.asm:22-28 | what is loaded depends only on the record and stack of the task switched to |
| `ContextModel.ContextPreserved` | src/kernel/scheduler/task.asm:9-30 | over any run a task is resumed with the registers, flags, return address and stack contents it was switched out with |
| `ContextModel.SwitchToSelf` | src/kernel/scheduler/task.asm:9-30 | switching to oneself gives the context back |
| `ContextModel.SetupPrepares` | src/kernel/scheduler/task.c:24-39 | setup_stack leaves the eight words that a first switch needs, in pop order |
| `ContextModel.FirstResume` | src/kernel/scheduler/task.c:24-39 | over any run the first switch to a new task reaches the trampoline, and from there its entry with interrupts on and task_exit as return address |
| `ContextModel.FirstSwitch` | src/kernel/scheduler/task.asm:4-30 | the first switch to a prepared stack reaches the trampoline with cleared registers |
| `ContextModel.TrampolineEnters` | src/kernel/scheduler/task.asm:4-7 | sti and ret enter the task |
| `ContextModel.TrampolineFlags` | src/kernel/scheduler/task.asm:4-7 | sti sets the interrupt flag and changes no other flag, and ret takes the address from the stack |
| `Cpu.Processor.SaveContext` | src/kernel/scheduler/task.asm:15-19 | the five pushes leave flags, ebp, ebx, esi and edi below the stack pointer, in this order |
| `Cpu.Processor.StoreContext` | src/kernel/scheduler/task.asm:15-21 | memory afterwards holds the context and, in the record of the task, the stack pointer |
| `Cpu.Processor.LoadContext` | src/kernel/scheduler/task.asm:24-30 | the registers are those found on the stack, esp is past the return address, memory is unchanged |
| `Cpu.Processor.Switch` | src/kernel/scheduler/task.asm:9-30 | instruction by instruction: context saved through the first record, esp exchanged, context loaded through the second |
| `Cpu.Processor.PrepareStack` | src/kernel/scheduler/task.c:24-39 | the stores leave the prepared stack and record, and nothing else changes |
| `FatModel.NextIsEntry` | src/bootloader/stage2/fat.c:125-139 | inside the table the lookup reads the table, whatever lies behind it |
| `FatModel.NextOfPack` | src/bootloader/stage2/fat.c:125-139 | every entry of a table packed two to three bytes is read back, at even and odd positions |
| `FatModel.PackOfNext` | src/bootloader/stage2/fat.c:125-139 | packing the entries read from a table gives the table |
| `FatModel.BytesAre` | src/bootloader/stage2/fat.c:181-250 | what reading byte by byte means: each byte in turn, stopping only where the file ends |
| `FatModel.BytesConcat` | src/bootloader/stage2/fat.c:181-250 | reading a and then b bytes is reading a + b bytes |
| `FatModel.ReadsAreOneRead` | src/bootloader/stage2/fat.c:181-250 | any sequence of requests returns the bytes of one request for their sum |
| `FatModel.ContentInSector` | src/bootloader/stage2/fat.c:197-203 | bytes inside one sector are read out of that sector |
| `FatModel.ChainStep` | src/bootloader/stage2/fat.c:224-241 | the cluster and sector fields move to the next sector of the chain, or the chain has ended |
| `FatModel.AdvanceInSector` | src/bootloader/stage2/fat.c:200-207 | taking bytes out of the cached sector keeps the cache right, or leaves the position at a sector boundary |
| `FatModel.TruncatedSame` | src/bootloader/stage2/fat.c:231-237 | cutting the size to where the chain ended does not change which bytes the file has |
| `FatModel.InFilePrefix` | src/bootloader/stage2/fat.c:231-237 | the positions inside a file are a prefix: an ended chain stays ended |
| `FatFiles.ReadSector` | src/bootloader/stage2/fat.c:240-244 | a readable sector arrives unchanged |
| `FatFiles.NextLba` | src/bootloader/stage2/fat.c:210-241 | moves to the next sector of the root directory or of the chain, or finds its end |
| `FatFiles.SeenLba` | src/bootloader/stage2/fat.c:210-241 | that sector reads alike on the disk and through a cache that differs in the first sector |
| `FatFiles.FetchNext` | src/bootloader/stage2/fat.c:207-246 | the cache holds the sector of the position, or size and position are where the chain ended |
| `FatFiles.TakeChunk` | src/bootloader/stage2/fat.c:197-203 | copies bytes of the file out of the cache and moves on |
| `FatFiles.ReadChunk` | src/bootloader/stage2/fat.c:194-247 | one turn of the loop returns the next bytes of the file and keeps the cache right |
| `FatFiles.LoopTurn` | src/bootloader/stage2/fat.c:194-247 | output so far and bytes still to come make up the whole read after every turn |
| `FatFiles.ReadLoop` | src/bootloader/stage2/fat.c:194-249 | the loop returns what byte-by-byte reading returns; a prefix of it after a disk error |
| `FatFiles.Read` | src/bootloader/stage2/fat.c:181-250 | a read returns the bytes of the file from the position on, up to the smaller of size and chain end, those that ContentOfChain finds on the disk, moves the position by as many, and keeps the cache right; it never fails when the sectors of the file, and the one after a full last sector, can be read |
| `FatFiles.RunOfReads` | src/bootloader/stage2/fat.c:181-250 | over any run of reads on a handle the outputs end to end are the bytes of the file from the first position on |
| `FatLayout.FlatAt` | src/bootloader/stage2/fat.c:79-83 | byte x of piece i lies at i times the size of a piece plus x in the pieces end to end |
| `FatLayout.ClusterOfChain` | src/bootloader/stage2/fat.c:125-138 | the k-th cluster is the k-th of the chain in the allocation table, and there is none behind its end |
| `FatLayout.SectorOfCluster` | src/bootloader/stage2/fat.c:79-83 | on a disk whose sectors from the first one of the data section on hold the contents of clusters 2, 3 and so on: the sectors fetched for a cluster hold its contents |
| `FatLayout.ByteOfChain` | src/bootloader/stage2/fat.c:207-241 | byte q of a file is byte q of the clusters of its chain end to end, and there is none behind them |
| `FatLayout.ContentOfChain` | src/bootloader/stage2/fat.c:181-250 | any stretch read from a file is that stretch of the clusters of its chain end to end, cut at its size; a directory of size 0 is all of them |
| `FatLayout.OpenedReads` | src/bootloader/stage2/fat.c:102-123 | an entry just opened is read from its first byte on: the clusters of its chain end to end, cut at the size in the entry unless that is a directory of size 0 |
| `FatLayout.ContentOfRoot` | src/bootloader/stage2/fat.c:210-218 | the root directory is the bytes of its sectors in a row, cut at its size |
| `FatLayout.FirstClusters` | src/bootloader/stage2/fat.c:79-83 | with the data section from sector 33 on and one sector per cluster, cluster 2 is sector 33 and cluster 3 is sector 34 |
| `FatLayout.EntriesInNumbers` | src/bootloader/stage2/fat.c:125-138 | the bytes 0x23, 0xF1, 0x45 are the entries 0x123 and 0x45F |
| `FatNames.PrintedIsFound` | src/bootloader/stage2/fat.c:162-171 | a canonical 8.3 name is converted back from its listing |
| `FatNames.FatNameIsCanonical` | src/bootloader/stage2/fat.c:275-290 | the conversion of any text without spaces and NULs is canonical |
| `FatNames.NameRoundTrip` | src/bootloader/stage2/fat.c:275-290 | listing and looking up agree if and only if the 11-byte name is padded at the ends only and has no lowercase letter, no NUL, and no dot in its base |
| `FatNames.ExtensionBehindDot` | src/bootloader/stage2/fat.c:279-290 | the extension is what follows the first dot, up to three characters, and is blank when that dot is at index 11 |
| `FatNames.ConvertName` | src/bootloader/stage2/fat.c:270-290 | the conversion loops of the lookup, the missing dot and the dot at index 11 included |
| `FatDirectory.ParseOfPacked` | src/bootloader/stage2/fat.h:19-33 | an entry laid out field by field is read back: name, directory flag, cluster from its two halves, size |
| `FatDirectory.OpenedCoherent` | src/bootloader/stage2/fat.c:102-112 | a handle just opened has its cache right, under every handle number |
| `FatDirectory.SlotPrefix` | src/bootloader/stage2/fat.c:252-255 | complete entries lie before incomplete ones |
| `FatDirectory.ReadEntry` | src/bootloader/stage2/fat.c:252-255 | the next 32 bytes of the directory, and whether they are complete |
| `FatDirectory.FindFile` | src/bootloader/stage2/fat.c:270-302 | the first entry whose 11 bytes match in the directory as its cache shows it, or there is none and the whole directory was gone through |
| `FatDriver.NamedIs` | src/bootloader/stage2/fat.c:292-299 | the entry found first is the one the directory has under that name |
| `FatDriver.NamedSame` | src/bootloader/stage2/fat.c:292-299 | a name means the same through every handle on the same directory |
| `FatDriver.ResolveStep` | src/bootloader/stage2/fat.c:314-355 | the first component of a path decides where the rest is looked up |
| `FatDriver.Driver.OpenEntry` | src/bootloader/stage2/fat.c:85-123 | takes the lowest free handle of ten, fails when none is free or the sector cannot be read, and touches no other handle |
| `FatDriver.Driver.Close` | src/bootloader/stage2/fat.c:257-268 | frees the handle; the root is rewound with its cache left as it is |
| `FatDriver.Driver.LookUp` | src/bootloader/stage2/fat.c:335-353 | the entry a component names, or none; the directory is closed either way, and the root keeps the sector the lookup had reached in its cache |
| `FatDriver.Driver.Descend` | src/bootloader/stage2/fat.c:314-355 | one turn: the component is looked up, and when it is found and a handle is free it is open under the same handle number, searchable; with a full table it is found and not opened |
| `FatDriver.Driver.Open` | src/bootloader/stage2/fat.c:304-358 | a path resolves component by component to first matching names, the root as its cache shows it: when it is found the lowest free handle is opened, however deep it is; one that is not found leaves all handles as they were; with a full table nothing is opened, and the walk goes on with a null directory if and only if the first component is found and more follow; the root is rewound with a known sector in its cache |
| `FatPaths.OneComponent` | src/bootloader/stage2/fat.c:306-333 | a name without slash or NUL is one component, with a leading slash or without |
| `FatPaths.TwoComponents` | src/bootloader/stage2/fat.c:306-333 | two such names with a slash between them are two, with a leading slash or without |
| `FatPaths.NameLeads` | src/bootloader/stage2/fat.c:304-358 | a path of one name, with a leading slash or without, leads to the entry the directory has under that name |
| `FatPaths.NamesLead` | src/bootloader/stage2/fat.c:304-358 | a path of two leads to the entry found under the first |
| `FatPaths.OpenName` | src/bootloader/stage2/fat.c:304-358 | opening a name with a leading slash or without opens the entry the root has under it, and nothing when there is none |
| `FatPaths.OpenUnder` | src/bootloader/stage2/fat.c:304-358 | opening a name in a directory of the root, with a leading slash or without, opens the entry found under that directory, and nothing when there is none |
| `FatPaths.NamesInNumbers` | src/bootloader/stage2/main.c:45-60 | "kernel.bin" is looked up as "KERNEL  BIN" and "userland.elf" as "USERLANDELF", byte by byte |
| `FatPaths.UpperInNumbers` | src/bootloader/stage2/ctype.c:3-11 | the letters a to z become A to Z and no other byte changes |
| `FatPaths.PrintedText` | src/bootloader/stage2/fat.c:162-171 | a base and an extension padded with spaces are printed with a dot between them |
| `FatReopen.RootReopened` | src/bootloader/stage2/fat.c:257-263 | after a lookup of the root is closed its cache is right if and only if the sector reached reads like the first |
| `FatReopen.ResolveThroughCache` | src/bootloader/stage2/fat.c:304-358 | with a right cache every path leads where it leads on the disk |
| `FatReopen.SecondOpen` | src/bootloader/stage2/fat.c:257-358 | when the first component of the first path was found: a second path leads where it leads on the disk if that was one of the first fifteen entries, or the sector of the next entry reads like the first |
| `FatReopen.SecondOpenAfterMiss` | src/bootloader/stage2/fat.c:257-358 | when it was missing: the cache is right if and only if the sector behind the root reads like its first one, and then a second path leads where it leads on the disk |
| `FatReopen.SecondOpenFails` | src/bootloader/stage2/fat.c:257-358 | a disk on which opening the sixteenth entry of the root makes the first one not be found |
| `FileLoader.CopyBytes` | src/bootloader/stage2/string.c:58-67 | copies the bytes counted by the 16-bit length and no more |
| `FileLoader.ChunkOfFile` | src/bootloader/stage2/main.c:50-54 | a chunk read at a position is that stretch of the file |
| `FileLoader.LoadFile` | src/bootloader/stage2/main.c:48-54 | the loop returns the length of the file and leaves only its last, partial chunk at the destination |
| `FileLoader.LoadReproduces` | src/bootloader/stage2/main.c:48-54 | for every earlier content of the destination the file arrives, if and only if it is shorter than 64 KiB |
| `FrameBitmap.MaskIsShift` | src/kernel/mm/pmm/pmm.c:47-60 | the mask of a bit is the shift the code computes |
| `FrameBitmap.SetBitUsed` | src/kernel/mm/pmm/pmm.c:47-50 | setting a bit puts that frame in use and no other |
| `FrameBitmap.ClearBitUsed` | src/kernel/mm/pmm/pmm.c:52-55 | clearing a bit frees that frame and no other |
| `FrameBitmap.BitsDetermine` | src/kernel/mm/pmm/pmm.c:57-60 | a word is determined by its 32 bits |
| `FrameBitmap.MapDetermined` | src/kernel/mm/pmm/pmm.c:57-60 | a bitmap is determined by the frames in use |
| `FrameBitmap.UsedIsBit` | src/kernel/mm/pmm/pmm.c:57-60 | frame f is in use if and only if the mask of f % 32 meets word f / 32 |
| `FramePool.SetRangeUsed` | src/kernel/mm/pmm/pmm.c:94-101 | exactly the frames of the range are in use in addition |
| `FramePool.SetRangeFrames` | src/kernel/mm/pmm/pmm.c:94-101 | the set of frames in use grows by the described part of the range |
| `FramePool.SetRangeKeepsInv` | src/kernel/mm/pmm/pmm.c:94-101 | the counter stays at or above the number of frames in use |
| `FramePool.SetRangeKeepsExact` | src/kernel/mm/pmm/pmm.c:94-101 | the counter stays equal to it when the range lies inside the bitmap |
| `FramePool.ClearRangeFrames` | src/kernel/mm/pmm/pmm.c:214-223 | exactly the frames of the range go out of use |
| `FramePool.ClearRangeCounter` | src/kernel/mm/pmm/pmm.c:214-223 | the counter goes down by the number of pages, modulo 32 bits |
| `FramePool.ClearRangeExact` | src/kernel/mm/pmm/pmm.c:214-223 | counter and frames in use stay equal if and only if all frames freed were in use |
| `FramePool.SomeWordIsZero` | src/kernel/mm/pmm/pmm.c:139-145 | when the guard passes, one word of the bitmap is all zero |
| `FramePool.GuardMeansRun` | src/kernel/mm/pmm/pmm.c:139-173 | when the counter is below the number of words, a run of every size from 1 to 32 is free |
| `FramePool.LowestIsLow` | src/kernel/mm/pmm/pmm.c:70-83 | the lowest free frame is at most the number of frames in use, which is below the number of words |
| `FramePool.SingleFrameIsIdentityMapped` | src/kernel/mm/pmm/pmm.c:139-148 | with at most 1024 words and frame 0 kept back a single frame lies in the first 4 MiB and is not 0 |
| `FramePool.AllocateFrames` | src/kernel/mm/pmm/pmm.c:192-205 | the frames allocated were free, are in use now, and the counter rose by their number |
| `FramePool.AllocateThenFree` | src/kernel/mm/pmm/pmm.c:192-223 | freeing what was allocated restores bitmap and counter exactly |
| `FramePool.PagesCoverRange` | src/kernel/mm/pmm/pmm.c:85-88 | the pages counted cover every byte of a range if and only if the offset of its base fits behind its size in them |
| `FramePool.PagesLeast` | src/kernel/mm/pmm/pmm.c:88 | as few pages as the size of the range needs |
| `FramePool.ReserveCovers` | src/kernel/mm/pmm/pmm.c:85-102 | a reservation keeps its frames back if and only if they were in use before, or the counter was below the number of words and the bitmap describes them; otherwise it changes nothing |
| `FramePool.KernelRangeReservesNothing` | src/kernel/linkers/kernel.ld:10-11 | reserving the kernel at its link address keeps no frame back, while the counter rises by its pages |
| `FramePool.ReserveAllFrames` | src/kernel/mm/pmm/pmm.c:115-121 | while the guard passes, exactly the described parts of all ranges are in use |
| `FramePool.ReserveAllKeepsInv` | src/kernel/mm/pmm/pmm.c:226-239 | the counter still bounds the frames in use |
| `FramePool.StartsEmpty` | src/kernel/mm/pmm/pmm.c:62-68 | the cleared bitmap is empty if and only if the bytes of its last word that the clearing does not reach were zero |
| `FramePool.ClearedFrames` | src/kernel/mm/pmm/pmm.c:62-68 | clearing n bytes frees the first 8 n frames and no other |
| `FramePool.TotalIsUsable` | src/kernel/mm/pmm/pmm.c:25-34 | the total is the sum of the 64-bit lengths of the regions of type 1, modulo 2^32 |
| `FramePool.OtherTypeDropped` | src/kernel/mm/pmm/pmm.c:29-32 | a region of any other type can be dropped from the list without changing the total |
| `FramePool.MemoryDescribed` | src/kernel/mm/pmm/pmm.c:36-38 | below 4 GiB of such bytes the words describe every whole frame of them, rounded up to 32, and the bytes every whole frame, rounded up to 8 |
| `FramePool.BootRangesCover` | src/kernel/mm/pmm/pmm.c:226-239 | the reservations of INIT_MEMORY name frames 0 and 7, the pages of the kernel and of its bitmap, and those of the modules |
| `FramePool.BootState` | src/kernel/mm/pmm/pmm.c:226-239 | after INIT_MEMORY the counter bounds the frames in use and frame 0 is kept back |
| `FramePool.SmallMemory` | src/kernel/mm/pmm/pmm.c:25-39 | 128 MiB need at most 1024 words |
| `FramePool.ScanLeavesIff` | src/kernel/mm/pmm/pmm.c:150-172 | under the guard, a scan for more than one frame reads behind the bitmap if and only if there is no run and the last frame described is free |
| `FramePool.ScanLeaves` | src/kernel/mm/pmm/pmm.c:150-172 | one empty word and a request for 33 frames do so |
| `KernelFrames.LowestIsFree` | src/kernel/mm/pmm/pmm.c:70-83 | the single frame found is the one that is free with all below it in use |
| `KernelFrames.SingleReachesKernel` | src/kernel/mm/pmm/pmm.c:115-121 | a single frame is one of the kernel's or lies behind them if and only if all 256 frames below 1 MiB are in use |
| `KernelFrames.SingleStaysBelowKernel` | src/kernel/mm/pmm/pmm.c:130-136 | while the counter is below 256 a single frame lies below the kernel |
| `KernelFrames.RunBelow` | src/kernel/mm/pmm/pmm.c:192-204 | the run found ends below a frame, the reach of addresses or the kernel, if and only if some run does |
| `KernelFrames.BigRunLeavesWindow` | src/kernel/mm/handler/malloc.c:24-25 | a run of 1024 frames or more never lies in the identity-mapped window |
| `KernelFrames.RunMeetsKernel` | src/kernel/mm/pmm/pmm.c:115-121 | the run found overlaps the kernel's frames if and only if no run ends below them and some run begins before their end |
| `KernelFrames.RunIsLow` | src/kernel/mm/pmm/pmm.c:150-172 | with u frames in use a request for n is met below frame (u + 1) * n |
| `KernelFrames.SparesIff` | src/kernel/mm/pmm/pmm.c:115-121 | n frames taken one after the other avoid the kernel's if and only if at least n frames below 1 MiB are free |
| `KernelFrames.TakenBelow` | src/kernel/mm/pmm/pmm.c:70-83 | n frames taken one after the other all lie below a frame if and only if n are free there, and then so many fewer are |
| `KernelFrames.SparesAfter` | src/kernel/mm/pmm/pmm.c:192-205 | when n + m frames can be taken beside the kernel's, then after n of them m still can, and none of the n is the kernel's |
| `KernelFrames.UsedSpare` | src/kernel/mm/pmm/pmm.c:85-102 | frames that are in use are never handed out, however many are taken |
| `FrameRuns.StepKeepsReady` | src/kernel/mm/pmm/pmm.c:192-223 | allocating beside the kernel's frames, and freeing frames in use other than frame 0, keep the counter above the frames in use and frame 0 back, and hand out no frame of the kernel |
| `FrameRuns.LowTakeAllowed` | src/kernel/mm/pmm/pmm.c:192-205 | while (u + 1) * n is at most 256, with u frames in use, a request for n frames is met below the kernel |
| `FrameRuns.SingleFrame` | src/kernel/mm/pmm/pmm.c:139-148 | a single frame is found whenever the guard passes, and lies in the first 4 MiB without being frame 0 |
| `FrameRuns.BootIsReady` | src/kernel/mm/pmm/pmm.c:226-239 | so it is after INIT_MEMORY with at most 128 MiB of usable memory |
| `FrameRuns.SmallMachine` | src/kernel/mm/pmm/pmm.c:192-239 | from the memory regions, over every run of such steps beside the kernel's image and bitmap: none of their frames has been handed out; allocate_block(1) succeeds whenever the guard passes, with a frame other than 0 in the first 4 MiB, and below the kernel while the counter is below 256 |
| `FrameAllocator.FrameManager.TestBit` | src/kernel/mm/pmm/pmm.c:57-60 | returns whether the frame is in use |
| `FrameAllocator.FrameManager.MarkUsed` | src/kernel/mm/pmm/pmm.c:47-50 | the bitmap with that one bit set |
| `FrameAllocator.FrameManager.MarkFree` | src/kernel/mm/pmm/pmm.c:52-55 | the bitmap with that one bit clear |
| `FrameAllocator.FrameManager.GetFreeMemoryBlock` | src/kernel/mm/pmm/pmm.c:70-83 | the lowest free frame, or there is none |
| `FrameAllocator.FrameManager.CountRun` | src/kernel/mm/pmm/pmm.c:155-167 | whether a clear run starts here, without reading past the bitmap |
| `FrameAllocator.FrameManager.GetFreeFrameBySize` | src/kernel/mm/pmm/pmm.c:139-173 | the lowest frame that starts a clear run of the size, or size 0, a full guard, or no such run |
| `FrameAllocator.FrameManager.ReserveMemoryBlock` | src/kernel/mm/pmm/pmm.c:85-102 | marks and counts exactly the frames of the range that were free, or nothing when the guard fails |
| `FrameAllocator.FrameManager.DeallocateMemoryBySize` | src/kernel/mm/pmm/pmm.c:214-223 | frees the frames of the range and lowers the counter once for each page |
| `FrameAllocator.FrameManager.TakeRun` | src/kernel/mm/pmm/pmm.c:198-201 | marks and counts every frame of a clear run |
| `FrameAllocator.FrameManager.ClearFrames` | src/kernel/mm/pmm/pmm.c:203 | as far as their own addresses reach them, the frames read as zero and the rest of memory is unchanged |
| `FrameAllocator.FrameManager.AllocateBlock` | src/kernel/mm/pmm/pmm.c:192-205 | while the counter is below the number of words the lowest clear run is in use and its address is returned, and if it lies where addresses reach it is zero and nothing else has changed; otherwise, and when there is no such run, 0 and nothing changes |
| `FrameAllocator.FrameManager.GetMemoryInfo` | src/kernel/mm/pmm/pmm.c:25-39 | the sum of the 64-bit lengths of the regions of type 1, modulo 2^32 |
| `FrameAllocator.FrameManager.ClearBitmap` | src/kernel/mm/pmm/pmm.c:62-68 | zeroes the bytes of the bitmap and keeps the rest of its last word |
| `FrameAllocator.FrameManager.InitMemory` | src/kernel/mm/pmm/pmm.c:226-239 | the pool after boot is the cleared bitmap with all reservations in order, and describes the whole frames of the regions of type 1, rounded up to 32, when those are below 4 GiB |
| `PageTables.SetFields` | src/kernel/mm/vmm/vmm.h:13 | setting a flag keeps the frame and the other flags |
| `PageTables.ClearFields` | src/kernel/mm/vmm/vmm.h:14 | clearing a flag keeps the frame and the other flags |
| `PageTables.FrameFields` | src/kernel/mm/vmm/vmm.h:16 | setting a frame below 2 GiB sets it and keeps the flags |
| `PageTables.MappedFields` | src/kernel/mm/vmm/vmm.c:177-179 | a mapped entry is present and points at the frame, and for user pages is writable by ring 3 |
| `PageTables.TableEntryFields` | src/kernel/mm/vmm/vmm.c:165-168 | the directory entry of a new table is present, writable and points at it, and for user pages lets ring 3 through |
| `PageTables.UnmappedFields` | src/kernel/mm/vmm/vmm.c:140-141 | an unmapped entry is not present and names frame 0 |
| `PageTables.MappedWord` | src/kernel/mm/vmm/vmm.c:177-212 | the word of a mapped page: the frame, present, and everything else as it was; for user pages present, writable and open to ring 3, and bits 3 to 11 as they were |
| `PageTables.TableEntryWord` | src/kernel/mm/vmm/vmm.c:165-201 | the word of a new table: the frame, present and writable, and for user pages open to ring 3, and the other bits below 12 as they were |
| `PageTables.UnmappedWord` | src/kernel/mm/vmm/vmm.c:140-141 | the word of an unmapped page: bits 1 to 11 as they were and nothing else |
| `PageTables.FreshWords` | src/kernel/mm/vmm/vmm.c:145-212 | made from nothing, a page is 4096 times its frame plus 1, or plus 7 for user pages; a table plus 3, or plus 7 |
| `PageTables.LeafWritten` | src/kernel/mm/vmm/vmm.c:171-179 | writing a page's entry changes the translation of that page only and keeps the tables well formed |
| `PageTables.OtherPage` | src/kernel/mm/vmm/vmm.h:10-11 | two pages never use the same entry of the same table |
| `PageTables.TablesUntouched` | src/kernel/mm/vmm/vmm.c:96-110 | memory that changes outside directory and tables translates as before |
| `PageTables.DirectoryFlags` | src/kernel/mm/vmm/vmm.c:202-205 | changing flags of a directory entry changes no translation |
| `PageTables.TableAdded` | src/kernel/mm/vmm/vmm.c:156-168 | entering a cleared fresh frame as a table changes no translation, and no two entries share a table |
| `PageTables.TableAttached` | src/kernel/mm/vmm/vmm.c:42-46 | entering a filled table makes its pages translate as it says |
| `PageTables.EmptyDirectory` | src/kernel/mm/vmm/vmm.c:10-20 | an empty directory translates nothing |
| `PageTables.LeafIsOnePage` | src/kernel/mm/vmm/vmm.c:171-179 | a leaf write is a change of one page, confined to frames that hold tables |
| `PageTables.OnePageCompose` | src/kernel/mm/vmm/vmm.c:145-182 | making a table and then writing the leaf is a change of one page |
| `PageTables.StepsWritten` | src/kernel/mm/vmm/vmm.c:145-212 | making a table, or keeping or opening the one there is, and then writing the entry writes exactly the two words of the page |
| `PageTables.KernelMapKept` | src/kernel/mm/vmm/vmm.c:145-182 | mapping a page keeps the translations of all kernel pages if and only if it is none of them or gets the frame it has |
| `AddressSpace.PageDirectory.AllocateFrame` | src/kernel/mm/vmm/vmm.c:156-157 | the frame taken for a table or a page is the lowest that was not in use, lies in the window and is cleared, when a free frame is within reach of its address; there is none exactly when the guard fails |
| `AddressSpace.PageDirectory.NewTable` | src/kernel/mm/vmm/vmm.c:154-169 | a missing table is made, or memory is unchanged |
| `AddressSpace.PageDirectory.OpenTable` | src/kernel/mm/vmm/vmm.c:202-205 | an existing table is opened to ring 3 without changing a translation; nothing but that bit changes |
| `AddressSpace.PageDirectory.MapLeaf` | src/kernel/mm/vmm/vmm.c:171-181 | the page translates to the frame and every other page as before, in a directory slot that has a table |
| `AddressSpace.PageDirectory.MapPage` | src/kernel/mm/vmm/vmm.c:145-182 | exactly this page is mapped, to exactly this frame; it fails only for want of a table frame, and then changes nothing; the kernel's pages stay mapped if and only if this one is none of them or gets the frame it has; its two words are the supervisor ones of MappedWord and TableEntryWord made of what was there, or 0 for a new table |
| `AddressSpace.PageDirectory.MapPageUser` | src/kernel/mm/vmm/vmm.c:185-219 | the same, and both levels are present, writable and open to ring 3; a frame, the lowest free one, is spent exactly for a missing table; its two words are the user ones of MappedWord and TableEntryWord made of what was there, or 0 for a new table |
| `AddressSpace.PageDirectory.UnmapPage` | src/kernel/mm/vmm/vmm.c:136-142 | through tables that their own addresses reach: exactly this page is unmapped; without a table, the word that the absent entry leads to is changed, which alters no translation unless it lies in a table |
| `AddressSpace.NewTableAdded` | src/kernel/mm/vmm/vmm.c:154-169 | a cleared fresh frame entered into the directory leaves every translation as it was |
| `AddressSpace.FreshFrameCleared` | src/kernel/mm/pmm/pmm.c:192-205 | clearing a frame that was not in use leaves the tables alone |
| `BootMap.FillTable` | src/bootloader/stage2/mm/vmm/vmm.c:33-41 | the filling loop makes a table of consecutive frames, each word 4096 times its frame plus 3 |
| `BootMap.MapsInBytes` | src/bootloader/stage2/mm/vmm/vmm.c:28-85 | in addresses: the kernel finds the first 4 MiB where they are and the 4 MiB from 1 MiB on at 3 GiB; stage 2 leaves the first 1 MiB and the latter |
| `BootMap.FilledTable` | src/bootloader/stage2/mm/vmm/vmm.c:28-41 | the lowest free frame is taken and filled as a table while no translation and no other frame changes |
| `BootMap.SetupTable` | src/bootloader/stage2/mm/vmm/vmm.c:54-77 | the pages of one directory slot translate to consecutive frames, all others as before; one frame more holds a table, and only it and the directory are written |
| `BootMap.SlotAttached` | src/bootloader/stage2/mm/vmm/vmm.c:42-46 | entering the filled table makes its slot translate to consecutive frames, and the slot the only new one with a table |
| `BootMap.FirstFrame` | src/bootloader/stage2/mm/vmm/vmm.c:12-13 | the frame for the directory is the lowest free one, cleared and in the window |
| `BootMap.SetupDirectory` | src/bootloader/stage2/mm/vmm/vmm.c:10-20 | the lowest free frame becomes a directory that translates nothing; the rest of memory is as it was |
| `BootMap.InitializeVMemory` | src/bootloader/stage2/mm/vmm/vmm.c:185-199 | when three frames are free where addresses reach them: the first 4 MiB are mapped identically, the 4 MiB at 0xC0000000 to 1 MiB on, and nothing else; three frames more are in use, exactly those of the directory and its tables, and the rest of memory is as it was; they lie below 1 MiB if and only if three frames were free there |
| `BootMap.MapKernel` | src/bootloader/stage2/mm/vmm/vmm.c:187-191 | the three set-up functions in turn compute that map, with those three frames |
| `BootMap.OneMoreBuilt` | src/bootloader/stage2/mm/vmm/vmm.c:54-77 | a table more, and still exactly the frames taken since hold the directory and its tables, and the rest of memory is as it was |
| `BootMap.BuiltBelowKernel` | src/bootloader/stage2/mm/vmm/vmm.c:185-199 | the directory and its tables lie below 1 MiB if and only if three frames were free there |
| `BootMap.MapsAsKernel` | src/kernel/mm/vmm/vmm.c:221-235 | the two filled tables in an empty directory give exactly the map of the kernel |
| `BootMap.InitializeMemories` | src/kernel/hal/memory.c:5-10 | from the memory regions to a working address space with exactly that map, when three frames within reach are left after the reservations: the pool is what the reservations leave with three frames taken, for the directory and its tables, and all other memory is as it was |
| `BootMap.UnmapIdentity` | src/bootloader/stage2/main.c:92-93 | after the unmapping loop the identity map ends at 1 MiB and the rest is as before, when the tables it works through lie below |
| `BootMap.PrepareJump` | src/bootloader/stage2/main.c:90-93 | from the memory regions: after both set-ups and the unmapping loop every page translates as the kernel finds it, when three frames are free below 1 MiB |
| `MemoryBytes.ByteOfStored` | src/kernel/loader/elf.c:109 | storing a byte changes that byte of memory and no other |
| `ElfModel.HeaderFieldsFound` | src/kernel/loader/elf.h:45-60 | a file header laid out field by field is accepted exactly for an ELF32 executable, and entry, table offset, entry size and count are read back |
| `ElfModel.SegmentFound` | src/kernel/loader/elf.h:63-72 | a program header laid out field by field is read back |
| `ElfModel.PagesNeeded` | src/kernel/loader/elf.c:91 | a PT_LOAD segment has as many pages as its memory size needs and no more; any other has none |
| `ElfModel.NoLoadIsSkipped` | src/kernel/loader/elf.c:84 | no header is loaded if and only if no header of the image has type 1 in its bytes |
| `ElfModel.PlaceableIff` | src/kernel/loader/elf.c:87-113 | up to the end of the kernel's 4 MiB, the segments between 4 MiB and 3 GiB are those that cover no page of the kernel |
| `ElfModel.KernelPageLost` | src/kernel/loader/elf.c:113 | mapping a page of a segment over a kernel page takes it from the kernel, unless the frame is the one the kernel has there |
| `ElfModel.LastCoverOwns` | src/kernel/loader/elf.c:69-117 | the last program header that covers a page owns it |
| `ElfModel.PagePlaced` | src/kernel/loader/elf.c:93-114 | placing one more page puts it under that header and leaves every other page as it was |
| `ElfModel.FilledThenMapped` | src/kernel/loader/elf.c:95-113 | a fresh frame that was filled and then mapped is a page put in place |
| `ElfModel.SegmentReads` | src/kernel/loader/elf.c:84-114 | byte o of a segment is read o past the start of its first page, unless a later segment covers that page |
| `ElfModel.LoadKeepsMeaning` | src/kernel/loader/elf.c:69-117 | a page-aligned segment that shares no page reads as its file bytes up to p_filesz and as zeros up to p_memsz |
| `ElfModel.UnalignedReads` | src/kernel/loader/elf.c:109-113 | after a load p_vaddr + o reads the byte of the segment p_vaddr % 4096 further on, and so the right one if and only if those two bytes are equal |
| `ElfModel.UnalignedTail` | src/kernel/loader/elf.c:91-113 | an address that far behind p_vaddr is covered if and only if the shifted byte is in the pages of the segment |
| `ElfModel.RightIffAligned` | src/kernel/loader/elf.c:109-113 | a byte of the file is read right whatever the file holds if and only if p_vaddr is page-aligned |
| `ElfFate.AllMappedIff` | src/kernel/loader/elf.c:93-114 | all pages get mapped if and only if there are none, or the frames left suffice for the pages and the directory slots without a table |
| `ElfFate.LastUnmappedIff` | src/kernel/loader/elf.c:113 | success with the last page unmapped happens if and only if one frame is missing and that page needs a table of its own |
| `ElfFate.OneFrameShort` | src/kernel/loader/elf.c:113 | a single page with one frame left ends so |
| `ElfFate.TakesWhatIsLeft` | src/kernel/loader/elf.c:93-114 | a load takes all the frames it needs, or all that are left |
| `ElfFate.TurnSpends` | src/kernel/loader/elf.c:93-114 | every turn of the page loop takes its part of them |
| `ElfFate.TurnOnCourse` | src/kernel/loader/elf.c:93-114 | every turn of the page loop keeps to the outcome counted before the load |
| `ElfImage.ImageRead` | src/kernel/loader/elf.c:33-89 | an image put together from a file header and program headers is taken for an ELF32 executable exactly when its first five bytes and its type say so; entry and headers are read as they are, and nothing is to be loaded exactly when no header has type 1 |
| `ElfImage.ImageMeans` | src/kernel/loader/elf.c:82-116 | after a load of such an image with all pages mapped, a page-aligned segment of type 1 that shares no page reads as its bytes of the image and then as zeros |
| `ElfImage.WordInNumbers` | src/kernel/loader/elf.c:82-89 | bytes lie low end first: 0x7F, 0x45, 0x4C, 0x46 are the word 0x464C457F, read and written |
| `ElfImage.HeaderInNumbers` | src/kernel/loader/elf.h:45-60 | the bytes of a file header lie where the ELF32 structure has them |
| `ElfImage.SegmentInNumbers` | src/kernel/loader/elf.h:63-72 | and so do those of a program header |
| `ElfLoader.ReservedImage` | src/kernel/mm/pmm/pmm.c:233-238 | an image in reserved frames without tables, covered by its reservation, is safe from the loader |
| `ElfLoader.ImageKept` | src/kernel/loader/elf.c:95-113 | the image stays in place, byte by byte |
| `ElfLoader.ReadSegment` | src/kernel/loader/elf.c:82-89 | the five fields of a program header, little-endian |
| `ElfLoader.ValidateHeader` | src/kernel/loader/elf.c:35-62 | magic, class and type are checked in this order |
| `ElfLoader.CopyToFrame` | src/kernel/lib/string.c:4-13 | the copy fills the first bytes of the frame and changes nothing outside it |
| `ElfLoader.FillPage` | src/kernel/loader/elf.c:101-111 | the frame holds the page of the segment: file bytes, then zeros |
| `ElfLoader.TakePage` | src/kernel/loader/elf.c:95-99 | a cleared frame that was neither in use nor the kernel's, exactly when the guard passes; all other data stay |
| `ElfLoader.PreparePage` | src/kernel/loader/elf.c:95-111 | a fresh frame holds the page, while tables, image and all other data in use stay as they are |
| `ElfLoader.MapSegmentPage` | src/kernel/loader/elf.c:113 | the page is mapped to its frame unless its table is missing and no frame is left; then nothing has changed |
| `ElfLoader.EnterPage` | src/kernel/loader/elf.c:101-113 | the page is put in place, or its frame is lost for want of a table; nothing else in use, no frame of the kernel and no page outside user space has changed |
| `ElfLoader.LoadPage` | src/kernel/loader/elf.c:93-114 | one turn of the page loop: what it spends, none of it the kernel's, and that it fails exactly when no frame can be allocated |
| `ElfLoader.LoadSegment` | src/kernel/loader/elf.c:84-114 | the page loop puts every page of the segment in place |
| `ElfLoader.LoadHeader` | src/kernel/loader/elf.c:82-116 | a header of type 1 has all its pages put in place, any other is passed over |
| `ElfLoader.LoadSegments` | src/kernel/loader/elf.c:69-117 | after all headers every page is owned as they say, unless the last one could not be mapped; stopping early means that no frame can be allocated |
| `ElfLoader.Load` | src/kernel/loader/elf.c:33-128 | for every image with segments between 4 MiB and 3 GiB and every pool with room for the load beside the kernel's frames: the result code and the number of frames taken, settled by counting before the load; on success the entry point, and the ownership of every page or the last page unmapped; always the image, the kernel's frames and all data in use unchanged, no frame of the kernel handed out, and the pages outside user space translated as before |
| `ElfLoader.LoadsBelowKernel` | src/kernel/loader/elf.c:93-114 | there is such room when the counter and the frames the load needs add up to at most 256 |
| `BootLoad.ReservedInUse` | src/kernel/mm/pmm/pmm.c:233-238 | when the guard passes throughout, the frames of a reserved module that the bitmap describes are in use |
| `BootLoad.ImageAfterBoot` | src/kernel/hal/memory.c:5-10 | an image in such frames is where it was after the set-up of the tables, in frames without tables |
| `BootLoad.ReadyToLoad` | src/kernel/hal/hal.c:12-17 | after Initialize_memories all that elf_load relies on holds for a reserved module, and its outcome is counted with tables for the window and the kernel |
| `BootLoad.LoadReserved` | src/kernel/hal/hal.c:12-17 | loading it then has that outcome and takes that many frames, none of them the kernel's |
| `BootLoad.BootAndLoad` | src/kernel/hal/hal.c:12-17 | from the memory regions and a reserved module to the loaded program: the outcome and the frames taken by boot and load, counted from what the reservations leave; every page owned as the headers say over exactly the kernel's map; none of the kernel's frames handed out |

## Left out

- BIOS calls, mode switching, port I/O, interrupt controller and timer programming, descriptor tables and interrupt stubs: hardware set-up without a state invariant. A disk is a function from sector number to 512 bytes together with the set of readable sectors.
- `FAT_Initialize` and memory detection: a mounted volume and a list of memory regions are given.
- Screen, keyboard, printing and the format code; `FAT_ListDirectory` only as far as the text it prints for a file's name, directories not.
- The frame manager of stage 2, a copy of the kernel's; `allocate_byte`, `allocate_chunk`, `unreserve_memory_block`, `deallocate_memory` and `free_page`, which repeat the loops that are modelled.
- `create_user_task_from_elf` beyond `elf_load` and the list append, and `enter_usermode`.
- TLB flushes, control registers, the end-of-interrupt write, `sti` and `cli`: steps are atomic, as interrupts are off in handlers.
- The heap's physical side: its pages are counted, but their frames, their mapping and running out of them, which the code does not check, are not connected to `AddressSpace`. `KERNEL_HEAP_MAX` is never tested by the code.
- KernelHeap.MallocHeap.NextBlock: requires that the counting loop ends; `HeapModel.CountsForEver` says when it does not. The sum of a block and its new pages is not wrapped, which matters only for blocks within 1 MiB of 4 GiB; no well-formed heap has one.
- KernelHeap.MallocHeap.Free: requires a list, as a free before the first malloc dereferences a null list head (malloc.c line 142).
- HeapModel.WrapBreaks: as for the overlapping blocks, the memory contents that follow are not modelled.
- KernelHeap.MallocHeap.SyscallMalloc: a first request of 0 bytes sets the heap up on a page that is not mapped; the model goes on as if it were there.
- HeapModel.MiddleSlackOverlaps: states that the blocks overlap, not the memory contents that follow once the overwritten header is read back.
- Scheduler.TaskList.WalkToRunnable: the halting loop for a list in which nothing can run is not modelled, as the idle task can always run.
- SchedulerModel.BoundedWaiting: over runs that create no tasks; each new task would add its priority.
- `TASK_TERMINATED` is in the state type but the code never sets it.
- ContextModel.ContextPreserved: the words below the saved stack pointer and the stack switch of ring-3 interrupts are not part of the statement.
- FatDriver.Driver.Open: requires that the directories on the way, and the first sector of what is opened, can be read; a failing read is stated for one entry only (`FatDriver.Driver.OpenEntry`, `FatFiles.Read`). The walk is followed up to the null directory, not into it.
- FatModel.NextIsEntry: a chain that leaves the table reads the memory behind it, which is taken not to change.
- FatDriver.Driver.Open: requires path components that fit the 256-byte name buffer; longer ones overrun it in C.
- FatFiles.Read: positions are unbounded, so a directory of more than 4 GiB is not modelled.
- FatDirectory.FindFile: requires that the directory ends; a cyclic chain without a size makes the code scan for ever when the name is missing.
- FrameAllocator.FrameManager.AllocateBlock: the bitmap is storage of its own and not part of the modelled memory, so what happens when a frame of the bitmap or the kernel is handed out and cleared is not modelled; `KernelFrames` says when that is.
- FrameAllocator.FrameManager.AllocateBlock: a run that addresses do not reach leaves memory with arbitrary contents; which virtual pages are cleared instead, or that the clearing faults, is not modelled.
- FrameAllocator.FrameManager.GetFreeFrameBySize: requires, for sizes above 32, a run to be found or the last frame to be in use; otherwise the scan reads past the bitmap (`FramePool.ScanLeavesIff`).
- FrameRuns.SmallMachine: frees of frames that are not in use, which lower the counter too far, and allocations of the kernel's frames, which destroy the kernel or its bitmap, are left out of the runs.
- AddressSpace.PageDirectory.AllocateFrame: for at most 128 MiB of memory with frame 0 kept back, the condition under which physical addresses can be dereferenced through the identity map.
- AddressSpace.PageDirectory.MapPage: frames are below 2 GiB and page-aligned, all that the frame mask has room for.
- AddressSpace.PageDirectory.MapPageUser: says nothing about the user bit of other pages; opening a table to ring 3 only matters for pages that are open themselves.
- AddressSpace.PageDirectory.AllocateFrame: `allocate_page`, which also writes an entry that its only caller throws away, is not modelled beyond its allocation.
- AddressSpace.PageDirectory.NewTable: the second clearing of a new table, which the allocator has already cleared, is not repeated.
- BootMap.InitializeVMemory: requires frames for the directory and its two tables, whose absence the code does not report.
- ElfLoader.Load: requires the image to lie in the first 4 MiB, where the loader reads it through the identity map, segments between 4 MiB and 3 GiB, tables and data inside the image, and no kernel frame among those the load takes; the code checks none of this.
- BootLoad.BootAndLoad: the frames that `init_task` takes for the first heap pages between the two are left out; `ElfLoader.Load` is for any pool.
- BootMap.PrepareJump: what the unmapping loop does once it has unmapped the page of a table is not modelled.
- ElfLoader.Load: pages already placed when memory runs out stay mapped, as in the code; nothing more is said about them.

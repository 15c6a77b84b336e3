# A verified model of the kernel's memory, tasks, user heap and file store

This project models the parts of a small 32-bit x86 kernel that keep linked, shared state, and
proves what every step and every run of them preserves.

* **Physical frames** (`FrameBitmap`, `Boot`): the byte-packed frame bitmap, its boot-time contents,
  and `pmm_alloc` / `pmm_free`, proved against a sequence of booleans.
* **Memory** (`Paging`, `Memory`, `Access`, `Machine`, `KernelHeap`, `UserSpace`, `Munmap`, `TaskSpace`):
  physical memory as frames of 1024 words, the kernel directory and `kheap_pages`.  `Memory.Inv` gives
  every frame one owner and says that a non-zero directory or table word names a frame owned by that
  very word, and that every such frame is named.  Distinctness, disjointness and the absence of leaks
  follow from the owner being a function.  `Access` says what this means to the processor: which bytes
  ring 3 and the kernel can read and write, and where they are.
* **Slabs** (`SlabModel`, `SlabInvariant`, `SlabAnswers`, `SlabLists`, `SlabRep`, `Kmalloc`, `Overlay`,
  `KernelMemory`): `kmalloc` and `kfree` as functions on lists of page numbers, their invariant over
  all runs, the doubly linked headers that represent those lists, the code over both, and the bytes
  that free-list cells share with objects.
* **Scheduler** (`SchedulerModel`, `SchedulerSwitch`, `SchedulerLiveness`, `Scheduler`): the ring of tasks as a state
  machine whose events are the interrupt handlers, its invariant and liveness over all runs, and the
  pointer code.
* **Task life cycle** (`Lifecycle`, `LifecycleRuns`, `TaskMemory`): which frames and heap blocks a task
  takes and gives back, conservation over whole runs, and isolation at every moment of them.
* **Userspace malloc and free** (`UserHeapModel`, `UserHeapInvariant`, `UserHeapMalloc`,
  `UserHeapFree`, `UserHeapAnswers`, `UserHeapRuns`, `UserHeapBreaks`, `UserMalloc`): page blocks tiled with memory
  blocks, exactly when `malloc` and `free` keep them so, and two short runs that break them.
* **Inode store** (`InodeModel`, `InodeLemmas`, `InodeRuns`, `FileStore`): two bitmaps, packed inodes
  and data sectors on a block device, and the round trip over all runs.

Code that works step by step is modelled by classes and methods over the same fields (`Bitmap`,
`Machine`, `Allocator`, `Scheduler`, `Heap`, `Device`); each method equates the new state with a function
of the old one, and the lemmas are about those functions.

Every gate is an interrupt gate (`kernel/idt/idt.c:92-97`), which keeps interrupts off, so the events of the scheduler are atomic.

## Where the code and its own words differ

* `kernel/include/memory.h:63-67` says the allocator never keeps an empty slab.  A slab of the
  2048-byte class has one object; in every sound heap it stays on the partial list when full, and after
  `kfree` its unmapped page stays at the head of that list (`Class2048LeavesFullSlabInPartial`,
  `Class2048Breaks`, `MallocKeepsIff`).
* `kernel/memory.c:101` reads the byte stored at `_kernel_start` where its address is meant.  A negative
  byte, widened to 64 bits, moves the range to frame 2^52 - 1 (`KernelRangeFitsIff`,
  `NegativeByteIsFarOut`).
* `kernel/memory.c:77-80` counts the pages of a region from its length alone, so a region that
  straddles a page boundary can leave its last page unmarked (`MarkingIsExact`).
* `kernel/syscall/munmap.c:19` starts every table at the table index of the first address
  (`VictimsAreTheRange`), so a range across tables is not undone (`MunmapUndoesMmapIff`); it frees frame 0
  for a page that is not mapped, and goes through frame 0 for one without a table
  (`FreesOwnFrameIffMapped`).
* `enqueue_task` puts the idle task to sleep even while a user task runs that may soon be the only one
  (`kernel/scheduler/scheduler.c:219`), so a lookup can run for ever (`TickCanHang`).  `await_stdin` wakes
  it only for the last task that is counted, so two readers stop the kernel (`TwoReadersHang`); a second
  `await_stdin` forgets the first waiter (`WaiterStaysRecordedIff`).
* `malloc` splits a free block that is 8 bytes larger than asked for, which underflows
  (`SplitUnderflows`), and leaves an old link in a block it hands out whole, which can make the free
  list circular (`ReuseMakesACycle`).
* `alloc_inode_num` hands out numbers up to 32767 while the inode table holds 320
  (`SlotInTableIff`, `LateInodeOverwritesData`), and writing a file again never releases its old sectors
  (`RewriteLeaks`, `NoLeakIffNeverRewrites`).

## Model

| member | source | states |
|---|---|---|
| Paging.MaskedWords | kernel/include/memory.h:15-25 | the masks and shifts of the address macros are divisions by 4096 and 0x400000 on every 32-bit word |
| Paging.AlignUpIsLeast | kernel/include/misc.h:7-15 | rounding up gives the least page boundary not below the address, except that the last page of the address space wraps to 0 |
| Paging.PagesAreTight | kernel/include/misc.h:108-111 | a length takes the fewest pages that hold it, except that pages_required counts none in the last page of the address space; rounding down gives the greatest boundary |
| FrameBitmap.SetLaw | kernel/include/memory.h:27-29 | setting a bit of a byte changes that bit and no other, for every byte and both bits |
| FrameBitmap.ClearLaw | kernel/include/memory.h:27-29 | clearing a bit of a byte changes that bit and no other |
| FrameBitmap.BitIsDigit | kernel/include/memory.h:29 | bit k of a byte is its binary digit of weight 2^k |
| FrameBitmap.Bitmap.constructor | kernel/memory.c:66-70 | whatever the storage held, the first n bits are clear afterwards |
| FrameBitmap.Bitmap.SetUsed | kernel/memory.c:54-61 | marks exactly the n frames from the start index on |
| FrameBitmap.Bitmap.Scan | kernel/memory.c:139-152 | the scan stops short of the end exactly when a free run of length n exists, and then at the last frame of the leftmost one |
| FrameBitmap.Bitmap.Alloc | kernel/memory.c:136-160 | returns the leftmost free run of length n and changes only those bits |
| FrameBitmap.Bitmap.Free | kernel/memory.c:162-171 | clears exactly the n bits from the frame on |
| FrameBitmap.FreeUndoesAlloc | kernel/memory.c:136-171 | freeing a fresh allocation restores the set of free frames |
| FrameBitmap.ReservedFramesStay | kernel/memory.c:136-171 | over every run that frees only allocated frames, used means reserved at the start or handed out now, and no frame reserved at the start is ever handed out |
| Boot.MarkingIsExact | kernel/memory.c:74-95 | marking a byte range marks only frames that hold a byte of it, and all of them if and only if its edges fit; a page-aligned start or end suffices |
| Boot.StraddlingRegionIsMissed | kernel/memory.c:77-81 | two bytes across a page boundary leave the second page unmarked |
| Boot.MapMarksItsBytes | kernel/memory.c:72-98 | the memory map marks only frames that hold a byte of an unavailable region or between the end of one region and the start of the next, and all of them if the edges of these ranges fit |
| Boot.KernelRangeFitsIff | kernel/memory.c:100-105 | the 64-bit indices of the kernel range lie inside the bitmap if and only if the byte read is not negative; then they are the frames up to the end of the kernel, else none of them is inside |
| Boot.NegativeByteIsFarOut | kernel/memory.c:101 | byte 0xFF makes the range start at frame 2^52 - 1 |
| Boot.PopulateBitmap | kernel/memory.c:63-112 | for ranges inside the bitmap whose edges fit, a frame is marked exactly when it holds a byte of an unavailable region, between two regions, below the end of the kernel, or of the pages of the module |
| Boot.KernelModuleAndBitmapAreReserved | kernel/memory.c:173-203 | with the module starting no later than the first page behind the kernel image, every byte of image, module and bitmap lies in a frame that is marked |
| Boot.KernelEndIsTight | kernel/memory.c:173-196 | no page more than module and bitmap need is reserved behind the kernel image |
| Boot.BootReservedFramesAreNeverHandedOut | kernel/memory.c:63-203 | over every run after boot no frame is handed out that holds a byte of the kernel image, the module, the bitmap, an unavailable region or between two regions, if the edges of the latter two fit |
| Machine.FirstFreeIsLeast | kernel/memory.c:136-160 | a one-frame allocation takes the least free frame |
| Machine.Machine.TakeFrame | kernel/memory.c:136-160 | taking a frame gives the least free one, cleared, and changes one owner and one page |
| Machine.Machine.GiveFrame | kernel/memory.c:162-171 | giving a frame back makes it free and changes nothing else |
| Memory.FillingKeepsInv | kernel/memory.c:225-268 | storing the name of a free frame in an empty slot keeps every frame with one owner and every slot naming its own frame |
| Memory.ClearingKeepsInv | kernel/memory.c:270-289 | clearing a slot and freeing the frame it named keeps the memory invariant |
| Memory.AddKTableKeeps | kernel/memory.c:241-253 | adding a kernel page table keeps the invariant |
| Memory.AddKPageKeeps | kernel/memory.c:255-264 | adding a kernel heap page keeps the invariant |
| Memory.DropKPageKeeps | kernel/memory.c:270-289 | dropping a kernel heap page keeps the invariant |
| Memory.AddDirKeeps | kernel/memory.c:327-339 | adding a directory that copies the kernel half keeps the invariant |
| Memory.AddUTableKeeps | kernel/syscall/mmap.c:25-38 | adding a user page table keeps the invariant |
| Memory.AddUPageKeeps | kernel/syscall/mmap.c:61-71 | adding a user page keeps the invariant |
| Memory.DropUPageKeeps | kernel/memory.c:357-365 | dropping a user page keeps the invariant |
| Memory.DropUTableKeeps | kernel/memory.c:368-378 | dropping an empty user table keeps the invariant |
| Memory.DropDirKeeps | kernel/memory.c:384 | dropping a directory without tables keeps the invariant |
| Access.UserReachesMapped | kernel/syscall/mmap.c:25-71 | in the user half ring 3 may read and write an address, by the bits of the two words the processor reads, exactly when its page is mapped; it then reaches the frame owned for that page |
| Access.KernelReachesMapped | kernel/memory.c:225-289 | the kernel may read and write a kernel heap address exactly when its page is mapped; it then reaches the frame owned for that page |
| Access.HeapIsClosedToUsers | kernel/memory.c:225-268 | ring 3 reaches no kernel heap address through any directory |
| Access.SpacesAreIsolated | kernel/memory.c:225-385 | what ring 3 reaches in the user half through one directory it reaches through no other and at no second address, and it is a page of that space |
| KernelHeap.MapRunKeeps | kernel/memory.c:225-268 | mapping n pages keeps the invariant, marks exactly them, names frames free before, and leaves every other translation and frame alone |
| KernelHeap.UnmapRunKeeps | kernel/memory.c:270-289 | unmapping keeps the invariant, clears exactly those entries and frees exactly their frames |
| KernelHeap.MmapReaches | kernel/memory.c:225-268 | by addresses: exactly the n pages from the address returned come within the kernel's reach, cleared and in frames that were free; the rest of the heap goes where it went |
| KernelHeap.UnmmapReaches | kernel/memory.c:270-289 | by addresses: exactly the n pages from the address on leave the kernel's reach |
| KernelHeap.HeapRunKeeps | kernel/memory.c:205-289 | the memory invariant holds after every run of mmap and unmmap, and nothing outside the kernel heap changed |
| KernelHeap.HeapAgreesOverRuns | kernel/memory.c:205-289 | after any run kheap_pages[k] is set exactly when the entry of page k is non-zero; entries name distinct used frames that are no page tables |
| KernelHeap.SharedHalfOverRuns | kernel/memory.c:335-338 | over every run a user directory translates a kernel heap page as the kernel directory does if and only if it held that page's table at the start or the page is unmapped |
| KernelHeap.FreeVirtArea | kernel/memory.c:205-223 | finds the leftmost free virtual run |
| KernelHeap.MapOne | kernel/memory.c:230-265 | one turn of the loop equals the model's step: page frame, table if missing, entry, map byte |
| KernelHeap.MapPages | kernel/memory.c:230-265 | the loop equals the model's run of steps |
| KernelHeap.Mmap | kernel/memory.c:225-268 | maps at the leftmost free virtual run; the kernel can then use exactly the n new pages from the address returned |
| KernelHeap.UnmapOne | kernel/memory.c:272-288 | one turn of the loop equals dropping one page |
| KernelHeap.MappedPagesFit | kernel/memory.c:270-289 | mapped pages meet what unmmap needs of its tables and frames |
| KernelHeap.Unmmap | kernel/memory.c:270-289 | equals the model's run of drops; the kernel loses exactly the n pages from the address on |
| UserSpace.FillKeeps | kernel/syscall/mmap.c:16-80 | mapping the holes below a page keeps the invariant, gives each hole its own fresh cleared frame and leaves every existing translation, frame and other space alone |
| UserSpace.FillReaches | kernel/syscall/mmap.c:7-83 | by addresses: ring 3 comes to read and write exactly the pages up to the n-th hole, the new ones cleared and in frames that were free; the address returned is the lowest new one; what was reached before goes where it went |
| UserSpace.FirstHoleIsLeast | kernel/syscall/mmap.c:52-53 | the address returned is that of the lowest page newly mapped |
| UserSpace.HolesMonotone | kernel/syscall/mmap.c:16-80 | the count of holes grows with the range, by its full length exactly when all of it is holes |
| UserSpace.ContiguousIffConsecutive | kernel/syscall/mmap.c:52-53 | the range is contiguous if and only if the n holes follow each other |
| UserSpace.ScanEndsInUserHalfIff | kernel/syscall/mmap.c:16-80 | the scan stops below directory entry 768 if and only if the length is positive and the user half has that many holes |
| UserSpace.SysMmap | kernel/syscall/mmap.c:7-83 | maps exactly the first n holes in address order, returns the lowest, and the task can read and write them |
| UserSpace.MapIfHole | kernel/syscall/mmap.c:22-77 | one turn of the inner loop maps the page exactly when it is a hole |
| Munmap.VictimsAreTheRange | kernel/syscall/munmap.c:13-31 | the loops visit the n pages from the start if and only if the range starts at table index 0 or stays in one table |
| Munmap.VictimsAscend | kernel/syscall/munmap.c:13-31 | the visited pages are pairwise distinct and ascending |
| Munmap.UnmapKeeps | kernel/syscall/munmap.c:6-34 | on mapped pages: invariant kept, exactly the visited translations removed and their frames freed, nothing else changed |
| Munmap.UnmapReaches | kernel/syscall/munmap.c:6-34 | by addresses: ring 3 loses exactly the bytes of the visited pages, and reaches the others where it did |
| Munmap.MunmapOfUnmappedFreesFrameZero | kernel/syscall/munmap.c:23-27 | a visited page that has a table but is not mapped frees frame 0 |
| Munmap.FreesOwnFrameIffMapped | kernel/syscall/munmap.c:23-27 | a step frees no frame but its own if and only if its page is mapped, or, without a table, if and only if the word it takes from frame 0 names no frame in use |
| Munmap.MunmapUndoesMmap | kernel/syscall/munmap.c:6-34 | undoing a contiguous sys_mmap restores every translation; the only frames still taken are page tables |
| Munmap.MunmapUndoesMmapIff | kernel/syscall/munmap.c:13-31 | a contiguous sys_mmap is undone if and only if its range starts at table index 0 or stays in one table |
| Munmap.MappedPagesFit | kernel/syscall/munmap.c:13-31 | mapped pages name frames of the bitmap and are all reached before the directory ends |
| Munmap.VictimAt | kernel/syscall/munmap.c:13-19 | closed form of the pages visited: w indices of every table from the first on |
| Munmap.SysMunmap | kernel/syscall/munmap.c:6-34 | equals dropping the visited pages one by one, up to the end of the directory, whether or not they have tables |
| TaskSpace.BuildKeeps | kernel/memory.c:291-342 | a new space keeps the invariant, takes only free frames, maps exactly pages 1 and 2, holds the code, and leaves all other spaces and the kernel heap alone |
| TaskSpace.BuildReaches | kernel/memory.c:291-342 | by addresses: in the new space ring 3 reaches exactly 0x1000 to 0x2FFF, the program first and a cleared stack page second, in frames that were free; all 256 directory words of the kernel half are copied |
| TaskSpace.LaidIsBuild | kernel/memory.c:291-342 | the frames written one by one are the space the model builds |
| TaskSpace.MmapRing3 | kernel/memory.c:291-342 | returns the directory of the built space, in which ring 3 reaches the program and its stack |
| TaskSpace.CopyKernelHalf | kernel/memory.c:335-338 | copies directory entries 768 to 1023 and nothing else |
| TaskSpace.TearKeeps | kernel/memory.c:344-382 | the loops clear exactly the slots of the space reached so far and free exactly their frames |
| TaskSpace.TeardownKeeps | kernel/memory.c:344-385 | tearing a space down frees exactly its frames and leaves every other owner, slot and frame alone |
| TaskSpace.BuildFillTeardown | kernel/memory.c:291-385 | building, filling and tearing down gives every frame the owner it had before |
| TaskSpace.TearOne | kernel/memory.c:352-378 | one turn of the inner loop equals the model's step |
| TaskSpace.UnmmapRing3 | kernel/memory.c:344-385 | equals the model's teardown |
| SlabInvariant.ClassFromIsLeast | kernel/memory.c:387-398 | size_to_class finds the first class that is large enough |
| SlabInvariant.ClassOf | kernel/memory.c:387-398 | sizes to 1024 get classes with at least three objects a slab, sizes above 2048 whole pages |
| SlabInvariant.MallocKeeps | kernel/memory.c:412-460 | outside 1025 to 2048: no fault, lists and free lists stay sound, the block is new and large enough, and every block in use is untouched |
| SlabInvariant.FreeKeeps | kernel/memory.c:462-492 | kfree of a live block keeps the invariant and takes back that block only |
| SlabInvariant.AllListed | kernel/memory.c:484 | n distinct numbers below n are all of them: a full free list means no live object |
| SlabInvariant.StepKeeps | kernel/memory.c:412-492 | each call keeps the lists sound and the live blocks equal to those held, each as large as asked for |
| SlabInvariant.RunKeeps | kernel/memory.c:412-492 | the same over every run |
| SlabInvariant.LiveBlocksAreApart | kernel/memory.c:412-492 | live blocks never overlap |
| SlabInvariant.HeaderIsRecovered | kernel/memory.c:464 | a live block lies past its header in mapped heap pages, and align_down_4k recovers the header |
| SlabAnswers.SlabIsFilled | kernel/memory.c:439 | a slab has as many objects as fit in its page behind the header |
| SlabAnswers.NewSlabGivesLastPlace | kernel/memory.c:436-457 | from an empty cache kmalloc answers the last place in the page where an object fits |
| SlabAnswers.FirstAddresses | kernel/memory.c:400-457 | the address answered from an empty cache of each class, and for a large block |
| SlabAnswers.BigPagesAreTight | kernel/memory.c:402 | a large block gets the pages that bytes and header need, and one more when these fill the last page |
| SlabAnswers.FreeUndoesMalloc | kernel/memory.c:412-492 | kfree of a block just returned restores the pages in use, the slab lists in their order and the free lists in theirs |
| SlabAnswers.FreedIsNext | kernel/memory.c:418-482 | while its slab stays, a freed object is the answer to the next kmalloc of its class if and only if its slab was full or first of the partial list |
| SlabInvariant.Class2048LeavesFullSlabInPartial | kernel/memory.c:436-457 | in every sound heap a request of 1025 to 2048 bytes makes a slab that is full and on the partial list |
| SlabInvariant.Class2048Breaks | kernel/memory.c:418-489 | from every sound heap: the next request of that class reads before its free list; freeing the object leaves an unmapped slab listed |
| SlabInvariant.MallocKeepsIff | kernel/memory.c:412-460 | in every sound heap with room for the request, kmalloc leaves sound lists if and only if the size is not 1025 to 2048 |
| SlabLists.UnlinkKeepsLinked | kernel/memory.c:474-476 | the two stores take a slab out and leave the others linked in order |
| SlabLists.PushFrontLinks | kernel/memory.c:478-481 | the stores put a slab in front of a well-formed list and change no other header |
| SlabRep.MoveToFullLists | kernel/memory.c:422-431 | the surgery of kmalloc moves the head of partial to the head of full, for the header links of all caches |
| SlabRep.MoveToPartialLists | kernel/memory.c:472-482 | the surgery of kfree moves a slab from full to the head of partial |
| SlabRep.DropLists | kernel/memory.c:484-489 | an empty slab leaves the partial list |
| Kmalloc.Allocator.ClassIndex | kernel/memory.c:387-398 | the loop returns the first fitting class or -1 |
| Kmalloc.Allocator.TakeObject | kernel/memory.c:418-434 | pops the last free object of the first partial slab, and retires the slab if it was its last |
| Kmalloc.Allocator.RetireSlab | kernel/memory.c:424-430 | moves the slab to the full list |
| Kmalloc.Allocator.NewSlab | kernel/memory.c:436-457 | maps a page, lays out its objects and hands out the last |
| Kmalloc.Allocator.SlabAt | kernel/memory.c:441-452 | the free list of a new slab holds the addresses of all its objects in order, and one more object would not fit |
| Kmalloc.Allocator.FpAllocation | kernel/memory.c:400-410 | maps the pages of a large block and returns the address past its header |
| Kmalloc.Allocator.Kmalloc | kernel/memory.c:412-460 | heap, page tables and frames after kmalloc are those of the layered model, and the address is the block's |
| Kmalloc.Allocator.Kfree | kernel/memory.c:462-492 | heap, page tables and frames after kfree are those of the layered model |
| Kmalloc.Allocator.FreeObject | kernel/memory.c:471-491 | pushes the object, revives a full slab, and drops an empty one with its page |
| Kmalloc.Allocator.ReviveSlab | kernel/memory.c:472-482 | moves a slab from the full to the partial list |
| Kmalloc.Allocator.UnlinkEmpty | kernel/memory.c:484-489 | takes an empty slab off the partial list |
| Overlay.CellLiesUnder | kernel/memory.c:448-452 | a free-list cell lies inside exactly one object |
| Overlay.PushHarmlessIff | kernel/memory.c:471 | the store of kfree overwrites no other live object if and only if the object under the cell is the one freed or free |
| Overlay.FullSlabPushOverwritesObjectZero | kernel/memory.c:471 | freeing any object but 0 of a full slab overwrites the live object 0 |
| Overlay.LifoIsSafe | kernel/memory.c:412-492 | when objects are freed in reverse order of allocation, live cells never meet live objects and the next push overwrites none |
| KernelMemory.KmallocKeeps | kernel/memory.c:412-460 | kmalloc keeps slab lists, page tables and frames sound together, and every other block on its page and frame |
| KernelMemory.KfreeKeeps | kernel/memory.c:462-492 | the same for kfree, and free frames stay free |
| KernelMemory.LiveBytesAreMapped | kernel/memory.c:205-492 | the kernel can read and write every byte of a live block at its own address |
| KernelMemory.LiveBytesArePrivate | kernel/memory.c:205-492 | no two bytes of live blocks share a physical byte, and ring 3 reaches none of them |
| KernelMemory.KmallocAllSizes | kernel/memory.c:412-460 | of several blocks allocated in a row each is as large as asked for |
| SchedulerModel.FirstRunnableIsNearest | kernel/scheduler/scheduler.c:46-55 | next_task finds the nearest READY or IDLE task of the walk, exactly when there is one |
| SchedulerModel.LookupEndsIffRunnable | kernel/scheduler/scheduler.c:46-55 | the walk round the ring ends if and only if some task of it is runnable |
| SchedulerModel.DispatchKeeps | kernel/scheduler/scheduler.c:57-78 | load_context keeps the ring sound, makes the task found current, and puts none to sleep and wakes none |
| SchedulerModel.TwoLookupsAgree | kernel/scheduler/scheduler.c:271-293 | the two lookups inside one tick find the same task |
| SchedulerModel.StepKeeps | kernel/scheduler/scheduler.c:80-293 | every event keeps the ring of distinct tasks with idle and reaper, the count, the single running task, the stdin waiter and the dead queue sound |
| SchedulerModel.RunKeeps | kernel/scheduler/scheduler.c:46-293 | the same over every run |
| SchedulerModel.StepDefinedIffRunnable | kernel/scheduler/scheduler.c:46-293 | tick, exit, await_stdin and the reaper fail to return if and only if no task of the ring they search is runnable; enqueue and wake_stdin always return |
| SchedulerModel.ReapedOnceInOrder | kernel/scheduler/scheduler.c:101-150 | over every run the exited tasks are those reaped followed by those queued, in order and once each |
| SchedulerModel.PidsChange | kernel/scheduler/scheduler.c:129-220 | only enqueue adds a pid, a new one, and only exit removes one, that of the current task |
| SchedulerSwitch.AwaitSwitches | kernel/scheduler/scheduler.c:80-90 | after await_stdin the nearest task round the ring that is runnable once the reader sleeps and idle is woken runs; nobody changes place, and nothing but the reader's record changes beside |
| SchedulerSwitch.ExitSwitches | kernel/scheduler/scheduler.c:129-150 | after task_exit the nearest runnable one of the others runs; they keep their order, the reaper is ready, the task is last in the dead queue |
| SchedulerSwitch.ReapSwitches | kernel/scheduler/scheduler.c:230-253 | after the reaper's pass the nearest runnable task runs, nobody changes place, and the queue is empty |
| SchedulerSwitch.TickSwitches | kernel/scheduler/scheduler.c:271-293 | a tick switches to the nearest runnable task and makes the old one ready unless it is idle; if that is the current one nothing changes |
| SchedulerSwitch.EnqueueAppends | kernel/scheduler/scheduler.c:207-220 | the new task is the last to be looked at, ready, with the next pid; idle sleeps and nothing else changes |
| SchedulerSwitch.WakeReadies | kernel/scheduler/scheduler.c:92-99 | the recorded reader becomes ready in its place |
| SchedulerLiveness.TickMoves | kernel/scheduler/scheduler.c:271-293 | one tick brings a runnable task nearer or makes it current |
| SchedulerLiveness.BoundedWaiting | kernel/scheduler/scheduler.c:271-293 | while only ticks occur a runnable task at distance d is current within d ticks |
| SchedulerLiveness.DeadQueueIsReached | kernel/scheduler/scheduler.c:101-150 | with a dead task waiting the reaper is current or becomes so within one round |
| SchedulerLiveness.TickCanHang | kernel/scheduler/scheduler.c:207-220 | a run from boot after which the next tick never returns |
| SchedulerLiveness.TwoReadersHang | kernel/scheduler/scheduler.c:80-90 | a run from boot in which a second reader of stdin never returns |
| SchedulerLiveness.SleepersChange | kernel/scheduler/scheduler.c:80-99 | a user task falls asleep only by reading stdin and wakes only as the recorded waiter |
| SchedulerLiveness.WaiterStaysRecordedIff | kernel/scheduler/scheduler.c:80-90 | every sleeping user task stays recorded if and only if nobody waits when another reads |
| SchedulerLiveness.LostWaiterSleepsForever | kernel/scheduler/scheduler.c:80-99 | a forgotten waiter sleeps in every later state |
| Scheduler.Scheduler.constructor | kernel/scheduler/scheduler.c:255-269 | idle and reaper form the first ring |
| Scheduler.Scheduler.NextTask | kernel/scheduler/scheduler.c:46-55 | the pointer walk finds the task the model names, also from a task that was just unlinked |
| Scheduler.Scheduler.LoadContext | kernel/scheduler/scheduler.c:57-78 | the found task becomes current, running unless it is idle, with the ring rotated to it |
| Scheduler.Scheduler.Tick | kernel/scheduler/scheduler.c:271-293 | equals the model's tick |
| Scheduler.Scheduler.AwaitStdin | kernel/scheduler/scheduler.c:80-90 | equals the model's event |
| Scheduler.Scheduler.WakeStdin | kernel/scheduler/scheduler.c:92-99 | equals the model's event |
| Scheduler.Scheduler.Enqueue | kernel/scheduler/scheduler.c:207-220 | the loop finds the last task of the ring and links the new one behind it, as the model does |
| Scheduler.Scheduler.Exit | kernel/scheduler/scheduler.c:129-150 | unlinking, switching and queueing equal the model's event |
| Scheduler.Scheduler.PushDead | kernel/scheduler/scheduler.c:101-118 | appends at the end of the null-terminated queue |
| Scheduler.Scheduler.Reap | kernel/scheduler/scheduler.c:230-253 | drains the queue from the front, returns the pids in that order, and gives way |
| Scheduler.Scheduler.DrainQueue | kernel/scheduler/scheduler.c:120-127 | pops every queued task once, in order |
| Lifecycle.ReapIsSafe | kernel/scheduler/scheduler.c:230-253 | every block the reaper frees is live and freed once, also after the space is gone |
| Lifecycle.RecordIsFreedLast | kernel/scheduler/scheduler.c:236-247 | the record the reaper reads its pointers from is in use until all other blocks of the task are freed |
| Lifecycle.CreateKeeps | kernel/scheduler/scheduler.c:158-205 | a new task's blocks and frames are its own, and its log names exactly the frames of its space |
| Lifecycle.CreatedBlocksFit | kernel/scheduler/scheduler.c:158-181 | the blocks of a new task have room for its record, three files and a kernel stack of a whole page |
| Lifecycle.MmapKeeps | kernel/syscall/mmap.c:7-83 | sys_mmap adds to the task's log exactly the frames that joined its space, and leaves all other books straight |
| Lifecycle.MunmapKeeps | kernel/syscall/munmap.c:6-34 | sys_munmap of mapped pages strikes from the task's log exactly the frames that left its space |
| Lifecycle.ReapKeeps | kernel/scheduler/scheduler.c:230-253 | reaping strikes the task and leaves the books of all others straight |
| Lifecycle.StepKeeps | kernel/scheduler/scheduler.c:158-253 | every event keeps each block and each space in use with one task |
| Lifecycle.ReapReleasesWhatWasTaken | kernel/scheduler/scheduler.c:230-253 | the reaper frees exactly the frames in the task's log and exactly its blocks, and nothing of any other task |
| LifecycleRuns.PageHasBlock | kernel/memory.c:484-491 | every heap page in use holds a live block: no empty slab survives |
| LifecycleRuns.RunAnchors | kernel/scheduler/scheduler.c:158-253 | over every run of enabled events from a good state the state stays good, and the blocks, heap pages, boot frames and directory entries there at the start stay as they were |
| LifecycleRuns.MemoryIsConserved | kernel/scheduler/scheduler.c:158-253 | over every run of create, mmap, munmap, exit and reap from a good state: once all tasks are gone, the heap has the same blocks, pages and frames as before, and every frame its former use, except new kernel heap page tables |
| LifecycleRuns.TasksAreIsolated | kernel/scheduler/scheduler.c:158-253 | at every moment of every run no physical byte is reached by two user tasks or at two addresses, and no user task reaches the kernel heap or a byte of a live kernel block |
| TaskMemory.AllocateAll | kernel/scheduler/scheduler.c:158-181 | several kmallocs in a row are those of the model, and each pointer is its block's address |
| TaskMemory.FreeAll | kernel/scheduler/scheduler.c:241-247 | several kfrees in a row are those of the model |
| TaskMemory.CreateTask | kernel/scheduler/scheduler.c:158-205 | the memory create_task takes over the real allocators is the model's, and the record points at it |
| TaskMemory.ReapTask | kernel/scheduler/scheduler.c:237-247 | the memory left by the reaper is the model's |
| UserHeapModel.SizesFitIff | userspace/stdlib/malloc.c:7-42 | the 32-bit size arithmetic is what it looks like if and only if the request is at most 0xFFFFEFD8 bytes |
| UserHeapAnswers.SizesAreTight | userspace/stdlib/malloc.c:7-42 | sizes are rounded up to the next multiple of 8, and pages asked for are as few as hold the block and both headers |
| UserHeapInvariant.LiveBlocksAreApart | userspace/stdlib/malloc.c:25-35 | blocks handed out never overlap each other or a page header and lie in their page block |
| UserHeapMalloc.SplitKeeps | userspace/stdlib/malloc.c:67-83 | a split keeps the tiling and the free list exact when the rest has room for a header |
| UserHeapMalloc.WholeKeeps | userspace/stdlib/malloc.c:93-105 | handing a free block out whole keeps tiling and free list |
| UserHeapMalloc.CarveKeeps | userspace/stdlib/malloc.c:25-35 | carving from the bump area keeps header, blocks and bump area adding up to og_size |
| UserHeapMalloc.FreshKeeps | userspace/stdlib/malloc.c:121-125 | a new page block joins the list at its end |
| UserHeapMalloc.PickIsFirstFit | userspace/stdlib/malloc.c:54-119 | the search is first fit over pages and free lists, bump area next, new page last |
| UserHeapMalloc.MallocKeepsIff | userspace/stdlib/malloc.c:37-129 | some reading of the memory is sound after malloc if and only if it did not split a block 8 bytes larger than the request |
| UserHeapMalloc.MallocGives | userspace/stdlib/malloc.c:37-129 | exactly one new live block of the aligned size; every other live header is untouched |
| UserHeapAnswers.FitAnswers | userspace/stdlib/malloc.c:61-106 | a request served from a free block gets its low end; the rest behind a new header keeps its place in the list, and of an exact fit nothing is left |
| UserHeapAnswers.BumpAnswers | userspace/stdlib/malloc.c:12-35 | other requests get the start of the bump area, 24 bytes into a new page block that joins the list at its end |
| UserHeapFree.PageFreeIff | userspace/stdlib/free.c:5-18 | the sum reaches og_size if and only if the block is the last live one of its page block |
| UserHeapFree.JoinKeeps | userspace/stdlib/free.c:49-69 | appending a block with a null link keeps the free list acyclic and exact |
| UserHeapFree.MergeKeeps | userspace/stdlib/free.c:61-64 | tail coalescing keeps the tiling |
| UserHeapFree.UnlinkKeepsList | userspace/stdlib/free.c:20-36 | unlinking a page block keeps the doubly linked list well formed with mem_pool as its head |
| UserHeapFree.UnmapKeeps | userspace/stdlib/free.c:20-48 | giving a page block back keeps the rest sound |
| UserHeapFree.FreeKeepsIff | userspace/stdlib/free.c:39-70 | some reading of the memory is sound after free if and only if no block with an old link was appended |
| UserHeapFree.FreeTakes | userspace/stdlib/free.c:39-70 | exactly the block is given up, and its page block is unmapped if and only if it was its last live one |
| UserHeapAnswers.ReleaseAnswers | userspace/stdlib/free.c:49-69 | a freed block is swallowed by the last free block if that one ends where it starts, and otherwise becomes the last of the list; no other block changes |
| UserHeapRuns.RequestIsSoundIff | userspace/stdlib/malloc.c:37-129 | from a clean heap, a request leaves a sound heap whose live blocks carry no link if and only if it splits nothing into 8 bytes and takes none whole before the end of its list |
| UserHeapRuns.RunKeeps | userspace/stdlib/malloc.c:37-129 | over every run of such calls from a clean heap, tiling and free lists stay exact and the live blocks are those held, each with the bytes asked for |
| UserHeapBreaks.ReuseMakesACycle | userspace/stdlib/malloc.c:93-105 | a legal run of eight calls whose free list goes round two blocks |
| UserHeapBreaks.SplitUnderflows | userspace/stdlib/malloc.c:67-72 | a legal run of four calls that records a free block of 2^32 - 8 bytes |
| UserMalloc.Heap.AllocPageBlock | userspace/stdlib/malloc.c:12-23 | writes the header of a new page block |
| UserMalloc.Heap.AllocMemBlock | userspace/stdlib/malloc.c:25-35 | carves a block from the bump area |
| UserMalloc.Heap.FindBlock | userspace/stdlib/malloc.c:61-111 | the inner loop returns the first block that is large enough and the one before it |
| UserMalloc.Heap.TakeFree | userspace/stdlib/malloc.c:65-106 | the stores of both branches equal the model's split and whole take |
| UserMalloc.Heap.Search | userspace/stdlib/malloc.c:54-119 | the nested loops end where the model's first fit says |
| UserMalloc.Heap.Malloc | userspace/stdlib/malloc.c:37-129 | equals the model's step, and keeps the heap sound unless the split is too tight |
| UserMalloc.Heap.IsPageFree | userspace/stdlib/free.c:5-18 | the loop computes the model's sum |
| UserMalloc.Heap.UnmapFreePage | userspace/stdlib/free.c:20-36 | the stores equal the model's unlinking |
| UserMalloc.Heap.Free | userspace/stdlib/free.c:39-70 | equals the model's step, and keeps the heap sound unless a stale link is appended |
| UserMalloc.Heap.GiveBack | userspace/stdlib/free.c:49-69 | the walk to the end of the free list, then merge or append |
| InodeLemmas.SetBitUsed | kernel/filesystem/fs.c:72-76 | setting a bit of a bitmap on disk sets that bit, and no other sector changes |
| InodeLemmas.OnDisk | kernel/filesystem/fs.c:62-146 | the bytes of the device that hold each bit of both bitmaps, each inode and each data sector |
| InodeLemmas.PicksAscend | kernel/filesystem/fs.c:94-110 | the sectors a write picks are distinct and ascending |
| InodeLemmas.PicksCount | kernel/filesystem/fs.c:94-110 | a write finds as many sectors as it asks for or as there are clear bits, whichever is less |
| InodeLemmas.PicksAreFirst | kernel/filesystem/fs.c:94-110 | a free sector is passed over only when enough earlier ones were picked |
| InodeLemmas.InodeRoundTrip | kernel/include/filesystem/fs.h:18-25 | an inode decodes from its 64 bytes as it was |
| InodeLemmas.InodeBytes | kernel/include/filesystem/fs.h:18-25 | type, size, sector count and sector numbers lie at bytes 0, 2, 4 and 8, low byte first |
| InodeLemmas.WriteInodeReads | kernel/filesystem/fs.c:127-146 | a written inode is read back, every other slot is untouched, and one sector changes |
| InodeLemmas.SlotInTableIff | kernel/filesystem/fs.c:129-132 | the slot of a number lies in the inode table if and only if it is below 320 |
| InodeRuns.AllocEffect | kernel/filesystem/fs.c:62-83 | the first clear bit is handed out and set, never one handed out before, and no other sector changes |
| InodeRuns.WriteEffect | kernel/filesystem/fs.c:85-136 | a write changes only the bits and sectors it picked, all clear before, and its own slot; no other sector of the disk |
| InodeRuns.StepKeeps | kernel/filesystem/fs.c:62-136 | every event keeps every file stored on marked sectors that no other file owns |
| InodeRuns.RunKeeps | kernel/filesystem/fs.c:62-136 | the same over every run of enabled events from a sound store |
| InodeRuns.ReadsBackLatest | kernel/filesystem/fs.c:62-146 | over every run of enabled events from a sound store each file reads back its own latest bytes, zero padded |
| InodeRuns.RewriteLeaks | kernel/filesystem/fs.c:85-114 | the old sectors of a rewritten file stay marked and belong to no file |
| InodeRuns.WriteLeaksIff | kernel/filesystem/fs.c:85-114 | where every marked sector has an owner, a write leaves it so if and only if the file had no sectors before |
| InodeRuns.NoLeakIffNeverRewrites | kernel/filesystem/fs.c:62-136 | over every run, every marked sector has an owner at the end if and only if no file with sectors was written again |
| InodeRuns.StoresAllIff | kernel/filesystem/fs.c:94-110 | the whole file is stored, whatever the inode held before, if and only if the data bitmap has as many clear bits as the file has sectors |
| InodeRuns.LateInodeOverwritesData | kernel/filesystem/fs.c:127-136 | from number 320 on an inode overwrites 64 bytes of a data sector |
| FileStore.Device.AllocInodeNum | kernel/filesystem/fs.c:62-83 | the nested loops return the first clear bit, or -1 and an unchanged disk |
| FileStore.Device.WriteInodeData | kernel/filesystem/fs.c:85-114 | the nested loops, the data sectors and the bitmap written back equal the model's write |
| FileStore.Device.ReadInodeData | kernel/filesystem/fs.c:116-125 | the buffer holds the sectors in the order the inode lists them |
| FileStore.Device.WriteInode | kernel/filesystem/fs.c:127-136 | replaces 64 bytes of one sector |
| FileStore.Device.ReadInode | kernel/filesystem/fs.c:138-146 | decodes 64 bytes of one sector |

## Left out

- Exhaustion of frames, of kernel heap pages and of the bitmap is not handled by the code; preconditions named `...Fits` and `HasRun` say that each allocation of a call finds room.
- The temporary window is direct access to one frame; `invlpg`, CR3 loads, register save and restore, the quantum and the TSS are hardware effects without state here.
- Kmalloc.Allocator.Kmalloc: sizes 1025 to 2048 are excluded because that class breaks (see `MallocKeepsIff`), and large blocks must have fewer than 65536 pages, the width of their header field.
- Kmalloc.Allocator.FreeObject: the free list is storage of its own in the slab headers; the bytes it shares with the objects are treated in `Overlay`.
- Access.UserReachesMapped: addresses from 0xC0000000 on outside the kernel heap (the kernel image, the temporary window) are mapped by boot code that is not part of this model.
- The flags argument of the kernel's mmap is fixed to present and writable, its only use.
- TaskSpace.MmapRing3: the program is copied word by word and must fit one page, the size of the window it is copied through.
- UserSpace.SysMmap: a scan that does not end below directory entry 768 is excluded (`ScanEndsInUserHalfIff` says when); it would then edit shared kernel tables.
- Munmap.SysMunmap: every word cleared must name a frame of the bitmap; the code would otherwise clear a bit outside its storage.
- Boot.PopulateBitmap: indices outside the bitmap are excluded; the code would write outside its storage.
- Scheduler.Scheduler.Tick: an event whose lookup finds no runnable task does not return in the code, and is excluded by a precondition.
- Scheduler.Scheduler.Reap: one event drains the whole queue, as the loop runs with interrupts off; what it frees is modelled by `TaskMemory.ReapTask`.
- Lifecycle.MunmapKeeps: the event covers sys_munmap of mapped pages; one that visits other pages frees frame 0 or goes through it (see `FreesOwnFrameIffMapped`).
- TaskMemory.CreateTask: fields of the task that hold no memory (registers, selectors, status) are not part of the record, and pointers are kept beside it.
- UserMalloc.Heap.Malloc: what the mmap call answers is a parameter, required to be unused page-aligned addresses when it is called; the searches are methods of their own, and the debugging loop of prints is left out.
- UserHeapMalloc.MallocKeepsIff: headers are kept by address, so bytes of overlapping headers after a split that is too tight are not modelled; no claim is made about such a heap.
- InodeRuns.ReadsBackLatest: one write is write_inode_data followed by write_inode; the inode number need not have been allocated first.
- FileStore.Device.WriteInodeData: at most 14 sectors and at most 512 bytes a sector, the bounds of the sector array and of the buffer; the device has every sector the bitmaps can name.
- Padding bytes of an inode are written as zero; the code copies whatever the structure held.
- open_file, vnode creation, tar headers, the ATA driver, terminal, framebuffer, `printf`, interrupt tables, system-call wrappers and sample programs carry no invariant of their own.

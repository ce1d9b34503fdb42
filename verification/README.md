# Obsidian kernel: a verified model

This project models the hard core of the Obsidian x86 kernel and its user library in Dafny 4.11
and proves what their loops, lists and tables keep over whole runs.  `dafny verify dfyconfig.toml`
checks everything.

Each part has a specification module (states as datatypes, one function per kernel operation, the
theorems over runs) and, where the C code updates things in place, a module with classes whose
methods follow that code loop by loop and are proved to compute the specification functions.

| part | specification | code |
|---|---|---|
| recursive halving allocators | `HalvingSearch`, `BlockHeap`, `UserHeapSpec`, `UserHeapRuns` | `UserHeap`, `KernelHeap` |
| break and address-space maps | `Process` | `Process.Task` |
| scheduler, task list, wait and exit | `SchedulerSpec`, `SchedulerRuns`, `BoundedWaiting`, `WaitingRuns`, `Sleeping`, `WaitReturns`, `TaskTimes` | `Scheduler` |
| paging | `PagingSpec`, `PagingRuns`, `PageRanges` | `Paging`, `PageFault` |
| ramfs and path walk | `RamfsSpec`, `PathWalk`, `Mkdir` | `Vfs` |
| mailboxes | `MailboxSpec` | `Mailbox` |
| symbol table | `SymbolsSpec` | `Symbols` |
| number printing and parsing | `Numbers` | `Numbers` |
| descriptor table | `Descriptors` | `Descriptors.Table` |

## Main results

- **Allocators.** For any memory contents and any request the halving search fails exactly when the
  two top-level half headers are marked; the block size depends on heap size and request alone; over
  every run the live pointers are the marked headers, blocks are aligned powers of two with
  b/2 <= request <= b (user) and blocks of one size are disjoint; any two blocks are nested or
  disjoint, they can nest (`OverlapAcrossSizes`), and a new block is disjoint from all others under an
  exact condition (`NewBlockDisjointIff`).  In 32-bit arithmetic a user malloc serves its request as
  promised exactly for requests up to 2^30 on a heap that is not a full one of 2^31 bytes, unless the
  block's pointer wraps to 0 (`UserHeapRuns.MallocExact`); on the full one the size wraps to 0 and the next block overlaps the others
  (`ThirdHalfOverlaps`).  Where it serves, it at most doubles the heap or grows it below four times
  the request.  One kernel `expand` suffices unless a full heap of 2 GiB wraps to size 0, the one case
  in which `malloc_f` panics (`KernelHeap.MallocExact`), and every heap can be driven there
  (`SomeRunPanics`).  `malloc_f` never checks the size: its block holds the request
  exactly if that is at most half the heap (`BlockHoldsRequestIff`).
- **Scheduler.** A task at cyclic distance d with sleep k in a fixed queue of N runs within d + k(N-1)
  calls of `switch_task`, and the bound is reached.  While tasks come and go, removals never prolong a
  wait and each creation does by at most 1 + k (`RunsInTime`); without that allowance the statement is
  false (`CreationStarves`).  Over every run: distinct queue, pids in creation order, child counters
  equal queued children, no stranded waiter, and each task is charged exactly the time it was running,
  which adds up to the clock.  A waiter's flag falls exactly when a child of it is removed, and the
  waiter then runs within 4N switches and four per creation.
- **Paging.** The two-level tables refine a flat page map; frames are conserved from boot on exactly as
  long as no mapping without permission bits takes frame 0; clones share exactly the tables present at
  cloning time for ever; the range loop ends, covers its addresses, runs out of frames and conserves
  them each under an exact condition; and booting ends by wrap-around with an identity mapping.
- **Files.** The iterative walk is recursive descent; `mkdir` is framed, makes its path resolve
  exactly if the last name is not "..", and keeps names unique exactly if it does not repeat a "..";
  the file system stays a tree, and which inodes paths reach is characterised.
- **Mailboxes.** No message is lost or reordered in any interleaving; the null-pointer panic happens
  exactly when a send lands after an empty snapshot.
- **Symbols.** The table is a last-writer-wins map by hash, and by name under an exact condition.

## Model

| member | source | states |
|---|---|---|
| HalvingSearch.SearchExact | user/lib/alloc.c:32-56 | for any memory and any request the search misses iff both top half headers are marked; a hit is an unmarked, aligned header inside the node and its block size is the same for every memory |
| HalvingSearch.FallThroughNeverAllocates | kern/mem/alloc.c:69-81 | a level that recurses is answered by one of its two recursive calls iff its quarters are still usable halves, which every request of at least one header ensures |
| HalvingSearch.BlockSizeBounds | kern/mem/alloc.c:69-72 | the block is a power of two, at most twice the request or the smallest block, and above the request unless it is half of the node |
| HalvingSearch.SmallestBlock | kern/mem/alloc.c:66-72 | the smallest blocks are four bytes in user space and eight words in the kernel |
| HalvingSearch.NestedOrDisjoint | user/lib/alloc.c:32-56 | aligned power-of-two blocks are nested or disjoint, and disjoint when equally large |
| BlockHeap.AllocateKeepsInv | user/lib/alloc.c:47-53 | an allocation flips one unmarked header, which becomes one new live block, and keeps the heap invariant |
| BlockHeap.ReleaseKeepsInv | user/lib/alloc.c:71-83 | a release succeeds exactly on live positions and ends exactly that block's life |
| BlockHeap.GrowKeepsInv | user/lib/alloc.c:19-30 | growing to at least double keeps every block and leaves the new right header unmarked |
| BlockHeap.LiveBlocksLaminar | user/lib/alloc.c:32-56 | two live blocks of one size are disjoint, any two are nested or disjoint |
| BlockHeap.NewBlockDisjointIff | user/lib/alloc.c:32-56 | a new block overlaps no live block iff no live header lies strictly inside it and no larger live block lies around it |
| UserHeapSpec.GrowForFits | user/lib/alloc.c:62-63 | for requests up to 2^30 the first loop reaches a 32-bit heap size whose half holds the request, below four times the request if it grew |
| UserHeapSpec.FirstLoopEndsIff | user/lib/alloc.c:62-63 | in 32-bit arithmetic the first loop ends iff the request is at most 2^30, and at that size |
| UserHeapSpec.MallocEndsIff | user/lib/alloc.c:58-63 | in terms of the int argument it ends iff the size is from -4 to 2^30 - 4 |
| UserHeapSpec.MissCured | user/lib/alloc.c:65-66 | on every heap but an exhausted one of 2^31 bytes one 32-bit resize cures a miss of the search |
| UserHeapSpec.ExhaustedEndsIff | user/lib/alloc.c:23-28 | from the exhausted heap the size wraps to 0 and the second loop ends iff some smaller size has a free top header |
| UserHeapRuns.MallocServes | user/lib/alloc.c:58-69 | below those limits malloc grows at most to max(8, 2 old, 4 request), hands out one fresh block that holds the request, touches no other, and keeps break and map with the heap while it ends below 4 GiB |
| UserHeapRuns.MallocExact | user/lib/alloc.c:58-69 | malloc of any int returns a fresh block holding its request and keeps the heap invariant iff the request is at most 2^30, the heap is not exhausted and the block's pointer does not wrap to 0; larger requests never return |
| UserHeapRuns.NullNeedsHighHeap | user/lib/alloc.c:47-53 | no block of a heap that ends below 4 GiB has the pointer 0 |
| UserHeapRuns.ExhaustedReturnsIff | user/lib/alloc.c:65-68 | on the exhausted heap the second loop of malloc ends iff some smaller size has a free top header |
| UserHeapRuns.ExhaustedBreaks | user/lib/alloc.c:65-68 | and wherever it does, a live block lies outside the heap |
| UserHeapRuns.FreeKeepsInv | user/lib/alloc.c:71-83 | free succeeds exactly on live pointers, removes exactly that block, changes nothing otherwise, and a second free fails |
| UserHeapRuns.MallocThenFree | user/lib/alloc.c:58-83 | free of the pointer malloc returned frees just that block |
| UserHeapRuns.RunKeepsInvIff | user/lib/alloc.c:19-83 | the heap invariant holds throughout a run iff no malloc finds a block in an exhausted heap or one whose pointer is 0 |
| UserHeapRuns.RunTheorem | user/lib/alloc.c:19-83 | over every such run live pointers are the marked headers, blocks are aligned powers of two with b/2 <= request <= b inside the heap (a request below one header counting as one in the lower bound), equal sizes are disjoint, and the break is the heap end modulo 2^32 |
| UserHeapRuns.RunPlacedIff | user/lib/alloc.c:19-30 | over every such run heap end, break and map end coincide iff the heap ends below 4 GiB |
| UserHeapRuns.HeapAddressesMapped | kern/mem/memmap.c:25-45 | then each heap address lies in the process's one map |
| UserHeapRuns.OverlapAcrossSizes | user/lib/alloc.c:32-56 | after a 28-byte request on a 64-byte heap a 4-byte request returns a block inside the first one |
| UserHeapRuns.ThirdHalfOverlaps | user/lib/alloc.c:19-69 | in a new process with its break below 2 GiB the third malloc of 2^30 - 4 bytes wraps the heap size and is answered with four bytes inside the second block |
| UserHeapRuns.FirstHalfNull | user/lib/alloc.c:47-69 | with the break at 0xbffffffc the first malloc of 2^30 - 4 bytes marks a block whose pointer is 0 |
| UserHeap.Allocator.constructor | user/lib/alloc.c:11-13 | a new process heap over unmarked memory satisfies the run invariant |
| UserHeap.Allocator.Resize | user/lib/alloc.c:19-30 | in 32-bit arithmetic one resize fixes the base on the first call, doubles the size and moves break and map end as specified |
| UserHeap.Allocator.FindFree | user/lib/alloc.c:32-56 | the recursive search with its writes marks exactly the header the specification names and returns its 32-bit pointer, or marks nothing and returns 0; no mark is ever lost |
| UserHeap.Allocator.GrowToFit | user/lib/alloc.c:62-63 | whenever the first loop ends it makes exactly the specified resizes |
| UserHeap.Allocator.FindOrGrow | user/lib/alloc.c:65-66 | whenever the second loop ends it makes exactly the specified resizes and its last search hits |
| UserHeap.Allocator.Malloc | user/lib/alloc.c:58-69 | whenever malloc of an int ends at a block with a pointer, it computes the specified state and pointer, and keeps the invariant iff the heap was not exhausted |
| UserHeap.Allocator.Free | user/lib/alloc.c:71-83 | free computes the specified state and reports bad pointers |
| KernelHeap.MallocExact | kern/mem/alloc.c:87-106 | the retry loop panics iff both top headers of a 2 GiB heap are taken, whose doubling wraps to 0; otherwise one expansion suffices and the request is answered with a fresh block |
| KernelHeap.ApplyKeepsInv | kern/mem/alloc.c:87-125 | which step of a run panics, and that every other step keeps the heap invariant |
| KernelHeap.PanicNeedsFullHeap | kern/mem/alloc.c:93-99 | a run panics only at an allocation with both top headers of a 2 GiB heap taken |
| KernelHeap.SomeRunPanics | kern/mem/alloc.c:87-99 | from every heap some run of huge requests panics: they fill it, double it to 2 GiB and fill that |
| KernelHeap.BlockHoldsRequestIff | kern/mem/alloc.c:59-106 | the returned block holds the request iff the request with its header is at most half the heap's bytes |
| KernelHeap.AddressRoundTrip | kern/mem/alloc.c:75-80 | a pointer less its header and the heap root is four times its word position, modulo 2^32 |
| KernelHeap.MallocThenFree | kern/mem/alloc.c:87-125 | free_f of the pointer malloc_f returned frees just that block |
| KernelHeap.TwoMegabytesOverrun | kern/mem/alloc.c:136-144 | on the initial 4 MiB heap a 2 MiB request gets a block four bytes too small |
| KernelHeap.RunTheorem | kern/mem/alloc.c:59-168 | over every run of malloc_f and free_f that does not panic live blocks are the marked headers, aligned powers of two inside the heap, disjoint when equally large |
| KernelHeap.KHeap.constructor | kern/mem/alloc.c:136-144 | init_heap turns a byte size into words and gives an empty heap, which satisfies the invariant for powers of two from 40 bytes up |
| KernelHeap.KHeap.FindFreeNode | kern/mem/alloc.c:59-84 | the recursive search over words marks exactly the specified header, or nothing, and its 32-bit address is 0 only for a miss |
| KernelHeap.KHeap.Expand | kern/mem/alloc.c:147-171 | expand computes the doubled size through bytes in 32-bit arithmetic |
| KernelHeap.KHeap.MallocF | kern/mem/alloc.c:87-106 | the retry loop computes the specified state and panics iff both top headers are taken and the doubled byte size leaves 32 bits |
| KernelHeap.KHeap.FreeF | kern/mem/alloc.c:112-125 | free_f succeeds exactly on pointers to live blocks and frees just that block |
| Process.FirstMap | kern/mem/memmap.c:25-45 | the first map holding an address, both ends included |
| Process.Task.constructor | kern/kern/task/task.c:169-170 | a process starts with one map over its image and the break at its end |
| Process.Task.MemmapsCheck | kern/mem/memmap.c:34-45 | the list loop returns the first map holding the address |
| Process.Task.Sbrk | kern/kern/task/task.c:411-423 | sbrk moves the break and the end of the map it lies in by the same 32-bit increment; without such a map only the break moves and the null pointer is reported |
| SchedulerSpec.Select | kern/kern/task/task.c:89-95 | the selection loop ends, by total sleep, at an awake queued task |
| SchedulerSpec.SelectOnlySleep | kern/kern/task/task.c:89-95 | the selection loop changes nothing but sleeps, and those only downwards |
| BoundedWaiting.ScanProgress | kern/kern/task/task.c:85-97 | one scan uses up at least one turn of the waiting bound of every task it does not choose |
| BoundedWaiting.NeverPassesAwake | kern/kern/task/task.c:89-95 | the scan stops at or before every awake task, takes one off each task passed and leaves those behind alone |
| BoundedWaiting.RingWait | kern/kern/task/task.c:85-97 | on the ring of sleeps a position is chosen within its bound for all sleeps others set |
| BoundedWaiting.SelectIsScan | kern/kern/task/task.c:85-97 | the selection over task records is the scan over their sleeps in queue order |
| BoundedWaiting.BoundedWait | kern/kern/task/task.c:85-97 | in a fixed queue of N a task at distance d with sleep k runs within d + k(N-1) calls whatever others set for themselves |
| BoundedWaiting.BoundIsReached | kern/kern/task/task.c:331-339 | with everyone else awake it does not run before that call, so the bound is tight |
| Sleeping.SleepTakesEffect | kern/kern/task/task.c:331-339 | if anyone else is awake, a task that goes to sleep does not run on and keeps its sleep |
| Sleeping.SleepsExactly | kern/kern/task/task.c:331-339 | with everyone else awake a sleep of k turns lasts exactly (k+1)(N-1) timer calls |
| SchedulerRuns.StepKeepsInv | kern/kern/task/task.c:210-409 | every kernel entry keeps queue shape, pids, child counters, waiters and time accounting; the running task is awake and a waiting one sleeps at most three turns |
| SchedulerRuns.RunKeepsInv | kern/kern/task/task.c:210-409 | the invariant over every run |
| SchedulerRuns.RunsFromBoot | kern/kern/task/task.c:17-57 | after every run from boot the queue is duplicate-free with the running task in it, pids follow creation, counters count queued children, and charged time is the clock modulo 2^32 |
| SchedulerRuns.CreateExact | kern/kern/task/task.c:229-270 | a creation adds one awake child of the running task with the next pid behind the others and changes nothing but its parent's counter |
| SchedulerRuns.RemovalExact | kern/kern/task/task.c:276-292 | a removal changes only the parent: a raised flag falls with the pid recorded, and the counter goes down |
| SchedulerRuns.WaitBeginExact | kern/kern/task/task.c:390-396 | wait raises the caller's flag exactly if it has children and touches nothing else |
| SchedulerRuns.WaitEndExact | kern/kern/task/task.c:403-404 | the end of wait lowers the caller's flag and forgets the child, and touches nothing else |
| SchedulerRuns.NewChildWakes | kern/kern/task/task.c:210-292 | a task that creates another, waits and loses it is told the pid the creation gave |
| SchedulerRuns.KillKeepsInvIff | kern/kern/task/task.c:313-326 | a removal behind the head keeps the invariant iff its victim is not the running task |
| SchedulerRuns.SelfKillThenSwitch | kern/kern/task/task.c:313-326 | a task that removed itself leaves, at a switch right after, like one that exits |
| SchedulerRuns.PidsUniqueIff | kern/kern/task/task.c:234-234 | two tasks share a pid iff created a multiple of 2^32 apart; before wrap-around pids are unique and below the counter |
| SchedulerRuns.PidFindsTask | kern/kern/task/task.c:345-353 | a queued task is found by its pid iff none queued before it was created a multiple of 2^32 tasks apart |
| SchedulerRuns.WaiterHasChild | kern/kern/task/task.c:285-292 | a waiting task still has a queued child, and removing that child wakes it with the child's pid |
| SchedulerRuns.RemovalKeepsOrder | kern/kern/task/task.c:276-282 | removal keeps the order of all other tasks |
| SchedulerRuns.SwitchTime | kern/kern/task/task.c:99-105 | a switch brings the total of charged times to the clock, modulo 2^32 and exactly |
| SchedulerRuns.TimeAddsUp | kern/kern/task/task.c:21-33 | while the clock runs forward the times of all tasks ever created add up exactly to the clock at the last switch |
| TaskTimes.SwitchTimes | kern/kern/task/task.c:99-105 | a switch charges the task that was running with the ticks since it was chosen, and no other task |
| TaskTimes.StepTimes | kern/kern/task/task.c:99-105 | in every step of every run a time changes only at a switch and only for the running task |
| TaskTimes.RunTimes | kern/kern/task/task.c:99-105 | over every run each task's time grows by the intervals in which it was running, modulo 2^32 |
| TaskTimes.RunTimesExact | kern/kern/task/task.c:21-33 | while the clock runs forward each time is exactly that sum |
| TaskTimes.FirstTenTicks | kern/kern/task/task.c:99-105 | one thread created at tick 0 and the timer at tick 10 leave 10 ticks with the first task and none with the new one |
| WaitingRuns.SwitchProgress | kern/kern/task/task.c:85-97 | a scan from any queue position chooses a task or uses up part of its wait |
| WaitingRuns.RemovalProgress | kern/kern/task/task.c:276-282 | removing another task never prolongs a wait |
| WaitingRuns.ExitProgress | kern/kern/task/task.c:303-307 | the exit of the running task counts as a switch for everyone waiting |
| WaitingRuns.CreationProgress | kern/kern/task/task.c:262-270 | a creation prolongs the wait of a task with sleep k by at most 1 + k turns |
| WaitingRuns.StepKeepsDown | kern/kern/task/task.c:285-288 | a wait flag that is down stays down, with the child it reports, until its task runs |
| WaitingRuns.RunsInTime | kern/kern/task/task.c:85-97 | in every run of switches, sleeps, exits, kills, waits and creations a task that stays queued runs within d + k(N-1) switches plus 1 + k for each creation |
| WaitingRuns.CreationStarves | kern/kern/task/task.c:262-270 | no bound can ignore creations: with one creation per turn a task is not chosen in n turns, for every n |
| WaitReturns.StepWakesParent | kern/kern/task/task.c:285-288 | the exit or kill of a child of a waiting task drops the flag and records the pid, and the parent has at most three turns to sleep |
| WaitReturns.FlagFallsIff | kern/kern/task/task.c:285-288 | in every step of every run the flag of a waiting task falls iff a child of it is removed |
| WaitReturns.WaitReturnsInTime | kern/kern/task/task.c:303-401 | in every run after that which keeps the parent queued, it runs within 4N switches and four more per creation, its flag still down and the child's pid recorded |
| Scheduler.Kernel.constructor | kern/kern/task/task.c:17-57 | init_tasking leaves one self-parented task with pid 1 |
| Scheduler.Kernel.PassOver | kern/kern/task/task.c:89-95 | one turn of the loop takes one off the passed node's sleep and steps on, wrapping at the list end |
| Scheduler.Kernel.PickNext | kern/kern/task/task.c:85-97 | the loop over linked nodes computes the specified selection and ends |
| Scheduler.Kernel.SwitchTask | kern/kern/task/task.c:85-105 | selection and accounting over linked nodes equal the specified switch, also from a node just removed |
| Scheduler.Kernel.SleepThread | kern/kern/task/task.c:331-339 | the running task sets its own sleep and yields |
| Scheduler.Kernel.InitTask | kern/kern/task/task.c:229-260 | a new node with the next pid, child of the running task, stamped with the clock |
| Scheduler.Kernel.AddTask | kern/kern/task/task.c:262-270 | the new node is linked behind the last one |
| Scheduler.Kernel.CreateThread | kern/kern/task/task.c:210-227 | creation appends the new child and counts it, returning its pid |
| Scheduler.Kernel.Unlink | kern/kern/task/task.c:276-282 | list surgery is right behind the head; a lone head stays, any other head stays in front of a cycle |
| Scheduler.Kernel.NotifyParent | kern/kern/task/task.c:285-292 | a waiting parent is woken with the child's pid and the counter goes down |
| Scheduler.Kernel.RemoveTask | kern/kern/task/task.c:276-300 | a queued task other than the head is removed as specified |
| Scheduler.Kernel.ExitThread | kern/kern/task/task.c:303-307 | the running task is removed and its old successor's scan goes on |
| Scheduler.Kernel.GetPidTask | kern/kern/task/task.c:345-353 | the first queued task with the pid, or null |
| Scheduler.Kernel.KillThread | kern/kern/task/task.c:313-326 | removal by pid, 1 if there is none |
| Scheduler.Kernel.WaitBegin | kern/kern/task/task.c:390-396 | without children wait fails, else the flag is raised |
| Scheduler.Kernel.WaitEnd | kern/kern/task/task.c:403-408 | the end of wait clears flag and child before it returns the child, so the result is 0 |
| Scheduler.Kernel.Enter | kern/kern/task/task.c:69-409 | every kernel entry on the linked nodes is the step of the run model, so each run of the code is a run of the model |
| PagingSpec.SplitIsPage | kern/mem/paging.c:130-131 | the two table indices of an address name exactly its page |
| PagingSpec.SplitAddress | kern/mem/paging.c:130-131 | an address is its directory index times 4 MiB plus its table index times 4 KiB plus its offset |
| PagingSpec.MapPageDirs | kern/mem/paging.c:134-146 | the directory slot of the address's 4 MiB holds a table with the permissions afterwards, a table there stays, all other slots stay |
| PagingSpec.SameTableIff | kern/mem/paging.c:130-131 | two addresses use one table iff they lie in the same 4 MiB |
| PagingSpec.MapPageEntry | kern/mem/paging.c:142-145 | the entry keeps its frame or takes the top one, and its permissions are the old ones or-ed with the new |
| PagingSpec.MapPageFlat | kern/mem/paging.c:129-147 | in every directory exactly the entry of that page changes, and only through the same table; an existing frame is kept, a missing one is the stack's top |
| PagingRuns.MapPageConserves | kern/mem/paging.c:70-87 | a mapping keeps every frame in exactly one stack position or table slot iff it has permission bits, or the page has a frame, or the frame on top is not 0 |
| PagingRuns.ZeroPermissionLosesFrame | kern/mem/paging.c:142-145 | with zero permissions mapping onto frame 0 leaves the entry empty and loses the frame |
| PagingRuns.RunConserves | kern/mem/paging.c:129-353 | a run of mappings and clonings conserves frames iff each mapping does; a frame lost once is lost for good |
| PagingRuns.RunPointers | kern/mem/paging.c:129-353 | table pointers never change once set and separate tables stay separate |
| PagingRuns.CloneSameView | kern/mem/paging.c:336-353 | right after cloning both directories give the same page everywhere |
| PagingRuns.CloneViewsForever | kern/mem/paging.c:336-353 | tables present at cloning are seen equally for ever, tables absent then are never shared |
| PagingRuns.CloneSharesFourMegabytes | kern/mem/paging.c:336-353 | a page mapped after cloning is seen through the clone if its 4 MiB had a table then, and not if it had none |
| PagingRuns.MappingSeenIff | kern/mem/paging.c:129-147 | a new mapping shows through another directory iff both held the same table |
| PageRanges.LoopEndsIff | kern/mem/paging.c:238-242 | the 32-bit address loop ends iff start >= end or end <= 2^32 - 4096 + start mod 4096 |
| PageRanges.MapPagesFrames | kern/mem/paging.c:238-242 | a range mapping panics iff more visited pages lack a frame than are on the stack; else exactly those frames are popped |
| PageRanges.CoverageIff | kern/mem/paging.c:238-242 | a range loop visits all its addresses iff the start is not further into its page than the last address |
| PageRanges.MapPagesExact | kern/mem/paging.c:238-242 | unless frame 0 is taken without permission bits, exactly the visited pages become mapped and no frame is replaced |
| PageRanges.MapPagesConserves | kern/mem/paging.c:238-242 | a range mapping conserves frames iff it sets permission bits or frame 0 is not among those it pops |
| PageRanges.FillExact | kern/mem/paging.c:281-282 | the fill loop pushes every frame from the memory size down to 0 once |
| PageRanges.BootPushes | kern/mem/paging.c:278-282 | below 4 GiB it ends by wrap-around after npages + 1 pushes, all below the next aligned early block |
| PageRanges.BootIdentity | kern/mem/paging.c:287-287 | the first range mapping gives every page the frame of its own address |
| PageRanges.BootConserved | kern/mem/paging.c:281-282 | the stack the fill loop leaves holds each frame from 0 to the memory size once |
| PageRanges.BootRunConserves | kern/mem/paging.c:278-288 | from there every run conserves the frames of the machine iff its mappings fill their entries |
| Paging.Mmu.KmallocE | kern/mem/alloc.c:45-57 | the early allocator returns the aligned placement and moves past the block |
| PagingSpec.EarlyBlocksDisjoint | kern/mem/alloc.c:45-57 | two early blocks never overlap, are aligned if asked, and none is longer than asked |
| Paging.Mmu.PushPage | kern/mem/paging.c:70-73 | pushes the page-aligned address |
| Paging.Mmu.PopPage | kern/mem/paging.c:78-87 | pops the top, or reports the panic on an empty stack |
| Paging.Mmu.MapPage | kern/mem/paging.c:129-147 | computes the specified mapping, failing exactly when a frame is needed and none is left |
| Paging.Mmu.MapPages | kern/mem/paging.c:238-242 | for every range whose loop ends, the address loop computes the specified range mapping |
| Paging.Mmu.GetPage | kern/mem/paging.c:201-215 | the raw entry of an address, empty without a table |
| Paging.Mmu.ClonePageDir | kern/mem/paging.c:336-353 | the pointer-copying loop yields the specified clone |
| Paging.Mmu.FillStack | kern/mem/paging.c:281-282 | the 32-bit loop leaves exactly the specified stack |
| PageFault.Handle | kern/mem/paging.c:41-49 | a fault is refused iff no map holds the address or its page is mapped; otherwise the page is mapped, or frames are out |
| PageFault.FaultIsCured | kern/mem/paging.c:46-49 | after the mapping branch the address is mapped, present, writeable and for users |
| PageFault.HeapFaultTakesMapping | kern/mem/paging.c:46-49 | over every run of malloc and free that keeps the heap sound and below 4 GiB an unmapped heap address lies in a map, so its fault takes the mapping branch |
| RamfsSpec.HeaderOf | kern/fs/ramfs.c:68-80 | the first header with an inode |
| RamfsSpec.MakeKeepsTree | kern/fs/ramfs.c:193-252 | creating a file or directory keeps the tree: inodes in order, every non-root inode named once by a directory of smaller inode |
| RamfsSpec.MakeExact | kern/fs/ramfs.c:153-252 | a creation in a directory adds an empty file of the kind and mode under the next inode and one entry at the end; everything else stays, and in any other file it fails |
| RamfsSpec.RunKeepsTree | kern/fs/ramfs.c:153-252 | the file system is a tree after every sequence of mkdir and mknod |
| RamfsSpec.InitTree | kern/fs/ramfs.c:42-66 | the initial file system is a tree of one empty directory with all permissions |
| PathWalk.SplitJoin | kern/fs/fs.c:616-623 | the components of p/q are those of p followed by those of q |
| PathWalk.ResolveJoin | kern/fs/fs.c:585-699 | resolving p/q is resolving q from the result of p |
| PathWalk.PathIsParentName | kern/fs/fs.c:339-360 | a path resolves as the directory part mkdir cuts off followed by its last name |
| PathWalk.StepNameCases | kern/fs/fs.c:626-684 | "." stays, ".." and non-directories give -ENOTDIR, the first entry of the name is followed, a missing name gives -ENOENT |
| PathWalk.PlainPath | kern/fs/fs.c:585-699 | a path without slashes is one component from its start |
| PathWalk.WhereItStarts | kern/fs/fs.c:19-62 | a relative path is walked from the working directory, one behind a slash from the root, the empty one stays |
| PathWalk.LeadingSlashes | kern/fs/fs.c:19-62 | "/" is the root, and further leading slashes change nothing |
| PathWalk.ParentAndName | kern/fs/fs.c:339-360 | mkdir splits every path behind its last slash, a single leading slash meaning the root and none the working directory |
| Mkdir.WalkFrame | kern/fs/ramfs.c:179-185 | every walk that reached an inode before a creation reaches the same one after |
| Mkdir.MkdirFrame | kern/fs/fs.c:326-370 | mkdir keeps the tree and every resolved path, whether it succeeds or fails |
| Mkdir.MkdirOutcome | kern/fs/fs.c:326-370 | mkdir succeeds iff the path does not resolve and its directory part is a directory; otherwise nothing changes and the error is EEXIST, that of the directory part, or -1 |
| Mkdir.NewNameIsMade | kern/fs/fs.c:364-369 | a name that a directory does not hold yet is made in it |
| Mkdir.MkdirResolvesIff | kern/fs/fs.c:326-370 | after a successful mkdir the path resolves to a fresh empty directory iff its last name is not ".." |
| Mkdir.MkdirKeepsNames | kern/fs/fs.c:331-336 | from names that are unique and neither "." nor "..", mkdir keeps them so iff the last name is not ".." or the directory part is no directory |
| Mkdir.MkdirUniqueIff | kern/fs/fs.c:326-370 | mkdir keeps names unique iff it does not make a ".." in a directory that has one already |
| Mkdir.MakeUniqueIff | kern/fs/ramfs.c:153-252 | a ramfs creation keeps names unique iff the directory has no entry of the name |
| Mkdir.DotDotTwice | kern/fs/fs.c:636-638 | mkdir of ".." succeeds twice and leaves two entries of that name |
| Mkdir.MkdirRun | kern/fs/fs.c:326-370 | over every run of mkdir the file system is a tree and old resolutions stay intact |
| Mkdir.MkdirRunUniqueIff | kern/fs/fs.c:326-370 | over every run from unique names they end unique iff no directory got a second ".." |
| Mkdir.EveryInodeReachable | kern/fs/fs.c:585-699 | with good names every inode is reached from the root |
| Mkdir.ReachableIff | kern/fs/fs.c:585-699 | an inode is reached from the root iff every name on its chain is neither "." nor ".." and the first of its kind in its directory |
| Mkdir.DotDotUnreachable | kern/fs/fs.c:636-638 | the directory made by a mkdir of ".." is reached by no path from the root |
| Vfs.Ramfs.GetFileH | kern/fs/ramfs.c:68-80 | the header loop finds the first header with the inode |
| Vfs.Ramfs.Readdir | kern/fs/ramfs.c:254-281 | the entry of that index, 0 behind the last, -ENOTDIR for other files |
| Vfs.Ramfs.Make | kern/fs/ramfs.c:153-252 | appends entry and header as specified and keeps the tree |
| Vfs.Ramfs.Scan | kern/fs/fs.c:646-662 | the readdir loop finds the first entry of the name |
| Vfs.Ramfs.Follow | kern/fs/fs.c:626-684 | the branches on one component give its step of the descent or its error |
| Vfs.Ramfs.FindNode | kern/fs/fs.c:585-699 | the iterative walk ends and equals recursive descent over the components |
| Vfs.Ramfs.FindPath | kern/fs/fs.c:19-62 | leading slashes choose the root, the empty path the working directory |
| Vfs.SplitPath | kern/fs/fs.c:339-360 | the backward loop cuts the path at its last inner slash |
| Vfs.Ramfs.Mkdir | kern/fs/fs.c:326-370 | computes the specified state and result and keeps the tree |
| MailboxSpec.FreedIsCopied | kern/kern/ipc/ipc.c:39-44 | with a non-null snapshot the node freed is the node copied and the rest of the list stays |
| MailboxSpec.StepKeepsInv | kern/kern/ipc/ipc.c:23-92 | every send, snapshot and take keeps counter, order and the snapshot at the head |
| MailboxSpec.RunKeepsInv | kern/kern/ipc/ipc.c:23-92 | in all interleavings messages taken followed by messages queued are the messages sent, in order |
| MailboxSpec.RunDelivers | kern/kern/ipc/ipc.c:23-92 | from an empty box, in all interleavings, messages taken followed by messages queued are those the senders passed in |
| MailboxSpec.NullPointerIff | kern/kern/ipc/ipc.c:29-37 | the null-pointer panic happens iff the snapshot was empty and a send landed before the take |
| Mailbox.Box.SendMsg | kern/kern/ipc/ipc.c:65-92 | a copy of the message is appended behind the last node and counted, earlier messages stay |
| Mailbox.SendTo | kern/kern/ipc/ipc.c:65-92 | without a receiver the result is 1 and nothing changes, else 0 and the message is queued |
| Mailbox.Box.Append | kern/kern/ipc/ipc.c:82-85 | the walk links the new node behind the last one |
| Mailbox.Box.Snapshot | kern/kern/ipc/ipc.c:29-29 | reads the list head |
| Mailbox.Box.Take | kern/kern/ipc/ipc.c:32-52 | takes the head message, reports an empty box, or panics on a null pointer, as specified |
| SymbolsSpec.ExportRefines | kern/kern/symbols.c:49-82 | an export keeps chains distinct, congruent and counted, and changes the answer for its hash alone |
| SymbolsSpec.SymbolTableIsMap | kern/kern/symbols.c:29-99 | after any exports a lookup gives the latest address for the hash or 0 |
| SymbolsSpec.LookupByNameIff | kern/kern/symbols.c:29-82 | a lookup gives the address last exported under the name iff the last export of that hash, if any, was under this name or at that address |
| SymbolsSpec.NamesCollide | kern/kern/symbols.c:9-18 | every one-character name collides with that of the negated character |
| SymbolsSpec.HashAppend | kern/kern/symbols.c:12-15 | the hash at every length: one more character is xor-ed in with its weight and multiplied, modulo 2^32 |
| SymbolsSpec.XorBit | kern/kern/symbols.c:13-13 | the exclusive or has exactly the binary digits in which its operands differ |
| SymbolsSpec.OddLastSeparates | kern/kern/symbols.c:12-15 | names of one length with the same odd last character collide iff they collide without it |
| SymbolsSpec.DifferentHashes | kern/kern/symbols.c:29-82 | names of different hashes keep their own addresses |
| SymbolsSpec.AbAndAc | kern/kern/symbols.c:9-47 | "ab" and "ac" have the hashes 903658 and 913077 and keep their own addresses |
| SymbolsSpec.LookupFindsOtherName | kern/kern/symbols.c:29-82 | after exporting c and then its negation, a lookup of c gives the address of the other |
| Symbols.HashSymbol | kern/kern/symbols.c:9-18 | the character loop computes the 32-bit fold |
| Symbols.SymbolBin.constructor | kern/kern/symbols.c:92-99 | a new table has empty buckets |
| Symbols.SymbolBin.GetSymbol | kern/kern/symbols.c:29-47 | the chain loop computes the specified lookup |
| Symbols.SymbolBin.ExportSymbol | kern/kern/symbols.c:49-82 | computes the specified export in place |
| Numbers.Widths | kern/lib/stdio.c:155-186 | a 32-bit number has at most 10 decimal and 8 hexadecimal digits |
| Numbers.NoLeadingZero | kern/lib/stdio.c:155-186 | the digits of a positive number do not start with 0 |
| Numbers.AtoiOfPrinted | kern/lib/stdio.c:155-198 | atoi of a printed 32-bit number is that number |
| Numbers.AtoiAppend | kern/lib/stdio.c:188-198 | atoi at every length: one more character multiplies by ten and adds its digit, modulo 2^32 |
| Numbers.DecimalDigits | kern/lib/stdio.c:155-169 | printed decimal numbers consist of decimal digits |
| Numbers.HexOfDigits | kern/lib/stdio.c:171-186 | printed hexadecimal numbers consist of the digits 0-9 and a-f and have the value of the number |
| Numbers.HexOfPrinted | kern/lib/stdio.c:171-186 | the hexadecimal value of a printed number is that number |
| Numbers.FillDigits | kern/lib/stdio.c:162-165 | the digit loop fills the buffer with the digits, lowest first, inside its 16 characters |
| Numbers.Print | kern/lib/stdio.c:155-186 | print_num and print_hex emit the positional digits, at most 10 or 8, without leading zero |
| Numbers.AtoiLoop | kern/lib/stdio.c:188-198 | for every string atoi gives its positional value modulo 2^32 and ends by index wrap-around |
| Descriptors.AllGoodIffPrefix | kern/fs/fs.c:64-74 | every open descriptor is usable iff the open ones form a prefix of the table |
| Descriptors.CloseKeepsPrefixIff | kern/fs/fs.c:196-210 | closing leaves all others usable iff the highest descriptor was closed |
| Descriptors.Table.constructor | kern/kern/task/task.c:248-255 | a new task has an empty table |
| Descriptors.Table.Open | kern/fs/fs.c:167-188 | open takes the lowest free slot, fails only on a full table, and its descriptor is usable at once |
| Descriptors.Table.Close | kern/fs/fs.c:196-210 | close succeeds exactly on descriptors isgoodfd accepts |

## Assumptions

- Only the allocators write marker words, and memory past the heap end holds none when it is first
  used.  Heap positions are counted from the heap base, which for the kernel heap is a multiple of 8.
- A process image ends above address 0 (0 is the library's "no heap yet" marker), and its one map
  is the one made at creation.
- `remove_task` is used on queued tasks other than the head, as its search loop requires; `Unlink`
  states what happens to the list otherwise.  `exit_thread` and the test-and-set of `wait` are single
  steps, and a task whose flag is up only polls it, as the loop of `wait` does.  `get_tick` is a parameter and reads the same twice within one switch.
- Page tables come from the early allocator, and the kernel directory is empty before the first
  mapping (the source clears slots 1 to 1023 and relies on slot 0 being zero).  Range mappings are those
  whose loop ends (`LoopEndsIff`).
- Messages are sent with a null `next`; there is one receiver per mailbox.
- Path strings are values; the source cuts them in place.  Root and working directory are parameters.

## Left out

- Context switching, user-mode entry, TLB and descriptor-table setup, port I/O: hardware effects.
- Signals, `fork_thread`, ELF loading, drivers, consoles, shells, ext2, FAT and devfs: unfinished, I/O, or thin wrappers.
- `free_page`, `free_pages`, `pop_bottom_page`, `map_r_page`, `rmap_r_page` and `clone_table`: no live caller or no frame accounting to prove.
- Mounts and `chdir`/`chroot`: mount ids are 0 and start nodes are parameters.
- `mknod` through the virtual file system: the source goes on with an unset node after a failed lookup; the ramfs creation it calls is modelled.
- File contents, offsets, permissions, links and the names stored in ramfs headers.
- The contents of blocks: the allocators' users' data is not part of the heap state.
- Process.Task.Sbrk: the maps are a sequence, not linked nodes; what the write through a null map pointer destroys is not modelled.
- UserHeap.Allocator.FindFree: after a hit whose pointer wraps to 0, which the callers take for a miss, only the mark is promised, not where the search goes on.
- UserHeap.Allocator.Malloc: for the same reason it is not followed past such a hit; by `MallocExact` it does not serve as promised then.
- KernelHeap.KHeap.Expand: the page mapping of the new area, and its own panic for lack of frames, are not part of the heap model; `PageRanges.MapPagesFrames` says when that happens.
- KernelHeap.KHeap.FreeF: asks that the pointer's header lie on a word of the heap; other pointers would read across two words.
- KernelHeap.MallocExact: the same as `Expand`; only the retry panic is counted.
- KernelHeap.KHeap.FindFreeNode: asks for a heap root that is a multiple of 8, as `KHEAP_START` is; with others a pointer past 4 GiB could wrap to 0 and be taken for a miss.
- Scheduler.Kernel.RemoveTask: asks for a queued task other than the head, for which the search loop is written; `Unlink` says what happens to the list of a removed head.
- Scheduler.Kernel.ExitThread: the same, for the running task.
- Scheduler.Kernel.KillThread: the same, for the task with the pid.
- SchedulerRuns.StepKeepsInv: kills of the head, and of the running task by itself, are not steps of a run; after the latter the scheduler would follow the link of a node that has left the list.
- Vfs.Ramfs.Make: header and entry lists are sequences appended to, so the walks to the list end are not modelled.
- Symbols.SymbolBin.ExportSymbol: chains are sequences in their bucket, so the `next` links are not modelled.
- Paging.Mmu.KmallocE: does not model wrap-around of the placement past 4 GiB.
- RamfsSpec.MakeKeepsTree: the inode counter is unbounded.
- Scheduler.Kernel.InitTask: stack, directory, files and inherited nodes of a new task are not modelled.
- Scheduler.Kernel.CreateThread: thread ids, stacks, arguments and the copied descriptor fields are not modelled; `create_process` differs from it only there and in the map and break of `Process.Task.constructor`.
- Mailbox.SendTo: finding the receiver by pid is `Scheduler.Kernel.GetPidTask`; one mailbox is modelled at a time.
- Descriptors.Table.Open: path lookup and permission failures of `open` come before the slot choice and are not modelled.
- Documentation and code disagree in the comment on `heap_t.size`, which calls it bytes; the code counts words and the model follows the code.

# Cantos: a verified model

Cantos is a small x86 kernel for several CPUs. This project models the parts of it whose state is hard to keep right
and proves what they keep, in Dafny 4.11. `dafny verify dfyconfig.toml` checks everything.

The models come in three shapes.

* **Protocols** (`Scheduler`, `TlbShootdown`, `KernelShootdown`, `Mutex`) are state machines. A CPU's program counter is
  part of the state, every lock-protected section and every store another CPU can see is one step, and any number of
  CPUs interleave. The results hold in every state of every run. `FaultRaces` and `AppendRaces` take apart two operations
  that hold no lock, or drop it half way.
* **Allocators, page tables, objects, paths** (`Kmem`, `KmemFrees` and `KmemBounds`, `PageFrames`, `PageOwners` and
  `PageSupply`, `KernelSlots`, `PageTables`, `VirtualMemory` and `MemoryFrames`, `Filesystem`, `SharedPtr`) are functions
  on values, with an invariant and theorems over whole runs; what an operation does to its caller's view is stated there
  a second time, without the branches of the code. Beside them are classes whose methods have the loops, the recursion
  and the order of updates of the code, and are proved equal to those functions (`KmemAllocator`, `ObjectMaps`, and
  the classes inside the other modules). The free, page, slot, window and resident lists of these classes are Dafny
  sequences: their `next` pointers are not modelled, and relinking is an update of the sequence. Where the code is a few straight assignments the method reads much like its
  function: `PageFrames.PageAllocator.MergeFree`, `KernelSlots.Mapper.MergeFreeSlots`, `SharedPtr.Program.ConstructMove`
  and `Keyboard.Driver.Handle` are there so that the methods around them can use them.
* **Structures and loops** (`LinkedList`, `Stream`, `Keyboard`, `BootTables`) are classes and methods proved against a
  sequence, a numeral, a list of events, a table. `LinkedList` is the one list with real nodes and `next` pointers.

`Intervals` holds the theory shared by the three free lists: sorted ranges with a gap between neighbours, their
insertion with coalescing, and the fact that such a list is determined by the set of points it covers.

Where the code does not have a property for all inputs, the model keeps the code as it is, exhibits an input on which
the property fails, and proves the exact condition under which it holds.

* `Scheduler.ResumeRuleIsExact`: fails in `Scheduler.RacingResumePanics`.
* `Kmem.RequestFits`: fails in `KmemMishaps.RequestWraps`.
* `Kmem.GrowthLosesExactlyWhen`: fails in `KmemMishaps.LosingGrowth`, after a run of ordinary requests from boot.
* `KmemFrees.FreesCommuteExactlyWhen`: fails in `KmemMishaps.FreeOrderMatters`, from boot.
* `KmemFrees.FreeUndoesMallocExactlyWhen`: fails in `KmemMishaps.FreeLeavesNode`, from boot.
* `KernelShootdown.InstallKeepsExactlyWhen`: fails in `KernelShootdown.StaleAfterOverwrite`.
* `PageOwners.SplitOrderExactlyWhen`, `PageOwners.SplitSafeExactlyWhen`: fail in `PageOwners.EmptyRunUnsortsTheList`, a run
  from boot.
* `KernelSlots.FillIsRightExactlyWhen`, `KernelSlots.UninstallUndoesFillExactlyWhen`: fail in
  `KernelSlots.UnevenChainOverwrites` and `KernelSlots.UnevenChainStays`, a run from boot.
* `AppendRaces.ContiguousExactlyWhen`, `AppendRaces.UninstallSparesOthersExactlyWhen`: fail in
  `AppendRaces.InterruptedChain`.
* `PageTables.InsertIsFlatExactlyWhen`: fails in `PageTables.NegativeAddressLosesPages`.
* `VirtualMemory.ShownExactlyWhenNoOverflow`: fails in `MemoryMishaps.WrappingWindowStaysDark`.
* `VirtualMemory.DrainFaultsExactlyWhen`, `VirtualMemory.RemoveKeepsExactlyWhen`: fail in
  `MemoryMishaps.RemovalWithoutTable` and `MemoryMishaps.RemovalHitsNeighbour`, in reachable states.
* `VirtualMemory.RemoveObjectKeepsExactlyWhen`: fails in `MemoryMishaps.RemovalHitsStranger`, in a reachable state.
* `VirtualMemory.AddAgreesExactlyWhen`: fails in `MemoryMishaps.OverlapShowsTheWrongPage`, in a reachable state.
* `FaultRaces.RaceIsHarmlessExactlyWhen`, `FaultRaces.RaceAgreesExactlyWhen`: fail in `FaultRaces.FirstFaultsRace`, in a
  reachable state.
* `Filesystem.RepopulateKeepsExactlyWhen`: fails in `Filesystem.DotMovesUp`.
* `SharedPtr.ResetKeepsExactlyWhen`: fails in `SharedPtr.NullResetLeaks`.
* `Mutex.UnlockKeepsExactlyWhen`: fails in `Mutex.ForeignUnlock`.
* `Stream.NumberExactlyWhen`, `Stream.LongPrintsExactlyWhen`: fail in `Stream.OctalOverflows` and `Stream.LongLosesItsSign`.
* `Keyboard.NoiseMattersExactlyWhen`, `Keyboard.TwoLiteralsResynchronise`: name the states and bytes on which they fail.
* `Keyboard.SameCodeExactlyWhen`: names the two pairs of keys that print the same code.
* `BootTables.WritableExactlyFrom`: names the one page that is not writable.

Code and documentation disagree in three places, and the model follows the code. `FilePathEntry::populate` is documented to
return ENOPATHBASE when no ancestor is populated (include/fs/filesystem.hpp:178) but never does; it dereferences a null
parent. It is documented to clear the inode on every error; on ENOTDIR and ENOENT it leaves it as
it was. The comment of the boot loop calls the second range "page table", but the first page of the read/write
range, when page aligned, is mapped read-only (src/main/lomain.cpp:144).

## Model

| member | source | states |
|---|---|---|
| Scheduler.StepKeepsInv | src/task/task.cpp:150-282 | Every step of every CPU keeps the invariant: each thread in one place; ready threads not in use, map unowned; a running thread's map owned by its CPU. `resume` only on parked threads |
| Scheduler.ResumeRuleIsExact | src/task/task.cpp:321-332 | A `resume` that does something keeps the invariant if and only if the thread is parked |
| Scheduler.InvThroughout | src/task/task.cpp:150-282 | The invariant holds in every state of every run, for any number of CPUs and threads |
| Scheduler.ExactlyOnePlace | src/task/task.cpp:201-237 | In every reachable state every live thread is in exactly one place: ready, about to be pushed, on one CPU, or parked |
| Scheduler.NoPanic | src/task/task.cpp:244-247 | The panics "Found an in use thread" and "already owned by another CPU" are unreachable |
| Scheduler.EndedStaysEnded | src/task/task.cpp:140-147 | A thread that has ended is never again in the ready list or on a CPU |
| Scheduler.KeepsItsTurn | src/task/task.cpp:235-237 | Whatever is queued meanwhile, a thread with k threads ahead has k minus the number of dequeues since ahead of it |
| Scheduler.PickedInTurn | src/task/task.cpp:235-237 | Bounded waiting: it is picked by exactly the (k+1)-th later dequeue |
| Scheduler.RacingResumePanics | src/task/task.cpp:162-167 | A run of ten steps on two CPUs in which `resume` between naming the channel and yielding ends in the in-use panic |
| Scheduler.WchanChanges | src/task/task.cpp:162-167 | A thread's channel changes only when it names one itself or is resumed, and to what that says |
| Scheduler.YieldGoesOn | src/task/task.cpp:194-207 | When a CPU has put a yielding thread down, that thread is at the front of the ready list if it named no channel, and otherwise asleep on its channel with the list unchanged |
| Scheduler.ParkedStays | src/task/task.cpp:201-207 | A thread asleep stays asleep on the same channel through any run in which it is not resumed |
| Scheduler.ResumedIsQueued | src/task/task.cpp:321-332 | Resuming a sleeping thread puts it on its way to the ready list, on no channel |
| Scheduler.YielderRunsAgain | src/task/task.cpp:201-237 | A thread that yields without a channel, with k threads ready, is picked by exactly the (k+1)-th dequeue after that |
| Scheduler.PlaceMoves | src/task/task.cpp:150-282 | Where a thread goes: from pending to the front of the list when it is pushed, from the back to the CPU that dequeues it, through that CPU's stages in order; otherwise it stays |
| Scheduler.UseChanges | src/task/task.cpp:181-282 | In use from claim to release, map owned from enter to exit, ended by `end`, by the CPU that has the thread and by nobody else |
| Scheduler.ThreadsAppear | src/task/task.cpp:59-68 | Threads come into being by `new_thread` alone, on no channel, not in use, about to be queued |
| Scheduler.CpusMoveAlone | src/task/task.cpp:150-282 | No step changes what another CPU is doing |
| Scheduler.NothingGetsStuck | src/task/task.cpp:150-282 | In every reachable state a CPU with a thread in its hands can take its next step, and an idle CPU can take a thread exactly when one is ready |
| TlbShootdown.CoherenceIsStable | src/mem/vm.cpp:184-213 | Once no CPU holds a translation older than a given write, no step by anyone changes that |
| TlbShootdown.OwnerFlushed | src/mem/vm.cpp:201-213 | When the owner of a map has dropped an address, no CPU holds an old translation of it |
| TlbShootdown.StepKeepsInv | src/int/lapic.cpp:194-232 | Every step keeps the mailbox and ownership invariant |
| TlbShootdown.InvThroughout | src/int/lapic.cpp:194-232 | It holds in every state of every run |
| TlbShootdown.ShootdownComplete | src/mem/vm.cpp:103-105 | After the invalidation that follows a table write has returned, and for ever after, every cached translation of that address was read at or after the write, however CPUs entered and left the map |
| TlbShootdown.OperationKeepsItsWrite | src/mem/vm.cpp:132-133 | An operation stands for the write that started it, throughout the run |
| TlbShootdown.SendReturnsAfterExecution | src/int/lapic.cpp:194-203 | From the call `send_command(target, what)` to its return, in every run, exactly one command was executed, on that target and for that address, between the posting of the argument and the return |
| TlbShootdown.CallCarries | src/int/lapic.cpp:194-203 | While a call of `send_command` lasts it is for the CPU and the address it was called with |
| TlbShootdown.DecideCarries | src/mem/vm.cpp:201-213 | A remote invalidation is for the CPU that owned the map when it looked, and for the address that was written |
| TlbShootdown.InvalidationReturnsAfterExecution | src/mem/vm.cpp:201-213 | When it returns, that CPU has executed exactly one command since, for that address |
| TlbShootdown.DecideAsks | src/mem/vm.cpp:204-210 | Another CPU is asked if and only if the map is in use on another CPU; on one's own the address is dropped at once |
| TlbShootdown.TranslationComes | src/mem/vm.cpp:184-192 | A CPU comes to hold a translation only by reading the tables of the map it is in, and reads the current entry |
| TlbShootdown.TranslationGoes | src/mem/vm.cpp:184-213 | It loses exactly that translation on eviction, its own invalidation or a command for that address, and all of them on entering or leaving a map; never otherwise |
| TlbShootdown.EntriesChange | src/mem/vm.cpp:85-133 | An entry changes only by a write to it, and each write starts one operation |
| TlbShootdown.OwnersChange | src/mem/vm.cpp:184-199 | Which map a CPU is in, and which maps are in use, change only by entering and leaving |
| TlbShootdown.PhasesMove | src/mem/vm.cpp:201-213 | The phases of an invalidation follow each other as in the code, each by its own step |
| TlbShootdown.NothingGetsStuck | src/int/lapic.cpp:194-232 | In every reachable state a call of `send_command` can take its next step or its target can take one of the handler's; the holder of the map's mutex can go on or waits for such a call |
| TlbShootdown.PostSurvives | src/int/lapic.cpp:194-232 | No pending post is overwritten by any step of any CPU; the unknown-command panic is unreachable |
| KernelShootdown.StepKeepsInv | src/mem/page.cpp:31-34 | Every step of every CPU but a careless store keeps: a kernel translation a CPU holds is the one in the table, or belongs to the page being uninstalled and that CPU is still to be told |
| KernelShootdown.InstallKeepsExactlyWhen | src/mem/page.cpp:333-340 | `kinstall` tells nobody about the pages it maps: its store keeps that if and only if it does not put another frame over an entry that some CPU has cached |
| KernelShootdown.StaleAfterOverwrite | src/mem/page.cpp:333-340 | A page installed and read, and then another frame stored over it: the CPU goes on using the old frame |
| KernelShootdown.InvThroughout | src/mem/page.cpp:31-34 | It holds in every state of every run without such a store |
| KernelShootdown.KernelCachesAreCurrent | src/mem/page.cpp:314-343 | In every such run, unless the page is being uninstalled at that moment, a kernel translation any CPU holds is the one in the table; so filling a hole with a chain that fits it needs no invalidation, and the physical address `kinstall` does invalidate (line 336) does no harm |
| KernelShootdown.UninstalledEverywhere | src/int/lapic.cpp:205-216 | When the broadcast invalidation of `kuninstall` returns, no CPU holds a translation of the page |
| KernelShootdown.EntryChanges | src/mem/page.cpp:333-403 | A table entry is what was last stored there until it is cleared |
| KernelShootdown.TranslationComes | src/mem/page.cpp:31-34 | A CPU comes to hold a kernel translation only by reading the tables, and it is the current one |
| KernelShootdown.TranslationGoes | src/mem/page.cpp:31-34 | It loses one if and only if it drops it, loads CR3, or serves the broadcast for that page |
| KernelShootdown.BroadcastGoesRound | src/int/lapic.cpp:205-216 | A broadcast starts out for every CPU, each leaves it by serving it, and it ends only when none is left |
| Mutex.TryLockKeeps | src/structures/mutex.cpp:44-54 | The exchange succeeds exactly when nobody is inside |
| Mutex.UnlockKeepsExactlyWhen | src/structures/mutex.cpp:56-60 | `unlock` keeps exclusion if and only if the caller is inside or nobody is |
| Mutex.ForeignUnlock | src/structures/mutex.cpp:56-60 | An unlock by a CPU that is not inside lets a second CPU in |
| Mutex.MutualExclusion | src/structures/mutex.cpp:17-60 | In every run the CPU let in is the only one inside until it unlocks, and every attempt meanwhile fails |
| Mutex.Lock.TryLock | src/structures/mutex.cpp:44-54 | The flag is set; success exactly when it was clear |
| Kmem.RequestFits | src/mem/kmem.cpp:225-233 | The 32-bit size arithmetic of a request is right if and only if the size is at most 0xFFFFFFF4 |
| KmemMishaps.RequestWraps | src/mem/kmem.cpp:225-233 | A request three bytes short of 4 GiB looks for 28 bytes |
| Kmem.GrantKeeps | src/mem/kmem.cpp:242-291 | Cutting a block off a free region keeps all heap invariants |
| Kmem.GrowKeeps | src/mem/kmem.cpp:294-334 | Growth keeps them, whichever way the new pages are attached. Growth that meets pages in several runs waits for its own mutex (src/mem/page.cpp:284), and growth without room for a page struct calls itself without end; these are the outcomes `Stuck` and `NoReserve` of `Allocate` |
| Kmem.AllocateKeeps | src/mem/kmem.cpp:210-339 | A successful allocation hands out a new, aligned, large enough block and moves nothing else |
| Kmem.MallocGrants | src/mem/kmem.cpp:210-339 | What a caller gets: payload 4-aligned, at least the requested size, disjoint from every live block and all free memory |
| KmemBounds.RequestIsLeast | src/mem/kmem.cpp:225-233 | What is looked for is a header and the least number of whole words that holds the request and a page struct |
| KmemBounds.ReserveIsLeft | src/mem/kmem.cpp:235-290 | Whatever growth it took, a granted block has the size needed and at most a header more, and after an ordinary request `memory_used` leaves two pages of `memory_total`, but for a header |
| KmemBounds.GrowsExactlyWhen | src/mem/kmem.cpp:235-308 | A granted request took pages if and only if no free region was large enough, or it was an ordinary one that would not have left two pages |
| KmemBounds.ServedWithoutGrowth | src/mem/kmem.cpp:235-290 | A request for which there is room, the reserve left out or allowed, is granted and takes no pages |
| KmemBounds.BlockIsLowestFit | src/mem/kmem.cpp:242-290 | Its block is the front of the lowest region large enough, and all of that region if no more than a header would be left |
| KmemBounds.NoSliversThroughout | src/mem/kmem.cpp:245-290 | From boot, after any run, every free region is larger than a header |
| KmemBounds.GrowthIsBounded | src/mem/kmem.cpp:294-309 | Growth adds whole pages, two at least: two pages more than the request, a page struct and a node take besides what the last region contributes, rounded down to whole pages |
| KmemBounds.GrowthJoinsExactlyWhen | src/mem/kmem.cpp:311-334 | New pages get a region of their own if and only if the search did not end at a last region that reaches them |
| KmemBounds.GrowthFrees | src/mem/kmem.cpp:306-334 | Which bytes are free after growth: those that were, less the page struct, and those of the new pages, less the node if they need one, or none if they are lost |
| Kmem.FreeKeeps | src/mem/kmem.cpp:380-437 | Freeing keeps the invariants, whether or not a list node had to be allocated first |
| Kmem.FreeListIsCanonical | src/mem/kmem.cpp:125-137 | Heaps with the same free bytes have the same free list |
| Kmem.FreeOrderIrrelevant | src/mem/kmem.cpp:372-437 | Freeing the same blocks in any two orders in which every free finds a spare list node gives the same free list, blocks and count |
| Kmem.EnoughSpares | src/mem/kmem.cpp:357-369 | As many spare nodes as blocks to free are enough for that; merges hand nodes back, so fewer can do |
| KmemFrees.FreesCommuteExactlyWhen | src/mem/kmem.cpp:357-437 | Two frees that need no growth leave the same free list, blocks and count in either order if and only if, once the first has its node, another node is spare, or both blocks touch free memory, or neither does and the first fit for a node lies below both blocks, unless they are too small for one |
| KmemMishaps.FreeOrderMatters | src/mem/kmem.cpp:357-437 | Four blocks of 20 bytes from boot: freeing the first and then the third leaves another free list than freeing them the other way round |
| Kmem.RoundTrip | src/mem/kmem.cpp:242-291 | Cutting a block and freeing it restores regions, blocks, nodes and counters |
| Kmem.FreeUndoesMalloc | src/mem/kmem.cpp:403-436 | `kfree(kmalloc(n))` without growth, with a node spare before or a whole region used up, restores regions, blocks, nodes and counters |
| KmemFrees.FreeUndoesMallocExactlyWhen | src/mem/kmem.cpp:210-437 | `kfree(kmalloc(n))`, when both return, restores the free regions and `memory_used` if and only if there was no growth, and a node was spare before or a whole region was used up |
| KmemMishaps.FreeLeavesNode | src/mem/kmem.cpp:357-437 | From boot, one allocation and its free do not restore the heap: the node made for the free is still in use |
| Kmem.GrowthLosesExactlyWhen | src/mem/kmem.cpp:295-313 | Growth adds pages that no list describes if and only if the page struct uses up the very region that was to be lengthened |
| Kmem.TwoRunsSuffice | src/mem/kmem.cpp:338-338 | The retry after growth needs at most one more growth, for every request for which the 32-bit sum that computes the number of pages does not wrap |
| KmemMishaps.LosingGrowth | src/mem/kmem.cpp:307-313 | From boot at any base, a sequence of ordinary requests, node requests and frees after which a request for 32 bytes grows the heap by two pages that no list describes |
| Kmem.InitialValid | src/mem/kmem.cpp:163-196 | The heap `init` lays out satisfies the invariants |
| Kmem.AfterKeeps | src/mem/kmem.cpp:210-437 | Any sequence of allocations and frees keeps them |
| Kmem.HeapAlwaysConsistent | src/mem/kmem.cpp:210-437 | From boot on: free list sorted with strict gaps; blocks disjoint from each other and from free memory; no node on both lists; `memory_used` is the sum of live blocks with headers; `memory_used` plus free plus growth overhead plus lost is `memory_total` |
| KmemAllocator.Allocator.constructor | src/mem/kmem.cpp:163-196 | Sets up exactly the initial heap, `free_end` at its only node |
| KmemAllocator.Allocator.Take | src/mem/kmem.cpp:243-290 | The relinking that uses up or shrinks a region is `Grant`, with `free_end` still the last node |
| KmemAllocator.Allocator.Search | src/mem/kmem.cpp:242-243 | The search loop finds the first region that fits |
| KmemAllocator.Allocator.Extend | src/mem/kmem.cpp:294-334 | The growth code is `Grow` |
| KmemAllocator.Allocator.Obtain | src/mem/kmem.cpp:235-339 | `do_kmalloc` after rounding, with its retry, is `Allocate` |
| KmemAllocator.Allocator.Kmalloc | src/mem/kmem.cpp:210-354 | `kmalloc` keeps the heap valid and is `Allocate`; size 0 gives null |
| KmemAllocator.Allocator.MergeFree | src/mem/kmem.cpp:125-137 | Merges with the next node exactly when they touch, keeps the node for reuse, keeps `free_end` |
| KmemAllocator.Allocator.LinkIn | src/mem/kmem.cpp:406-433 | The walk, link and two merges of `kfree` are insertion into the canonical list |
| KmemAllocator.Allocator.GetStruct | src/mem/kmem.cpp:357-369 | A spare node, or a new one from the reserve |
| KmemAllocator.Allocator.Kfree | src/mem/kmem.cpp:372-437 | `kfree` keeps the heap valid and is `Free`; null is ignored |
| PageFrames.TakeRunProgress | src/mem/page.cpp:183-207 | Each run taken shrinks the request, the free list or the memory map, which is why `alloc` terminates |
| PageFrames.SplitCutsPages | src/mem/page.cpp:416-426 | `split(n)` cuts the page sequence of a chain into its first n pages and the rest |
| PageOwners.AllocTotal | src/mem/page.cpp:168-215 | `alloc` returns a chain of exactly the bytes asked for, in whole pages |
| PageOwners.AllocCount | src/mem/page.cpp:168-215 | Every byte of the chain comes out of the free list or out of untouched memory: no byte is in chain, free list and untouched memory together more often than it was in the last two before |
| PageOwners.InsertCount | src/mem/page.cpp:232-242 | Freeing a run adds exactly its bytes to the free list, in whatever order that list is |
| PageOwners.FreeChainCount | src/mem/page.cpp:218-245 | So does freeing a chain |
| PageOwners.SplitCount | src/mem/page.cpp:416-426 | Wherever it cuts, `split` gives no byte a second owner and takes none away |
| PageOwners.DoOwners | src/mem/page.cpp:168-245 | No operation raises the number of owners of any byte |
| PageOwners.NoPageHasTwoOwners | src/mem/page.cpp:168-245 | After any sequence of alloc, free and split, wherever the splits cut, no byte of physical memory is both free and in use, in use twice, or free twice |
| PageOwners.BootIsOrderly | src/mem/page.cpp:79-117 | The allocator starts with no byte owned twice and an ordered free list |
| PageOwners.SafeKeepsOrder | src/mem/page.cpp:168-245 | Every operation, a split only if it cuts inside a run or where the byte is neither free, in use, nor still to be handed out, keeps the free list sorted and coalesced and empty runs out of the way |
| PageOwners.SortedThroughout | src/mem/page.cpp:168-245 | Over every run of such operations the free list is sorted and coalesced |
| PageOwners.SplitOrderExactlyWhen | src/mem/page.cpp:416-426 | For frees alone: after a split every order of freeing what is held leaves the list sorted and coalesced if and only if the cut is inside a run, or its byte is neither free nor in use |
| PageOwners.SplitSafeExactlyWhen | src/mem/page.cpp:416-426 | After a split everything that can be allocated and freed later leaves the list sorted and coalesced if and only if the cut is inside a run, or its byte is neither free, in use, nor in a page that `alloc` can still reach |
| PageOwners.AllocatableCutUnsorts | src/mem/page.cpp:416-426 | A cut at the edge of a run where the byte can still be handed out: some allocation and some order of freeing leave the list out of order |
| PageOwners.TakeRunStill | src/mem/page.cpp:119-165 | Every run taken comes exactly out of the free list and of the pages that `alloc` can still reach; unusable regions, remainders below a page and the end of the last region are never handed out |
| PageOwners.Reach | src/mem/page.cpp:168-215 | Every byte of those pages is handed out by some request |
| PageOwners.OnlyUsableMemory | src/mem/page.cpp:137-154 | From boot, after any run, what is free or in use lies in the region the allocator started in or in a usable region below 4 GiB |
| PageOwners.FreedIsReusedFirst | src/mem/page.cpp:183-198 | As long as the free list is enough no new memory is touched, and the lowest free bytes are handed out |
| PageSupply.MovesExactlyWhen | src/mem/page.cpp:140-153 | A region follows the current one if and only if there is a usable one later in the table and the first such is addressable; then it is that one |
| PageSupply.RunsOutExactlyWhen | src/mem/page.cpp:129-154 | The panics: nothing is free, the request reaches the end of the region, and no region follows |
| PageSupply.AllocSucceedsExactlyWhen | src/mem/page.cpp:119-215 | A request is met if and only if that many bytes of whole pages are left in the list and the reachable regions together; then there are exactly that many fewer |
| PageSupply.NothingIsLost | src/mem/page.cpp:119-246 | Allocations, frees and splits, in any order: what is left and what is in use add up to the same |
| PageSupply.MetExactlyWhen | src/mem/page.cpp:119-246 | So after any run from an empty set of chains a request is met if and only if it and what is in use fit in what there was at first |
| PageOwners.EmptyRunUnsortsTheList | src/mem/page.cpp:232-242 | A run from boot: allocate a page, split it after its only page, allocate the next, free the empty rest and that page; the free list is out of order |
| PageFrames.PageAllocator.NextRegion | src/mem/page.cpp:144-152 | The step to the next usable region, and its two panics |
| PageFrames.PageAllocator.AllocNoKmalloc | src/mem/page.cpp:119-165 | Bumps the pointer, cutting the request to the current region |
| PageFrames.PageAllocator.Allocate | src/mem/page.cpp:168-215 | The recursive code is `Alloc` |
| PageFrames.PageAllocator.MergeFree | src/mem/page.cpp:57-65 | Merges with the next run exactly when they touch |
| PageFrames.PageAllocator.Free | src/mem/page.cpp:218-245 | The recursive code is `FreeChain` |
| PageFrames.PageAllocator.Count | src/mem/page.cpp:406-413 | The sum over the chain |
| KernelSlots.InstallKeeps | src/mem/page.cpp:295-351 | Installing a chain, a chain of runs of one length if it goes into a hole, maps every run where nothing was, behind the one before, and disturbs no other install |
| KernelSlots.HolesAreReused | src/mem/page.cpp:311-345 | If a hole is large enough the first such hole is used, and `virtual_pointer` stays |
| KernelSlots.ElseAppended | src/mem/page.cpp:311-351 | If none is, the chain goes to the end and the holes stay |
| KernelSlots.AppendFitsExactlyWhen | src/mem/page.cpp:261-292 | Appending a chain succeeds if and only if it ends by the last page of the address space, and takes exactly its pages |
| KernelSlots.FillIsRightExactlyWhen | src/mem/page.cpp:333-340 | The two loops that fill a hole give every run its own place, whatever the table, if and only if all runs are as long as the first: the inner loop is bounded by the length of the first run |
| KernelSlots.UnevenChainOverwrites | src/mem/page.cpp:333-340 | A run from boot: two pages and one page into a hole of three store four entries, and the fourth replaces the mapping of the page installed behind the hole |
| KernelSlots.UninstallKeeps | src/mem/page.cpp:354-399 | Uninstalling a run leaves exactly that hole, coalesced |
| KernelSlots.AppendChainKeeps | src/mem/page.cpp:261-292 | A chain installed at the end, its runs in turn, has every run behind the one before it, mapped to its own frames, and disturbs nothing |
| KernelSlots.UninstallChainKeeps | src/mem/page.cpp:354-403 | Uninstalling a chain takes away exactly its runs and leaves exactly their holes |
| KernelSlots.UninstallUndoesFill | src/mem/page.cpp:314-403 | Uninstalling a chain of runs of one length that was put in a hole restores holes and table exactly |
| KernelSlots.UninstallUndoesFillExactlyWhen | src/mem/page.cpp:314-403 | For any chain put in a hole, uninstalling it restores the holes, and restores the table if and only if what the filling loop stored beyond the pages of the chain was there before |
| KernelSlots.UnevenChainStays | src/mem/page.cpp:333-403 | Uninstalling the uneven chain of the run from boot does not bring the neighbour's entry back |
| KernelSlots.ConsistentAfter | src/mem/page.cpp:261-403 | Any sequence of appends, installs and uninstalls of chains keeps the invariant, uneven chains in holes excepted |
| KernelSlots.HolesAreExactlyTheGaps | src/mem/page.cpp:261-403 | Between the initial end and `virtual_pointer` a page has an entry exactly when it is in no empty slot; slots sorted, disjoint, coalesced; live installs disjoint and mapped to their own frames |
| KernelSlots.Mapper.KinstallAppend | src/mem/page.cpp:261-292 | The recursive code over a chain of any number of runs, with nobody between them, is `AppendChain`, with its out-of-space panic and its null result for an empty first run |
| KernelSlots.Mapper.Kinstall | src/mem/page.cpp:295-351 | For any chain: first fitting hole, whole or cut, filled by the two loops as they stand, else append |
| KernelSlots.Mapper.FillEntries | src/mem/page.cpp:333-340 | The two loops lay the chain as if every run were as long as the first |
| KernelSlots.Mapper.Count | src/mem/page.cpp:406-413 | The number of pages of a chain |
| KernelSlots.Mapper.MergeFreeSlots | src/mem/page.cpp:68-76 | Merges with the next slot exactly when they touch |
| KernelSlots.Mapper.UninstallRun | src/mem/page.cpp:354-399 | The walk, link, clearing loop and merges for one run are `Uninstall` |
| KernelSlots.Mapper.Kuninstall | src/mem/page.cpp:354-403 | The recursive code over a chain of any number of runs is `UninstallChain` |
| AppendRaces.ContiguousExactlyWhen | src/mem/page.cpp:281-285 | The mutex is dropped after each run: a chain lands in one piece if and only if no run of another chain comes between two of its runs |
| AppendRaces.UninstallSparesOthersExactlyWhen | src/mem/page.cpp:354-403 | `kuninstall` of the chain from where its first run landed leaves every page of the others mapped if and only if nobody came between its runs |
| AppendRaces.InterruptedChain | src/mem/page.cpp:281-285 | Two runs with one of another chain between them: uninstalling the two unmaps that one |
| BootTables.BuildTables | src/main/lomain.cpp:130-161 | The loop with moving pointers fills directory and tables with exactly these entries, wherever the tables lie |
| BootTables.FillTable | src/main/lomain.cpp:141-155 | The inner loop fills one table |
| BootTables.FlatIsWalk | src/mem/page.cpp:330-331 | For every kernel address the flat index used by the slot allocator and the processor's two-level walk reach the same entry |
| BootTables.CursorIsFlat | src/mem/page.cpp:90-96 | The cursor computed by `page::init`, with its scaled pointer addition, names that entry too |
| BootTables.BootMapsTheImage | src/main/lomain.cpp:142-155 | A kernel page is mapped at boot exactly when it is in the image, the tables, or the page after either; always to its own address less the base |
| BootTables.WritableExactlyFrom | src/main/lomain.cpp:144-149 | The read/write area is writable exactly from one page after the read-only end |
| PageTables.InsertedIsFlat | src/mem/vm.cpp:85-118 | Page i of any chain lands at address + i pages exactly when that is in [min, max); every other translation is unchanged, new second-level tables included |
| PageTables.InsertIsFlatExactlyWhen | src/mem/vm.cpp:90-92 | `insert` is that flat update on all tables if and only if the address is not negative or no page of the chain lands in the window |
| PageTables.NegativeAddressLosesPages | src/mem/vm.cpp:90-92 | A chain at a negative address whose second page is in the window and is not mapped |
| PageTables.Clear | src/mem/vm.cpp:121-137 | Clearing goes through if and only if the page is below zero or in one of the 768 slots with a table there; then exactly that entry is gone. Otherwise it is a store through a table that does not exist |
| VirtualMemory.ShownExactlyWhenNoOverflow | src/mem/object.cpp:214-214 | A new page inside a window is mapped if and only if the 32-bit sum of window base and object offset does not wrap |
| VirtualMemory.GenerateShows | src/mem/object.cpp:212-215 | The new page appears in every window on it in every address space, and nothing else changes |
| VirtualMemory.GenerateKeeps | src/mem/object.cpp:170-216 | `generate` keeps tables and objects in agreement |
| FaultRaces.RaceIsHarmlessExactlyWhen | src/mem/object.cpp:186-209 | `generate` takes no lock: two CPUs that have both searched before either links its page leave the list that two calls in turn would if and only if the pages belong in different places of it; otherwise the page linked first is lost |
| FaultRaces.RaceAgreesExactlyWhen | src/mem/object.cpp:186-215 | After such a race tables and list agree if and only if the places differ, or the pages are the same and the CPU that linked last updated the tables last |
| FaultRaces.FirstFaultsRace | src/mem/object.cpp:186-215 | A reachable state, an object with nothing resident, where two first faults at once leave a page mapped that the object does not have |
| VirtualMemory.AddKeeps | src/mem/object.cpp:218-228 | So does `add_object` of a window clear of the others, which fills in the pages already resident |
| VirtualMemory.AddAgreesExactlyWhen | src/mem/object.cpp:218-228 | `add_object` does not look for other windows: it keeps agreement if and only if wherever the new window lies over another one both show the same |
| MemoryMishaps.OverlapShowsTheWrongPage | src/mem/object.cpp:218-228 | A reachable state where a window laid over another one shows a page of the other |
| VirtualMemory.FaultMapsExactlyOnePage | src/mem/vm.cpp:140-154 | A fault on an unmapped page of a window below the object's limit maps it, adds exactly that page, which was not resident, changes no other, and keeps the list sorted and bounded |
| VirtualMemory.FaultElsewhereChangesNothing | src/mem/vm.cpp:140-154 | The result is false exactly when there is no window; a fault on a mapped page or beyond the limit changes nothing |
| VirtualMemory.DrainFaultsExactlyWhen | src/mem/object.cpp:234-236 | The clearing loop of a removal goes through if and only if every resident page, where the window puts it, is below zero or has a table |
| VirtualMemory.DrainAllFaultsExactlyWhen | src/mem/vm.cpp:163-171 | The same for all windows of an object in a map |
| VirtualMemory.RemoveKeepsExactlyWhen | src/mem/object.cpp:230-239 | Removing a window goes through and keeps agreement if and only if every resident page of the object is cleared in a table that exists and none outside the window is cleared over a mapping |
| VirtualMemory.WholeWindowRemoves | src/mem/object.cpp:230-239 | A window that covers all resident pages can always be removed, and every page cleared has its table |
| VirtualMemory.RemoveObjectKeepsExactlyWhen | src/mem/vm.cpp:163-171 | Removing an object from a map goes through and keeps agreement if and only if every page it clears has a table and none is mapped by another object |
| MemoryMishaps.RemovalWithoutTable | src/mem/vm.cpp:128-133 | A reachable state, one window and one page generated far beyond it, where removing the window stores through a table that was never made |
| MemoryMishaps.RemovalHitsNeighbour | src/mem/object.cpp:234-236 | A reachable state of two windows side by side on one object where removing one unmaps the page of the other |
| MemoryMishaps.RemovalHitsStranger | src/mem/vm.cpp:163-171 | A reachable state where removing an object unmaps a page of another object |
| MemoryMishaps.WrappingWindowStaysDark | src/mem/object.cpp:214-214 | A window at 2 GiB on the page at 2 GiB, added to an empty map: the first fault makes the page resident and does not map it, and every later fault reports success and changes nothing |
| VirtualMemory.InvThroughout | src/mem/object.cpp:170-239 | The invariant holds in every state of every run of new objects, new maps, add, generate, fault, and removals that meet the conditions above |
| VirtualMemory.TablesAgreeWithObjects | src/mem/object.cpp:170-228 | In every state of every run and every window, the two-level table names a frame at a page exactly when the object has that page resident in that frame |
| MemoryFrames.GenerateFrame | src/mem/object.cpp:170-216 | `generate` makes exactly the page asked for resident, where there was none, and leaves every other page, object, limit and window alone |
| MemoryFrames.AddFrame | src/mem/vm.cpp:157-161 | Adding a window puts it at the front of its two lists and keeps every page, limit, other object and other space |
| MemoryFrames.RemoveFrame | src/mem/vm.cpp:173-182 | Removing one keeps every page, limit, other object and other space, and the other windows in their order |
| MemoryFrames.RemoveObjectFrame | src/mem/vm.cpp:163-171 | Removing an object from a space keeps its resident pages and everything else; its windows on that space are gone, the others are there in their order |
| MemoryFrames.PageStays | src/mem/object.cpp:170-239 | A resident page stays resident in its frame through every operation of every run |
| MemoryFrames.PageAppears | src/mem/object.cpp:170-216 | A page becomes resident only when it is asked for, in the frame generated then |
| MemoryFrames.NewAreEmpty | src/mem/object.cpp:17-19 | Objects and spaces come into being empty, only by their own operations, and last |
| MemoryFrames.WindowsChange | src/mem/vm.cpp:157-182 | A window is listed in its space from when it is added until it or its object is removed from it |
| ObjectMaps.Memory.EnsureTable | src/mem/vm.cpp:64-82 | `_new_table` adds an empty table only where there is none |
| ObjectMaps.Memory.InsertChain | src/mem/vm.cpp:85-118 | The recursive loop over a chain is `PageTables.Insert` |
| ObjectMaps.Memory.GeneratePage | src/mem/object.cpp:170-216 | The search, clipping, splice and table loop for one page are `VirtualMemory.Generate` |
| ObjectMaps.Memory.AddWindow | src/mem/vm.cpp:157-161 | `add_object` and `add_object_in_map` are `VirtualMemory.AddObject` |
| ObjectMaps.Memory.ResolveFault | src/mem/vm.cpp:140-154 | The byte arithmetic, the offset cut to 32 bits included, and the loop over windows are `VirtualMemory.ResolveFault` |
| ObjectMaps.Memory.ClearResident | src/mem/object.cpp:230-236 | The clearing loop, page by page, is `VirtualMemory.Drain`; it stops where the store has no table |
| ObjectMaps.Memory.RemoveAt | src/mem/vm.cpp:173-182 | `remove_object_at` removes the first window of the object at that base, or nothing; or it stops at such a store |
| ObjectMaps.Memory.RemoveAll | src/mem/vm.cpp:163-171 | `remove_object` is `VirtualMemory.RemoveObject`, that store included |
| Filesystem.ComponentsJoin | src/fs/filesystem.cpp:109-131 | The components of p + "/" + q are those of p followed by those of q |
| Filesystem.ComponentsAreNames | src/fs/filesystem.cpp:117-119 | Components are non-empty and slash-free |
| Filesystem.SplitUndoesJoin | src/fs/filesystem.cpp:109-131 | Any list of names, joined with slashes, is parsed back unchanged |
| Filesystem.ParseComposes | src/fs/filesystem.cpp:109-131 | Parsing p + "/" + q from a base is parsing q from the result of parsing p |
| Filesystem.FindChar | src/structures/utf8.cpp:124-132 | The first occurrence from a position, terminator included, or none |
| Filesystem.Substr | src/structures/utf8.cpp:48-63 | The slice, cut to the end of the string |
| Filesystem.ParsePath | src/fs/filesystem.cpp:109-131 | The loop returns the base chain followed by one fresh entry per component |
| Filesystem.InodeIsTop | src/fs/filesystem.cpp:73-79 | `get_inode` gives the top of the stack an entry stands for |
| Filesystem.ParentPops | src/fs/filesystem.cpp:85-93 | `logical_parent` gives an entry whose stack is popped by one, except at the root |
| Filesystem.FindIsFirst | src/fs/filesystem.cpp:56-68 | The lookup gives inode n if and only if n is the first child of that name, and nothing if and only if no child has it |
| Filesystem.StepLeads | src/fs/filesystem.cpp:38-68 | A step of the walk ends where the name leads: itself for ".", one up for "..", else the first child of that name, readable, of a readable directory |
| Filesystem.StepFails | src/fs/filesystem.cpp:48-70 | It fails with ENOTDIR, ENOENT or a failed read if and only if the place is no directory, no child has the name, or the first that has it cannot be read |
| Filesystem.WalkLeads | src/fs/filesystem.cpp:25-71 | The walk ends at a stack if and only if the names lead there one after the other |
| Filesystem.UpUndoesDown | src/fs/filesystem.cpp:38-68 | Down by a name and up by ".." is where one was |
| Filesystem.PopulateFollowsWalk | src/fs/filesystem.cpp:25-71 | Populating the next entry extends the chain as the stack walk does, or fails with the walk's error blamed on the same entry |
| Filesystem.Path.ChildNamed | src/fs/filesystem.cpp:56-58 | The loop finds the first child of that name, or there is none |
| Filesystem.RepopulateKeepsExactlyWhen | src/fs/filesystem.cpp:25-46 | Populating an entry again keeps its meaning if and only if it is neither "." nor "..", or is at the root |
| Filesystem.DotMovesUp | src/fs/filesystem.cpp:25-46 | The path "a/.", populated once, is the directory a; populated again it is the root |
| Filesystem.ParsedStaysSound | src/fs/filesystem.cpp:109-131 | Parsing below a populated base leaves it populated and meaning the same |
| Filesystem.WalkStaysReadable | src/fs/filesystem.cpp:56-68 | When the root can be read, a walk only stands on inodes that can be read, although directories may list others |
| Filesystem.Path.Attach | src/fs/filesystem.cpp:38-70 | The part of `populate` after the parent's |
| Filesystem.Path.Populate | src/fs/filesystem.cpp:25-71 | On a chain populated up to any point, over any directories: the same inode, ENOTDIR, ENOENT or failed read as the stack walk, the same blamed entry; names and root untouched, and what was populated means the same |
| Filesystem.Path.PopulateUnrooted | src/fs/filesystem.cpp:25-36 | On a chain of which nothing is populated, the climb ends in the null parent of entry 0 |
| Filesystem.Path.Resolve | src/fs/filesystem.cpp:25-131 | Parsing and populating any path below a populated root gives inode n if and only if the components of the path lead from the root to n, and succeeds if and only if they lead anywhere; otherwise it gives the walk's error |
| LinkedList.WithoutCounts | include/structures/list.tpp:126-149 | Filtering loses exactly the occurrences of the value |
| LinkedList.List.PushFront | include/structures/list.tpp:10-34 | Prepends one element; head, links, tail and count agree |
| LinkedList.List.PushBack | include/structures/list.tpp:65-89 | Appends one element |
| LinkedList.List.PopFront | include/structures/list.tpp:36-49 | Drops the first element, or panics on an empty list |
| LinkedList.List.PopBack | include/structures/list.tpp:91-110 | Drops the last element, or panics on an empty list |
| LinkedList.List.Remove | include/structures/list.tpp:126-149 | The order-preserving filter of all elements unequal to the value |
| LinkedList.List.Erase | include/structures/list.tpp:151-174 | Drops exactly that node and returns its successor; panics exactly when it is not in the list |
| LinkedList.List.Clear | include/structures/list.tpp:176-180 | The empty list |
| SharedPtr.ReleaseFrees | include/structures/shared_ptr.tpp:9-17 | Giving up ownership deletes the object exactly when nobody else owns it |
| SharedPtr.CopyAssignIs | include/structures/shared_ptr.tpp:19-29 | Copy assignment is giving up and then joining; on itself it is nothing |
| SharedPtr.ResetKeepsExactlyWhen | include/structures/shared_ptr.tpp:49-54 | `reset` keeps counts right if and only if the pointer is not null |
| SharedPtr.NullResetLeaks | include/structures/shared_ptr.tpp:49-54 | After one construction, a reset to null leaves a control block with count one that nobody owns |
| SharedPtr.DoKeeps | include/structures/shared_ptr.tpp:5-64 | Every operation keeps each count equal to the number of owners |
| SharedPtr.DoOwns | include/structures/shared_ptr.hpp:32-79 | Every operation changes who owns what as its documentation says |
| SharedPtr.DoTally | include/structures/shared_ptr.tpp:5-64 | Every operation deletes exactly the object whose last owner it takes away |
| SharedPtr.UsesIsOwners | include/structures/shared_ptr.tpp:5-64 | In every state of every run `uses` is the number of `shared_ptr`s owning the block |
| SharedPtr.DeletedExactlyOnce | include/structures/shared_ptr.tpp:5-64 | Over every run an object once owned is owned still or has been deleted, never both and never twice |
| SharedPtr.Program.DecrementUsage | include/structures/shared_ptr.tpp:9-17 | The code is `Decrement` |
| SharedPtr.Program.ConstructFrom | include/structures/shared_ptr.hpp:32-36 | Owns a raw pointer with a new block, or is empty |
| SharedPtr.Program.ConstructCopy | include/structures/shared_ptr.hpp:61-65 | Joins the owners |
| SharedPtr.Program.ConstructMove | include/structures/shared_ptr.hpp:72-75 | Takes over and empties the other |
| SharedPtr.Program.Destruct | include/structures/shared_ptr.tpp:5-7 | Gives up and is gone |
| SharedPtr.Program.AssignCopy | include/structures/shared_ptr.tpp:19-29 | Counts up, counts down, copies the two fields |
| SharedPtr.Program.AssignMove | include/structures/shared_ptr.tpp:31-39 | Field by field, also onto itself |
| SharedPtr.Program.AssignNull | include/structures/shared_ptr.tpp:41-47 | Gives up and empties |
| SharedPtr.Program.ResetTo | include/structures/shared_ptr.tpp:49-54 | Gives up, then a new block whatever the pointer |
| SharedPtr.Program.SwapWith | include/structures/shared_ptr.tpp:56-64 | Exchanges both fields |
| Stream.NumeralReadsBack | src/structures/stream.cpp:103-115 | The numeral of v reads back to v in bases 8, 10 and 16, either case |
| Stream.NoLeadingZero | src/structures/stream.cpp:111-111 | It begins with 0 only for zero |
| Stream.NumberExactlyWhen | src/structures/stream.cpp:103-115 | What is printed reads back to v if and only if v < base^20; no superfluous leading zero |
| Stream.BufferCapacity | src/structures/stream.cpp:36-36 | Every 64-bit value fits in decimal and hexadecimal; in octal exactly those below 2^60 |
| Stream.OctalOverflows | src/structures/stream.cpp:36-36 | 2^60 in octal prints 0 |
| Stream.FillBuffer | src/structures/stream.cpp:104-109 | The loop leaves the last 20 digits |
| Stream.SkipZeros | src/structures/stream.cpp:111-111 | The second loop stops at the numeral |
| Stream.FormatNumber | src/structures/stream.cpp:103-115 | Buffer, digits and trimming print the numeral of v modulo base^20 |
| Stream.IntPrintsAndReads | src/structures/stream.cpp:94-101 | Every `int` above the least one is printed and reads back with its sign |
| Stream.LongPrintsExactlyWhen | src/structures/stream.cpp:94-101 | `%lld` reads back to v if and only if v is a negative 32-bit number, or not negative with bit 31 clear |
| Stream.LongLosesItsSign | src/structures/stream.cpp:95-96 | A positive 64-bit number printed as a negative one |
| Stream.Writer.WriteNumber | src/structures/stream.cpp:76-116 | Prefix, sign, base and case of each conversion; `written` grows by what was emitted |
| Stream.Writer.Writef | src/structures/stream.cpp:45-132 | The loop emits the rendering of format and arguments; `%n` stores exactly the number of bytes emitted so far; unknown conversions print nothing |
| Stream.FormatPrints | src/structures/stream.cpp:45-132 | For any sequence of directives and letters: letters and `%%` print as they are, `%s` its text, `%d` and `%i` the signed value in base 10, `%u` 10, `%x` 16, `%X` 16 in capitals, `%p` 0x and base 16, `%o` 8, each read back through `ValueOf`; unknown conversions nothing; `%n` stores the length of what came before |
| Keyboard.DecodeOne | src/hw/ps2keyboard.cpp:67-149 | From idle, the bytes of one event print its code and leave the driver idle |
| Keyboard.DecodeUndoesEncode | src/hw/ps2keyboard.cpp:67-149 | Fed the encoding of any sequence of press, release, extended and pause events, the driver prints exactly their codes, in order, and is idle again |
| Keyboard.SameCodeExactlyWhen | src/hw/ps2keyboard.cpp:96-141 | Two events print the same code if and only if they are equal, or one is F7 (0x83) or pause and the other is key 0x02 or 0x0f, whose code it borrows |
| Keyboard.EventsRecoverable | src/hw/ps2keyboard.cpp:96-141 | So the printed codes determine the events as long as keys 0x02 and 0x0f do not occur |
| Keyboard.NoiseDoesNotMatter | src/hw/ps2keyboard.cpp:80-94 | When no answer to a command is awaited, status bytes anywhere in the stream do not change what is decoded |
| Keyboard.NoiseMattersExactlyWhen | src/hw/ps2keyboard.cpp:70-94 | In any state they change it if and only if the driver awaits an answer and the first byte that is not the self test's is one of them |
| Keyboard.DecodeThroughNoise | src/hw/ps2keyboard.cpp:67-149 | A stream that is an encoding once status bytes are removed prints the codes of those events |
| Keyboard.TwoLiteralsResynchronise | src/hw/ps2keyboard.cpp:70-145 | Two key bytes in a row bring the driver back to idle if and only if it is not awaiting an answer in the middle of a pause key |
| Keyboard.ThreeLiteralsResynchronise | src/hw/ps2keyboard.cpp:70-145 | From any state three key bytes in a row do |
| Keyboard.NumberIsInjective | src/hw/ps2keyboard.cpp:101-141 | The printed number determines key, extension and release |
| Keyboard.SelfTestIsPass | src/hw/ps2keyboard.cpp:69-73 | The self test has passed if and only if it had or the device has said so |
| Keyboard.OutputGrows | src/hw/ps2keyboard.cpp:67-149 | What has been printed stays, and a byte prints at most one code |
| Keyboard.UnknownPairIsDropped | src/hw/ps2keyboard.cpp:121-136 | Two bytes behind 0xe1 that are not the pause key print nothing and are forgotten |
| Keyboard.OthersAreIgnored | src/hw/ps2keyboard.cpp:80-148 | Bytes from 0x80 on that are no prefix and not F7 change nothing while no answer is awaited |
| Keyboard.Driver.Handle | src/hw/ps2keyboard.cpp:67-149 | The code is one step of the decoder |

## Left out

- Scheduler: mutexes are taken as atomic sections; nothing is claimed about the order of locks or the fairness of a spin; `Scheduler.NothingGetsStuck` says which steps can be taken, not that they are.
- Scheduler: an ended thread's map is destroyed while its page directory may still be in CR3; the model ends at `Thread::end`.
- TlbShootdown: stores become visible in program order; store buffers are not modelled.
- KernelShootdown: a CPU serves a broadcast in one step; that its handler has run when the sender goes on is `TlbShootdown.SendReturnsAfterExecution`.
- KernelSlots: an operation on a chain is one step in its runs; appends between the runs of a chain are `AppendRaces`, and as appends of single runs they are in the runs of `KernelSlots.ConsistentAfter` too.
- Mutex.Lock.TryLock: `lock` itself is a loop with no bound on its attempts; only its atomic step is modelled as code.
- KmemFrees.FreesCommuteExactlyWhen: two frees, in heaps where neither order has to grow; `Kmem.FreeOrderIrrelevant` is about any number.
- Kmem.FreeKeeps: the sentinel panics on double frees are left out; a block freed is one that was handed out.
- PageFrames: page flags, page identifiers and the list of used pages.
- PageOwners.NoPageHasTwoOwners: the struct a page operation allocates or frees is not counted in the same run; `Kmem` treats it as its own supply.
- ObjectMaps.Memory.GeneratePage: one page per call, which is all the kernel asks for; `generate` of more pages can overlap the previous entry.
- VirtualMemory.AddKeeps: windows of one map lie below the kernel, are page aligned with a non-negative offset, and do not wrap; objects are smaller than 4 GiB. In the runs they do not overlap; `VirtualMemory.AddAgreesExactlyWhen` is about those that do.
- PageTables: page flags, and the invalidation after each write, which is `TlbShootdown`. What a store through a missing table does to memory is not modelled; it ends the run.
- VirtualMemory: destruction of objects and maps. In its runs operations come one at a time; two faults at once on one object are `FaultRaces`, other operations at once are left out.
- FaultRaces: two CPUs take part; the search, the link and the table update of a fault are one step each, and both search before either links.
- Filesystem.Path.Populate: when reading a listed child fails the source returns an error code it never set; the model has one value of its own for it and says nothing about the code.
- Filesystem: the copy `error_loc` is kept as the number of the entry it copies.
- LinkedList: destruction of the unlinked nodes, and a value passed by reference from inside the list.
- SharedPtr: destructors that themselves use `shared_ptr`s, conversion between pointer types, and the width of `uses`.
- Stream.Writer.Writef: the format is ended by its terminator outside a directive and the arguments have the types it names; negating the least `int` is undefined. The stream takes everything written to it.
- Keyboard: `send` and `configure`, which wait for the device.
- Arithmetic that wraps at 32 bits elsewhere than in request sizes, window addresses and format conversions.
- `unique_ptr`, `vector`, `Failable` and the static lists, which would only add easy members.
- Device drivers, interrupt tables, assembly, ACPI, ELF and display code.

# Verification model of the kernel's resource managers

A Dafny 4.11 model of the algorithms in the kernel that carry real invariants: four memory managers,
path handling and the multi-level cache of the file system, the network byte rings, the scheduler's
state machine and the vibration ramp. `dafny verify dfyconfig.toml` checks everything.

## How the model is built

Each component has a module. Its state is a value (`Pages`, `PageMap`, `Pool`, `Sched`, `Motor`, a block
list, a history, ...) with functions for what one call does to it. The code itself is a class whose
methods have the loops and in-place updates of the source and are proved to compute those functions on
the old state; what the components promise is then proved about the functions, over single calls and
over whole runs. Size arithmetic that can wrap is written modulo 2^64.

| file | models |
|---|---|
| `BitRuns.dfy`, `PackedBits.dfy`, `PageAllocator.dfy` | memory/PageAllocator.hpp |
| `PageMap.dfy`, `PoolBlocks.dfy`, `MemoryManager.dfy` | memory/MemoryManager.cpp |
| `RunLength.dfy` | memory/vmm.hpp, `CompressionEngine` |
| `VideoMemory.dfy` | memory/GraphicsResourceManager.hpp, the dedicated pool |
| `Paths.dfy` | filesystem/VirtualFileSystem.hpp |
| `LevelCache.dfy` | filesystem/VirtualFileSystem.cpp, `MultiLevelCache` |
| `RingBuffer.dfy` | network/network_stack.cpp, `BufferManager` |
| `Scheduler.dfy` | scheduler/scheduler.cpp |
| `Vibration.dfy` | haptics/vibration_controller.h |
| `Prelude.dfy`, `MapSums.dfy` | shared definitions |

## Where the code does not do what one would expect

The model keeps the code as it is. Each of these is proved, with the exact condition:

- `PageAllocator::free` never looks at the bits it clears; its counter stays right exactly when all of them
  were set (`FreeKeepsCountExactly`).
- A pool free lowers the bump mark by the block's size wherever the block is. From a pool without gaps the
  next bump allocation is safe at every size exactly when the freed block was the top one
  (`FreeIsSafeExactlyForTop`); at any point of any run exactly when no block reaches above the mark, which is
  when the blocks leave no gap (`BumpIsSafeExactly`, `RunsStaySeparated`); and always after a compaction
  (`CompactionTiles`).
- The 63 largest request sizes wrap to an empty pool block when rounded to cache lines (`RoundingIsSafeExactly`).
- A page does not show whether the run-length form was stored in it, although memory/vmm.hpp:222-223 marks
  every page as compressed. Two pages end up as the same bytes exactly when one is the stored form of the other
  and is left alone itself (`SameBytesExactly`); a stored page can be mistaken exactly when its stored form is
  incompressible (`StoredIsAmbiguousExactly`), and there is such a page (`StoredAndRawCanCoincide`).
- The descriptor compaction in `defragmentMemory` overwrites free blocks with copies of used ones. It keeps the
  pool tiled exactly when it has nothing to move (`DefragmentKeepsTilingExactly`), and a reservation that has
  to defragment recurses for ever unless a fitting block survives it (`ReserveReturnsExactly`, `RoomCanBeLost`).
- A reservation cuts off an empty block exactly for 0 bytes of a block larger than a header, and for a block
  that a request within 24 bytes of 2^64 fills completely (`TakeKeepsTiles`).
- The byte rings survive the wrap of their counters exactly when the capacity divides 2^64
  (`QueueSafeExactlyForDivisors`), as the 2^20 of the code does.
- Normalising p/q and (normalised p)/q differ exactly for a non-empty relative p whose components all cancel
  (`NormalizeJoinLaw`).
- The `../` test on a normalised path can only hit names such as `a..` (`TraversalTestFindsOnlyNames`).
- The cache's promotion of entries with more than 100 accesses never happens (`PromotionTestNeverPasses`).
- A tick sets a terminated process back to ready exactly when it is still the current one and another thread
  is active (`TickRevivesExactlyCurrent`). It is still never dispatched again (`TerminatedNeverDispatched`).
- The process table is checked against 1024 entries, the thread table of 256 not at all. A run stays within the
  thread table exactly when it asks for at most 256 processes, terminated ones included
  (`ThreadTableFillsFirst`); the 257th gets a thread outside it (`OverfullExample`).
- From rest the intensity ramp stays at zero exactly while no single step clears the dead zone: elapsed time
  does not add up (`RestExactlyWithoutALongStep`).

## Model

| member | source | states |
|---|---|---|
| BitRuns.FirstFit | memory/PageAllocator.hpp:74-91 | The first-fit position is the lowest start of enough clear bits in a row; none means there is no such run anywhere |
| BitRuns.FirstFitIsRunPrefix | memory/PageAllocator.hpp:75-77 | A first fit always starts at the beginning of a maximal run of clear bits |
| BitRuns.RunStartsCountMaximalRuns | memory/PageAllocator.hpp:110-121 | Counting the places where a clear run starts counts the maximal runs of clear bits, as a set of intervals |
| BitRuns.FillingMovesRunCount | memory/PageAllocator.hpp:80-83 | Using up a clear range changes the number of maximal clear runs by its clear neighbours minus one |
| BitRuns.ClearingMovesRunCount | memory/PageAllocator.hpp:101-103 | Releasing a used range changes the number of maximal clear runs by one minus its clear neighbours |
| PackedBits.WithBitChangesOneBit | memory/PageAllocator.hpp:31-48 | The mask operations of setBit change the addressed bit of a byte, as getBit reads it, and no other |
| PackedBits.SetBitsFills | memory/PageAllocator.hpp:31-48 | A loop of setBit calls on the packed bytes fills exactly that range of the unpacked map |
| PackedBits.MarkThenUnmark | memory/PageAllocator.hpp:81-103 | Marking a clear range and clearing it again gives back every byte, padding bits included |
| PageAllocation.AllocateIsExact | memory/PageAllocator.hpp:66-94 | For every non-zero request, also those whose rounding wraps: the answer is the lowest page with enough clear pages, null exactly if there is none, and no bit outside the range changes |
| PageAllocation.AllocateThenFree | memory/PageAllocator.hpp:81-104 | Freeing a block just allocated restores bitmap and counter exactly |
| PageAllocation.Start | memory/PageAllocator.hpp:55-64 | Initialisation reaches a well-formed state: all pages clear and counted free |
| PageAllocation.StepRequest | memory/PageAllocator.hpp:66-94 | An allocation keeps bitmap, live blocks and counter in agreement |
| PageAllocation.StepRelease | memory/PageAllocator.hpp:96-105 | A well-formed free keeps bitmap, live blocks and counter in agreement |
| PageAllocation.EveryRunIsSafe | memory/PageAllocator.hpp:55-105 | After every run of requests and well-formed frees the set bits are exactly the union of the live ranges, which are disjoint and inside the pool, and freePages is the number of clear bits |
| PageAllocation.FreeKeepsCountExactly | memory/PageAllocator.hpp:96-105 | A free keeps the counter equal to the clear bits if and only if every page of the range was in use |
| PageAllocation.AllocateMovesFragments | memory/PageAllocator.hpp:74-91 | A successful allocation takes the front of a maximal clear run; the fragment count falls by one exactly on an exact fit and never rises |
| PageAllocation.FreeMovesFragments | memory/PageAllocator.hpp:96-105 | Freeing a used range changes the fragment count by one minus its clear neighbours |
| PageAllocation.PageAllocator.constructor | memory/PageAllocator.hpp:53 | A new allocator has no pages |
| PageAllocation.PageAllocator.Initialize | memory/PageAllocator.hpp:55-64 | Sets up an all-clear bitmap over the whole region |
| PageAllocation.PageAllocator.SetBitAt | memory/PageAllocator.hpp:31-41 | The in-place byte update sets the one addressed bit |
| PageAllocation.PageAllocator.SetRange | memory/PageAllocator.hpp:81-83 | The marking loop sets its range bit by bit |
| PageAllocation.PageAllocator.FindRun | memory/PageAllocator.hpp:71-91 | The scan with its running counter finds the first fit, and nothing for a page count of zero |
| PageAllocation.PageAllocator.Allocate | memory/PageAllocator.hpp:66-94 | The method computes the allocation on the bytes in place and returns the address of the first page |
| PageAllocation.PageAllocator.Free | memory/PageAllocator.hpp:96-105 | The method clears the block's bits in place and adds its pages to the counter |
| PageAllocation.PageAllocator.GetFragmentationRatio | memory/PageAllocator.hpp:110-124 | The counter is the number of maximal runs of clear pages; the ratio divides it by the free pages |
| PageAllocation.PageIndexInvertsAddress | memory/PageAllocator.hpp:27-29 | getPageIndex gives back the page of every address the allocator hands out |
| PageMapping.MapPagesEffect | memory/MemoryManager.cpp:134-139 | Mapping a range adds exactly its pages, in order with the frames handed out, which leave the pool |
| PageMapping.UnmapPagesEffect | memory/MemoryManager.cpp:186-198 | Unmapping a range removes exactly its pages and returns exactly their frames |
| PageMapping.MapPagesFillsTlb | memory/MemoryManager.cpp:134-141 | An allocation of at least one page leaves its last page, with its frame, valid in its TLB slot, and all other slots as they were |
| PageMapping.UnmapPagesFlushes | memory/MemoryManager.cpp:188-198 | A release invalidates only the slot of its pages and keeps all others |
| PageMapping.MapPagesKeepsCoherent | memory/MemoryManager.cpp:134-139 | Mapping any range keeps each valid TLB slot at its index and equal to the page table |
| PageMapping.UnmapPagesKeepsCoherent | memory/MemoryManager.cpp:188-198 | Unmapping any range does too: no valid slot outlives its page |
| PageMapping.RunKeepsCoherent | memory/MemoryManager.cpp:255-263 | TLB coherence holds after any operations, without any assumption on the allocator's answers |
| PageMapping.OnlySlotZeroIsValid | memory/MemoryManager.cpp:255-258 | With page-aligned addresses only slot 0 can be valid |
| PageMapping.EveryRunHasCoherentTlb | memory/MemoryManager.cpp:255-263 | From boot, after any page-aligned run, the TLB agrees with the page table and has at most one valid slot |
| PageMapping.SlotZeroHoldsLastMapped | memory/MemoryManager.cpp:255-263 | From boot, over any page-aligned run, slot 0 holds the last page mapped, valid exactly until the next successful free of a non-empty allocation |
| PageMapping.AllocateKeepsOwnership | memory/MemoryManager.cpp:128-141 | After an allocation of an unused range the page table's domain is still the disjoint union of the live ranges |
| PageMapping.AllocateKeepsFrames | memory/MemoryManager.cpp:134-139 | It shares no frame, and mapped and pooled frames still make up all frames |
| PageMapping.FreeKeepsOwnership | memory/MemoryManager.cpp:186-202 | A free of any pointer keeps the domain the disjoint union of the live ranges |
| PageMapping.FreeKeepsFrames | memory/MemoryManager.cpp:192-197 | A free loses and duplicates no frame |
| PageMapping.EveryRunConservesPages | memory/MemoryManager.cpp:128-202 | From boot, every run keeps ownership exact and the number of mapped plus pooled frames constant |
| PageMapping.SecondFreeRefused | memory/MemoryManager.cpp:175-184 | A free succeeds exactly for the start of a live allocation; a second free of the same pointer answers false and changes nothing |
| PageMapping.AllocateThenFree | memory/MemoryManager.cpp:128-202 | Freeing a page block just allocated restores page table, records and frame pool |
| PoolBlocks.BumpKeepsTiled | memory/MemoryManager.cpp:116-123 | In a pool without gaps a bump allocation gets a fresh address and leaves no gap or overlap |
| PoolBlocks.FreeIsSafeExactlyForTop | memory/MemoryManager.cpp:152-159 | A free leaves the pool tiled, and the next bump allocation safe at every size, if and only if it freed the top block |
| PoolBlocks.BumpIsSafeExactly | memory/MemoryManager.cpp:116-125 | In any pool of disjoint blocks bump allocation is safe at every size if and only if no block reaches above the mark; with used the sum of the sizes, if and only if there is no gap |
| PoolBlocks.OrderIsUnique | memory/MemoryManager.cpp:273-282 | Collecting and sorting the live blocks has one possible outcome, whatever the map's iteration order |
| PoolBlocks.BlocksMoveDown | memory/MemoryManager.cpp:284-294 | Each block's new place is at or below its old one, and the packed blocks fit the pool |
| PoolBlocks.CompactionKeepsBlocks | memory/MemoryManager.cpp:284-294 | Compaction keeps number, sizes and address order of the blocks |
| PoolBlocks.OrderTotal | memory/MemoryManager.cpp:293-298 | The running destination ends at the sum of the live sizes |
| PoolBlocks.CompactionTiles | memory/MemoryManager.cpp:284-298 | After compaction the blocks fill the pool from its start without gaps up to the mark, so the next bump allocation overlaps none |
| PoolBlocks.RunsStaySeparated | memory/MemoryManager.cpp:116-159 | Over any run that allocates only while the blocks lie below the mark, blocks never overlap or leave the pool, used is the sum of the live sizes, and the guard is exact: it holds if and only if bump allocation is safe at every size |
| PoolBlocks.LifoRunsStayTiled | memory/MemoryManager.cpp:116-159 | Over any run whose frees are last-in-first-out the pool stays tiled |
| MemoryManagement.RoundingIsSafeExactly | memory/MemoryManager.cpp:109-110 | Rounding to cache lines covers the request exactly up to 2^64 - 64, and yields zero beyond |
| MemoryManagement.FirstOrNone | memory/MemoryManager.cpp:116-126 | For every request there is a first pool of the workload with room behind its mark, or none has |
| MemoryManagement.FreshPoolChoice | memory/MemoryManager.cpp:227-241 | In a fresh manager a request goes to the pool of its own workload if and only if it is no larger than 64 KB, 256 KB, 1 MB or 4 MB |
| MemoryManagement.TakingIsPoolBump | memory/MemoryManager.cpp:116-123 | An allocation from a pool is a bump of that pool and touches no other pool's records |
| MemoryManagement.ReleasingIsPoolFree | memory/MemoryManager.cpp:152-159 | A release is a free of that pool, never wraps its mark, and touches no other pool's records |
| MemoryManagement.CopiedDown | memory/MemoryManager.cpp:288 | An ascending copy downwards transports the bytes, overlapping or not, and touches nothing else |
| MemoryManagement.CompactionKeepsWellPlaced | memory/MemoryManager.cpp:284-298 | After any compaction, of overlapping or empty blocks too, the records lie in their pools and no mark is below the live sizes |
| MemoryManagement.CompactionKeepsContents | memory/MemoryManager.cpp:265-304 | From disjoint blocks: every block keeps its bytes at its packed place, used is the sum of the live sizes, other pools' records and all bytes outside are untouched |
| MemoryManagement.CompactsExactly | memory/MemoryManager.cpp:152-164 | Over any run, a free compacts its pool if and only if the bytes freed there since the last compaction, with its own, exceed 1 MB |
| MemoryManagement.MetricsTally | memory/MemoryManager.cpp:44-58 | A pool's metrics are the number and the bytes of the frees since its last compaction |
| MemoryManagement.UnifiedMemoryManager.constructor | memory/MemoryManager.cpp:227-241 | Four empty pools of the configured sizes, empty tables, and an empty TLB |
| MemoryManagement.UnifiedMemoryManager.UpdateTLB | memory/MemoryManager.cpp:255-258 | Installs the pair at the slot of its address |
| MemoryManagement.UnifiedMemoryManager.InvalidateTLBEntry | memory/MemoryManager.cpp:260-263 | Invalidates the slot of the address |
| MemoryManagement.UnifiedMemoryManager.MapRange | memory/MemoryManager.cpp:134-141 | The mapping loop computes the page map after the allocation |
| MemoryManagement.UnifiedMemoryManager.UnmapRange | memory/MemoryManager.cpp:186-198 | The unmapping loop computes the page map after the release |
| MemoryManagement.UnifiedMemoryManager.TakeFromPool | memory/MemoryManager.cpp:118-122 | Moves one pool's mark and records the block in between |
| MemoryManagement.UnifiedMemoryManager.BumpAllocate | memory/MemoryManager.cpp:115-126 | The block is at the mark of the first pool that is for the workload and has room; null and nothing changed if and only if no pool is and has |
| MemoryManagement.UnifiedMemoryManager.AllocateMemory | memory/MemoryManager.cpp:104-144 | A zero request gets null; else the mark of the first pool of that workload with room; the page allocator is asked if and only if there is no such pool, and its answer is returned and mapped |
| MemoryManagement.UnifiedMemoryManager.CopyBytes | memory/MemoryManager.cpp:288 | Copies byte by byte in ascending order |
| MemoryManagement.UnifiedMemoryManager.CollectLive | memory/MemoryManager.cpp:273-282 | Yields the pool's live blocks, each once, in address order |
| MemoryManagement.UnifiedMemoryManager.MoveBlock | memory/MemoryManager.cpp:286-294 | One step of the compaction moves one block's bytes and its record |
| MemoryManagement.UnifiedMemoryManager.MoveBlocks | memory/MemoryManager.cpp:284-294 | The compaction loop moves the blocks one after the other, with the sizes they had at the start |
| MemoryManagement.UnifiedMemoryManager.DefragmentPool | memory/MemoryManager.cpp:265-304 | Whatever the blocks: does nothing if there is no need any more, else moves them in address order, sets the mark to the end of the last one, and leaves every record in its pool and every mark within it |
| MemoryManagement.UnifiedMemoryManager.FreeMemory | memory/MemoryManager.cpp:146-214 | For any pointer in any state: a pool block is released, and its pool compacted beyond 1 MB of freed space; else the page allocation is released; an unknown address is refused; the whole new state is given |
| RunLength.EncodeFromIsLossless | memory/vmm.hpp:28-37 | Expanding the pairs from any position gives back the bytes from there |
| RunLength.EncodeIsOptimal | memory/vmm.hpp:27-37 | No list of (count in 1..255, byte) pairs for the page is shorter than the one the loop produces |
| RunLength.StoredExactlyWhenPossible | memory/vmm.hpp:38 | The page is stored if and only if some pair list for it is shorter than a page |
| RunLength.ReadFlattened | memory/vmm.hpp:39-41 | Reading pairs up to the first zero count finds exactly the stored pairs |
| RunLength.CompressIsLossless | memory/vmm.hpp:26-43 | A stored page decodes to the original without knowing the length, and is zero behind the pairs; any other page is untouched |
| RunLength.SameBytesExactly | memory/vmm.hpp:38-42 | Two different pages end up as the same bytes if and only if one is stored and the other is that stored form, left alone |
| RunLength.StoredIsAmbiguousExactly | memory/vmm.hpp:38-42 | Some other page ends up as the bytes of a stored page if and only if those bytes are incompressible as a page |
| RunLength.RawIsAmbiguousExactly | memory/vmm.hpp:38-42 | Some other page ends up as a page left alone if and only if its own bytes read as pairs expand to a page stored as just these bytes |
| RunLength.StoredAndRawCanCoincide | memory/vmm.hpp:38-42 | A striped page is stored, and its stored form is another page that is left alone |
| RunLength.EncodePage | memory/vmm.hpp:27-37 | The nested loops produce the greedy encoding |
| RunLength.StoreOver | memory/vmm.hpp:39-41 | The page becomes the encoding followed by zeros |
| RunLength.CompressPage | memory/vmm.hpp:19-44 | The fallback runs exactly when the first-choice output is no shorter than a page, and stores in place |
| VideoMemory.FindFit | memory/GraphicsResourceManager.hpp:335-338 | The first free block that is large enough, none exactly if no block is |
| VideoMemory.TakeKeepsTiles | memory/GraphicsResourceManager.hpp:340-352 | Reserving and splitting keeps the blocks a gapless tiling of non-empty blocks if and only if the block is handed out whole or both parts are not empty |
| VideoMemory.TakeSlack | memory/GraphicsResourceManager.hpp:342-353 | A reservation turns at least its size and at most one header more into used bytes |
| VideoMemory.ReserveTakesFirstFit | memory/GraphicsResourceManager.hpp:335-353 | A reservation gets the front of the first free block that is large enough; the rest becomes a free block if and only if it is larger than 24 bytes; no other block changes |
| VideoMemory.SortIsSorted | memory/GraphicsResourceManager.hpp:213-217 | The sort orders the blocks by address |
| VideoMemory.TilesAreSorted | memory/GraphicsResourceManager.hpp:213-217 | A tiled list is left as it is by the sort |
| VideoMemory.DefragmentIgnoresOrder | memory/GraphicsResourceManager.hpp:213-217 | For a tiled pool the result of the defragmentation does not depend on the order of the list |
| VideoMemory.CoalesceKeepsTiles | memory/GraphicsResourceManager.hpp:219-226 | Coalescing keeps the tiling |
| VideoMemory.CoalesceSeparates | memory/GraphicsResourceManager.hpp:219-226 | It leaves no two neighbouring free blocks |
| VideoMemory.CoalesceKeepsUsed | memory/GraphicsResourceManager.hpp:219-226 | It keeps every used block, in order |
| VideoMemory.CoalesceKeepsFreeBytes | memory/GraphicsResourceManager.hpp:219-226 | It keeps the set of free bytes |
| VideoMemory.CoalescedFitsExactly | memory/GraphicsResourceManager.hpp:219-226 | After coalescing a block fits if and only if the pool had that many free bytes in a row |
| VideoMemory.PackBreaksTiling | memory/GraphicsResourceManager.hpp:228-243 | With a free block before a used one the descriptor compaction destroys the tiling |
| VideoMemory.DefragmentKeepsTilingExactly | memory/GraphicsResourceManager.hpp:210-244 | The whole defragmentation keeps the tiling if and only if, once coalesced, no free block comes before a used one |
| VideoMemory.StuckNeverReturns | memory/GraphicsResourceManager.hpp:354-358 | Once no block fits and free blocks are fenced off by used ones, no number of retries succeeds |
| VideoMemory.ReserveReturnsExactly | memory/GraphicsResourceManager.hpp:333-359 | A reservation returns if and only if a block fits at once, or a fitting coalesced block sits at a position not below the number of used blocks; further retries change nothing |
| VideoMemory.RoomCanBeLost | memory/GraphicsResourceManager.hpp:228-243 | A pool of three free blocks in which, after one reservation, 100 free bytes lie in a row and a reservation of 100 never returns |
| VideoMemory.ReserveKeepsFilling | memory/GraphicsResourceManager.hpp:333-359 | One more reservation keeps a filling pool tiled, used blocks first, with at most one header of slack per request met |
| VideoMemory.FreshPoolRun | memory/GraphicsResourceManager.hpp:333-359 | From one free block, after any reservations and optimisations: tiled, slack at most 24 bytes per request met, nothing to defragment, and the next request is met exactly if it is no more than the unused bytes |
| VideoMemory.UsedSizeIsMetBytes | memory/GraphicsResourceManager.hpp:353 | usedSize counts the bytes of the requests met, no more and no less |
| VideoMemory.GraphicsMemory.constructor | memory/GraphicsResourceManager.hpp:18-22 | A pool with a given block list and nothing accounted |
| VideoMemory.GraphicsMemory.CoalesceFree | memory/GraphicsResourceManager.hpp:219-226 | The erase-and-step-back loop terminates and computes the coalesced list, its counter wrapping below zero |
| VideoMemory.GraphicsMemory.PackDescriptors | memory/GraphicsResourceManager.hpp:228-243 | The loop puts the used descriptors first and leaves the rest of the list as it was |
| VideoMemory.GraphicsMemory.DefragmentMemory | memory/GraphicsResourceManager.hpp:210-244 | Sort, coalesce and compaction in turn |
| VideoMemory.GraphicsMemory.OptimizeMemoryAllocation | memory/GraphicsResourceManager.hpp:80-85 | Defragments twice |
| VideoMemory.GraphicsMemory.ReserveMemoryBlock | memory/GraphicsResourceManager.hpp:333-359 | First fit with splitting, else defragment and try again, up to a number of retries; usedSize grows by the request exactly on success |
| Paths.ComponentsAreNames | filesystem/VirtualFileSystem.hpp:210-217 | No surviving component is empty, ".", ".." or contains a slash |
| Paths.NormalizeKeepsComponents | filesystem/VirtualFileSystem.hpp:205-225 | Splitting the normalised path gives back exactly the surviving components |
| Paths.NormalizeIsIdempotent | filesystem/VirtualFileSystem.hpp:205-225 | Normalising twice is normalising once, for every string |
| Paths.ParentCancels | filesystem/VirtualFileSystem.hpp:210-217 | For every name c and all p and q, p/c/../q normalises to the same as p/q |
| Paths.ParentOfNothing | filesystem/VirtualFileSystem.hpp:212-213 | With no component above it, ".." adds nothing |
| Paths.IdleItemsVanish | filesystem/VirtualFileSystem.hpp:211 | "." and doubled slashes change nothing, wherever they stand |
| Paths.NormalFormExactly | filesystem/VirtualFileSystem.hpp:219-224 | A path normalises to itself if and only if it is names joined by single slashes, with or without a leading one, or "/" |
| Paths.NormalizeJoinLaw | filesystem/VirtualFileSystem.hpp:205-225 | Normalising p/q equals normalising (normalised p)/q if and only if p is empty or absolute, or keeps a component, or q adds none |
| Paths.JoinLawException | filesystem/VirtualFileSystem.hpp:219-224 | For p = "." and any name the two differ by a leading slash |
| Paths.TraversalTestFindsOnlyNames | filesystem/VirtualFileSystem.hpp:146-151 | The substring test succeeds if and only if a component other than the last ends in ".." |
| Paths.GoodComponents | filesystem/VirtualFileSystem.hpp:121-144 | Checking the items of the normalised path checks exactly the surviving components |
| Paths.GoodNameExactly | filesystem/VirtualFileSystem.hpp:126-143 | A name is refused if and only if it is longer than 255 characters or, in whatever case, one of the eleven reserved names |
| Paths.NormalizePath | filesystem/VirtualFileSystem.hpp:205-225 | The getline loop with its component stack computes the normal form |
| Paths.JoinComponents | filesystem/VirtualFileSystem.hpp:219-223 | The output loop joins the components with single slashes |
| Paths.CheckComponents | filesystem/VirtualFileSystem.hpp:121-144 | Accepts exactly if every non-empty item is short enough and not a reserved name |
| Paths.IsWithinPermittedBoundaries | filesystem/VirtualFileSystem.hpp:184-191 | The security manager's answer counts exactly if some mount is a prefix, in any iteration order |
| Paths.ValidatePath | filesystem/VirtualFileSystem.hpp:99-158 | Accepts exactly the paths without NUL or invalid characters, short enough, whose surviving components are good names, and that pass the boundary check if a component before the last ends in ".." |
| Paths.GetMountPoint | filesystem/VirtualFileSystem.hpp:193-203 | Returns the longest non-empty mount key that is a prefix of the path, or empty if there is none |
| Paths.MountPointIsUnique | filesystem/VirtualFileSystem.hpp:193-203 | There is only one such answer, so the order of the unordered map does not matter |
| LevelCache.FindLevel | filesystem/VirtualFileSystem.cpp:326-337 | The first level holding the key, none exactly if no level does |
| LevelCache.PutStores | filesystem/VirtualFileSystem.cpp:341-354 | After a put the key is, with just that entry, in the first level that held it or else in level 0; no other key, size or counter changes |
| LevelCache.PromoteMoves | filesystem/VirtualFileSystem.cpp:333 | A promotion takes the entry, unchanged, to the level it is sent to and changes nothing else |
| LevelCache.GetRefreshes | filesystem/VirtualFileSystem.cpp:326-335 | A hit leaves the entry with the time of the lookup, where it was or where it was promoted to, and all other entries as they were |
| LevelCache.GetCounts | filesystem/VirtualFileSystem.cpp:332-336 | The level that answers counts a hit, those asked before it, or all, count a miss |
| LevelCache.PutKeepsSound | filesystem/VirtualFileSystem.cpp:341-354 | A put keeps each key in at most one level and agrees with the map of values last put |
| LevelCache.PromoteKeepsSound | filesystem/VirtualFileSystem.cpp:333 | A move of the entry to any earlier level keeps both |
| LevelCache.GetKeepsSound | filesystem/VirtualFileSystem.cpp:324-339 | A lookup keeps both, hits exactly if some level holds the key, and returns the value last put |
| LevelCache.PromotionTestNeverPasses | filesystem/VirtualFileSystem.cpp:386-441 | Every access count is 1, so the test for more than 100 never passes; without exclusivity it would take more than 100 levels |
| LevelCache.LastAccessExactly | filesystem/VirtualFileSystem.cpp:386-396 | The last access of a key is its time in the last level that holds it |
| LevelCache.OptimizeKeepsSound | filesystem/VirtualFileSystem.cpp:399-455 | An eviction pass keeps the cache sound |
| LevelCache.EveryHitReturnsLastPut | filesystem/VirtualFileSystem.cpp:324-466 | Through any interleaving of put, get, optimise and growth, every hit returns the value last put and no key is in two levels |
| LevelCache.StoredIsFound | filesystem/VirtualFileSystem.cpp:324-354 | A lookup of a key that was put, with no eviction pass in between, is a hit, through any other lookups, promotions and puts |
| LevelCache.EvictionIsLeastRecentlyUsed | filesystem/VirtualFileSystem.cpp:399-425 | In every run, no key that an eviction pass takes out of a level was last put or hit later than one it keeps there |
| LevelCache.HitRatioIsExact | filesystem/VirtualFileSystem.cpp:446-455 | The hit ratio after a pass is the share of the lookups that asked the level since the counters were last zero and found the key there |
| LevelCache.SortByAge | filesystem/VirtualFileSystem.cpp:405-414 | Lists every entry once, oldest first |
| LevelCache.ThresholdsExactly | filesystem/VirtualFileSystem.cpp:403-420 | The two tests are "more than 0.9 of" and "less than 0.7 of" the level's size |
| LevelCache.EvictOldest | filesystem/VirtualFileSystem.cpp:416-424 | Above 90 percent: what remains is below 70 percent or empty, no evicted entry is newer than a survivor, and the last eviction was necessary |
| LevelCache.MultiLevelCache.constructor | filesystem/VirtualFileSystem.cpp:313-318 | Three empty levels of 1, 8 and 32 MB |
| LevelCache.MultiLevelCache.AddLevel | filesystem/VirtualFileSystem.cpp:320-322 | Appends an empty level |
| LevelCache.MultiLevelCache.ExpandLevel | filesystem/VirtualFileSystem.cpp:356-359 | Grows one level's size |
| LevelCache.MultiLevelCache.Lookup | filesystem/VirtualFileSystem.cpp:324-339 | A hit returns the value last put, refreshes the timestamp and counts hit and misses; a miss leaves the caller's buffer alone |
| LevelCache.MultiLevelCache.Store | filesystem/VirtualFileSystem.cpp:341-354 | Overwrites the entry where it is, or inserts it in the first level |
| LevelCache.MultiLevelCache.Measure | filesystem/VirtualFileSystem.cpp:369-372 | Adds up the sizes of a level's entries in any order |
| LevelCache.MultiLevelCache.MeasureAll | filesystem/VirtualFileSystem.cpp:365-380 | Measures every level before anything is evicted |
| LevelCache.MultiLevelCache.AnalysePatterns | filesystem/VirtualFileSystem.cpp:384-397 | Counts for each key the levels it was seen in, and takes the timestamp of the last one |
| LevelCache.MultiLevelCache.EvictLevel | filesystem/VirtualFileSystem.cpp:403-425 | Evicts one level by its measured size exactly if that is above 90 percent |
| LevelCache.MultiLevelCache.PromoteFrequent | filesystem/VirtualFileSystem.cpp:427-442 | The promotion loop, with the patterns of a sound cache, leaves all levels as they are |
| LevelCache.MultiLevelCache.EvictLevels | filesystem/VirtualFileSystem.cpp:399-443 | Each level is evicted on its own by its measured size, and the promotion that follows moves nothing |
| LevelCache.MultiLevelCache.OptimizeCache | filesystem/VirtualFileSystem.cpp:361-466 | Evicts, folds the counters into the hit ratios and resets them, and keeps the cache sound |
| RingBuffers.RunDeliversPrefix | network/network_stack.cpp:42-68 | Over any run of writes and reads of a ring, from any counters, also across the wrap, the bytes read are a prefix of the bytes accepted, the rest is in the ring, and tail - head never exceeds the capacity |
| RingBuffers.StepAnswersExactly | network/network_stack.cpp:42-68 | A write is taken if and only if it fits beside the bytes accepted and not yet delivered; a read answers if and only if so many are left, with just the next ones |
| RingBuffers.WrapSafeExactlyForDivisors | network/network_stack.cpp:49-63 | Consecutive counter values use different slots across the 64-bit wrap if and only if the capacity divides 2^64 |
| RingBuffers.PushWindow | network/network_stack.cpp:49-50 | Writing the tail slot appends to the queue and disturbs no queued byte |
| RingBuffers.PopWindow | network/network_stack.cpp:63-64 | The head slot holds the oldest byte, and stepping over it removes just that |
| RingBuffers.WriteEnqueues | network/network_stack.cpp:42-54 | A write on buffer and counters is a write of the bounded queue, refusals included |
| RingBuffers.ReadDequeues | network/network_stack.cpp:56-68 | A read on buffer and counters is a read of the queue, refusals included |
| RingBuffers.QueueSafeExactlyForDivisors | network/network_stack.cpp:48-51 | Appending never disturbs queued bytes, at any counter values, if and only if the capacity divides 2^64 |
| RingBuffers.WrappingIsOverwritten | network/network_stack.cpp:48-51 | For any other capacity: the counters at which the next byte overwrites the oldest |
| RingBuffers.RingBuffer.constructor | network/network_stack.cpp:24 | A new ring is empty |
| RingBuffers.RingBuffer.PushByte | network/network_stack.cpp:49-50 | Writes the tail slot and steps the tail |
| RingBuffers.RingBuffer.PopByte | network/network_stack.cpp:63-64 | Returns the head slot and steps the head |
| RingBuffers.RingBuffer.PushAll | network/network_stack.cpp:48-51 | The write loop pushes the bytes in order |
| RingBuffers.RingBuffer.PopMany | network/network_stack.cpp:62-65 | The read loop pops the bytes in order |
| RingBuffers.RingBuffer.Write | network/network_stack.cpp:42-54 | Pushes all bytes if and only if the unsigned room is enough; a refusal changes nothing |
| RingBuffers.RingBuffer.Read | network/network_stack.cpp:56-68 | Pops exactly the requested bytes if and only if the distance of the counters is enough; a refusal changes nothing |
| RingBuffers.BufferManager.constructor | network/network_stack.cpp:38-40 | Two empty rings of 2^20 bytes and zero counters |
| RingBuffers.BufferManager.WriteToTxBuffer | network/network_stack.cpp:42-54 | Queues the packet or counts an overflow, and leaves the receive ring alone |
| RingBuffers.BufferManager.ReadFromRxBuffer | network/network_stack.cpp:56-68 | Replaces the caller's vector on success and leaves it and the ring alone otherwise |
| Scheduling.BestThread | scheduler/scheduler.cpp:109-121 | The lowest-index active thread of maximal, positive dynamic priority, none exactly if there is none |
| Scheduling.DynamicPriorityExactly | scheduler/scheduler.cpp:148-157 | A thread ranks by its priority, doubled for game threads, plus the number of times its CPU time plus one goes into a million |
| Scheduling.CreateKeepsInv | scheduler/scheduler.cpp:66-88 | Creation keeps processes and threads paired and at most the current process running |
| Scheduling.TerminateKeepsInv | scheduler/scheduler.cpp:90-103 | So does termination |
| Scheduling.TickKeepsInv | scheduler/scheduler.cpp:105-146 | So does the tick |
| Scheduling.EveryRunIsSafe | scheduler/scheduler.cpp:66-146 | In every run from boot pids are unique and at most one process is running, the current one |
| Scheduling.TickDispatchesBest | scheduler/scheduler.cpp:105-146 | With the scheduler running and any thread active, a tick leaves the best thread and its process current and running |
| Scheduling.EveryTickDispatchesHighest | scheduler/scheduler.cpp:105-157 | In every run from boot, a tick leaves as current the first process of the highest priority among those with an active thread |
| Scheduling.TickEffect | scheduler/scheduler.cpp:133-144 | A dispatch makes one process running and puts the one before back as ready at the end of the queue; any other tick changes nothing |
| Scheduling.CreateEffect | scheduler/scheduler.cpp:66-88 | A creation adds one ready process, last in the queue, with its active thread and the id it answers; from 1024 processes on it answers 0 and changes nothing |
| Scheduling.NothingRunsBeforeStart | scheduler/scheduler.cpp:52-57 | Without a start nothing is ever dispatched |
| Scheduling.SecondTickIsIdle | scheduler/scheduler.cpp:123-145 | A second tick with nothing in between changes nothing |
| Scheduling.TerminatedNeverDispatched | scheduler/scheduler.cpp:90-146 | Over any further run a terminated process can be current only if it never stopped being so |
| Scheduling.TickRevivesExactlyCurrent | scheduler/scheduler.cpp:133-138 | A tick takes a process out of the terminated state if and only if it is the current one and another thread is active |
| Scheduling.RevivedExample | scheduler/scheduler.cpp:133-138 | A run from boot in which it happens: the terminated process ends up ready and queued again |
| Scheduling.TerminateEffect | scheduler/scheduler.cpp:90-103 | Termination marks one process and its thread; an unknown pid changes nothing |
| Scheduling.ThreadTableFillsFirst | scheduler/scheduler.cpp:67-77 | Over all states of a run from boot the threads stay within the table of 256 if and only if the run asks for at most 256 processes |
| Scheduling.CreateStaysInTableExactly | scheduler/scheduler.cpp:66-88 | One creation, from a state within the table, stays within it if and only if there are fewer than 256 processes |
| Scheduling.OverfullExample | scheduler/scheduler.cpp:67-77 | 257 creations put a thread outside the table, 256 do not |
| Scheduling.EnhancedScheduler.constructor | scheduler/scheduler.cpp:31 | No processes, nothing current, stopped |
| Scheduling.EnhancedScheduler.StartRunning | scheduler/scheduler.cpp:52-57 | Starts |
| Scheduling.EnhancedScheduler.StopRunning | scheduler/scheduler.cpp:59-64 | Stops |
| Scheduling.EnhancedScheduler.CreateProcess | scheduler/scheduler.cpp:66-88 | Appends a ready process with its thread and queues it, or refuses with 0 at 1024 processes |
| Scheduling.EnhancedScheduler.DeactivateThreads | scheduler/scheduler.cpp:95-99 | Deactivates exactly the threads of the context |
| Scheduling.EnhancedScheduler.TerminateProcess | scheduler/scheduler.cpp:90-103 | Computes the termination |
| Scheduling.EnhancedScheduler.SelectThread | scheduler/scheduler.cpp:109-121 | The scan returns the best thread |
| Scheduling.EnhancedScheduler.FindProcess | scheduler/scheduler.cpp:124-131 | The first process with the thread's context |
| Scheduling.EnhancedScheduler.SwitchTo | scheduler/scheduler.cpp:133-144 | Puts the current process back as ready and makes the next one current and running |
| Scheduling.EnhancedScheduler.Schedule | scheduler/scheduler.cpp:105-146 | Computes the tick |
| Vibration.UpdateFrequency | haptics/vibration_controller.h:67-81 | One update moves the frequency towards the goal by the ramp, never past it, and into range |
| Vibration.FrequencyFollowsElapsedTime | haptics/vibration_controller.h:58-81 | From a frequency in range, any updates move it by exactly 50 Hz per elapsed second towards the goal; it has arrived if and only if enough time has passed |
| Vibration.FrequencyConverges | haptics/vibration_controller.h:58-81 | From any start it never passes the goal and has arrived by that time |
| Vibration.SetFrequencyIsReached | haptics/vibration_controller.h:44-48 | A frequency set in range is reached if and only if the elapsed time is at least the distance over 50 |
| Vibration.UpdateIntensity | haptics/vibration_controller.h:65-73 | After an update the intensity is 0 or between the dead zone and 1 |
| Vibration.RestExactlyWithoutALongStep | haptics/vibration_controller.h:65-73 | From rest the intensity stays 0 throughout if and only if each step, or the target, is inside the dead zone or 0 |
| Vibration.IntensityFollowsElapsedTime | haptics/vibration_controller.h:65-73 | Clear of the dead zone, with the target clear of it, the intensity moves by exactly the elapsed time |
| Vibration.SetIntensityIsReached | haptics/vibration_controller.h:40-42 | An intensity set clear of the dead zone is reached if and only if the elapsed time is at least the distance |
| Vibration.StopEndsAtRest | haptics/vibration_controller.h:99-103 | After a stop the intensity is 0 if and only if the time since, or that and the dead zone, makes up for it; after one second always |
| Vibration.TargetsAreClamped | haptics/vibration_controller.h:40-48 | A target out of range counts as the nearest one in range |
| Vibration.CalibrationTakesHold | haptics/vibration_controller.h:88-92 | A calibration moves nothing by itself and binds every update after it |
| Vibration.EveryRunIsSafe | haptics/vibration_controller.h:40-103 | In any run of the public operations, after each update the intensity is 0 or between the dead zone and 1, and the frequency is in the calibrated range |
| Vibration.DefaultRunIsSafe | haptics/vibration_controller.h:22-27 | A new motor never recalibrated runs at 20 to 200 Hz and at intensity 0 or 0.05 to 1 |
| Vibration.UntouchedMotorIsSilent | haptics/vibration_controller.h:10-13 | A new motor that is only updated stays at intensity 0 and 20 Hz |
| Vibration.VibrationController.constructor | haptics/vibration_controller.h:36-38 | At rest with the default calibration |
| Vibration.VibrationController.SetIntensity | haptics/vibration_controller.h:40-42 | Clamps the target to 0..1 |
| Vibration.VibrationController.SetFrequency | haptics/vibration_controller.h:44-48 | Clamps the target to the calibrated range |
| Vibration.VibrationController.Update | haptics/vibration_controller.h:58-85 | Computes the update for the time since the last one |
| Vibration.VibrationController.CalibrateMotor | haptics/vibration_controller.h:88-92 | Replaces the calibration and nothing else |
| Vibration.VibrationController.Stop | haptics/vibration_controller.h:99-103 | Targets 0 and the minimum frequency and updates at once |

## Left out

- RingBuffers.RunDeliversPrefix: in the code one ring is only written and the other only read (network/network_stack.cpp:42-68); what moves bytes from one to the other is not part of this model, so the run theorem is about a ring with both ends in use.
- MemoryManagement.CompactionKeepsContents: needs disjoint, non-empty blocks. After a non-LIFO free followed by an overlapping allocation, or after a wrapped request, blocks share bytes or an address; the methods compute what the code does to those, but no theorem says which bytes survive.
- MemoryManagement.UnifiedMemoryManager.CopyBytes: an ascending byte copy is one possible memcpy. C++ leaves memcpy undefined on ranges that overlap, and here they overlap if and only if the gap below a block is not empty and smaller than the block; that the copy ascends is what `CompactionKeepsContents` rests on for those blocks.
- MemoryManagement.UnifiedMemoryManager.AllocateMemory: the page allocator's answer and the frames are parameters, because `allocatePages` and `allocatePhysicalPage` are not part of this model; that a frame is available for each page is assumed. The conservation theorem assumes unused ranges and distinct pooled frames, the coherence theorem assumes nothing.
- VideoMemory.GraphicsMemory.ReserveMemoryBlock: the recursion is cut off after a given number of retries; the theorems hold for every number. The code marks the block as used through an iterator that inserting the remainder may have invalidated (memory/GraphicsResourceManager.hpp:349-352); the model marks the block that the iterator stood for.
- VideoMemory.GraphicsMemory.CoalesceFree: needs a non-empty block list, because the code reads past the end of an empty one.
- VideoMemory.FreshPoolRun: requests are positive, because a request of 0 bytes leaves two blocks at one address, which the unstable sort may swap; the pool is more than 24 bytes smaller than 2^64. Of an optimisation only the two defragmentations are modelled.
- VideoMemory.GraphicsMemory.DefragmentMemory: moves descriptors only; the bytes that `memmove` shifts are not modelled.
- PageAllocation.PageAllocator.Free: the range must lie in the pool, because the code would write past the bitmap otherwise; whether it is live is not required.
- Scheduling.EnhancedScheduler.CreateProcess: needs room in the thread table, because the code would write past its end; what that overwrites is not modelled. The runs on values go on as if the table were longer.
- Scheduling.BestThread: the scan is sequential; the OpenMP annotation on it is not modelled. Priorities are below 2^32 and CPU times are 0 in the code, so the 64-bit sum does not wrap and natural numbers are used.
- LevelCache.MultiLevelCache.Lookup: `promoteToHigherLevel` is not part of this model; it is any move of that entry to an earlier level, the level being a parameter.
- LevelCache.EvictOldest: the 0.9 and 0.7 thresholds are exact fractions.
- LevelCache.MultiLevelCache.PromoteFrequent: the age test takes the clock in seconds as a parameter; erasing from the map that is being iterated is modelled as harmless, which no entry ever puts to use.
- Vibration.VibrationController.Update: floats are reals, and the clock value is a parameter that does not run backwards.
- Vibration.VibrationController.SetFrequency: needs ordered bounds, because std::clamp does.
- Register save and load, interrupts, timers, port I/O and boot code.
- The LZ4, zlib, AES, Direct3D and security-manager calls; their answers are parameters where a branch depends on them.
- Locks and atomics: each method is one atomic step.
- Logging, hit-ratio reports, pulse and rumble patterns and the frequency tolerance: no state that the modelled operations read.
- `availableMemory`, `gpuCache` and resource tracking, the shared video pool, file descriptors and drivers: bookkeeping beside the modelled structures, with helpers that are not part of this model.
- The best-fit, NUMA and page-fault code of memory/vmm.hpp, whose helpers are not part of this model.

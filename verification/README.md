# Verified models of the meowOS kernel

meowOS is a kernel written in Rust. This project models its allocators, synchronisation primitives,
caches, scheduler, task runner, processor start-up channel, loop-unrolling macro and a few codecs in
Dafny, and proves what they are for.

How things are modelled:

- Code that several threads, tasks or processors run at once is a transition system. One action is
  one atomic operation, or what happens under one lock. An action that is not enabled changes
  nothing, so a theorem about all sequences of actions is a theorem about all interleavings. This
  holds for `Arc`, the reader/writer lock, the start-up channel and the task runner.
- Code that changes its own data step by step is a class, or a method with loops, proved against
  functions on values. The theorems about whole runs are lemmas about those functions.
- Code that computes by recursion is a function.
- A panic, a failed lookup or an error return is a `None` or a result of its own.

The files:

- Arc, AsyncRwLock, SmpChannel: the protocols
- ArcOperations, AsyncRwLockGuards: what the operations of the first two achieve
- UnrollSyntax, UnrollMeaning, UnrollScope: the macro's rewriting, an evaluator it is proved against, and Rust's rules about names
- Log2, BuddyTree, PackedBits, BuddyAllocator, BuddyRuns: the physical page allocator
- HeapRing, HeapRuns, Heap: a size class of the kernel heap
- AreaAllocation, AreaAllocator: the allocator of virtual address ranges
- BlockCache, BlockDeviceCache, BlockReads: the write-back cache of disk sectors, and reads under way over it
- Mounts, FsTree, FsTreeEffects, InodeChain, FsTreeCache, Paths: path strings, mounts, the directory cache and path resolution
- Scheduling, ProcessMoves, Scheduler: the process scheduler
- TaskRunning, TaskMoves, TaskRunner, DataQueue, DataQueueHead: the asynchronous task runner and its queue
- Checksum, EventBuffer: the internet checksum and the input event ring
- Collections, Vectors: shared facts

`dafny verify dfyconfig.toml` checks everything.

## Where the code departs from its intent

The model does what the code does. Where that is not what is intended, the exact condition under
which it is has been proved, in both directions, and a run that fails is given:

- The reader/writer lock excludes writers only up to 0x7FFF read guards; every schedule that goes
  beyond can be continued to a writer beside a reader (`BeyondLimitFails`, `TooManyReaders`).
- A pending writer can be served if and only if no other holder of a read guard wants to upgrade
  (`ServedExact`); two readers that upgrade wait for each other for ever (`BothUpgradeStuck`).
- Unrolling a loop in whose body no pattern names the loop variable changes what the loop does if and
  only if a pass ends in a plain break, a plain continue or a continue of the loop's label
  (`UnrolledLoopExact`). Because the variable becomes a constant, the unrolled program breaks Rust's
  rules about names if and only if the body binds that name by `let`, `for`, `ref`, `mut` or `@`, or
  declares it as a constant (`ScopeExact`). A plain name in an `if let` stays legal, but what was a
  binding becomes a comparison, so that the program can do something else; for one such family of
  loops it is proved exactly when it does (`TestingLoopExact`).
- The physical allocator ignores the return of a range at page 0 (`Deallocate`, `Serve`), and marks
  pages behind its tree if and only if more pages are requested than there are while none is in use
  (`AllocateContiguous`).
- A heap block returned to a full page while other blocks are free gets a wrong back link
  (`BackLinksExact`, `WrongLink`, `RunsOut`); the runs in which this never happens are described
  exactly (`RingExact`), and a class that owns one page is always in one (`OnePageRun`). A wrong link
  does no harm: the code reads no back link but that of the first block, which is always right
  (`DeallocateValid`, `EveryRun`, `ContentKept`).
- Freeing virtual pages moves exactly these pages if and only if the call is at the start of a recorded
  area (`FreeExact`). Otherwise most pages in front of them are dropped from the used ones and as many
  pages behind the area are recorded in their place (`InteriorFree`), and used and free pages overlap
  if and only if one of those was free (`OverlapExact`). Since the flag comparison always succeeds, neighbouring allocations are merged, so
  the second of two neighbours cannot be freed (`BehindUsedPage`, `TwoPagesGetMerged`).
- When a ready process is removed, the last ready process takes its place and overtakes those between
  (`RemovalReorders`); otherwise dispatch is first come, first served (`FirstComeFirstServed`).
- A disk read that ends after its sector has been written back brings the old data back, unless the
  sector is settled or the data is the same (`EndExact`, `OvertakenRead`).
- If a directory is loaded between the two halves of a creation, the name is cached twice, and the
  file stays visible after it has been unlinked (`LateLinkExact`, `DuplicateGoesStale`). If a file is
  unlinked while its directory is being read, it stays visible too (`LateLoadExact`,
  `UnlinkRacesWithLoad`).
- A batch of 64 or more input events into an empty buffer is not appended as it should be
  (`BatchExact`, `FullTurnLost`).
- The task queue's count of nodes is not lowered when a node is taken, so a push never returns once
  the limit has been reached, even if a single item is left (`StuckExact`, `StuckWithOneItem`).
- The folded sum of the checksum is congruent to the sum of the words if and only if what its 32-bit
  register lost is a multiple of 65535 (`ChecksumResidue`); nothing is lost up to 65536 words. A
  written checksum always checks (`WrittenChecksumChecks`).

## Model

| member | source | states |
|---|---|---|
| `ArcProtocol.StepInv` | std/src/sync/arc.rs:44-331 | Every atomic step of new, clone, downgrade, upgrade and the two drops, by any thread, keeps the census: `strong` counts strong handles and half-finished upgrades, `all` counts every handle and unfinished operation, and exactly one destructor run and one free are owed or done when the counts are zero. |
| `ArcProtocol.RunInv` | std/src/sync/arc.rs:44-331 | The census holds after every interleaving of any number of threads. |
| `ArcProtocol.DroppedThenFreedOnce` | std/src/sync/arc.rs:274-331 | In every interleaving the data is dropped at most once and only at strong count zero, the block is freed at most once and only after the drop has ended, and at strong count zero the drop has begun or a thread owes it. |
| `ArcProtocol.FreedMeansQuiet` | std/src/sync/arc.rs:274-331 | A freed block has no handle left and no thread inside an operation. |
| `ArcProtocol.NothingTouchesFreedBlock` | std/src/sync/arc.rs:274-331 | After the free no step of any operation is possible, so nothing touches the block. |
| `ArcProtocol.DataAliveWhileHeld` | std/src/sync/arc.rs:172-183 | While any strong handle exists, no destructor has begun. |
| `ArcProtocol.NoUpgradeAfterZero` | std/src/sync/arc.rs:133-170 | Once the strong count is zero no continuation yields a strong handle, although an upgrade changes the two counters in separate steps. |
| `ArcProtocol.NothingLeaks` | std/src/sync/arc.rs:274-331 | When no handle is left and every operation has finished, the data has been dropped once and the block freed once. |
| `ArcOperations.UpgradeFailsExactly` | std/src/sync/arc.rs:133-170 | In every schedule a thread leaves an upgrade without a handle exactly in a step taken while the strong count is zero. |
| `ArcOperations.RetryMeansChanged` | std/src/sync/arc.rs:136-153 | In every schedule an exchange of an upgrade succeeds exactly if the count is the one read last, and otherwise reads the new one. |
| `ArcOperations.UpgradeAlone` | std/src/sync/arc.rs:133-170 | An upgrade that runs undisturbed on a live count, whatever it is, ends with one more strong handle and both counters up by one. |
| `ArcOperations.UpgradeOfDead` | std/src/sync/arc.rs:133-140 | An upgrade on a dead count changes nothing. |
| `ArcOperations.CloneAlone` | std/src/sync/arc.rs:172-201 | A clone that runs undisturbed ends with one more strong handle and both counters up by one. |
| `ArcOperations.NewWeakAlone` | std/src/sync/arc.rs:79-228 | A downgrade, and the clone of a weak handle, end with one more weak handle and the total up by one. |
| `ArcOperations.DropArcAlone` | std/src/sync/arc.rs:274-305 | A drop that runs undisturbed takes the handle away and lowers both counters, drops the data exactly if it was the last strong handle and frees the block exactly if it was the last of all. |
| `ArcOperations.DropWeakAlone` | std/src/sync/arc.rs:307-332 | The same for a weak handle, which never drops the data. |
| `ArcOperations.CanFinish` | std/src/sync/arc.rs:133-332 | From every state a thread finishes whatever operation it is in with at most eight steps of its own, so no thread waits for another. |
| `AsyncRwLockProtocol.StepInv` | std/src/sync/async_rw_lock.rs:90-205 | One load, exchange, store or decrement of the 16-bit word keeps the invariant, as long as it does not create the 0x8000th read guard. |
| `AsyncRwLockProtocol.RunInv` | std/src/sync/async_rw_lock.rs:90-205 | The invariant holds after every schedule that stays within 0x7FFF read guards. |
| `AsyncRwLockProtocol.MutualExclusion` | std/src/sync/async_rw_lock.rs:90-205 | In every such schedule the word is the number of read guards plus 0x8000 for a pending or holding writer, and a write guard coexists with no other guard but the upgrader's own read guard. |
| `AsyncRwLockProtocol.CrossingStep` | std/src/sync/async_rw_lock.rs:112-132 | Only a successful read exchange crosses the limit, and it leaves the word at 0x8000. |
| `AsyncRwLockProtocol.BeyondLimitFails` | std/src/sync/async_rw_lock.rs:112-205 | The limit is necessary: every schedule that crosses it can be continued to a writer beside a reader. |
| `AsyncRwLockProtocol.OverflowAdmitsWriter` | std/src/sync/async_rw_lock.rs:187-205 | With the word pushed to 0x8000 by readers alone, one reader that leaves clears it and a writer enters beside another reader. |
| `AsyncRwLockProtocol.TooManyReaders` | std/src/sync/async_rw_lock.rs:112-205 | A concrete schedule of 0x8000 readers that ends with a writer beside readers. |
| `AsyncRwLockGuards.ReadPollExact` | std/src/sync/async_rw_lock.rs:112-132 | A read poll that runs undisturbed gets a guard exactly if no writer is pending or holding, and changes nothing otherwise. |
| `AsyncRwLockGuards.ExchangeExact` | std/src/sync/async_rw_lock.rs:112-154 | An exchange fails exactly if the word has changed since it was loaded; the task then holds what it held and can poll again. |
| `AsyncRwLockGuards.WritePollExact` | std/src/sync/async_rw_lock.rs:134-172 | A write poll that runs undisturbed gets the guard exactly if there is no guard at all, becomes the pending writer if there are only readers, and changes nothing otherwise. |
| `AsyncRwLockGuards.DrainExact` | std/src/sync/async_rw_lock.rs:156-172 | A pending writer gets its guard exactly when no read guard is left but its own, if it is upgrading. |
| `AsyncRwLockGuards.UpgradePollExact` | std/src/sync/async_rw_lock.rs:90-172 | An upgrade that runs undisturbed gets the write guard exactly if its read guard is the only guard. |
| `AsyncRwLockGuards.UpgradeAlone` | std/src/sync/async_rw_lock.rs:90-205 | A task with the only guard that upgrades and drops its read guard ends as the sole writer, with the word at 0x8000. |
| `AsyncRwLockGuards.DowngradeExact` | std/src/sync/async_rw_lock.rs:98-110 | After a downgrade the task has the only guard, a read guard, and the word is 1. |
| `AsyncRwLockGuards.DropExact` | std/src/sync/async_rw_lock.rs:187-205 | A guard that is dropped undisturbed is gone and the word counts what is left; the read guard of an upgrade leaves the write guard behind. |
| `AsyncRwLockGuards.UpgradesBlock` | std/src/sync/async_rw_lock.rs:90-172 | While another task wants to upgrade, a pending writer stays pending in every schedule. |
| `AsyncRwLockGuards.ServedExact` | std/src/sync/async_rw_lock.rs:90-205 | A pending writer can be served by some schedule if and only if no other holder of a read guard wants to upgrade. |
| `AsyncRwLockGuards.BothUpgradeStuck` | std/src/sync/async_rw_lock.rs:90-172 | A schedule in which two readers upgrade, after which neither ever gets the write guard. |
| `UnrollSyntax.UnrollInBlock` | unroll/src/lib.rs:68-84 | The statement loop yields the specified block, or the panic, and it panics exactly if a loop in the block has a literal bound, or the number behind an included one, of 2^64 or more. |
| `UnrollSyntax.UnrollExpr` | unroll/src/lib.rs:86-222 | The recursive rewriting with its replication loop yields the specified tree, or that panic, exactly as for blocks. |
| `UnrollSyntax.UnrollIdempotent` | unroll/src/lib.rs:68-222 | Unrolling twice equals unrolling once, for every expression. |
| `UnrollSyntax.FitsExact` | unroll/src/lib.rs:86-187 | Over the literals of the tree: no panic exactly if every loop the macro meets with a plain name and a literal or missing start has bounds that fit 64 bits. |
| `UnrollSyntax.NoLoopLeft` | unroll/src/lib.rs:68-222 | The result has no loop with a plain name and literal bounds, open or closed, with or without a start, at any place the macro enters. |
| `UnrollSyntax.UnchangedExact` | unroll/src/lib.rs:68-222 | A program is left as it is if and only if it has no such loop. |
| `UnrollSyntax.LoopBecomes` | unroll/src/lib.rs:115-187 | Such a loop becomes a block under its label with exactly one block per index in order, each declaring its index before the unrolled body. |
| `UnrollMeaning.UnrollKeepsMeaning` | unroll/src/lib.rs:68-222 | For every program whose unrolled loops are safe and in which no pattern names the variable of an unrolled loop around it, from every environment, with any constants in scope and for every meaning of the parts the macro does not look into, the jumps they contain included, the unrolled program has the same outcome: value, bindings and way of ending. The variables of the loops outside count as constants on the unrolled side only. |
| `UnrollMeaning.BlockKeepsMeaning` | unroll/src/lib.rs:68-84 | The same for a block. |
| `UnrollMeaning.UntestedExpr` | unroll/src/lib.rs:165-206 | Further constants in scope change nothing for code whose refutable patterns do not name them. |
| `UnrollMeaning.CopiesArePasses` | unroll/src/lib.rs:86-187 | The copies of a body, in which the loop variable is a constant, run in sequence, do what the passes of the loop do, a labelled break included, and leave no binding behind, unless a pass ends in a jump that the replacing block does not catch, and then so do they; no pattern of the body names the loop variable. |
| `UnrollMeaning.UnrolledLoopExact` | unroll/src/lib.rs:86-187 | For every loop that is unrolled, with written bounds and a body of unit type that is safe inside and has no pattern that names the loop variable: the replacing block does what the loop does if and only if no pass ends in a plain break, a plain continue or a continue of the loop's own label. |
| `UnrollMeaning.UnrolledLoop` | unroll/src/lib.rs:86-187 | A loop over written bounds, open or closed or empty, without uncaught jumps and without patterns that name its variable, is equivalent to its unrolled block. |
| `UnrollMeaning.JumpLoopExact` | unroll/src/lib.rs:86-187 | The case of a loop that consists of one jump. |
| `UnrollScope.ScopeExact` | unroll/src/lib.rs:86-222 | The unrolled program obeys Rust's rules about names if and only if the original, with the variables of unrolled loops counted as constants in their bodies, does: no `let` or `for` pattern names a constant, no `if let` pattern names one with `ref`, `mut` or `@`, and no block declares one twice. A loop over nothing makes no demand. |
| `UnrollScope.UnrollIsSound` | unroll/src/lib.rs:68-222 | A legal, safe program in which no pattern names the variable of an unrolled loop around it becomes a legal program with the same outcome. |
| `UnrollScope.TestingLoopExact` | unroll/src/lib.rs:165-206 | A loop whose body is `if let i = f() { g() }` over its own variable `i` is legal, and so is its unrolled block, but the loop binds what `f` gives and the block compares it with the indices: where `g` leaves the function, both do the same if and only if the loop runs over nothing or the value is one of the indices. |
| `Log2.Log2RoundedUpIsCeiling` | kernel/src/memory/mod.rs:190-195 | The result is the least exponent whose power of two is not below the argument. |
| `PackedBits.GetSet` | kernel/src/memory/physical_allocator/buddy_allocator.rs:273-294 | Writing one bit of the packed tree changes that bit and no other, also within its byte. |
| `PackedBits.Bitmap.Get` | kernel/src/memory/physical_allocator/buddy_allocator.rs:273-278 | Reads the bit the bytes spell out. |
| `PackedBits.Bitmap.Set` | kernel/src/memory/physical_allocator/buddy_allocator.rs:280-294 | Updates exactly one bit of the packed vector. |
| `BuddyTree.BitIsAllTaken` | kernel/src/memory/physical_allocator/buddy_allocator.rs:251-260 | A node's bit is set exactly when every page below it is taken. |
| `BuddyTree.FindHighIsHighest` | kernel/src/memory/physical_allocator/buddy_allocator.rs:141-156 | Below a clear node the search finds a free page with every higher page taken. |
| `BuddyTree.FindLowIsLowest` | kernel/src/memory/physical_allocator/buddy_allocator.rs:163-178 | Below a clear node the search finds a free page with every lower page taken. |
| `BuddyTree.CheckAllEmptyIsFree` | kernel/src/memory/physical_allocator/buddy_allocator.rs:220-232 | The emptiness check is true exactly when every page below the node is free, and the walk down the left reaches the first of them. |
| `BuddyTree.StopTest` | kernel/src/memory/physical_allocator/buddy_allocator.rs:200-218 | The comparison that stops the descent is true exactly at nodes that span 2^order pages. |
| `BuddyTree.FindContiguousIsHighest` | kernel/src/memory/physical_allocator/buddy_allocator.rs:200-218 | Below any node the search returns the highest free aligned block of 2^order pages, and none only if there is none. |
| `BuddyTree.SearchFromRoot` | kernel/src/memory/physical_allocator/buddy_allocator.rs:191-218 | From the root, in plain numbers: the result is aligned, free and in range, and no higher aligned free run of that length exists; if one exists, one is returned. |
| `BuddyTree.SearchTooLarge` | kernel/src/memory/physical_allocator/buddy_allocator.rs:191-218 | A block larger than the tree is found, at the first page, if and only if every page is free. |
| `BuddyAllocation.HighestRunIsHighest` | kernel/src/memory/physical_allocator/buddy_allocator.rs:191-198 | The reference scan that the allocator is specified by finds the highest aligned free run of a length, and fails only if there is none. |
| `BuddyAllocation.BuddyAllocator.Init` | kernel/src/memory/physical_allocator/buddy_allocator.rs:26-70 | After initialisation exactly the pages outside the usable ones are reserved, the count is exact and the tree is consistent. |
| `BuddyAllocation.BuddyAllocator.UpdateAll` | kernel/src/memory/physical_allocator/buddy_allocator.rs:296-301 | Makes every inner bit the AND of its children without changing a leaf. |
| `BuddyAllocation.BuddyAllocator.UpdateFromLower` | kernel/src/memory/physical_allocator/buddy_allocator.rs:251-260 | Repairs the ancestors of a changed node. |
| `BuddyAllocation.BuddyAllocator.MarkIndex` | kernel/src/memory/physical_allocator/buddy_allocator.rs:245-271 | Changes one leaf and leaves a consistent tree. |
| `BuddyAllocation.BuddyAllocator.FindEmptyFrameHigh` | kernel/src/memory/physical_allocator/buddy_allocator.rs:136-156 | The highest free page, or the panic exactly when every page is used. |
| `BuddyAllocation.BuddyAllocator.FindEmptyFrameLow` | kernel/src/memory/physical_allocator/buddy_allocator.rs:158-178 | The lowest free page, or the panic exactly when every page is used. |
| `BuddyAllocation.BuddyAllocator.AllocateFrame` | kernel/src/memory/physical_allocator/buddy_allocator.rs:114-123 | Hands out the highest free page, records it and keeps the ledger. |
| `BuddyAllocation.BuddyAllocator.AllocateFrameLow` | kernel/src/memory/physical_allocator/buddy_allocator.rs:125-134 | Hands out the lowest free page, records it and keeps the ledger. |
| `BuddyAllocation.BuddyAllocator.FindContiguousHigh` | kernel/src/memory/physical_allocator/buddy_allocator.rs:191-218 | The highest aligned free run of the request rounded up to a power of two, by comparison with a plain scan of the pages; for more pages than there are, the first page if none is in use and the panic otherwise. |
| `BuddyAllocation.BuddyAllocator.AllocateContiguous` | kernel/src/memory/physical_allocator/buddy_allocator.rs:180-189 | Hands out exactly the requested pages at the start of that run; goes on to mark pages behind the tree if and only if more pages are requested than there are while none is in use. |
| `BuddyAllocation.BuddyAllocator.DeallocateFrame` | kernel/src/memory/physical_allocator/buddy_allocator.rs:109-112 | Gives back one page that was handed out. |
| `BuddyAllocation.BuddyAllocator.Deallocate` | kernel/src/memory/physical_allocator/buddy_allocator.rs:72-81 | Gives back a range that was handed out; a range at address 0 is ignored. |
| `BuddyRuns.ChoiceExact` | kernel/src/memory/physical_allocator/buddy_allocator.rs:114-218 | A request is answered with free pages, as many as it names, and is refused if and only if no page is free, no run of its length rounded up is free at a multiple of that length, or there are not so many pages. |
| `BuddyRuns.ChoiceIsBest` | kernel/src/memory/physical_allocator/buddy_allocator.rs:114-218 | The page is the highest free one, or the lowest for a low request; the run is the highest free one that starts at a multiple of its length rounded up. |
| `BuddyRuns.PagesAfter` | kernel/src/memory/physical_allocator/buddy_allocator.rs:72-189 | A request adds free pages, none of them reserved or handed out, to the pages handed out; a return takes away exactly those of its range unless that is at page 0. |
| `BuddyRuns.LowestFreeIsLowest` | kernel/src/memory/physical_allocator/buddy_allocator.rs:158-178 | The page for a low request is the lowest free one, and there is none only if no page is free. |
| `BuddyRuns.Serve` | kernel/src/memory/physical_allocator/buddy_allocator.rs:72-189 | One command on the bitmap has the specified effect on the ranges handed out: a request adds its range, a return removes the range named unless it is at page 0, and the ranges stay disjoint and exact. |
| `BuddyRuns.Perform` | kernel/src/memory/physical_allocator/buddy_allocator.rs:72-189 | Any run of requests and returns performs exactly the commands, and leaves handed out exactly the ranges, that the run on values does. The ranges are disjoint from each other and from the reserved pages and, with the tree consistent, are exactly the pages counted as allocated. A run that ends early ends at a request for a page while all are used, for a run while none of its length is free, or for more pages than there are. |
| `BlockCache.GetEntryMeaning` | kernel/src/drivers/block_device/block_dev_cache.rs:45-86 | A lookup adds at most a reading entry where there was none, answers with the entry, and queues the caller exactly when the sector is being read. |
| `BlockCache.EvictMeaning` | kernel/src/drivers/block_device/block_dev_cache.rs:148-167 | Eviction removes the first clean entry and owes nothing or, if all entries are dirty, removes the first one and owes exactly its write. |
| `BlockCache.UpdateMeaning` | kernel/src/drivers/block_device/block_dev_cache.rs:88-146 | An update stores its entry, evicts the entry described above exactly if the sector is new and the device has 4096 entries, owes a write exactly for a dirty victim and wakes exactly the waiters of the sector. |
| `BlockCache.CachedAfter` | kernel/src/drivers/block_device/block_dev_cache.rs:45-146 | What is cached at a sector after a lookup, a write and a fill of it. |
| `BlockCache.StepRefines` | kernel/src/drivers/block_device/block_dev_cache.rs:45-167 | Every operation is a step of a plain sector map: a write changes what is seen at its sector only; lookups, fills and evictions change nothing. |
| `BlockCache.RunRefines` | kernel/src/drivers/block_device/block_dev_cache.rs:45-167 | After any sequence of operations the client sees exactly the plain map, and the invariant holds. |
| `BlockCache.LookupIsExact` | kernel/src/drivers/block_device/block_dev_cache.rs:45-86 | From an empty cache, whatever a lookup finds is what the plain map holds. |
| `BlockCache.FillExact` | kernel/src/drivers/block_device/block_dev_cache.rs:88-146 | A completed read leaves the view alone if and only if the sector was settled meanwhile or the data is what the disk holds now. |
| `BlockCache.IgnoredFill` | kernel/src/drivers/block_device/block_dev_cache.rs:104-112 | A fill for a sector that is already there changes nothing and wakes nobody. |
| `BlockCache.ArrivalWakesAll` | kernel/src/drivers/block_device/block_dev_cache.rs:88-146 | When the data of a sector arrives everyone who waited for it is woken and nobody waits for it any more. |
| `BlockReads.RunRefines` | kernel/src/drivers/block_device/disk.rs:138-240 | With any number of reads under way, each carrying the data the disk held when it started, clients see the plain map after every run in which no read ends that was overtaken by a write-back of its sector, unless the sector is settled then. |
| `BlockReads.EndExact` | kernel/src/drivers/block_device/disk.rs:150-175 | The end of a read leaves the view alone if and only if its sector is settled or the disk still holds what the read took from it. |
| `BlockReads.OvertakenRead` | kernel/src/drivers/block_device/disk.rs:150-175 | A run from an empty cache in which a read starts, its sector is written, evicted and written back, and the end of the read brings the old data back. |
| `BlockDevices.BlockDeviceCache.GetEntry` | kernel/src/drivers/block_device/block_dev_cache.rs:45-86 | The in-place search and insertion are the specified lookup. |
| `BlockDevices.BlockDeviceCache.UpdateEntry` | kernel/src/drivers/block_device/block_dev_cache.rs:88-146 | The in-place update, with eviction, is the specified one. |
| `BlockDevices.BlockDeviceCache.TakeWaiters` | kernel/src/drivers/block_device/block_dev_cache.rs:88-146 | The loop takes exactly the waiters of the sector out of the list, in order. |
| `HeapRing.PageBlocksPlacement` | kernel/src/memory/heap/looped_linked_list_heap.rs:27-60 | The blocks of a page are distinct, naturally aligned, behind the header and inside the page. |
| `HeapRing.NewPageValid` | kernel/src/memory/heap/looped_linked_list_heap.rs:27-60 | A fresh page is threaded into one ring of all its blocks with exact counters. |
| `HeapRing.TakeFirstValid` | kernel/src/memory/heap/looped_linked_list_heap.rs:83-126 | Allocation removes the head of the queue and leaves one ring of the rest. |
| `HeapRing.DeallocateValid` | kernel/src/memory/heap/looped_linked_list_heap.rs:128-190 | Returning a live block, of any page and whatever else is free, puts it behind the free blocks of its page, or to the end of the queue, and keeps the queue, the counters and the headers right. |
| `HeapRing.OnePageIsFifo` | kernel/src/memory/heap/looped_linked_list_heap.rs:128-190 | While all free blocks lie in one page, a returned block goes to the end of the queue. |
| `HeapRing.BackLinksExact` | kernel/src/memory/heap/looped_linked_list_heap.rs:151-172 | Where all back links are right they stay right if and only if the class had no free block or the page was not full; otherwise no order of the free blocks is a doubly linked ring. |
| `HeapRing.WrongLink` | kernel/src/memory/heap/looped_linked_list_heap.rs:83-190 | Whenever a class that has run out gets a new page, the return of any block it held before leaves a wrong back link. |
| `HeapRing.RunsOut` | kernel/src/memory/heap/looped_linked_list_heap.rs:83-126 | A class of any order does run out: a run that allocates every block of its first page. |
| `HeapRing.RingWalk` | kernel/src/memory/heap/looped_linked_list_heap.rs:61-65 | In a doubly linked ring `next` and `prev` are inverse. |
| `HeapRing.LiveUntouched` | kernel/src/memory/heap/looped_linked_list_heap.rs:83-190 | No allocation or return writes into a block that another client holds. |
| `HeapRing.ContentKept` | kernel/src/memory/heap/looped_linked_list_heap.rs:83-190 | What a client has written into a block stays there through every run in which it neither writes into it again nor returns it. |
| `HeapRing.WrittenIsRead` | kernel/src/memory/heap/looped_linked_list_heap.rs:83-190 | What a client writes into its block is what is read there. |
| `HeapRing.EveryRun` | kernel/src/memory/heap/looped_linked_list_heap.rs:83-190 | After any run, over any number of pages and in any order of returns, with clients writing into their blocks: the forward links spell out exactly the queue of `free_objects` free blocks, every block is free or live and never both, and the head of the queue, which is not live, is handed out next. |
| `HeapRuns.RingExact` | kernel/src/memory/heap/looped_linked_list_heap.rs:83-190 | In a run of allocations, returns and writes by clients, the free blocks are one doubly linked ring after every step if and only if every return finds the class without a free block or the page not full. |
| `HeapRuns.HandOutOrder` | kernel/src/memory/heap/looped_linked_list_heap.rs:83-190 | In every such run the blocks handed out, followed by those still free, are the blocks that were free, followed by those that became free, new pages and returned blocks alike, in that order: first in, first out. |
| `HeapRuns.OnePageRun` | kernel/src/memory/heap/looped_linked_list_heap.rs:83-190 | After any run in which a class owns one page, the free blocks form one doubly linked ring with `next` and `prev` inverse, and the blocks handed out followed by those free are the blocks of the page followed by the returned blocks in order of return. |
| `HeapRing.AllocKeeps` | kernel/src/memory/heap/looped_linked_list_heap.rs:83-126 | An allocation returns a block that was not live: the head of the queue, or the first block of a new page. |
| `HeapRing.ClassIsTightest` | kernel/src/memory/heap/looped_linked_list_heap.rs:232-248 | A request goes to the smallest class that is large enough. |
| `HeapRing.AlignedForLayout` | kernel/src/memory/heap/looped_linked_list_heap.rs:298-315 | A request whose alignment is not above its size gets that alignment. |
| `HeapAllocation.SizeClass.Populate` | kernel/src/memory/heap/looped_linked_list_heap.rs:28-60 | The loop that threads a page writes the specified links. |
| `HeapAllocation.SizeClass.Allocate` | kernel/src/memory/heap/looped_linked_list_heap.rs:83-126 | The in-place allocation is the specified one. |
| `HeapAllocation.SizeClass.Deallocate` | kernel/src/memory/heap/looped_linked_list_heap.rs:128-190 | The in-place return is the specified one, with its stale link. |
| `SmpChannel.RunInv` | kernel/src/acpi/smp/smp.rs:67-124 | The state of lock, ready and data byte fits the positions of sender and receiver after every interleaving of their instructions. |
| `SmpChannel.ReceivedIsPrefix` | kernel/src/acpi/smp/smp.rs:67-124 | The bytes received are a prefix of the bytes sent, behind by at most one. |
| `SmpChannel.NextByteCanArrive` | kernel/src/acpi/smp/ap_startup.rs:37-87 | From every reachable state the next byte can still be delivered. |
| `SmpChannel.Read8OfBytes` | kernel/src/acpi/smp/ap_startup.rs:24-34 | Reading eight bytes undoes sending a 64-bit integer. |
| `SmpChannel.Read2OfBytes` | kernel/src/acpi/smp/ap_startup.rs:32-34 | Reading two bytes undoes sending a 16-bit integer. |
| `SmpChannel.LowByteFirst` | kernel/src/acpi/smp/smp.rs:59-71 | The bytes of an integer go lowest first. |
| `SmpChannel.DecodePrefix` | kernel/src/acpi/smp/ap_startup.rs:24-34 | Of any prefix of an encoded stream the receiver reads a prefix of the integers. |
| `SmpChannel.ValuesArrive` | kernel/src/acpi/smp/smp.rs:59-71 | In every interleaving the receiver obtains a prefix of the integers sent, and all of them once every byte has arrived. |
| `AreaAllocation.FlagsCompareEqual` | kernel/src/memory/virt_mem_manager/allocation_area.rs:95-99 | The flag comparison never tells two areas apart. |
| `AreaAllocation.MergeIn` | kernel/src/memory/virt_mem_manager/allocation_area.rs:164-190 | Merging an area with its neighbours adds exactly its pages, keeps areas apart, and keeps them from touching if none touched. |
| `AreaAllocation.AllocateKeeps` | kernel/src/memory/virt_mem_manager/allocation_area.rs:113-209 | Allocation is best-fit with the lowest address on ties, fails if and only if no free area is large enough, moves exactly the returned pages from free to used and keeps the invariant. |
| `AreaAllocation.FreeKeeps` | kernel/src/memory/virt_mem_manager/allocation_area.rs:211-291 | Freeing at the start of a used area moves exactly the named pages, up to its end, to the free areas, which stay merged; a page outside all used areas changes nothing. |
| `AreaAllocation.FreedPages` | kernel/src/memory/virt_mem_manager/allocation_area.rs:211-236 | The pages a call frees are those from the one named on, as many as are named, that lie in the used area, or all of them to its end. |
| `AreaAllocation.EnclosingExact` | kernel/src/memory/virt_mem_manager/allocation_area.rs:214-232 | The area a call frees from is the used area that has the page, and there is none exactly if the page is not used. |
| `AreaAllocation.FreeExact` | kernel/src/memory/virt_mem_manager/allocation_area.rs:211-291 | A call frees exactly its pages if and only if it is made at the start of the used area. |
| `AreaAllocation.PageLost` | kernel/src/memory/virt_mem_manager/allocation_area.rs:234-258 | A call behind the start of an area leaves a page neither used nor, by that call, free. |
| `AreaAllocation.InteriorFree` | kernel/src/memory/virt_mem_manager/allocation_area.rs:234-258 | Exactly which pages are used after a call behind the start of an area: the pages in front are dropped but for one in 4096, and as many pages behind the end of the area are recorded as used, unless a used area starts right behind the freed pages. |
| `AreaAllocation.OverlapExact` | kernel/src/memory/virt_mem_manager/allocation_area.rs:234-291 | After such a call a page is both used and free if and only if one of the pages recorded behind the area was free. |
| `AreaAllocation.BehindUsedPage` | kernel/src/memory/virt_mem_manager/allocation_area.rs:164-258 | Whenever a merging request gets the pages behind a used page, giving them back does not free exactly those pages. |
| `AreaAllocation.TwoPagesGetMerged` | kernel/src/memory/virt_mem_manager/allocation_area.rs:113-209 | Two requests for one page out of three free pages come to that. |
| `AreaAllocation.EmptyRequestExact` | kernel/src/memory/virt_mem_manager/allocation_area.rs:113-209 | A request for no pages keeps the invariant if and only if it is merged into a used area that ends there. |
| `AreaAllocation.EmptyFreeExact` | kernel/src/memory/virt_mem_manager/allocation_area.rs:211-291 | Giving back no pages moves none, and keeps the invariant if and only if a free area ends there. |
| `AreaAllocation.RunKeeps` | kernel/src/memory/virt_mem_manager/allocation_area.rs:113-291 | After any allowed run the two free indexes agree, areas are apart, free areas are merged, and free and used areas cover exactly the initial pages. |
| `AreaAllocator.AllocationInfo.AllocateArea` | kernel/src/memory/virt_mem_manager/allocation_area.rs:113-209 | The three sets, updated in place, become what the specification says. |
| `AreaAllocator.AllocationInfo.FreeArea` | kernel/src/memory/virt_mem_manager/allocation_area.rs:211-291 | The same for freeing, with its division by the page size. |
| `AreaAllocator.AllocationInfo.CutUsed` | kernel/src/memory/virt_mem_manager/allocation_area.rs:234-258 | What is kept of a used area. |
| `AreaAllocator.AllocationInfo.AddFree` | kernel/src/memory/virt_mem_manager/allocation_area.rs:259-290 | The freed area is merged into both free indexes. |
| `AreaAllocator.AllocationInfo.AddUsed` | kernel/src/memory/virt_mem_manager/allocation_area.rs:157-190 | The new area is recorded, merged if that is wanted. |
| `AreaAllocator.MergeNeighbours` | kernel/src/memory/virt_mem_manager/allocation_area.rs:164-190 | Removing the next and then the previous neighbour finds the same two areas as looking for both at once. |
| `Mounts.ResolveMountPoint` | kernel/src/vfs/fs_tree.rs:222-265 | The loop returns nothing exactly when nothing is mounted on the inode, and otherwise the top of the stack and the inode it is mounted on. |
| `Mounts.TopOfStack` | kernel/src/vfs/fs_tree.rs:222-265 | Nothing is mounted on the top, and mounts lead to it from the inode. |
| `Mounts.TopIsUnique` | kernel/src/vfs/fs_tree.rs:222-265 | If no inode is covered by both tables, any uncovered inode that mounts lead to is the top: the order of consultation does not matter. |
| `Mounts.TopUnfolds` | kernel/src/vfs/fs_tree.rs:222-265 | The order of consultation: a global mount on an inode first, and then the namespace's own mount on what it leads to. |
| `Mounts.GlobalWins` | kernel/src/vfs/fs_tree.rs:231-254 | Where both tables cover an inode, the global mount wins. |
| `FsTree.GetChildExact` | kernel/src/vfs/fs_tree.rs:132-217 | A lookup through a coherent cache finds exactly what is on disk and keeps the cache coherent. |
| `FsTree.StepInv` | kernel/src/vfs/operations.rs:400-531 | Create, link, unlink, delete, forget, clear, load and lookup, each in one step with the filesystem, keep the cache coherent and names unique. |
| `FsTree.CacheIsTransparent` | kernel/src/vfs/fs_tree.rs:54-217 | In every run from an empty cache a lookup finds exactly what is on disk. |
| `FsTree.LateLinkExact` | kernel/src/vfs/operations.rs:422-433 | If the directory is changed first and the cache later, the cache stays coherent if and only if it has not learned the name in between. |
| `FsTree.LateLoadExact` | kernel/src/vfs/fs_tree.rs:165-217 | If a directory is entered into the cache later than it was read, the cache stays coherent if and only if every entry that was read is still there. |
| `FsTree.UnlinkRacesWithLoad` | kernel/src/vfs/fs_tree.rs:176-214 | A file unlinked between the two is still found. |
| `FsTree.LateUnlinkHeals` | kernel/src/vfs/operations.rs:511-513 | If the cache half of an unlink comes late it makes good: a cache that is wrong about that name only is coherent afterwards. |
| `FsTree.EmptyNodeCoherent` | kernel/src/vfs/fs_tree.rs:184-200 | The empty nodes that a load enters one by one never matter. |
| `FsTree.DuplicateGoesStale` | kernel/src/vfs/fs_tree.rs:107-117 | Where the cache has a name twice, an unlinked file is still found. |
| `FsTree.CreateRacesWithLookup` | kernel/src/vfs/fs_tree.rs:95-103 | A lookup between the two halves of a creation leaves the name in the cache twice. |
| `FsTreeEffects.EntryAfter` | kernel/src/vfs/operations.rs:400-531 | What every name leads to on disk after each operation: created and linked names to their inode, unlinked ones to nothing, all others to what they led to. |
| `FsTreeEffects.DirectoriesAfter` | kernel/src/vfs/operations.rs:400-531 | Which directories there are after each operation, and that an operation that fails changes nothing. |
| `FsTreeEffects.HitNeedsNoDisk` | kernel/src/vfs/fs_tree.rs:132-146 | A name in the cache is found without reading the directory and without changing the cache. |
| `FsTreeEffects.LookupIsCached` | kernel/src/vfs/fs_tree.rs:132-217 | A lookup that finds a name leaves it in the cache, and all names of the directory if it had to read it. |
| `FsTreeEffects.FoundAfterLoad` | kernel/src/vfs/fs_tree.rs:165-217 | What the cache knows after a load: everything of the directory, nothing of its children, and of all others what it knew. |
| `FsTreeEffects.FoundAfterLink` | kernel/src/vfs/fs_tree.rs:95-103 | Linking makes a cached directory know the name if it did not, and no other name. |
| `FsTreeEffects.NodesAfterLink` | kernel/src/vfs/fs_tree.rs:95-103 | Linking into a cached directory enters a node for the inode, empty unless there was one, and touches no other. |
| `FsTreeEffects.FoundAfterUnlink` | kernel/src/vfs/fs_tree.rs:107-117 | Unlinking makes the cache forget that name and no other. |
| `FsTreeEffects.FoundAfterRemoval` | kernel/src/vfs/fs_tree.rs:121-129 | Removing an inode forgets what it held; removing a device forgets everything. |
| `InodeChain.WalkInParts` | kernel/src/vfs/fs_tree.rs:54-90 | Resolving a path in two parts: the second from the chain of the first. |
| `InodeChain.WalkString` | kernel/src/vfs/fs_tree.rs:54-90 | The same for path strings joined by a slash, whatever slashes and dots they contain. |
| `InodeChain.WalkShape` | kernel/src/vfs/fs_tree.rs:54-90 | The chain keeps its root, is never empty, stays a chain of entries with their mounts, and has the length the components say. |
| `InodeChain.ChildOnTop` | kernel/src/vfs/fs_tree.rs:132-217 | A name is found exactly if the directory has it, and leads to the inode that mounts lead to from its entry and on which nothing is mounted. |
| `InodeChain.WalkOnTop` | kernel/src/vfs/fs_tree.rs:54-90 | Nothing is mounted on any inode that a walk adds to the chain. |
| `InodeChain.Shorten` | kernel/src/vfs/fs_tree.rs:71-78 | A name followed by two dots can be taken out of a path anywhere if the name is there. |
| `FsTreeCaching.FsTreeCache.LoadDir` | kernel/src/vfs/fs_tree.rs:165-217 | The loop that enters the children is the specified load. |
| `FsTreeCaching.FsTreeCache.GetChild` | kernel/src/vfs/fs_tree.rs:132-161 | Returns what the directory holds, with the mounts on it if wanted, and keeps the cache coherent. |
| `FsTreeCaching.FsTreeCache.GetInodeChain` | kernel/src/vfs/fs_tree.rs:54-90 | The loop over the components returns the chain that walking the directories without a cache gives. |
| `FsTreeCaching.FsTreeCache.Perform` | kernel/src/vfs/fs_tree.rs:95-217 | Any run of operations on the object and the disk is the run on values, and keeps the cache coherent. |
| `Scheduling.StepInv` | kernel/src/proc/scheduler.rs:31-105 | Every operation keeps the lists free of duplicates and disjoint, with every registered process in one of them and its flag fitting the list. |
| `Scheduling.EveryRun` | kernel/src/proc/scheduler.rs:31-105 | In every run a registered process is in exactly one list, and one that is in a list without being registered is running and was killed. |
| `Scheduling.WakeWhileActive` | kernel/src/proc/scheduler.rs:36-105 | A wake while the process runs makes its release go to the end of the ready list, whatever happens between. |
| `Scheduling.MarkThenSleep` | kernel/src/proc/scheduler.rs:84-105 | Without a wake a marked process goes to sleep when it is released, and a later wake makes it ready. |
| `Scheduling.BoundedWaiting` | kernel/src/proc/scheduler.rs:31-101 | A process at index k of the ready list is dispatched within k + 1 calls, whatever is interleaved, unless it is killed or is released although it does not run. |
| `Scheduling.SchedulesIffReady` | kernel/src/proc/scheduler.rs:54-70 | A call returns a process exactly when a registered process is awake and not running. |
| `ProcessMoves.StepMoves` | kernel/src/proc/scheduler.rs:31-105 | Where each operation takes the process it is about, and that every other process stays where it is: registered or not, ready, sleeping, or running on its processor with its mark. |
| `ProcessMoves.PlaceSaysAll` | kernel/src/proc/scheduler.rs:31-105 | Registration and flag of a process follow from where it is. |
| `ProcessMoves.Untouched` | kernel/src/proc/scheduler.rs:31-105 | A process that is not ready stays where it is in every run that does not name it. |
| `ProcessMoves.FirstComeFirstServed` | kernel/src/proc/scheduler.rs:31-105 | Unless a ready process is removed, the processes dispatched in a run followed by those still ready are those that were ready followed by those that became ready. |
| `ProcessMoves.RemovalReorders` | kernel/src/proc/scheduler.rs:72-82 | When a ready process is removed, the last one takes its place. |
| `ProcessScheduler.Scheduler.AcceptNewProcess` | kernel/src/proc/scheduler.rs:31-34 | A process with a new number is ready, the lists stay in order, and no other process moves. |
| `ProcessScheduler.Scheduler.WakeProc` | kernel/src/proc/scheduler.rs:36-52 | The process does not sleep any more, is ready if it slept and is no longer marked if it runs; the lists stay in order and no other process moves. |
| `ProcessScheduler.Scheduler.ScheduleNext` | kernel/src/proc/scheduler.rs:54-70 | A process is returned exactly if one is ready; the first ready process runs on the processor given, the lists stay in order and no other process moves. |
| `ProcessScheduler.Scheduler.RemoveProcess` | kernel/src/proc/scheduler.rs:72-82 | The process is neither sleeping nor ready nor registered; the lists stay in order and every other process keeps its registration, its flag and its list. |
| `ProcessScheduler.Scheduler.ReleaseProcess` | kernel/src/proc/scheduler.rs:85-105 | The process does not run any more: it sleeps if it was marked, is ready if not, and is gone if it was killed or did not run; the lists stay in order and no other process moves. |
| `ProcessScheduler.Scheduler.Perform` | kernel/src/proc/scheduler.rs:30-105 | Any run of operations on the object is the run on values and keeps the invariant. |
| `TaskRunning.RunInv` | kernel/src/task_runner.rs:126-222 | The invariant holds after every interleaving of adds, wakes, kills and the steps of the runner. |
| `TaskRunning.EveryRun` | kernel/src/task_runner.rs:126-277 | A task is at all times in exactly one of: being added, queued, waiting, in hand, gone; a call polls no task twice; a recorded wake that no call is about to take has the flag set or about to be. |
| `TaskRunning.WokenIsPolled` | kernel/src/task_runner.rs:168-222 | A wake recorded before a call, of a waiting or queued task, is answered before that call ends: the task is polled by it or its process is dead. |
| `TaskRunning.WakeDuringPoll` | kernel/src/task_runner.rs:145-166 | A wake during the task's own poll is still recorded, with the flag set or about to be, when that call ends, and the next call answers it. |
| `TaskMoves.StepMoves` | kernel/src/task_runner.rs:126-277 | Where each step takes each task: a finished task, or one whose process is dead, is gone, an unfinished one waits, a woken one is queued, and no other task moves. |
| `TaskMoves.GoneForGood` | kernel/src/task_runner.rs:189-277 | A task that is gone stays gone and is not polled again, in every run. |
| `TaskMoves.FinishedStaysGone` | kernel/src/task_runner.rs:258-277 | A task whose poll says that it is finished is gone at once, and no later call polls it or finds it waiting. |
| `TaskMoves.PolledInOrder` | kernel/src/task_runner.rs:126-222 | In every run tasks are taken from the queue in the order in which they were put there. |
| `TaskMoves.WakeEffect` | kernel/src/task_runner.rs:145-158 | A wake is recorded behind the others and sets the flag, and does nothing else. |
| `TaskMoves.CallTakesWakes` | kernel/src/task_runner.rs:168-195 | A call clears the flag and then takes all wakes recorded until then. |
| `TaskMoves.OwnersAndDeaths` | kernel/src/task_runner.rs:126-215 | A task gets the next number and its process, and is dead exactly if that process has been killed. |
| `TaskMoves.CallCanEnd` | kernel/src/task_runner.rs:168-222 | From every state inside a call the steps of the call alone bring it to its end if the tasks finish. |
| `TaskRunner.AsyncTaskData.AddTask` | kernel/src/task_runner.rs:126-143 | Numbers and queues the task. |
| `TaskRunner.AsyncTaskData.WakeTask` | kernel/src/task_runner.rs:145-158 | Records the wake and sets the flag. |
| `TaskRunner.AsyncTaskData.WakeTasksInList` | kernel/src/task_runner.rs:168-187 | Takes the wake list, which is empty afterwards: exactly the waiting tasks on it go to the end of the queue. |
| `TaskRunner.AsyncTaskData.NextTask` | kernel/src/task_runner.rs:200-218 | Takes the first task, and drops it exactly if its process is dead. |
| `TaskRunner.AsyncTaskData.ProcessSingleTask` | kernel/src/task_runner.rs:258-277 | Polls the task, with whatever happens meanwhile: a finished task is gone and does not wait, an unfinished one is put behind the waiting tasks. |
| `TaskRunner.AsyncTaskData.ProcessTasks` | kernel/src/task_runner.rs:189-222 | The state after a call is the one that taking the wakes and then polling the queue to its end gives, with the results of the polls as given. The whole call is a run of the transition system; it ends with an empty queue and with every task that was queued, or waiting and woken, polled or its process dead. |
| `DataQueue.PushReturnsExact` | std/src/queue.rs:27-61 | A push returns if and only if the node count is below the limit: its loop drops nodes without lowering the count. |
| `DataQueue.FirstInFirstOut` | std/src/queue.rs:17-61 | In every run that goes through, what came out and what is left are the pushed items in order, and the count is the number of pushes since the last one that found the queue empty, read off the operations. |
| `DataQueue.StuckExact` | std/src/queue.rs:27-48 | The next push never returns if and only if those pushes have reached the limit. |
| `DataQueue.StuckWithOneItem` | std/src/queue.rs:27-61 | For every limit there is a run that ends with a single item in the queue and a push that never returns. |
| `DataQueueList.DataQueueHead.Push` | std/src/queue.rs:27-48 | The nodes from the first on, and the last pointer, are those of the queue with the item appended. |
| `DataQueueList.DataQueueHead.GetFirst` | std/src/queue.rs:50-61 | The first node is unlinked; the rest, and the last pointer, are those of the queue without it. |
| `DataQueueList.Perform` | std/src/queue.rs:17-61 | Any run on the list of nodes takes out what the run on values takes out. |
| `Checksum.SumWords` | kernel/src/net/mod.rs:154-158 | The loop over the words, with its wrapping register, or the panic on odd length. |
| `Checksum.ComputeInternetChecksum` | kernel/src/net/mod.rs:152-165 | The loops compute the specified checksum, or panic on odd length. |
| `Checksum.FoldResidue` | kernel/src/net/mod.rs:159-161 | Folding keeps the remainder modulo 65535 and yields zero only for zero. |
| `Checksum.ChecksumResidue` | kernel/src/net/mod.rs:152-165 | The folded sum is congruent to the sum of the words modulo 65535 if and only if the quotient lost by wrapping is a multiple of 65535. |
| `Checksum.ShortDataResidue` | kernel/src/net/mod.rs:152-165 | Up to 65536 words it always is, and it is zero only for a zero sum. |
| `Checksum.WrittenChecksumChecks` | kernel/src/net/mod.rs:152-165 | For data of any even length, writing the checksum into a zero word and computing again gives zero, as section 1 of RFC 1071 requires. |
| `Checksum.ComplementFits` | kernel/src/net/mod.rs:157-162 | What the register holds and the complement of its fold never exceed the register together, and add up to a multiple of 65535. |
| `Checksum.ByteOrderIndependent` | kernel/src/net/mod.rs:152-165 | Up to 65536 words, exchanging the bytes of every word exchanges the bytes of the checksum, as section 2 of RFC 1071 says. |
| `InputEvents.BatchExact` | kernel/src/drivers/input/mod.rs:221-241 | A batch is appended as far as it fits if and only if the buffer is not empty or the batch has at most 63 events, accidental repetition aside. |
| `InputEvents.SmallBatchesInOrder` | kernel/src/drivers/input/mod.rs:221-263 | With batches of at most 63 events the buffer is a first-in first-out queue in every run. |
| `InputEvents.FullTurnLost` | kernel/src/drivers/input/mod.rs:221-241 | A batch of 64 events into an empty buffer is lost. |
| `InputEvents.EventBuffer.Write` | kernel/src/drivers/input/mod.rs:232-235 | The loop writes round and round; the last 64 events stay. |
| `InputEvents.EventBuffer.AddEvents` | kernel/src/drivers/input/mod.rs:221-241 | The new contents as a function of the old and the batch, across wrap-around. |
| `InputEvents.EventBuffer.ConsumeEvent` | kernel/src/drivers/input/mod.rs:243-250 | Removes and returns the oldest event. |
| `InputEvents.EventBuffer.ConsumeEvents` | kernel/src/drivers/input/mod.rs:252-263 | Moves the oldest events in order into the buffer given, as many as fit, and leaves the rest of both alone. |
| `InputEvents.Perform` | kernel/src/drivers/input/mod.rs:221-263 | A run of batches and reads on the slots gives out and leaves exactly what the run on values does; with batches of at most 63 events both together are, in order, the parts of the batches that fitted. |
| `Paths.ResolvePath` | kernel/src/vfs/path.rs:93-108 | The loop keeps the pieces between slashes that are neither empty nor a single dot. |
| `Paths.Display` | kernel/src/vfs/path.rs:81-91 | The loop prints each component behind a slash, and a slash for the empty path. |
| `Paths.JoinSplit` | kernel/src/vfs/path.rs:93-94 | Splitting undoes joining pieces without slashes. |
| `Paths.RoundTripExact` | kernel/src/vfs/path.rs:81-108 | Resolving a printed path gives the path back if and only if every component is non-empty, slash-free and not a single dot. |
| `Paths.ResolveIdempotent` | kernel/src/vfs/path.rs:81-108 | For every string, resolving the printed form of what it resolves to gives the same path. |
| `Paths.ResolveAppend` | kernel/src/vfs/path.rs:93-108 | Joining two strings with a slash joins their paths. |

## Left out

- Weak memory ordering: atomic operations are sequentially consistent.
- `Arc::into_raw`, `Arc::from_raw`, the printing in debug builds, and overflow of the two counters.
- The list of wakers of the asynchronous lock, and cancelled lock futures: that a waiting task is polled again is not claimed, nor what a cancelled one leaves behind.
- The spinning reader/writer lock `RWSpinlock`, whose proof would be an easier copy of the asynchronous one.
- In the macro, everything it clones without looking inside; such parts are leaves whose meaning is a parameter of the theorems and which declare the jumps they contain and the names in their patterns. Values carried by a break are not modelled.
- UnrollScope.ScopeExact: only names are looked at. Types are not modelled: the constant is a `usize` whatever type the loop variable had (unroll/src/lib.rs:167), so a body that needs another type no longer compiles. Nor are bodies that are legal only once the variable is a constant, such as an inner function that uses it (kernel/src/drivers/pci/mod.rs:257-263).
- UnrollScope.UnrollIsSound: programs with a refutable pattern that names the variable of an unrolled loop around it are excluded, because what they do can change (`TestingLoopExact`).
- UnrollMeaning.UnrollKeepsMeaning: a loop range written without a start (`..n`) is excluded, because it is not an iterator in Rust; the macro unrolls it from zero.
- BuddyAllocation.BuddyAllocator.Init: the memory map is a list of usable page numbers; finding a region for the bitmap is not modelled, and a machine has at least five pages.
- BuddyAllocation.BuddyAllocator.AllocateContiguous: what memory holds after marks behind the tree is not modelled; the model stops there.
- Debug assertions. The one in buddy_allocator.rs:187 compares an address with the number of allocatable pages, so a debug build stops there on a memory map with holes.
- The page header's pointer to its first block, which the code writes on allocations and returns but does not read after the page has been set up: nothing is claimed of it.
- The heap's large allocations, which go to whole pages, and giving pages back.
- The device driver side of the block cache, the copying of `CacheReader` and `MountedPartition::write`; an eviction's write is applied at once, and a read takes its data when it starts.
- AreaAllocation.RunKeeps: requests are for at least one page and frees are at the start of a recorded area, because the other cases break the invariant (`FreeExact`, `EmptyRequestExact`, `EmptyFreeExact`).
- Address extension, page size and the start-up of the virtual allocator; areas are ranges of page numbers without an upper bound, and the ordered sets are sets with the queries the code makes of them.
- Filesystem drivers, permissions and link counts; a directory that cannot be read and a device that is not there are one error.
- Mounts that form a cycle, on which the resolution loop does not end, as with the mount of the root on itself that mounting a root filesystem leaves.
- FsTree.StepInv: each operation is one step with the filesystem; `LateLinkExact`, `LateLoadExact` and `LateUnlinkHeals` say what each half does when it comes late.
- Reuse of a process number after the counter has wrapped; a new process has a number that is not in use.
- Saving and restoring processor state and address spaces in the scheduler and in the task runner.
- TaskRunning.RunInv: the queue is an unbounded sequence; a push that never returns (`PushReturnsExact`) is no step of a run. The task numbers do not wrap.
- The queue's `append` and `take_queue`, and a push into a full queue, which does not return.
- Other users of the checksum, and the network protocols.
- The waker of the input buffer and the event types; events are values of any type.
- The panic of path validation on dots.
- Hardware access, page tables, interrupts, ACPI, PCI, drivers, the terminal, the shell and the build scripts.

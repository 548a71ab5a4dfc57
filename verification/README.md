# Linux 0.11: memory, buffers, files, sleeping

This project models the parts of the Linux 0.11 kernel whose correctness rests on an invariant kept
by many functions, and proves what those parts promise over every run.

* **Paging** (`PageEntry`, `PagingModel`, `PagingInvariant`, `PagingLeaf`, `PagingFrames`,
  `PagingRelease`, `PagingFork`, `PagingFault`, `PagingRuns`, `PagingLimits`, `PagingCode`): page
  directories, tables and page counts of `mm/memory.c`. Counts are exact, copy-on-write isolates
  tasks, fork gives the child its parent's memory or undoes everything, and fails exactly when memory
  is short.
* **Buffer cache** (`BufferIndex`, `BufferLinks`, `BufferCode`, `BufferCache`, `GetBlock`): the hash
  chains and the free ring of `fs/buffer.c` on their pointers, the cache with its sleeping users and the
  disk interrupt as a protocol that behaves like one plain store of blocks, and `getblk` on the pointers
  as steps of that protocol.
* **Request queue** (`Elevator`, `ElevatorCode`, `Requests`): the order in which `add_request` serves a
  device, and the queue as the buffer cache fills it.
* **Files** (`FileModel`, `FileInvariant`, `FileBytes`, `FileSpace`, `FileTruncate`, `FileRuns`,
  `FileCode`): zone bitmap, block map, `file_read`, `file_write` and `truncate` as operations on
  zero-filled byte arrays.
* **Inode table** (`InodeTable`): `iget`, `iput`, `get_empty_inode`, `write_inode`, `new_inode` and
  `free_inode` as a protocol.
* **Sleeping and time** (`WaitQueue`, `Scheduler`, `Timers`): `kernel/sched.c`.
* **Pipes** (`Pipe`), **arguments of a new program** (`ExecArgs`), **kernel heap** (`Malloc`,
  `MallocCode`).
* `Lists` holds lists threaded through arrays of pointers, and `Common` what else several of these
  share.

Each part has the same form. State is a value and what the code does is a function of it; the theorems
are about those functions and about runs of them. Where the source changes things in place, a class
holds the arrays and pointers, and its methods, loops included, are proved to compute those functions.
A protocol is a set of steps, one for every stretch of code between two points where a task can give up
the processor, and a run is any sequence of steps that are possible one after the other.

Some results are about code that does not keep its promise everywhere, each with the exact condition
under which it does:

* `BufferCache.StoreExact`: a store into a buffer is read back after every later run if and only if the
  buffer is up to date and is or gets marked dirty. `fs/block_dev.c` writes whole blocks without the
  former, and `fs/file_dev.c` marks before it copies, so a sync during the copy leaves later bytes
  unmarked.
* `InodeTable.StepUnique`: no inode comes to be in two slots, unless `new_inode` takes a number that is
  in the table; `InodeTable.FreedInodeTwice` is a run that gets there, through an `iget` of an inode
  that was freed after its directory entry was read.
* `InodeTable.WriteDoneExact`: `write_inode` takes the block from the inode it began with and the place
  in it from the inode the slot holds after the sleep. It changes another inode on disk if and only if
  the two places differ and what it stores was not there already; `InodeTable.FreedWhileWritten` is such
  a run, in which the inode is freed meanwhile.
* `Timers.OnTimeIff`: a timer goes off on time if and only if no timer that is due no later is added
  while it waits, because `add_timer` does not shorten the entry it inserts before.
* `ExecArgs.ScriptArgumentsExact`: an interpreter gets the arguments it should if and only if the script
  was started with an `argv[0]`, because `do_execve` takes one off `argc` for it in any case.
* `Elevator.AddKeepsSweeps`: the queue stays two sweeps if and only if the new request does not go to the
  end behind an equal one of the second sweep. The keys of the buffer cache differ, so there it always
  does (`Requests.RunTwoSweeps`).
* `PagingFault.KernelStoreExact`: `write_verify` makes a page private before the kernel stores into it, but
  the kernel can sleep in between. The store then changes another task's memory if and only if the page
  has more than one user; `PagingRuns.SharedMeanwhile` is such a run.
* `PagingFault.PutPageMaps`: counts stay exact if and only if `put_page` does not overwrite an entry that
  maps a counted page.

## Model

| member | source | states |
|---|---|---|
| `PageEntry.EncodeDecode` | mm/memory.c:57-61 | every 32-bit word is the packing of exactly the fields taken from it |
| `PageEntry.DecodeEncode` | mm/memory.c:57-61 | the fields of a page-table entry survive being packed into its 32-bit word and taken apart again |
| `PagingFrames.GetFree` | mm/memory.c:101-156 | the page that is given out is referred to by nobody, comes zeroed, and taking it keeps the whole invariant and every walk |
| `PagingFrames.GiveBack` | mm/memory.c:163-185 | freeing a page the kernel alone holds keeps the invariant: it has count 1 and no entry maps it |
| `PagingInvariant.ExclusiveCount` | mm/memory.c:101-185 | directories, tables and kernel pages are never shared: their count is 1 |
| `PagingInvariant.CountBound` | mm/memory.c:461-467 | a page sits at one address in at most one table of each task, so its count stays below NR_TASKS and never reaches the USED bit |
| `PagingRelease.FreeEntryStep` | mm/memory.c:190-244 | dropping one entry drops exactly one reference, never frees a free page and leaves every other entry alone |
| `PagingRelease.FreeUserTable` | mm/memory.c:190-244 | freeing a table releases every page it maps and then itself, and disturbs no other task |
| `PagingRelease.ClearTask` | mm/memory.c:252-280 | exec empties the task's 3 GB, keeps the invariant, and no other task loses or changes a page |
| `PagingRelease.ExitTask` | mm/memory.c:289-323 | exit takes the task out of the system with all its references; the others keep directory, tables and contents |
| `PagingFork.CopyEntriesAll` | mm/memory.c:434-468 | copying a table makes both sides map the same pages read-only, counts each page once more, and changes no other entry |
| `PagingFork.CopyUserTable` | mm/memory.c:411-468 | one round of the directory loop: the child's table mirrors the parent's up to the page limit and is empty above it |
| `PagingFork.ForkTheorem` | mm/memory.c:333-472 | on success the child reads exactly what its parent reads (from task 0, the first 640 KB) and the parent reads what it read; on failure every page count is as before the call |
| `PagingFork.SameCounts` | mm/memory.c:289-323 | memories with the same references have the same counts, which is how the failing fork gets every count back |
| `PagingLimits.ForkExact` | kernel/fork.c:83-86 | fork succeeds if and only if there is a free page for the task, one for the directory and one for every table of the parent |
| `PagingLimits.WriteFaultExact` | mm/memory.c:542-604 | a write fault ends in the death of the task if and only if the page is shared and no page is free |
| `PagingLimits.EmptyPageExact` | mm/memory.c:629-637 | a missing page is supplied if and only if one page is free, or two when the table is missing too |
| `PagingFault.PutPageMaps` | mm/memory.c:479-534 | a page the kernel holds becomes the task's page at that address with its contents, whatever was there, and nothing else of anybody changes; the invariant is kept if and only if the entry mapped no counted page before; without a table nothing is mapped |
| `PagingFault.OverwrittenLeaks` | mm/memory.c:525-532 | a counted page whose entry is overwritten keeps one count more than it has references |
| `PagingFault.WriteFault` | mm/memory.c:542-604 | after the fault the page is private and writable and shows what it showed before; on failure memory is untouched |
| `PagingFault.WriteIsolation` | mm/memory.c:542-604 | a user write, through the fault when the entry is read-only, changes exactly that word of that task's view and nothing any other task sees |
| `PagingFault.KernelStoreExact` | include/asm/segment.h:24-27 | a store of the kernel into user memory, which ignores the write bit, keeps counts and reserved memory, and changes what another task reads if and only if the page has more than one user |
| `PagingFault.EmptyPageFills` | mm/memory.c:629-637 | the page supplied reads as zeros |
| `PagingFault.ShareOne` | mm/memory.c:650-733 | a task that shares a page reads what the donor reads, and neither the donor nor anybody else notices |
| `PagingFault.ShareAny` | mm/memory.c:747-778 | over the whole search for a donor: either some donor's page is shared or nothing happened |
| `PagingFault.LoadFills` | mm/memory.c:784-841 | after do_no_page the address shows a donor's page or the image read from disk, and nothing else changed |
| `PagingRuns.HeadBoots` | boot/head.s:250-316 | memory as setup_paging and mem_init leave it is a booted state, wherever above the first 640 KB main memory begins |
| `PagingRuns.BootInv` | mm/memory.c:856-886 | memory as mem_init leaves it satisfies the invariant |
| `PagingRuns.StepKeeps` | mm/memory.c:101-841 | every step keeps the invariant and reserved memory |
| `PagingRuns.StepHarmless` | mm/memory.c:101-841 | every step disturbs no task but the one that acts, a store of the kernel into a page that is not shared included |
| `PagingRuns.ReachableInv` | mm/memory.c:101-841 | the invariant holds in every state any run reaches |
| `PagingRuns.RunIsolation` | mm/memory.c:333-841 | whatever the others do, a task that does not act reads at the end of any run what it read at the start, if the kernel stores into no page that is shared at that moment |
| `PagingRuns.SharedMeanwhile` | mm/memory.c:650-733 | a run in which it does: a verified page that is still clean comes to be shared before the kernel stores into it, and the other task sees the store |
| `PagingRuns.TaskZeroIsolation` | mm/memory.c:333-472 | no run of the other tasks changes the 640 KB task 0 can address |
| `PagingRuns.ReachableCounts` | mm/memory.c:101-244 | after any run a count is the exact number of references, below NR_TASKS, and get_free_page gives only pages nobody refers to |
| `PagingCode.MemoryManager.constructor` | mm/memory.c:856-886 | mem_init marks all pages used and main memory free; over the kernel's own tables this is the booted state |
| `PagingCode.MemoryManager.GetFreePage` | mm/memory.c:101-156 | on the arrays: the scan and the zeroing give the page and memory of the model |
| `PagingCode.MemoryManager.FreePage` | mm/memory.c:163-185 | the count goes down by one, never below zero, and reserved pages are left alone |
| `PagingCode.MemoryManager.FreeOneTable` | mm/memory.c:190-244 | the loop over 1024 entries computes the model's release of a table, and no free_page in it panics |
| `PagingCode.MemoryManager.ClearPageTables` | mm/memory.c:252-280 | the loop over 768 directory entries computes the model's exec |
| `PagingCode.MemoryManager.FreePageTables` | mm/memory.c:289-323 | the loop over all directory entries and the release of the directory compute the model's exit |
| `PagingCode.MemoryManager.CopyEntries` | mm/memory.c:434-468 | the inner loop computes the model's copy of a table |
| `PagingCode.MemoryManager.CopyPageTables` | mm/memory.c:333-472 | the nested loops with their out-of-memory exit compute the model's copy or its undoing |
| `PagingCode.MemoryManager.PutPage` | mm/memory.c:479-534 | table lookup, allocation and store compute the model's mapping |
| `PagingCode.MemoryManager.UnWpPage` | mm/memory.c:542-579 | the two branches, sole user and copy, compute the model's write fault |
| `PagingCode.MemoryManager.WriteVerify` | mm/memory.c:609-623 | the fault is taken ahead of time exactly for a present read-only page |
| `PagingCode.MemoryManager.GetEmptyPage` | mm/memory.c:629-637 | a fresh page is mapped, or given back when it cannot be |
| `PagingCode.MemoryManager.TryToShare` | mm/memory.c:650-733 | the checks and the two stores compute the model's sharing |
| `PagingCode.MemoryManager.SharePage` | mm/memory.c:747-778 | the loop over donors stops at the first that shares |
| `PagingCode.MemoryManager.DoNoPage` | mm/memory.c:784-841 | empty page, shared page or page from disk, as the model says |
| `BufferIndex.Hash` | fs/buffer.c:162-163 | a block always hashes to a place in the table |
| `BufferIndex.RecycleOk` | fs/buffer.c:378-389 | giving a buffer a new identity keeps both indexes exact: the ring has every buffer once, and every buffer with a device is in its own chain and in no other |
| `BufferIndex.FindIsScan` | fs/buffer.c:232-240 | the hash lookup fails if and only if no buffer holds the block, and otherwise finds the one that does |
| `BufferIndex.RunOk` | fs/buffer.c:171-227 | the indexes are exact after any sequence of recyclings |
| `BufferLinks.UnlinkAll` | fs/buffer.c:173-182 | the pointer changes take a buffer out of its doubly linked chain and leave all 306 others as they were |
| `BufferLinks.LinkAll` | fs/buffer.c:210-226 | the pointer changes put a buffer at the head of its chain and leave the others alone |
| `BufferLinks.UnlinkRing` | fs/buffer.c:183-192 | the pointer changes take a buffer out of the ring in both directions, also when it is the head or the only one |
| `BufferLinks.LinkRing` | fs/buffer.c:202-209 | the pointer changes put a buffer at the end of the ring |
| `BufferCode.BufferTable.constructor` | fs/buffer.c:521-588 | buffer_init leaves empty chains and a ring of all buffers |
| `BufferCode.BufferTable.RemoveFromQueues` | fs/buffer.c:171-193 | on the pointers: the indexes without the buffer, everything else exact |
| `BufferCode.BufferTable.InsertIntoQueues` | fs/buffer.c:200-227 | on the pointers: the indexes with the buffer under its new identity |
| `BufferCode.BufferTable.Recycle` | fs/buffer.c:378-389 | the end of getblk takes exact indexes to exact indexes |
| `BufferCode.BufferTable.FindBuffer` | fs/buffer.c:232-240 | walking the chain gives what the lookup of the model gives |
| `BufferCode.BufferTable.ChooseVictim` | fs/buffer.c:289-338 | the search along the ring gives an unused buffer of least badness, the first such in the ring, and none if and only if all are in use |
| `BufferCache.StepInv` | fs/buffer.c:249-390 | under any interleaving no block is cached twice, a buffer in use keeps its block, and every count is the number of its users |
| `BufferCache.ReferencesHold` | fs/buffer.c:265-277 | the re-check after a sleep never fails and brelse never finds a free buffer |
| `BufferCache.RequestsDistinct` | kernel/blk_drv/ll_rw_blk.c:145-154 | no two requests under way are for the same block |
| `BufferCache.StepRefines` | fs/buffer.c:77-100 | lookups, recycling, syncs, reads, read-aheads and completions change no block's contents; a lasting store changes exactly its own block; what happens to other blocks does not matter |
| `BufferCache.HeldBlock` | fs/buffer.c:410-438 | a buffer from bread shows its block's contents and stays up to date while it is held |
| `BufferCache.RunInv` | fs/buffer.c:249-403 | uniqueness, stability and counts hold over every run, with failing input and output included |
| `BufferCache.RunRefines` | fs/buffer.c:351-438 | over every run what is read from a block is the last store to it, if the steps on that block are lasting ones |
| `BufferCache.InitCoherent` | fs/buffer.c:521-588 | the table of buffer_init is coherent with whatever is on the disks |
| `BufferCache.QuietRun` | fs/buffer.c:294-438 | over every run without a store into a block its contents stay the same |
| `BufferCache.StoreLost` | kernel/blk_drv/ll_rw_blk.c:64-71 | after a store that is not lasting some run of reads, completions, releases and one recycling makes the block read as before, however many hold it and also with a write under way |
| `BufferCache.StoreExact` | kernel/blk_drv/ll_rw_blk.c:64-71 | a store that changes its block is read back after every later run without a store into it if and only if the buffer is up to date and is or becomes dirty |
| `BufferCache.WholeBlockLost` | fs/block_dev.c:27-42 | a whole block written to a buffer that was not read is undone by the next read of the block |
| `BufferCache.LateBytesLost` | fs/file_dev.c:67-82 | bytes stored after a sync has cleaned the buffer are lost when it is recycled |
| `GetBlock.BufferInit` | fs/buffer.c:521-588 | the table of buffer_init shows the initial state of the protocol |
| `GetBlock.FindShows` | fs/buffer.c:232-240 | the lookup fails if and only if the block is not cached |
| `GetBlock.SleepKeeps` | fs/buffer.c:249-277 | any one step of others leaves a task the reference it has and gives it no other |
| `GetBlock.TakeOver` | fs/buffer.c:371-389 | marking and relinking the victim on the arrays is the step Claim |
| `GetBlock.Recheck` | fs/buffer.c:346-389 | after a wait the code recycles only a buffer that is unused, unlocked and clean, for a block nobody has cached, and otherwise changes nothing |
| `GetBlock.Stretch` | fs/buffer.c:249-390 | getblk from one sleep to the next is one step Hit or Claim or leaves everything as it was; when it returns, the caller has a reference to a buffer of the block |
| `GetBlock.CallReturns` | fs/buffer.c:294-390 | however the stretches of a call interleave with the steps of everybody else, from its return on the task holds a buffer of the block, and no other buffer has the block |
| `GetBlock.Brelse` | fs/buffer.c:395-403 | brelse is the step Release, and never the panic |
| `Elevator.Place` | kernel/blk_drv/ll_rw_blk.c:82-93 | the first place where the request fits, or the end |
| `Elevator.AddKeepsSweeps` | kernel/blk_drv/ll_rw_blk.c:64-100 | a new request leaves at most two ascending runs if and only if it does not go to the end behind an equal one of the second run, so always when its key is its own; it does not displace the request in service, and adds just itself |
| `Elevator.EqualKeysBreakSweeps` | kernel/blk_drv/blk.h:52-55 | three distinct keys in two runs and an equal fourth: the queue becomes three runs |
| `Elevator.RunKeepsSweeps` | kernel/blk_drv/blk.h:121-137 | over every run the queue stays at most two sweeps if and only if no arrival is such a repetition |
| `Elevator.RunServes` | kernel/blk_drv/blk.h:121-137 | over every run the queue holds exactly the requests that came and were not served |
| `Elevator.ServedWithinTwoSweeps` | kernel/blk_drv/ll_rw_blk.c:82-98 | whatever arrives meanwhile, equal keys included, all that is served up to a waiting request is at most two ascending sweeps |
| `Requests.NewKey` | kernel/blk_drv/ll_rw_blk.c:145-215 | a buffer that is about to be queued has a key no request in the queue has |
| `Requests.RunTwoSweeps` | kernel/blk_drv/ll_rw_blk.c:64-215 | over every run of the buffer cache the queue of a driver holds one request for every buffer that waits for it, and is at most two sweeps |
| `ElevatorCode.RequestTable.FindSlot` | kernel/blk_drv/ll_rw_blk.c:165-190 | the highest free slot, for writes among the low two thirds; none only when all of those are taken |
| `ElevatorCode.RequestTable.FindPlace` | kernel/blk_drv/ll_rw_blk.c:82-93 | walking the linked queue stops at the place of the model |
| `ElevatorCode.RequestTable.AddRequest` | kernel/blk_drv/ll_rw_blk.c:64-100 | the splice puts the slot at that place of its own queue and leaves the other devices' queues alone |
| `ElevatorCode.RequestTable.MakeRequest` | kernel/blk_drv/ll_rw_blk.c:155-215 | the queue of the device gains the request in elevator order, and writes hold only the low two thirds of the slots |
| `ElevatorCode.RequestTable.EndRequest` | kernel/blk_drv/blk.h:121-137 | the head leaves the queue and its slot is free again |
| `FileInvariant.BlankInv` | fs/bitmap.c:141-217 | a disk with an empty zone map and empty files is consistent |
| `FileInvariant.EnsureSlot` | fs/inode.c:99-202 | filling a slot of the block map keeps every zone owned once, changes no other slot and no contents, and a failure changes none |
| `FileInvariant.NewZone` | fs/bitmap.c:141-217 | the zone new_block gives is in range, was free, and no slot named it |
| `FileInvariant.LeakedBit` | fs/bitmap.c:170-193 | a bit beyond the last zone is set and wasted, but ownership is still exact |
| `FileBytes.EnsurePath` | fs/inode.c:99-202 | create_block fills the one, two or three slots on the way to a block and changes no byte of any file |
| `FileBytes.WriteRefines` | fs/file_dev.c:48-90 | file_write changes exactly the bytes it reports, makes the size the larger of itself and the end, and touches no other file |
| `FileBytes.WriteStops` | fs/file_dev.c:64-68 | when it leaves bytes unwritten every zone of the device is taken |
| `FileSpace.CreateExact` | fs/inode.c:99-202 | create_block succeeds if and only if there are as many free zones as slots without one on the way to the block, and takes exactly so many |
| `FileSpace.WriteExact` | fs/file_dev.c:64-68 | the first k bytes are written if and only if the slots without a zone on the way to them are no more than the free zones |
| `FileBytes.ReadRefines` | fs/file_dev.c:17-46 | file_read returns exactly the slice of the byte array, holes as zeros |
| `FileBytes.WriteThenRead` | fs/file_dev.c:17-90 | what was written is what is read back |
| `FileTruncate.TruncateTheorem` | fs/truncate.c:47-64 | truncate frees exactly the zones reachable from the inode, the block map is zero everywhere, and other files keep every byte |
| `FileTruncate.TruncateClears` | fs/truncate.c:11-64 | the bits cleared are those of the zones this file names through direct, indirect and double indirect blocks |
| `FileTruncate.TruncateNeverPanics` | fs/truncate.c:11-64 | every single free_block on the way is of a zone in range whose bit is set at that moment |
| `FileRuns.ApplyChanges` | fs/file_dev.c:48-90 | one write or truncate does to every file what it does to a plain array of bytes |
| `FileRuns.RunIsFold` | fs/file_dev.c:48-90 | over every run of writes and truncates ownership of zones stays exact, and size and bytes of every file are the operations folded over a plain array |
| `FileRuns.RunReads` | fs/file_dev.c:17-90 | a read at the end of any run gives the slice of that array |
| `FileRuns.RunKeeps` | fs/file_dev.c:48-90 | a file that no operation of a run names keeps its size and every byte |
| `FileCode.Volume.FindFirstZero` | fs/bitmap.c:43-57 | the first clear bit of a map block, or 8192 |
| `FileCode.Volume.NewBlock` | fs/bitmap.c:141-217 | the loop over the map slots and the setting of the bit compute the model's allocation |
| `FileCode.Volume.FreeBlock` | fs/bitmap.c:65-129 | the bit is cleared, for a zone that is in range and taken |
| `FileCode.Volume.BlockMap` | fs/inode.c:99-202 | the three branches of _bmap, with and without create, compute the model's map |
| `FileCode.Volume.FileRead` | fs/file_dev.c:17-46 | the loop over blocks returns the bytes of the file and their number, moves the file position by it, and leaves the volume alone |
| `FileCode.Volume.FileWrite` | fs/file_dev.c:48-90 | the loop over blocks computes the model's write, with the result and the new file position |
| `FileCode.Volume.FreeInd` | fs/truncate.c:11-27 | the loop over an indirect block frees its zones and then itself |
| `FileCode.Volume.FreeDind` | fs/truncate.c:29-45 | the loop over a double indirect block frees everything below it and then itself |
| `FileCode.Volume.Truncate` | fs/truncate.c:47-64 | the whole of truncate computes the model's |
| `InodeTable.StepHeld` | fs/inode.c:227-534 | under any interleaving a slot in use keeps its inode and counts are exact |
| `InodeTable.StepUnique` | fs/inode.c:359-444 | no inode comes to be in two slots, if and only if new_inode takes no number that is in the table |
| `InodeTable.UsedIsProper` | fs/bitmap.c:288-344 | while only inodes that exist are in the table new_inode takes no such number, and that lasts exactly until iget is asked for one that does not exist |
| `InodeTable.FreedInodeTwice` | fs/namei.c:446-450 | iget of an inode that has been freed, and a new_inode after it, put one inode into two slots |
| `InodeTable.StepInv` | fs/inode.c:227-444 | both together for every other step |
| `InodeTable.HeldIsCounted` | fs/inode.c:227-233 | iput of a held inode never finds a free one |
| `InodeTable.StepRefines` | fs/inode.c:359-534 | finding, claiming, reading, writing back and releasing change no inode; changes, new and freed inodes change exactly their own |
| `InodeTable.WriteDoneExact` | fs/inode.c:495-534 | the end of write_inode touches no other inode on disk if and only if the slot still has an inode with the same place in its block or stores what was there |
| `InodeTable.FreedWhileWritten` | fs/inode.c:257-261 | an inode freed while a sync writes it: the last inode of its block is wiped, which is harmless if and only if it is that inode or blank on disk |
| `InodeTable.RunHeld` | fs/inode.c:227-534 | over every run, without exception, a slot in use keeps its inode and counts are exact |
| `InodeTable.RunUnique` | fs/inode.c:359-444 | over every run in which iget is asked only for inodes that exist no inode is in two slots |
| `InodeTable.RunRefines` | fs/inode.c:227-534 | over every run in which new_inode takes no number in the table and no inode is freed while it is written, table and disk agree, and every inode is what it was last changed to, a new one, or what the disk has of a freed one |
| `InodeTable.HeldInodeStays` | fs/inode.c:359-444 | over every run an inode from iget stays in its slot for as long as it is held |
| `InodeTable.SlotShowsInode` | fs/inode.c:446-489 | a slot that was read shows the attributes last set |
| `InodeTable.BootTable` | fs/inode.c:274-337 | an empty table is coherent with any disk |
| `InodeTable.EmptySearch.constructor` | fs/inode.c:280-311 | 32 unused slots, the cursor at the first |
| `InodeTable.EmptySearch.FindEmpty` | fs/inode.c:280-311 | one turn round the table from the cursor gives a clean unlocked unused slot if there is one, any unused one otherwise, and none only when all are in use |
| `WaitQueue.StepInv` | kernel/sched.c:211-241 | no task inside sleep_on is ever in two places |
| `WaitQueue.ThenSame` | kernel/sched.c:211-241 | no sleeper is lost by anybody's sleeping, waking or returning |
| `WaitQueue.WakeReleases` | kernel/sched.c:304-320 | one wake_up releases all sleepers of the queue; each needs as many others to run first as slept after it |
| `WaitQueue.RankStep` | kernel/sched.c:231-240 | a released sleeper stays released and comes one nearer whenever the task it hangs on runs |
| `WaitQueue.WakeReachesAll` | kernel/sched.c:304-320 | in every run after a wake_up each sleeper of that moment has returned or hangs on a task that can run |
| `WaitQueue.WaitQueues.constructor` | kernel/sched.c:211-241 | empty queues, every task awake |
| `WaitQueue.WaitQueues.SleepOn` | kernel/sched.c:211-234 | the pointer swap records the new sleeper at the head of its chain |
| `WaitQueue.WaitQueues.Resume` | kernel/sched.c:235-241 | a task that runs again passes the wake-up on to the one it found |
| `WaitQueue.WaitQueues.WakeUp` | kernel/sched.c:304-320 | waking the head and clearing the queue releases the whole chain |
| `Scheduler.ScanFindsLargest` | kernel/sched.c:163-173 | one pass finds a runnable task with the largest counter, or that there is none |
| `Scheduler.ScheduleChooses` | kernel/sched.c:154-186 | schedule takes at most two passes, ends with a runnable task of positive and largest counter or with task 0, and recharges if and only if tasks can run but have no time left |
| `Scheduler.ScheduleBounded` | kernel/sched.c:182-185 | counters below twice the priority stay so through any recharge |
| `Scheduler.TickBounded` | kernel/sched.c:481-495 | and through any tick |
| `Scheduler.RunBounded` | kernel/sched.c:154-186 | over any run of ticks, recharges, and tasks that come, go, sleep and wake, counters stay below twice the priorities |
| `Scheduler.TickRound` | kernel/sched.c:481-495 | while the same tasks stay runnable, after any tick in user or kernel mode each has had its priority less its counter, and what it overran, since the last recharge; the tick that recharges finds that each has had exactly its priority and what it overran; after a user tick a task with time left has the processor |
| `Scheduler.TicksRound` | kernel/sched.c:481-495 | this goes on for any sequence of ticks |
| `Scheduler.UserTicksFair` | kernel/sched.c:481-495 | with user ticks alone nothing is overrun |
| `Scheduler.RoundEnds` | kernel/sched.c:154-186 | every round comes to its recharge after exactly the user ticks the runnable tasks had left |
| `Scheduler.RechargeStartsRound` | kernel/sched.c:182-185 | any recharge starts such a round, whatever happened before |
| `Scheduler.Nice` | kernel/sched.c:537-542 | a positive priority stays positive |
| `Scheduler.Processor.constructor` | kernel/sched.c:154-160 | task 0 alone |
| `Scheduler.Processor.Reschedule` | kernel/sched.c:154-186 | the loop ends in its second pass at the latest with the choice of the model |
| `Scheduler.Processor.DoTimer` | kernel/sched.c:481-495 | a tick counts down the current task and schedules only from user mode |
| `Timers.InsertDue` | kernel/sched.c:426-439 | a new timer goes behind exactly those due before it; the others are put off by what was left of it |
| `Timers.NewDue` | kernel/sched.c:426-439 | a new timer is due after exactly its time |
| `Timers.TickDue` | kernel/sched.c:466-476 | a tick brings every timer one nearer and sets off the head, alone, when it is due |
| `Timers.RunLedger` | kernel/sched.c:402-476 | over every run the functions called and those still waiting are those that were waiting and those asked for: each is called, and called once |
| `Timers.RunOnSchedule` | kernel/sched.c:402-476 | over every run a waiting timer is its time, and what it was put off by, less the ticks so far from going off |
| `Timers.GoneIff` | kernel/sched.c:466-476 | a timer has gone off if and only if there have been as many ticks as its time and what it was put off by |
| `Timers.GoneByCall` | kernel/sched.c:466-476 | the step on which it goes off is a tick that calls its function and no other |
| `Timers.OnTimeIff` | kernel/sched.c:430-439 | it is on time if and only if no timer that is due no later is added while it waits |
| `Timers.EqualTimersLate` | kernel/sched.c:430-430 | two equal timers added at once: the first goes off after twice its time |
| `Timers.TimerTable.constructor` | kernel/sched.c:393-400 | 64 free slots and an empty list |
| `Timers.TimerTable.AddTimer` | kernel/sched.c:402-440 | no function is ignored, a time of zero or less calls the function at once, and otherwise taking a slot and swapping contents along the list computes the insertion of the model |
| `Timers.TimerTable.DoTimer` | kernel/sched.c:466-476 | the loop calls exactly the functions of the expired timers, in order |
| `Pipe.TakeChunk` | fs/pipe.c:24-35 | a chunk read up to the end of the page is the oldest bytes, and the rest remains |
| `Pipe.GiveChunk` | fs/pipe.c:54-65 | a chunk written up to the end of the page comes after all bytes there were |
| `Pipe.Ring.Read` | fs/pipe.c:17-36 | the loop takes the oldest bytes, as many as there are or are wanted, in order |
| `Pipe.Ring.Write` | fs/pipe.c:45-66 | the loop appends the first bytes, as many as fit below 4096 |
| `Pipe.EventInv` | fs/pipe.c:13-69 | every stretch of a reader or writer keeps the order of bytes, and whoever sleeps in the queue has nothing to do |
| `Pipe.RunOrder` | fs/pipe.c:13-69 | for any interleaving the bytes read are a prefix of the bytes written and at most 4095 are under way |
| `Pipe.NoMissedWakeup` | fs/pipe.c:18-23 | a task asleep although it could go on hangs on a task that is already woken |
| `ExecArgs.ArgPages.NextPage` | fs/exec.c:193-209 | the page of a byte is there afterwards, at the cost of one free page if it was absent; it fails only without one |
| `ExecArgs.ArgPages.CopyStrings` | fs/exec.c:125-222 | copying backwards puts all strings with their zeros just below p, touches no other byte, allocates exactly the absent pages in between, and gives 0 if and only if those are not to be had or the block is filled to its first byte |
| `ExecArgs.CreateTables` | fs/exec.c:51-75 | argc, argv and envp lie below the strings, aligned, and entry i points to string i with a null pointer at the end |
| `ExecArgs.Exec` | fs/exec.c:436-452 | it succeeds if and only if the strings leave the first byte free and the absent pages can be had, and then the new program sees exactly its arguments and its environment |
| `ExecArgs.ExecScript` | fs/exec.c:388-411 | it succeeds under the same condition on all strings together, and then an interpreter sees the first argc of name, argument, script, the script's arguments and environment, and the rest as environment, with the tables below the strings |
| `ExecArgs.ScriptArgumentsExact` | fs/exec.c:388-407 | that is what it should see if and only if the script had an argv[0] |
| `Malloc.LiveDisjoint` | lib/malloc.c:117-173 | two objects that are out never overlap |
| `Malloc.AllocGives` | lib/malloc.c:117-173 | malloc gives an object that is large enough and that nobody has, and takes nothing back |
| `Malloc.FreeTakes` | lib/malloc.c:182-231 | free_s takes back exactly its object, and the page goes back if and only if it was the last one out of it |
| `Malloc.PagesInUse` | lib/malloc.c:208-228 | the heap holds exactly the pages objects are out of |
| `Malloc.RunLedger` | lib/malloc.c:117-231 | over any run the objects out are exactly those given and not freed |
| `MallocCode.KernelHeap.constructor` | lib/malloc.c:77-92 | empty chains and no spare descriptors |
| `MallocCode.KernelHeap.InitBucketDesc` | lib/malloc.c:97-115 | a page of descriptors joins the spare ones and no bucket changes |
| `MallocCode.KernelHeap.CutPage` | lib/malloc.c:159-164 | the objects of a new page are linked through their first words, and no other page is written |
| `MallocCode.KernelHeap.AddBucket` | lib/malloc.c:146-167 | a new page comes to the front of its chain with all its objects free |
| `MallocCode.KernelHeap.Malloc` | lib/malloc.c:117-173 | searches and pointer changes give the object and heap of the model |
| `MallocCode.KernelHeap.FreeS` | lib/malloc.c:182-231 | search, link and unlink give the heap of the model, and report whether the page goes back |

## Left out

- Boot, traps, context switch, TLB flushing, FPU state, devices other than "a request completes": a task switch is "another task takes a step".
- Paging assumes that main memory begins above the first 640 KB, as it does on every machine (init/main.c puts it at 1 MB or above).
- Paging takes user accesses as aligned words, and takes the page image read from disk and the order of donors as parameters; the accessed bit set by the processor on reads is not modelled, and task 0 writes no user memory.
- Paging: runs have put_page only for missing pages, which all its callers see to (PagingFault.PutPageMaps says what happens otherwise), and the unchecked put_page in change_ldt is taken to succeed; free_page_tables switches cr3 after the loop over the tables, which no other step can see.
- BufferCache: the 8-bit wrap of b_count, media changes (invalidate_buffers) and the choice of the device queue by major number.
- BufferCache.RunRefines: for runs in which no write of the block fails and every store into it is lasting; a failed write loses the block, while failed reads, whatever happens to other blocks and the whole protocol part (BufferCache.RunInv) are covered.
- GetBlock: the sync of a dirty victim, which is a run of the steps Lock and Queue; sleeping on buffer_wait is a return to the start.
- Elevator: the queue of one device at a time; starting the device on an empty queue and waiting for a free slot are the caller's.
- File layer: one operation at a time, because _bmap can sleep between a test and a store; a block beyond the double indirect range is a precondition, since the code panics there; input and output errors, times and permissions are not modelled, and freed blocks keep their contents.
- FileCode.Volume.FreeBlock: the cached copy that free_block discards is part of BufferCache (step Forget), not of the file layer; so is the case that the block has another user, in which free_block returns and the bit stays set, which needs a second operation under way.
- PagingCode.MemoryManager.DoNoPage: one call at a time; in runs the sleep while the page is read is the steps KernelTakes, KernelFills and KernelMaps.
- InodeTable: mounts restart the same scan and are not separate steps; media changes (invalidate_inodes) are left out.
- WaitQueue: interruptible_sleep_on, which can leave a queue pointing at a task that is awake.
- Scheduler: alarms and signals at the start of schedule; fairness is stated for tasks that stay runnable, and the bound on counters without nice, which can put a priority below half the counter until that is used up.
- Timers: functions that add timers while they are called.
- Timers.TimerTable.AddTimer: a full table, where the code panics, is a precondition.
- Pipe: page faults during the copy to or from the user, so that each stretch between sleeps is one step.
- ExecArgs.ArgPages.CopyStrings: strings that do not fit into the 128 KB block are excluded, because the unsigned test in copy_strings lets them through and the code then writes through pointers below the block.
- ExecArgs: parsing of the line after #!, and everything else do_execve does.
- MallocCode.KernelHeap.FreeS: the second search for the previous descriptor, which only an interrupt between the first search and the lock makes necessary; running out of memory, a request of more than a page and freeing an object that is not out, where the code panics, are preconditions.
- fs/namei.c, fs/super.c, permissions, mounting, signals, string and formatting code: long, with little that spans operations.

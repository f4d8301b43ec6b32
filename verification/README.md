# A verified model of the coursework repository

The repository collects course projects in C, C++, Java and Python. This project
models the ones whose correctness is hard to see and proves it in Dafny. Each
part stands alone; the files of a part import one another, and a program that
works by updating state is modelled by classes, arrays and loops proved against
functions and predicates, about which the theorems are.

- **The xv6 storage stack.** `BufferList`, `BufferCache` and `PinnedBuffers` are
  the block cache with its linked list and the in-memory disk; the disk keeps a
  ghost history of every write. `CrashModel` says what a disk image means to
  recovery, and what any number of crashes does to it, `LogLives` the whole life of
  a disk under many transactions and crashes; `LogCopy` and `Log` are the log's
  code, whose writes are proved to be exactly those of the crash model and whose
  operations to be the steps of `LogSteps`. `LogSpace` asks, over all runs of such
  steps by concurrent calls and of processes that read meanwhile, when the panics
  can be reached. `FileBlocks`, `FileBytes`, `FileCounts` and `FileSystem` are the
  bitmap and inode layer: every block has exactly one use, and `readi`, `writei`
  and `itrunc` do to the bytes of files what they should. `FileCrashes` reads a
  file system from a disk image and takes file operations through crashes.
- **xv6 memory and scheduling.** `PageTables`, `PageCounts` and `AddressSpaces` are
  the page allocator and the page tables, with how many pages each operation needs;
  `FreeLists` and `Allocator` the user-level `malloc`; `SleepLocks` all interleavings
  of sleep locks, wakeup and kill.
- **Two-phase commit.** `TwoPhaseNodes` has the worker and the coordinator as
  they are written; `TwoPhase` the system of them with crashes, restarts and
  failing calls, and its safety; `TwoPhaseBrain` shows that the coordinator's loop
  takes the steps of that system; `TwoPhaseRounds` its progress and what goes wrong
  under late and repeated messages; `TwoSlotLog` the file that makes the log
  entries durable, byte by byte, and `TwoPhaseOnDisk` the system over such files,
  which refines the one with atomic entries.
- **Optimal algorithms.** `MaxFlow` and `Scheduling` (Ford-Fulkerson and the course
  registration problem it decides), `DisjointSets`, `Forests`, `Kruskal`,
  `HookUp`, `SubGraphs` and `Wiring` (the wiring problem), `Heaps`, `HuffmanTrees`, `Profiles`, `Huffman`,
  `HuffmanCodes` and `HuffmanEncoder` (Huffman coding and decoding).
- **Refinements and arithmetic.** `Life` and `LifeThreads` (the parallel Game of
  Life against the serial one), `AvlTrees` and `AvlNodes`, `Congruences`, `Fields`,
  `Curves` and `ScalarMultiples` (prime fields and the curve y^2 = x^3 + b), and
  `Words`, `Y86Set`, `Y86Assembler` and `Y86Loader` (the assembler, through the
  loader, against the simulator's fetch), with `Y86Lines`, which says without the
  instruction table what each line means, `Y86Step` and `Y86Programs`, the
  simulator's step and what it does to registers and memory, and `Y86Execution`,
  from the written line to its effect.

`Wrappers`, `IntSets` and `Sums` hold what several parts share. `dafny verify
dfyconfig.toml` checks everything.

## What the proofs found

Where the code does not do what one would expect, the model keeps the code and
proves when it does.

- `log_write` can panic for any size of the log area, because the test for a full
  log comes before absorption; for blocks new to the log exactly if the area has no
  more than LOGSIZE blocks, as on the image that `mkfs.c` makes
  (`LogSpace.WritePanics`, `NewBlockPanics`).
- `commit` needs a free buffer, and processes that read files hold some without
  being admitted by the log: it can run out of them exactly if the log area, when it
  has room for a block, and the buffers that such processes may hold are together
  more than the cache has. On the shipped image one logged block and 29 buffers held
  are enough (`LogSpace.CommitPanics`, `ReadersPanicCommit`).
- The two-slot log is atomic except for its very first write: a crash in it can
  leave a file that does not open (`TwoSlotLog.FirstWriteCrash`, `FirstWriteCanBeLost`).
- Two-phase commit depends on in-order delivery: one late vote leads to a log entry
  that no restart can read, and one repeated `SetValue` commits a value that was only
  agreed to, unless both are the same (`TwoPhaseRounds.LateVotePoisonsLog`,
  `LateSetValueCommits`, `RepeatIsHarmlessIff`).
- Adding points on a vertical line does not fail but gives (-2x, -y), which is
  on the curve exactly if 9x^3 vanishes (`Curves.SumStaysIff`, `DoubleStaysIff`;
  `ChordLeaves` and `TangentLeaves` are instances).
- Parallel and serial Life agree for all step counts exactly on boards with a dead
  border (`Life.AlwaysAgreeIff`).
- Text with one distinct character gets the empty code and cannot be decoded
  (`HuffmanCodes.RoundTripIff`, `OneLetterIsLost`).
- Requests above 2^32 - 8 bytes wrap in `malloc` and get a block that is too small;
  from just below 2^31 on, `sbrk` is passed a wrong number
  (`Allocator.UnitsSufficeIff`, `SbrkArgumentIff`, `WrappedRequests`).
- A course that is listed but requested by nobody ends the scheduling program with
  a null pointer, and a switch without a cross edge the wiring program
  (`Scheduling.Decide`, `HookUp.HookSwitches`).
- `.align` rounds as C divides: from a negative address it can go one alignment too
  far (`Y86Assembler.AlignedBelowZero`).
- A label on a line with `.pos` or `.align` stands for the address before the
  directive takes effect (`Y86Assembler.LabelResolves` with `PosAt`).

## Model

| member | source | states |
|---|---|---|
| CrashModel.AllOrNothing | operating-systems/xv6-OS/log.c:1-29 | a crash at any disk write of commit, followed by any number of crashes in recovery: once recovery has finished, the home blocks hold all of the transaction or none of it, and the log is empty |
| CrashModel.Durable | operating-systems/xv6-OS/log.c:98-113 | once the header block is written nothing can undo the transaction, whatever crashes follow |
| CrashModel.CommitCrash | operating-systems/xv6-OS/log.c:192-202 | the commit point is write number n, the header: each disk before it recovers to the old contents, each from it on to the new ones |
| CrashModel.RecoverAgain | operating-systems/xv6-OS/log.c:115-122 | recovering a disk on which recovery was cut off after any number of installed blocks ends in the disk that undisturbed recovery gives |
| CrashModel.RecoveredIsClean | operating-systems/xv6-OS/log.c:115-122 | recovery leaves an empty log and is idempotent |
| CrashModel.CrashRunRecovers | operating-systems/xv6-OS/log.c:115-122 | any chain of crashes inside recovery ends, when recovery at last finishes, where the first attempt would have |
| CrashModel.HeaderRoundTrip | operating-systems/xv6-OS/log.c:86-113 | read_head reads back exactly the transaction that write_head wrote, whatever the block held before |
| CrashModel.HeaderWords | operating-systems/xv6-OS/log.c:98-113 | the count comes first in the header, then the block numbers in order |
| LogLives.LifeIsSerial | operating-systems/xv6-OS/log.c:1-29 | all or nothing over the whole life of a disk: after any number of transactions, each committed or cut off by a crash at any write, with any crashes in each recovery, the home blocks hold what some of the transactions, in order and each as a whole, make of the first disk; every transaction whose commit returned is among them |
| LogLives.AttemptIsAtomic | operating-systems/xv6-OS/log.c:115-122 | one commit with its crashes leaves all or none of the transaction, all of it if it returned, and a disk from which the next one can start |
| LogLives.ConsistencySurvives | operating-systems/xv6-OS/log.c:1-29 | whatever every transaction preserves of the home blocks, such as the consistency of a file system, holds after every crash |
| Log.Log.constructor | operating-systems/xv6-OS/log.c:53-66 | initlog recovers: the disk becomes the recovered one by exactly the writes of recovery, and the log is empty |
| Log.Log.RecoverFromLog | operating-systems/xv6-OS/log.c:115-122 | through the cache, the disk becomes the recovered one, write by write as the crash model says |
| Log.Log.ReadHead | operating-systems/xv6-OS/log.c:85-96 | the transaction in memory becomes the one named on the disk; nothing else changes |
| Log.Log.Commit | operating-systems/xv6-OS/log.c:192-202 | while other processes go on holding buffers of other blocks, succeeds exactly if a buffer is left over (n and those held are fewer than NBUF) or n is 0; its disk writes are those of the crash model in order, every prefix is crash safe, and in the end the disk shows outside the log what the cache showed |
| Log.WriteLog | operating-systems/xv6-OS/log.c:177-190 | the pinned contents are copied to the log blocks in order, one disk write each; fails, before the first write, exactly if the n pinned buffers and those that others hold are all NBUF |
| Log.InstallTrans | operating-systems/xv6-OS/log.c:69-82 | the logged blocks are copied to their homes in order, one disk write each, and become unpinned; buffers that others hold are left alone |
| Log.WriteHead | operating-systems/xv6-OS/log.c:98-113 | one disk write: the header block names the transaction |
| Log.Log.LogWrite | operating-systems/xv6-OS/log.c:204-233 | a block is in the transaction once: absorbed if it was there, else appended, and pinned; refused exactly at a full header, a full log area or outside a transaction; a step of LogSteps, its panic included |
| Log.Log.TryBeginOp | operating-systems/xv6-OS/log.c:125-141 | admits a call exactly if no commit runs and the log has room for all calls at their full size; a step of LogSteps |
| Log.Log.EndOp | operating-systems/xv6-OS/log.c:144-174 | the last call to end commits, crash safely, whatever buffers others hold; the others leave disk and transaction alone; when exactly it panics; a step of LogSteps |
| LogSteps.BeginIsTaken | operating-systems/xv6-OS/log.c:125-141 | what begin_op does to the log is the step Begin of the run model, whatever the running calls have written |
| LogSteps.WriteIsTaken | operating-systems/xv6-OS/log.c:204-233 | what log_write does is the step Write, by whichever call it is made |
| LogSteps.EndIsTaken | operating-systems/xv6-OS/log.c:144-174 | what end_op does is the step End, with the buffers that others hold |
| LogSpace.NeverOutgrows | operating-systems/xv6-OS/log.c:126-141 | in every run of calls that begin, write at most MAXOPBLOCKS blocks and end in any order, the transaction keeps to LOGSIZE distinct blocks |
| LogSpace.WritePanics | operating-systems/xv6-OS/log.c:214-221 | log_write can panic whatever the size of the log area: a full log refuses even a block it would absorb |
| LogSpace.NewBlockPanics | operating-systems/xv6-OS/log.c:214-221 | for a block new to the log the panic is reachable exactly if the log area has at most LOGSIZE blocks, as on the shipped image |
| LogSpace.CommitPanics | operating-systems/xv6-OS/log.c:178-190 | with a log area of size blocks and at most readers buffers held at a time by processes outside the log's calls, running out of buffers in commit is reachable exactly if size >= 2 and size + readers > NBUF; without readers, exactly if the log area is larger than the cache |
| LogSpace.ReadersPanicCommit | operating-systems/xv6-OS/log.c:178-190 | an instance on the shipped image: one logged block and readers holding the other 29 buffers |
| BufferCache.Cache.constructor | operating-systems/xv6-OS/bio.c:38-56 | binit: all buffers are on the list once, nothing is cached |
| BufferCache.Cache.Bget | operating-systems/xv6-OS/bio.c:58-93 | fails exactly if the block is uncached and no buffer is idle; else the one buffer for the block is held, a recycled one being the least recently used of the idle ones, with no unwritten change |
| BufferCache.Cache.Bread | operating-systems/xv6-OS/bio.c:95-106 | the held buffer shows what an uncached store holds for the block; the disk is unchanged |
| BufferCache.Cache.Bwrite | operating-systems/xv6-OS/bio.c:109-116 | the disk gets the buffer, in one write |
| BufferCache.Cache.Brelse | operating-systems/xv6-OS/bio.c:118-141 | the buffer has one user fewer; once it has none it is in front of the list with the others in their old order, and otherwise the list is as it was |
| BufferCache.Cache.Iderw | operating-systems/xv6-OS/memide.c:35-60 | writes a dirty buffer, else reads a stale one; whatever it does the buffer agrees with the disk |
| BufferCache.Recycled | operating-systems/xv6-OS/bio.c:78-91 | giving an idle clean buffer to an uncached block keeps the cache coherent: one buffer for a block, every valid buffer shows the store, no unwritten change lost |
| BufferCache.Cache.MoveToFront | operating-systems/xv6-OS/bio.c:129-138 | relinking a buffer behind the head keeps prev and next a doubly linked permutation of all buffers, with it in front and the others in their old order |
| BufferCache.UsersCounted | operating-systems/xv6-OS/bio.c:58-141 | a buffer got is locked and counts one user more, or the first one of another block, and a release takes one away |
| BufferList.Unlink | operating-systems/xv6-OS/bio.c:132-133 | joining the neighbours of a buffer gives the list without it |
| BufferList.PushFront | operating-systems/xv6-OS/bio.c:134-137 | linking a buffer in behind the head gives the list with it in front |
| PinnedBuffers.NoneIdle | operating-systems/xv6-OS/bio.c:76-92 | if no buffer is idle, the pinned blocks and the buffers in use are together at least NBUF |
| PinnedBuffers.AllTaken | operating-systems/xv6-OS/bio.c:58-93 | when the pinned buffers and those that others hold are all of them, none is idle and no other block is cached, so bread of one panics |
| LogCopy.CopyBlock | operating-systems/xv6-OS/log.c:74-80 | the read-read-copy-write-release lines that the log uses twice: the second block gets what the first showed, and afterwards no buffer is held but those that others held, unchanged; when exactly it can fail |
| FileSystem.FileSystem.Balloc | operating-systems/xv6-OS/fs.c:54-78 | the first free block, zeroed and marked used; none exactly if no block is free |
| FileSystem.FileSystem.Bfree | operating-systems/xv6-OS/fs.c:80-95 | marks the block free and nothing else; fails exactly if it was free |
| FileSystem.FileSystem.Bmap | operating-systems/xv6-OS/fs.c:372-400 | the place of block n of the file; an existing block is found with nothing changed, a missing one is allocated for this slot without changing a byte of any file; fails exactly out of range or if fewer blocks are free than it lacks, one and perhaps an indirect block |
| FileSystem.FileSystem.BmapIndirect | operating-systems/xv6-OS/fs.c:383-397 | the same through the indirect block, itself allocated when missing |
| FileSystem.FileSystem.Itrunc | operating-systems/xv6-OS/fs.c:407-435 | the size is 0, exactly the blocks of this file become free, no other inode and no data change |
| FileSystem.FileSystem.Readi | operating-systems/xv6-OS/fs.c:452-476 | -1 exactly if off lies beyond the size or off+n wraps; else min(n, size-off) bytes of the contents from off on, and no state changes |
| FileSystem.FileSystem.Writei | operating-systems/xv6-OS/fs.c:481-511 | -1, with nothing changed, exactly if off lies beyond the size, off+n wraps or exceeds the largest file; runs out of blocks exactly if fewer are free than the range lacks, data blocks and an indirect one; else the contents become the old ones spliced with src at off, and no other file changes |
| FileSystem.FileSystem.WriteParts | operating-systems/xv6-OS/fs.c:497-503 | the loop of writei writes src block by block and leaves every block of the longer file allocated; fails exactly if fewer blocks are free than the range lacks |
| FileBytes.Spliced | operating-systems/xv6-OS/fs.c:497-509 | what writei makes of the contents: reading the written range gives src back, every other byte stays, the size grows only as needed |
| FileBytes.WroteTwice | operating-systems/xv6-OS/fs.c:497-503 | two adjoining writes are one write of the concatenation |
| FileBytes.PartWritten | operating-systems/xv6-OS/fs.c:498-501 | overwriting part of one data block changes exactly those bytes of exactly one file and keeps all block accounting |
| FileBytes.ContentSpliced | operating-systems/xv6-OS/fs.c:505-509 | the byte changes together with the size update amount to the splice, and every other file keeps its contents |
| FileBytes.PlaceKept | operating-systems/xv6-OS/fs.c:372-400 | a block of a file stays where it is while blocks are taken |
| FileBlocks.DirectAdded | operating-systems/xv6-OS/fs.c:378-382 | giving a free block to an empty direct slot keeps: every used block has exactly one use, and is where that use says |
| FileBlocks.IndirectAdded | operating-systems/xv6-OS/fs.c:387-388 | the same for the indirect block, which starts without entries |
| FileBlocks.EntryAdded | operating-systems/xv6-OS/fs.c:389-394 | the same for an entry of the indirect block |
| FileBlocks.DataWritten | operating-systems/xv6-OS/fs.c:497-503 | writing a data block leaves all block accounting and all bytes of other blocks of files alone |
| FileBlocks.EntryDropped | operating-systems/xv6-OS/fs.c:423-428 | freeing an entry of the indirect block keeps the accounting |
| FileBlocks.WordWritten | operating-systems/xv6-OS/fs.c:389-392 | a block number put into an indirect block is read back, and the other entries are unchanged |
| FileBlocks.WordIsValue | operating-systems/xv6-OS/fs.c:373-404 | a block number is four bytes of the block, least significant first |
| FileBlocks.BitPlace | operating-systems/xv6-OS/fs.c:57-97 | the bit of a block is number b % 8 of byte b / 8, from the least significant |
| FileBlocks.ByteIsAt | operating-systems/xv6-OS/fs.c:373-404 | byte p of a file is byte p % 512 of the block that the inode, or from byte 6144 on the indirect block, names for p / 512 |
| FileBlocks.Whereabouts | operating-systems/xv6-OS/fs.c:372-400 | wherever a slot of a file points, that block is used for that slot and nothing else |
| FileSystem.AllGivenBack | operating-systems/xv6-OS/fs.c:407-435 | a file left without addresses holds no block |
| FileCounts.LackingNext | operating-systems/xv6-OS/fs.c:372-400 | block after block takes together exactly what the whole range lacked at first, the indirect block once |
| FileCrashes.OperationIsAtomic | operating-systems/xv6-OS/log.c:1-29 | a file operation run as a transaction and cut off by crashes: inodes, bitmap and the bytes of every file are all as before it or all as behind it, as behind it if commit returned, and every block still has one use |
| FileCrashes.WriteIsAtomic | operating-systems/xv6-OS/fs.c:481-511 | a write within one transaction is seen after a crash as a whole or not at all, and no other file changes |
| FileCrashes.FilesSurvive | operating-systems/xv6-OS/log.c:1-29 | over any number of operations and crashes the file system on the disk stays consistent |
| FileCrashes.HomesDecide | operating-systems/xv6-OS/fs.h:7-22 | inodes, bitmap and files are read from the blocks outside the log alone |
| FileCrashes.IupdateShows | operating-systems/xv6-OS/fs.c:218-235 | what iupdate writes is what the image then says of this inode, and of no other |
| FileCrashes.InodeOnDisk | operating-systems/xv6-OS/fs.c:221-239 | inode i is the 64 bytes number i % 8 of its block: size at byte 8, addresses from byte 12 on |
| AddressSpaces.Memory.Kalloc | operating-systems/xv6-OS/kalloc.c:80-96 | a free page, fails exactly if there is none |
| AddressSpaces.Memory.Kfree | operating-systems/xv6-OS/kalloc.c:56-78 | the page is free again and its contents are junk |
| AddressSpaces.Memory.FreeRange | operating-systems/xv6-OS/kalloc.c:46-54 | every page of the range becomes free, no other changes |
| AddressSpaces.Memory.WalkPgdir | operating-systems/xv6-OS/vm.c:32-55 | the table with the entry for the address; fails exactly if it is missing and none may or can be allocated; no mapping changes |
| AddressSpaces.Memory.MapPages | operating-systems/xv6-OS/vm.c:57-80 | the range is mapped to consecutive pages and no other mapping changes; fails exactly if there are fewer free pages than tables missing for the range |
| AddressSpaces.Memory.SetupKvm | operating-systems/xv6-OS/vm.c:117-136 | an address space with exactly the kernel mappings, made of pages that were free; fails exactly if there are fewer free pages than the directory and the tables of the kernel map, and then every page has its old role |
| AddressSpaces.Memory.AllocUvm | operating-systems/xv6-OS/vm.c:220-249 | success maps exactly the new range, to zeroed pages that were free; which sizes are refused; otherwise it fails exactly if there are fewer free pages than the new pages and the tables missing for them, and then no user page has been taken and no mapping changed |
| AddressSpaces.Memory.DeallocUvm | operating-systems/xv6-OS/vm.c:251-279 | no address of the range stays mapped, the 4MB skip included; exactly the user pages there become free |
| AddressSpaces.Memory.FreeVm | operating-systems/xv6-OS/vm.c:281-298 | exactly the pages of this address space become free; other address spaces keep mappings and contents |
| AddressSpaces.Memory.CopyUvm | operating-systems/xv6-OS/vm.c:313-345 | the copy has equal contents and flags below sz, on different pages that were free, and only the kernel above; fails exactly if there are fewer free pages than the directory, the kernel's tables, the pages of sz and their tables, and then no page changes its role |
| AddressSpaces.Memory.CopyOne | operating-systems/xv6-OS/vm.c:325-339 | one page is copied, exactly if a page and, where missing, a table can be had |
| AddressSpaces.Memory.Discard | operating-systems/xv6-OS/vm.c:342-344 | freeing an address space made of free pages puts every page back into its old role |
| AddressSpaces.Memory.Undo | operating-systems/xv6-OS/vm.c:235-246 | what a failed allocuvm does frees exactly the user pages it had added |
| AddressSpaces.RolledBack | operating-systems/xv6-OS/vm.c:235-246 | growing and undoing leaves every mapping as it was |
| AddressSpaces.Memory.Extend | operating-systems/xv6-OS/vm.c:228-248 | the loop of allocuvm: each turn takes a page and, where missing, a table, or undoes all turns before |
| PageCounts.SpentNext | operating-systems/xv6-OS/vm.c:42-53 | mapping addresses in order takes a new table exactly for the addresses whose table is missing by then, together as many as were missing at the start |
| PageCounts.LackingOutside | operating-systems/xv6-OS/vm.c:42-53 | where a directory has some tables, ranges that share a table need it once |
| PageCounts.TablesRoundUp | operating-systems/xv6-OS/vm.c:42-53 | n pages from address 0 on take n/1024 tables, rounded up |
| AddressSpaces.KernelMapOk | operating-systems/xv6-OS/vm.c:105-115 | the kernel map lies above user space, its ranges do not overlap, and it takes exactly 64 tables |
| AddressSpaces.KernelMapShows | operating-systems/xv6-OS/vm.c:105-115 | what a page directory with this map shows: physical memory shifted by KERNBASE, devices in place, read-only exactly the text, nothing for users |
| AddressSpaces.PagesHold | operating-systems/xv6-OS/mmu.h:90-90 | PGROUNDUP: these pages hold the size, and one fewer would not |
| PageTables.UserMapped | operating-systems/xv6-OS/vm.c:57-80 | mapping a page in hand keeps the ownership invariant: each page is free, in hand, or used by exactly one directory in one place |
| PageTables.UserUnmapped | operating-systems/xv6-OS/vm.c:266-277 | unmapping keeps the ownership invariant |
| PageTables.UserLeafAt | operating-systems/xv6-OS/vm.c:251-279 | a page owned as a user page is mapped at exactly the place its role names |
| PageTables.LeafIsUser | operating-systems/xv6-OS/vm.c:57-80 | a page mapped below KERNBASE is owned as the user page of that place |
| PageTables.DirFreed | operating-systems/xv6-OS/vm.c:281-298 | once its tables are gone the directory can be freed without a page left referring to it |
| Allocator.Allocator.Malloc | operating-systems/xv6-OS/umalloc.c:63-90 | for every request: None exactly if no free block is large enough and sbrk fails; otherwise the block is disjoint from every live one and its units were free or just granted, and it holds the request exactly if the rounding did not wrap; the circular search ends |
| Allocator.Allocator.Free | operating-systems/xv6-OS/umalloc.c:24-44 | exactly the units of the block become free, no live block changes, and the free list is again one sorted, fully coalesced ring through base |
| Allocator.Allocator.MoreCore | operating-systems/xv6-OS/umalloc.c:46-61 | the granted units, at least 4096, become free |
| Allocator.Allocator.FindPlace | operating-systems/xv6-OS/umalloc.c:30-32 | the search stops, at the one free block behind which the freed one belongs |
| Allocator.Allocator.Take | operating-systems/xv6-OS/umalloc.c:75-84 | a block of exactly the units asked for is cut from the free ones, as the whole block or its tail |
| Allocator.Allocator.NoRoom | operating-systems/xv6-OS/umalloc.c:86-88 | when the walk is back at freep, no free block is large enough |
| Allocator.Allocator.Search | operating-systems/xv6-OS/umalloc.c:70-89 | the loop of malloc, for any number of units |
| Allocator.Allocator.Onward | operating-systems/xv6-OS/umalloc.c:86-88 | one turn that takes nothing: on to the next block, or around and grown |
| Allocator.Allocator.CutOut | operating-systems/xv6-OS/umalloc.c:76-82 | exactly the units of the new block leave the free ones, and the ring stays sorted and coalesced |
| Allocator.UnitsSufficeIff | operating-systems/xv6-OS/umalloc.c:63-72 | the rounded units hold the request exactly if it does not make the 32-bit rounding wrap |
| Allocator.UnitsAreFewest | operating-systems/xv6-OS/umalloc.c:69-69 | and then one unit fewer would be too small |
| Allocator.SbrkArgumentIff | operating-systems/xv6-OS/umalloc.c:52-54 | for every request: sbrk, which takes a signed int, is asked for what morecore wants exactly up to MAX_REQUEST, and for requests whose rounding wraps and look small |
| Allocator.WrappedRequests | operating-systems/xv6-OS/umalloc.c:52-72 | two of the others: 2^32 - 1 bytes get one unit, the header; for 2^32 - 8 bytes sbrk is asked for 0 |
| FreeLists.FreedOk | operating-systems/xv6-OS/umalloc.c:24-44 | moving the units of a live block to the free ones keeps: every unit obtained is in exactly one free or live block |
| FreeLists.TakenOk | operating-systems/xv6-OS/umalloc.c:75-84 | moving units of a free block to a new live one keeps that too |
| FreeLists.TookAbove | operating-systems/xv6-OS/umalloc.c:33-37 | coalescing with the block above keeps the ring sorted and coalesced |
| FreeLists.TakenBelow | operating-systems/xv6-OS/umalloc.c:38-42 | coalescing with the block below likewise |
| SleepLocks.MutualExclusion | operating-systems/xv6-OS/sleeplock.c:22-42 | over all interleavings of acquiresleep, releasesleep and kill, at most one process holds a sleep lock, and the lock names it |
| SleepLocks.HoldingSleepIsHolder | operating-systems/xv6-OS/sleeplock.c:44-53 | holdingsleep is true exactly for the holder |
| SleepLocks.NoLostWakeup | operating-systems/xv6-OS/proc.c:417-452 | whenever a lock and its inner spinlock are free, no process sleeps on it or is bound to |
| SleepLocks.WaiterCanTake | operating-systems/xv6-OS/sleeplock.c:22-32 | so a process waiting for a free lock can take it by its own steps alone |
| SleepLocks.AcquiredIsHeld | operating-systems/xv6-OS/sleeplock.c:22-32 | in every interleaving, a process about to return from acquiresleep holds the lock |
| SleepLocks.AcquireAlone | operating-systems/xv6-OS/sleeplock.c:22-32 | undisturbed, acquiresleep takes a free lock and writes the pid into it, and on a held one ends asleep on its channel with both spinlocks given back |
| SleepLocks.ReleaseAlone | operating-systems/xv6-OS/sleeplock.c:34-42 | undisturbed, releasesleep frees the lock and makes everyone who slept on it runnable, and no one else |
| SleepLocks.KillFinds | operating-systems/xv6-OS/proc.c:483-491 | the step of kill that finds another process marks it, makes it runnable if it slept, and changes nothing else |
| SleepLocks.WakeFinds | operating-systems/xv6-OS/proc.c:459-461 | the step of wakeup1 at another process makes it runnable exactly if it sleeps on the channel |
| SleepLocks.ProcTable.Wakeup1 | operating-systems/xv6-OS/proc.c:454-465 | exactly the processes sleeping on the channel become runnable, and nothing else about any process changes |
| SleepLocks.ProcTable.Kill | operating-systems/xv6-OS/proc.c:476-497 | the first process with the pid is marked killed and becomes runnable if it slept; everything else stays; -1 exactly if there is none |
| TwoPhase.Agreement | operating-systems/twophase/worker.py:41-51 | in every reachable state, under any crashes, restarts and failed calls with in-order delivery, any two workers whose value is available hold the same one |
| TwoPhase.CommitMeansAgreed | operating-systems/twophase/coordinator.py:61-88 | a durable COMMIT of a transaction means that every worker, up or down, has agreed to its value or applied it |
| TwoPhase.AbortMatches | operating-systems/twophase/worker.py:94-105 | an Abort that arrives carries the id the worker has, so the other branch is unreachable |
| TwoPhase.RestartSucceeds | operating-systems/twophase/worker.py:10-28 | a worker can always be restarted, and finds what it had in memory |
| TwoPhase.DecisionIsFinal | operating-systems/twophase/coordinator.py:90-113 | from a durable decision until the next transaction every available value is the one decided, which for an abort is the last one that the trace shows committed |
| TwoPhase.StepKeeps | operating-systems/twophase/coordinator.py:44-128 | every step of coordinator, wires and workers, crashes included, keeps the invariant behind these |
| TwoPhase.FaultsArePossible | operating-systems/twophase/coordinator.py:61-113 | in every state of the system any node may crash, any worker that is down may restart, any message may be lost, and any call under way may fail |
| TwoPhase.RunKeeps | operating-systems/twophase/coordinator.py:44-128 | in every run the value before the transaction is the last one committed in it |
| TwoPhaseRounds.RequestSucceeds | operating-systems/twophase/coordinator.py:44-128 | every run that waits for a request, with everyone up and no request under way, has a continuation at whose end every worker holds the value asked for |
| TwoPhaseRounds.RestartCompletes | operating-systems/twophase/coordinator.py:11-42 | every run, whatever failed in it, once workers are up and the wires clear, has a continuation by a coordinator restart at whose end everyone holds one value, and which one: the new one, or the last committed in the run |
| TwoPhaseRounds.LateVotePoisonsLog | operating-systems/twophase/worker.py:54-105 | without in-order delivery: a vote that arrives after the abort of its transaction lets the next abort write a log that no restart can read |
| TwoPhaseRounds.LateSetValueCommits | operating-systems/twophase/worker.py:32-39 | a repeated SetValue commits whatever the worker has agreed to since |
| TwoPhaseRounds.SetValueNamesIff | operating-systems/twophase/worker.py:32-39 | after any SetValue the content it names is the available value if and only if it is what the worker has agreed to, or the worker was idle with it |
| TwoPhaseRounds.RepeatIsHarmlessIff | operating-systems/twophase/worker.py:32-79 | a SetValue repeated after the next vote leaves its own content available if and only if the next transaction has the same content |
| TwoPhaseNodes.RestartFindsTheSame | operating-systems/twophase/worker.py:10-28 | a restart after handling a request finds the same memory if and only if the request is no Abort of another transaction |
| TwoPhaseNodes.Worker.CastVote | operating-systems/twophase/worker.py:54-79 | COMMIT exactly if no transaction is agreed to and the id is no older, then durably agreed; else ABORT with the worker's own id and nothing changed; which is the transition of the protocol theorems |
| TwoPhaseNodes.Worker.SetValue | operating-systems/twophase/worker.py:32-39 | a value agreed to becomes the value, durably, whatever the request says, and otherwise nothing happens; which is the transition of the protocol theorems |
| TwoPhaseNodes.Worker.Commit | operating-systems/twophase/worker.py:81-92 | the value agreed to becomes the value, in memory and in the log |
| TwoPhaseNodes.Worker.Abort | operating-systems/twophase/worker.py:94-105 | what was agreed to is forgotten; the entry written says so only if the request has the worker's id |
| TwoPhaseNodes.Worker.GetCommitted | operating-systems/twophase/worker.py:41-51 | available exactly when no transaction is agreed to, and then the value |
| TwoPhaseNodes.Worker.Start | operating-systems/twophase/worker.py:10-28 | a restart gives what the log says, and is impossible exactly for an entry that cannot be read |
| TwoPhaseNodes.Coordinator.HandleRequest | operating-systems/twophase/coordinator.py:44-59 | the new transaction is durable before anyone is asked |
| TwoPhaseNodes.Coordinator.ConductElection | operating-systems/twophase/coordinator.py:61-88 | commits exactly if every vote came and was COMMIT for this transaction; the decision is durable; a call that fails leaves everything |
| TwoPhaseNodes.Coordinator.ResolveElection | operating-systems/twophase/coordinator.py:90-113 | the transaction ends, durably, exactly if every call came back |
| TwoPhaseNodes.Coordinator.Brain | operating-systems/twophase/coordinator.py:115-128 | the phases it passes through, each durable before the next; when all votes and acknowledgements come it ends in INIT with an INIT entry, and the entry before that is the decision, commit exactly for unanimous votes |
| TwoPhaseNodes.BrainCompletes | operating-systems/twophase/coordinator.py:115-128 | from INIT with a request, or from any later phase, when all votes and acknowledgements come the path has exactly the remaining phases, through the decision to INIT |
| TwoPhaseBrain.BrainIsExec | operating-systems/twophase/coordinator.py:115-128 | with workers that answer, Brain's memory and log are those at the end of a run of steps of the system, and a call that fails leaves the coordinator stuck where it was |
| TwoSlotLog.CrashIsAtomic | operating-systems/twophase/persistent_log.py:74-95 | once a write has completed, a crash at any byte of set_last_entry leaves a file that opens with the old entry or the new one |
| TwoSlotLog.TornAnyhow | operating-systems/twophase/persistent_log.py:74-95 | the crashes considered leave any beginning of a write and any choice of its bytes |
| TwoSlotLog.LifeIsAtomic | operating-systems/twophase/persistent_log.py:55-95 | over any series of completed and crashed writes the file stays readable and each attempt takes effect entirely or not at all |
| TwoSlotLog.WriteCompletes | operating-systems/twophase/persistent_log.py:74-95 | a completed write is found on opening, whatever the file held |
| TwoSlotLog.FirstWriteCrash | operating-systems/twophase/persistent_log.py:56-72 | the exception: a crash in the very first write leaves a file that opens if and only if it does not reach into the slot that byte 0 names |
| TwoSlotLog.FirstWriteCanBeLost | operating-systems/twophase/persistent_log.py:74-95 | such a crash: the file has been extended with zeros to the end of the slot, and does not open |
| TwoSlotLog.FilePersistentLog.Open | operating-systems/twophase/persistent_log.py:56-72 | opening finds the entry in the slot in use, none in an empty file, and fails exactly on anything else |
| TwoSlotLog.FilePersistentLog.SetLastEntry | operating-systems/twophase/persistent_log.py:91-95 | the entry goes to the other slot and then the index flips, in two writes; refused exactly if the entry is too large, with the memory already changed |
| TwoPhaseOnDisk.Refines | operating-systems/twophase/persistent_log.py:55-95 | every run of nodes that keep their entries in two-slot files, crashes at any byte of a write included, brings the nodes where a run of the system with atomic entries can bring them |
| TwoPhaseOnDisk.AgreementOnDisk | operating-systems/twophase/worker.py:41-51 | so agreement holds of nodes over files |
| TwoPhaseOnDisk.FilesRestart | operating-systems/twophase/worker.py:10-28 | and every file opens, to an entry that its worker restarts from |
| TwoPhaseOnDisk.WorkerStruckKeeps | operating-systems/twophase/worker.py:32-105 | a crash while a worker writes its file is a crash before the request was handled or one behind it |
| TwoPhaseOnDisk.CoordinatorStruckKeeps | operating-systems/twophase/coordinator.py:44-113 | likewise for the coordinator |
| Scheduling.Decide | algorithms/Scheduling/Main.java:19-132 | Yes exactly if some assignment gives every student the limit of distinct requested courses within all capacities; the null pointer exactly for a listed course nobody requested |
| Scheduling.FullFlowIffAssignment | algorithms/Scheduling/Main.java:102-132 | a maximum flow equals students times limit if and only if such an assignment exists, both directions through the integral flow |
| Scheduling.FlowGivesAssignment | algorithms/Scheduling/Main.java:102-123 | a feasible flow of full value chooses an assignment |
| Scheduling.AssignmentGivesFlow | algorithms/Scheduling/Main.java:102-123 | an assignment is a feasible flow of full value |
| Scheduling.BuildResiduals | algorithms/Scheduling/Main.java:102-123 | the residual matrix is the network of the requests |
| MaxFlow.FordFulkerson | algorithms/Scheduling/Main.java:163-179 | terminates, and returns the value of a feasible flow that equals the capacity of a cut, so none is larger; residuals stay non-negative and residuals[i][j]+residuals[j][i] as it was |
| MaxFlow.Bfs | algorithms/Scheduling/Main.java:137-161 | true exactly if t can be reached in the residual matrix, path being a search tree; otherwise the visited vertices are a cut |
| MaxFlow.Augment | algorithms/Scheduling/Main.java:171-175 | pushing the bottleneck along the tree path keeps a residual matrix of the same network |
| MaxFlow.WeakDuality | algorithms/Scheduling/Main.java:163-179 | no feasible flow exceeds the capacity of any cut |
| MaxFlow.FailedSearchProvesOptimal | algorithms/Scheduling/Main.java:163-179 | when the search fails the flow equals the capacity of the cut it found |
| MaxFlow.FlowAcrossCut | algorithms/Scheduling/Main.java:163-179 | conservation: across every cut goes what leaves the source |
| Kruskal.KruskalMST | algorithms/Wiring/Wiring.java:90-108 | the accepted edges have no cycle, connect exactly what the input connects, and cost least among all spanning forests |
| Kruskal.StoppedIsMinimum | algorithms/Wiring/Wiring.java:94-107 | either reason to stop, enough edges or none left, leaves a minimum spanning forest |
| Kruskal.StaysFrugal | algorithms/Wiring/Wiring.java:94-107 | polling by cost keeps the accepted edges as cheap, at every rate, as any forest among the polled ones |
| Kruskal.PollGrown | algorithms/Wiring/Wiring.java:96-106 | one turn keeps the classes those that the polled edges connect |
| Kruskal.Poll | algorithms/Wiring/Wiring.java:96-96 | the queue gives up a cheapest edge |
| Forests.ForestByCount | algorithms/Wiring/Wiring.java:90-108 | a graph is a forest if and only if its edges and classes add up to its vertices |
| Forests.ForestBound | algorithms/Wiring/Wiring.java:90-108 | a forest inside what a partition connects has at most vertices minus classes many edges |
| Forests.MergedDescribes | algorithms/Wiring/Wiring.java:99-106 | uniting the classes of an edge describes connection in the graph with that edge |
| DisjointSets.DisjointSet.FindSet | algorithms/Wiring/DisjointSet.java:32-42 | returns the representative of the class and compresses the path without changing any class; terminates because ranks rise to the root |
| DisjointSets.DisjointSet.UnionSets | algorithms/Wiring/DisjointSet.java:44-64 | exactly the two classes are united, ranks still rise strictly to the roots |
| DisjointSets.DisjointSet.EquivalentSets | algorithms/Wiring/DisjointSet.java:66-68 | true exactly for members of one class |
| DisjointSets.DisjointSet.constructor | algorithms/Wiring/DisjointSet.java:16-30 | every vertex is alone in its class |
| DisjointSets.Compressed | algorithms/Wiring/DisjointSet.java:38-40 | redirecting an element to its root moves no root and keeps ranks rising |
| DisjointSets.Linked | algorithms/Wiring/DisjointSet.java:50-62 | hanging one root under another of sufficient rank unites their trees |
| HookUp.HookSwitches | algorithms/Wiring/Wiring.java:202-230 | fails, the queue being empty, exactly if some switch has no cross edge; else one edge for each switch, of least total cost |
| HookUp.CheapestInTotal | algorithms/Wiring/Wiring.java:202-230 | the cheapest edge of each switch is cheapest in total |
| Wiring.WireHouse | algorithms/Wiring/Wiring.java:109-237 | main: null exactly if some switch has no cross connection; else the sum is the cost of a proper wiring, and no proper wiring costs less |
| Wiring.LeastWiring | algorithms/Wiring/Wiring.java:197-230 | cheapest spanning forests on both sides and the cheapest feed of each switch cost together no more than any acyclic set of valid connections with one feed per switch that joins, anyhow, what either side can join |
| Wiring.WholeIsProper | algorithms/Wiring/Wiring.java:197-230 | and are such a set: no cycle runs through a switch |
| Wiring.DirectlyConnected | algorithms/Wiring/Wiring.java:187-194 | with one feed per switch, what is connected outside the switches is so without them |
| Wiring.ConnectedBehind | algorithms/Wiring/Wiring.java:178-186 | what is connected behind a switch is so by the connections there |
| Wiring.SortEdges | algorithms/Wiring/Wiring.java:168-195 | the loop that drops invalid connections and sorts the others into three lists, by SortIs |
| Wiring.SortIs | algorithms/Wiring/Edge.java:12-41 | the sort of a connection by its ends: direct exactly if neither is a light or switch; cross exactly if one is a switch and the other neither; group exactly if one is a light and both are behind the same switch; else invalid |
| Wiring.SortIsSymmetric | algorithms/Wiring/Edge.java:12-41 | whichever end is named first |
| Wiring.SortedHolds | algorithms/Wiring/Wiring.java:168-194 | a connection read is in a list exactly if its sort is that of the list |
| Wiring.SidesAre | algorithms/Wiring/Wiring.java:126-152 | the vertices outside are exactly the breakers, boxes and outlets, the others exactly the lights and switches |
| Huffman.BuildHuffmanTree | data-structures/lab_10/huffmanenc.cpp:35-46 | a tree on exactly the given leaves, none exactly for an empty heap; with the least frequency-weighted depth of all binary trees on them if the frequencies add up to less than 2^32 |
| Huffman.LastIsCheapest | data-structures/lab_10/huffmanenc.cpp:35-46 | when one tree is left, no tree on the same leaves costs less |
| Huffman.JoinKeepsGrowing | data-structures/lab_10/huffmanenc.cpp:37-43 | joining two lightest trees keeps an optimal tree within reach |
| Profiles.JoinLightest | data-structures/lab_10/huffmanenc.cpp:37-43 | any weighted tree can, at no higher cost, have its two lightest weights merged into their sum, saving that sum |
| Profiles.SwapTotal | data-structures/lab_10/huffmanenc.cpp:35-46 | exchange: moving the lighter weight to the deeper tip costs nothing |
| HuffmanTrees.JoinCost | data-structures/lab_10/huffmanenc.cpp:37-43 | joining two trees adds their weight to the cost |
| Heaps.Heap.DeleteMin | data-structures/lab_10/heap.cpp:40-53 | a least tree leaves the heap and the rest is conserved; null exactly for an empty heap |
| Heaps.Heap.Insert | data-structures/lab_10/heap.cpp:27-30 | the heap gains exactly the node and stays ordered |
| Heaps.Heap.PercolateUp | data-structures/lab_10/heap.cpp:55-61 | restores order above the hole without losing an item |
| Heaps.Heap.PercolateDown | data-structures/lab_10/heap.cpp:63-80 | restores order below the hole without losing an item |
| Heaps.RootIsLeast | data-structures/lab_10/heap.cpp:32-53 | in an ordered heap slot 1 is a minimum |
| HuffmanCodes.WriteCodes | data-structures/lab_10/huffmanenc.cpp:16-27 | the table gains each leaf of the tree with its path |
| HuffmanCodes.GenerateLookup | data-structures/lab_10/huffmanenc.cpp:29-33 | the code table of the tree, empty for none |
| HuffmanCodes.PrefixFree | data-structures/lab_10/huffmanenc.cpp:16-27 | no code is a prefix of another |
| HuffmanCodes.CodeGoesTo | data-structures/lab_10/huffmanenc.cpp:16-27 | codes in the left subtree begin with 0 and in the right one with 1, followed by the code there |
| HuffmanCodes.BitsAreCost | data-structures/lab_10/huffmanenc.cpp:107-118 | with the counts of the message at the leaves, the length of its encoding is the cost of the tree |
| HuffmanCodes.CreateTree | data-structures/lab_10/huffmandec.cpp:41-58 | the decoding tree gains the path of the code and nothing else |
| HuffmanCodes.GenerateHuffTree | data-structures/lab_10/huffmandec.cpp:60-67 | from the table of any code tree the same tree is rebuilt, whatever order the table is iterated in |
| HuffmanCodes.DecodeMessage | data-structures/lab_10/huffmandec.cpp:18-39 | walks the tree as the decoding function says, skipping other characters; a missing child is the crash |
| HuffmanCodes.RoundTrip | data-structures/lab_10/huffmandec.cpp:18-39 | for a tree with at least two leaves, decoding what was encoded gives every message back |
| HuffmanCodes.RoundTripIff | data-structures/lab_10/huffmandec.cpp:18-39 | in general exactly if there are two leaves or the message is empty |
| HuffmanCodes.OneLetterIsLost | data-structures/lab_10/huffmandec.cpp:18-39 | such a message: "a" under the tree of a alone |
| HuffmanEncoder.BuildTable | data-structures/lab_10/huffmanenc.cpp:60-88 | for any text the table encodes its printable characters, each counted at every place where it stands, with the fewest bits of any code tree on them; no table exactly for none |
| HuffmanEncoder.FewestBits | data-structures/lab_10/huffmanenc.cpp:86-118 | an optimal tree for the counts of a message needs the fewest bits for it |
| HuffmanEncoder.CountLetters | data-structures/lab_10/huffmanenc.cpp:60-79 | the count of every printable character is the number of places in the text where it stands |
| HuffmanEncoder.PrintedCount | data-structures/lab_10/huffmanenc.cpp:60-79 | a printable character occurs in what is encoded as often as in the text, and any other not at all |
| HuffmanEncoder.EncodeText | data-structures/lab_10/huffmanenc.cpp:105-118 | the second reading: every printable character is replaced by its code, in order; symbols are the printable places of the text and bits the digits written; decoding gives the printable text back |
| HuffmanEncoder.BitsAreWritten | data-structures/lab_10/huffmanenc.cpp:107-118 | the bits needed are the digits 0 and 1 in the encoding |
| LifeThreads.ParallelIsSerial | operating-systems/life/life-parallel.cc:64-132 | for every board with a dead border, thread count, step count and barrier-respecting interleaving, the board that the controller takes behind its last barrier is that of the serial program |
| LifeThreads.ResultIsSteps | operating-systems/life/life-parallel.cc:14-62 | every interleaving has the same result as soon as the last barrier has let the controller through, whoever is still leaving it: the two boards used in turn, dead border or not |
| LifeThreads.FinishedIsReleased | operating-systems/life/life-parallel.cc:127-132 | in particular once every thread has finished |
| LifeThreads.TakenIsReleased | operating-systems/life/life-parallel.cc:127-132 | when the controller has left its last barrier, that barrier had let everybody through |
| LifeThreads.NoDeadlock | operating-systems/life/life-parallel.cc:127-130 | until all threads have finished and the controller has left its last barrier, some thread or the controller can take a step; the barrier counts both |
| LifeThreads.NoRace | operating-systems/life/life-parallel.cc:30-60 | threads about to write are in the same step and on different rows |
| LifeThreads.DealOut | operating-systems/life/life-parallel.cc:96-126 | the bounds given to the threads partition the rows, for any number of threads asked for |
| LifeThreads.Cutoffs | operating-systems/life/life-parallel.cc:73-94 | the cutoffs come in pairs, without gap or overlap, and end at the last row |
| LifeThreads.OneOwner | operating-systems/life/life-parallel.cc:104-126 | no two threads share a row |
| LifeThreads.OwnerExists | operating-systems/life/life-parallel.cc:104-126 | every row has a thread |
| LifeThreads.StepKeeps | operating-systems/life/life-parallel.cc:30-60 | every step keeps: what has been written in this phase is the next board, what is read is the current one |
| Life.AlwaysAgreeIff | operating-systems/life/life-serial.cc:3-33 | serial and copied second board agree for all step counts if and only if the border is dead |
| Life.OddStepsAgreeIff | operating-systems/life/life-serial.cc:4-4 | after any odd number of steps they agree if and only if the border was dead |
| Life.RuleIsConway | operating-systems/life/life-serial.cc:11-26 | a cell lives on exactly with two or three live cells among the eight around it, and is born exactly with three |
| Life.WindowIsCount | operating-systems/life/life-serial.cc:16-22 | what is counted is the number of live cells in the three rows and columns around the cell |
| Life.SerialSteps | operating-systems/life/life-serial.cc:3-33 | each serial step gives the inner cells by the rule; the border is dead after an odd number of steps and as it was at first after an even one |
| Life.CopiedSteps | operating-systems/life/life-parallel.cc:37-56 | where the second board starts as a copy, each step gives the inner cells by the rule and leaves the border as it was |
| Life.DeadBorderIs | operating-systems/life/life-serial.cc:4-4 | the border is dead exactly if no cell of the first or last row or column lives |
| Life.SimulateSerial | operating-systems/life/life-serial.cc:3-33 | the loops and the swap compute that many steps, each cell by the rule for the eight around it, the second board starting dead |
| Life.StepRows | operating-systems/life/life-parallel.cc:37-56 | the loops over rows and cells write the next board on exactly these rows and nothing elsewhere |
| AvlNodes.AVLTree.Add | data-structures/lab_5/AVLTree/AVLTree.cpp:44-57 | the contents gain exactly x; the tree stays ordered, balanced, with exact heights |
| AvlNodes.AVLTree.Delete | data-structures/lab_5/AVLTree/AVLTree.cpp:59-63 | the contents lose exactly x; the tree stays ordered, balanced, with exact heights |
| AvlNodes.AVLTree.Contains | data-structures/lab_5/AVLTree/AVLTree.cpp:107-111 | true exactly for members |
| AvlNodes.AVLTree.Count | data-structures/lab_5/AVLTree/AVLTree.cpp:122-126 | the number of members, and at least Fib(height+3)-1 |
| AvlNodes.Insert | data-structures/lab_5/AVLTree/AVLTree.cpp:22-41 | on the nodes, exactly the insertion that is proved correct |
| AvlNodes.Remove | data-structures/lab_5/AVLTree/AVLTree.cpp:178-224 | on the nodes, exactly the removal that is proved correct, two children included |
| AvlNodes.Balance | data-structures/lab_5/AVLTree/AVLTree.cpp:128-148 | on the nodes, exactly the four rotations that restore balance |
| AvlTrees.InsertedOk | data-structures/lab_5/AVLTree/AVLTree.cpp:22-41 | insertion keeps order and balance and adds exactly x |
| AvlTrees.RemovedOk | data-structures/lab_5/AVLTree/AVLTree.cpp:178-224 | removal keeps order and balance and takes away exactly x |
| AvlTrees.RebalancedBalances | data-structures/lab_5/AVLTree/AVLTree.cpp:128-148 | a tree with one side too high by one becomes balanced, at most one level lower; a balanced one is left alone |
| AvlTrees.RebalancedKeeps | data-structures/lab_5/AVLTree/AVLTree.cpp:128-176 | the rotations keep contents and order |
| AvlTrees.BalancedIsLarge | data-structures/lab_5/AVLTree/AVLTree.cpp:128-148 | a balanced tree of height h has at least Fib(h+3)-1 nodes |
| AvlTrees.SizeIsKeys | data-structures/lab_5/AVLTree/AVLTree.cpp:113-120 | in an ordered tree the nodes counted are the members |
| Fields.InverseIff | blockchain/P2/ecdsa.py:97-98 | for prime p, get_multiplicative_inverse(x, p) times x is 1 modulo p if and only if p does not divide x |
| Fields.Fermat | blockchain/P2/ecdsa.py:97-98 | x to the p-1 is 1 modulo p for every x that p does not divide |
| Fields.DivisionTimes | blockchain/P2/ecdsa.py:90-92 | the quotient is reduced, and times the divisor it is the dividend |
| Fields.DivisionByZero | blockchain/P2/ecdsa.py:90-92 | dividing by zero quietly gives zero for p > 2 |
| Fields.Subtract | blockchain/P2/ecdsa.py:83-88 | the loop ends and the result is the difference |
| Curves.ChordSum | blockchain/P2/ecdsa.py:35-41 | for different x the result follows the chord rule of section 2.2.1 of SEC 1 |
| Curves.TangentSum | blockchain/P2/ecdsa.py:28-32 | where 2y is not zero the double follows the tangent rule of section 2.2.1 of SEC 1 |
| Curves.SumStaysIff | blockchain/P2/ecdsa.py:35-41 | the sum of two different points of the curve is on it if and only if the x differ or 9x^3 vanishes |
| Curves.DoubleStaysIff | blockchain/P2/ecdsa.py:28-32 | the double of a point of the curve is on it if and only if 2y or 9x^3 decides so: 2y is not zero, or 9x^3 vanishes |
| Curves.ChordLeaves | blockchain/P2/ecdsa.py:35-41 | two points on a vertical line whose sum leaves the curve: (1,2) and (1,3) modulo 5 |
| Curves.TangentLeaves | blockchain/P2/ecdsa.py:28-32 | a point with y = 0 whose double leaves the curve: (1,0) modulo 5 |
| Curves.SumCommutes | blockchain/P2/ecdsa.py:35-41 | for different x the order of the points does not matter |
| ScalarMultiples.ScalarPointMultiplication | blockchain/P2/ecdsa.py:44-57 | double-and-add over the binary digits is the recursively defined multiple; None exactly for k = 0 |
| ScalarMultiples.ScaledStays | blockchain/P2/ecdsa.py:44-57 | multiples of a point stay on the curve as long as no intermediate sum or double is vertical |
| ScalarMultiples.EvenMultiple | blockchain/P2/ecdsa.py:44-57 | 2k times a point is k times its double, for every point and k |
| ScalarMultiples.TopAdded | blockchain/P2/ecdsa.py:44-57 | the multiple by a power of two and a smaller number is the sum of both multiples |
| ScalarMultiples.ShiftedMultiple | blockchain/P2/ecdsa.py:44-57 | 2^j k times a point is k times the point doubled j times |
| ScalarMultiples.DigitsAreBinary | blockchain/P2/ecdsa.py:45-45 | the digits read least significant first have the value k |
| Y86Assembler.FetchedAsWritten | computer-architecture/Lab4/hclrs/tools/yas.c:305-443 | round trip: where the emitted bytes of an error-free line lie in memory, the simulator fetches the operation, registers and immediate that were parsed, and continues at the address of the next line |
| Y86Loader.LoadedAsWritten | computer-architecture/Lab4/hclrs/tools/isa.c:194-275 | round trip through the object file: load_mem puts the assembler's output into any memory with room for it, and the simulator fetches at the address of a line what the line says, unless later code lies over it |
| Y86Loader.ForwardKeepsAll | computer-architecture/Lab4/hclrs/tools/yas.c:341-379 | if no .pos moves back, no line's code is overwritten |
| Y86Loader.LoadMem | computer-architecture/Lab4/hclrs/tools/isa.c:194-275 | line by line, byte by byte, stopping exactly at the first byte beyond the memory |
| Y86Loader.LineLoadedIs | computer-architecture/Lab4/hclrs/tools/isa.c:251-270 | of a line, exactly the bytes with an address in memory are put there, and it is an error exactly if one has none |
| Y86Loader.LoadedUpTo | computer-architecture/Lab4/hclrs/tools/isa.c:194-275 | loading stops with the first line that does not fit, which is loaded as far as it goes |
| Y86Loader.StaysLoaded | computer-architecture/Lab4/hclrs/tools/isa.c:251-270 | what nothing behind it overwrites is found in its place |
| Y86Assembler.Assemble | computer-architecture/Lab4/hclrs/tools/yas.c:598-620 | both passes go through the same addresses; the run is good exactly if every line is, and then the output is every line at its address; what a line is, the lemmas of Y86Lines say |
| Y86Lines.TwoRegisters | computer-architecture/Lab4/hclrs/tools/yas.c:305-443 | the moves and operations: an error exactly unless two registers with a comma follow; opcode byte by name, then the first register in the high half and the target in the low half |
| Y86Lines.OneRegister | computer-architecture/Lab4/hclrs/tools/yas.c:305-443 | pushq and popq: the register in the high half and 15 in the low half |
| Y86Lines.NumberToRegister | computer-architecture/Lab4/hclrs/tools/yas.c:305-443 | irmovq and iaddq: the register written last in the low half, then the eight bytes of the number or label written first |
| Y86Lines.Store | computer-architecture/Lab4/hclrs/tools/yas.c:245-443 | rmmovq: the register in the high half, the base or 15 in the low half, then the displacement or 0 |
| Y86Lines.Load | computer-architecture/Lab4/hclrs/tools/yas.c:245-443 | mrmovq: likewise, with the register written last |
| Y86Lines.Target | computer-architecture/Lab4/hclrs/tools/yas.c:305-443 | jumps and call: icode and condition by name, then the eight bytes of the target |
| Y86Lines.Bare | computer-architecture/Lab4/hclrs/tools/yas.c:305-443 | halt, nop and ret: one byte, whatever follows |
| Y86Lines.Datum | computer-architecture/Lab4/hclrs/tools/yas.c:305-443 | .byte, .word, .long and .quad: the low 1, 2, 4 or 8 bytes of the number |
| Y86Lines.Silent | computer-architecture/Lab4/hclrs/tools/yas.c:305-379 | empty lines, labels, .pos and .align: no code, the next address, and when they are errors |
| Y86Lines.Refused | computer-architecture/Lab4/hclrs/tools/yas.c:305-395 | every line with another mnemonic, a name without a colon, or none of these forms is an error in both passes |
| Y86Lines.Pop2 | computer-architecture/Lab4/hclrs/tools/isa.c:96-96 | pop2 is accepted and makes no code |
| Y86Lines.FindsEntry | computer-architecture/Lab4/hclrs/tools/isa.c:62-119 | find_instr finds every entry of the table under its name |
| Y86Assembler.ToIntIs | computer-architecture/Lab4/hclrs/tools/yas.c:341-363 | the operand of .pos is cut to the int that is the same modulo 2^32 |
| Y86Execution.LoadedInPlace | computer-architecture/Lab4/hclrs/tools/isa.c:194-275 | loading the output puts the code of a line in its place, unless later code is put over it |
| Y86Execution.MoveExecuted | computer-architecture/Lab4/hclrs/tools/isa.c:683-708 | rrmovq %a, %b, assembled and executed: b gets the value of a, nothing else changes, and the next line is next |
| Y86Execution.CompareExecuted | computer-architecture/Lab4/hclrs/tools/isa.c:792-823 | subq %a, %b and a jump to a label, assembled and executed: the line that first defines the label is next exactly if b compared so with a, whatever overflows, and else the line behind the jump |
| Y86Execution.CallExecuted | computer-architecture/Lab4/hclrs/tools/isa.c:824-846 | call of a label, assembled and executed: its line is next, and the address of the line behind the call is on the stack |
| Y86Assembler.LabelResolves | computer-architecture/Lab4/hclrs/tools/yas.c:505-522 | a label stands for the address of its first definition, where the second pass puts that line |
| Y86Assembler.EmittedAt | computer-architecture/Lab4/hclrs/tools/yas.c:305-443 | the code of every line is emitted at the address the passes computed for it |
| Y86Assembler.Assembler.FinishLine | computer-architecture/Lab4/hclrs/tools/yas.c:305-443 | next address, new symbol, errors and output of one line in either pass |
| Y86Assembler.Assembler.PutCode | computer-architecture/Lab4/hclrs/tools/yas.c:397-443 | the arguments parsed in order are put into the buffer so that it begins with the assembled bytes; an error exactly if they do not parse |
| Y86Assembler.Assembler.GetReg | computer-architecture/Lab4/hclrs/tools/yas.c:205-223 | a register fills its nibble and leaves the other alone |
| Y86Assembler.Assembler.GetNum | computer-architecture/Lab4/hclrs/tools/yas.c:225-243 | a number or label fills its bytes, least significant first |
| Y86Assembler.Assembler.GetMem | computer-architecture/Lab4/hclrs/tools/yas.c:245-291 | displacement and base register of a memory reference, with the defaults for what is left out |
| Y86Assembler.Assembler.FindSymbol | computer-architecture/Lab4/hclrs/tools/yas.c:514-522 | the first symbol of that name, else an error |
| Y86Assembler.AlignedUp | computer-architecture/Lab4/hclrs/tools/yas.c:365-379 | alignment gives the next multiple, less than one alignment away, from any address that is not negative |
| Y86Assembler.AlignedBelowZero | computer-architecture/Lab4/hclrs/tools/yas.c:365-379 | from a negative address that the rounding leaves negative it does so exactly if the division is exact, and else goes one alignment further |
| Y86Set.FetchAssembled | computer-architecture/Lab4/hclrs/tools/isa.c:642-674 | every instruction of the table, assembled with operands it can hold, is fetched as it was |
| Y86Set.StoredWord | computer-architecture/Lab4/hclrs/tools/isa.c:310-343 | a word stored at any address is read back |
| Y86Set.Memory.GetWordVal | computer-architecture/Lab4/hclrs/tools/isa.c:310-323 | eight bytes, least significant first, as a signed word; refused exactly outside the memory |
| Y86Set.Memory.SetWordVal | computer-architecture/Lab4/hclrs/tools/isa.c:333-343 | exactly the eight bytes change, and only inside the memory |
| Y86Set.Memory.FetchInstr | computer-architecture/Lab4/hclrs/tools/isa.c:642-674 | the fetch lines of step_state read what the specification of the fetch says |
| Y86Set.OverflowIff | computer-architecture/Lab4/hclrs/tools/isa.c:482-506 | the overflow flag is set exactly if the true sum or difference is no word |
| Y86Set.ConditionsCompare | computer-architecture/Lab4/hclrs/tools/isa.c:590-623 | after a subtraction the six conditions compare the operands as signed words, overflow or not |
| Y86Set.ConditionsTest | computer-architecture/Lab4/hclrs/tools/isa.c:590-623 | after andq of a register with itself they compare it with zero |
| Y86Set.ConditionsOpposed | computer-architecture/Lab4/hclrs/tools/isa.c:590-623 | condition 0 always holds, each of the others excludes its opposite whatever the flags, and no number beyond 6 is a condition |
| Y86Set.SumsMean | computer-architecture/Lab4/hclrs/tools/isa.c:460-480 | addition and subtraction are exact where the result is a word and right modulo 2^64 |
| Y86Set.BitsMean | computer-architecture/Lab4/hclrs/tools/isa.c:460-480 | and and exclusive or work bit by bit on two's complement |
| Y86Set.FlagsMean | computer-architecture/Lab4/hclrs/tools/isa.c:482-506 | the flags say whether the result is zero and whether it is negative |
| Y86Step.Machine.StepState | computer-architecture/Lab4/hclrs/tools/isa.c:627-942 | step_state: status, registers, memory, flags and program counter are those of the step that the laws of Y86Programs are about |
| Y86Step.Machine.Run | computer-architecture/Lab4/hclrs/tools/yis.c:56-57 | the loop ends behind the given number of steps, all of them AOK, or behind the first that is not |
| Y86Step.RegWritten | computer-architecture/Lab4/hclrs/tools/isa.c:405-424 | a register written reads back, no other changes, and register 15 reads as zero |
| Y86Programs.MoveSteps | computer-architecture/Lab4/hclrs/tools/isa.c:683-708 | a conditional move copies exactly if its condition holds, and is refused exactly for register 15 |
| Y86Programs.ConstantSteps | computer-architecture/Lab4/hclrs/tools/isa.c:709-732 | the number goes to the register in the low half |
| Y86Programs.StoreSteps | computer-architecture/Lab4/hclrs/tools/isa.c:733-764 | exactly the eight bytes at displacement plus base get the register; ADR exactly outside the memory |
| Y86Programs.LoadSteps | computer-architecture/Lab4/hclrs/tools/isa.c:765-791 | the register gets the word there; ADR exactly outside the memory |
| Y86Programs.OperateSteps | computer-architecture/Lab4/hclrs/tools/isa.c:792-805 | the low register and the flags get the result of the operation on both registers |
| Y86Programs.JumpSteps | computer-architecture/Lab4/hclrs/tools/isa.c:806-823 | the number is next exactly if the condition holds |
| Y86Programs.PushSteps | computer-architecture/Lab4/hclrs/tools/isa.c:860-883 | the register as it was before the stack pointer moved is on the stack; the pointer moves even if the address is bad |
| Y86Programs.PopSteps | computer-architecture/Lab4/hclrs/tools/isa.c:884-908 | the register, %rsp too, gets the word from the top of the stack |
| Y86Programs.CallSteps | computer-architecture/Lab4/hclrs/tools/isa.c:824-846 | the address behind the call is pushed and the number is next |
| Y86Programs.ReturnSteps | computer-architecture/Lab4/hclrs/tools/isa.c:847-859 | the word on the top of the stack is next, and the pointer moves |
| Y86Programs.AddConstantSteps | computer-architecture/Lab4/hclrs/tools/isa.c:909-935 | the number is added, with the flags of an addition |
| Y86Programs.BadSteps | computer-architecture/Lab4/hclrs/tools/isa.c:644-648 | which status an address outside the memory, an unknown opcode or missing operand bytes give |
| Y86Programs.PushPop | computer-architecture/Lab4/hclrs/tools/isa.c:860-908 | push and pop move one register to another over the stack and leave every other register and the rest of memory |
| Y86Programs.CallReturn | computer-architecture/Lab4/hclrs/tools/isa.c:824-859 | a call, any steps that leave the stack pointer and the word there as they found them, and a return end behind the call |
| Y86Programs.StoreLoad | computer-architecture/Lab4/hclrs/tools/isa.c:733-791 | what is stored at an address is loaded from it |
| Y86Programs.CompareJump | computer-architecture/Lab4/hclrs/tools/isa.c:792-823 | a subtraction and a jump: taken exactly if the operands as they were compare so |
| Y86Programs.CompareMove | computer-architecture/Lab4/hclrs/tools/isa.c:683-805 | a subtraction and a conditional move |
| Y86Programs.TestJump | computer-architecture/Lab4/hclrs/tools/isa.c:792-823 | the test against zero by andq changes no register |
| Y86Programs.Clears | computer-architecture/Lab4/hclrs/tools/isa.c:792-805 | xorq of a register with itself clears it |
| Words.WordRoundTrip | computer-architecture/Lab4/hclrs/tools/isa.c:310-343 | eight bytes hold a word |

## Left out

Of the programs as a whole:

- The kernel's hardware and boot code, console, directories and path names, system calls and user programs; the gRPC layer and the replaying forwarder; reading and printing files; floating-point, network, contract, Arduino and Zephyr code; the smaller exercises, whose members would be easy.
- Concurrency inside the block cache, the log and the file layer: their code is modelled as it runs while no other process takes a step, though others may hold buffers; sleep locks have their own model, and `LogSpace` interleaves whole log operations with readers that take and release buffers.
- The calls of `log_write` in the file layer: `FileSystem` works on blocks as the cache shows them, and `FileCrashes` takes an operation as the transaction that turns the image before it into the image behind it. Types, devices and link counts of inodes are not modelled.
- One device: buffers carry a device number, which matters only for the initial 0.
- Disk writes are atomic, one block at a time, as in `memide.c`; `ide.c` is not modelled.
- Page table entries are pairs of page and flags, not packed words, and physical addresses are page numbers; `setupkvm`'s kernel map is a parameter, constrained as `KernelMapOk` proves the one in `vm.c` is.
- Interrupts, time slices and the scheduler's choices: `SleepLocks` lets any process take the next step at any time, which covers them; a process that spins is a step that is not enabled.
- Liveness under fairness: `WaiterCanTake`, `NoDeadlock` and `RestartCompletes` say what steps lead to success, not that they are taken.

Of single parts:

- EndOp: does not model calls that begin while the commit runs, which wait for `committing`, nor buffers taken and released by readers during it; those held stay the same, and are of blocks outside the transaction, since readers of those in it have to wait.
- Bget: does not model waiting for a buffer that another process holds; the sleep lock it waits on is `SleepLocks`.
- Bread: likewise, through `Bget`.
- Readi: does not model device inodes, which are handed to the device's own function.
- Writei: does not model device inodes, likewise.
- MapPages: a range below KERNBASE is one page, which is what each of its callers asks for; kernel ranges have any length. A page already mapped, on which the code panics, is excluded.
- AllocUvm: requires what the code panics without, that no page of the new range is mapped.
- CopyUvm: requires what the code panics without, that every page below sz is mapped.
- Malloc: excludes that `sbrk` succeeds for an argument that has overflowed the signed int; `SbrkArgumentIff` says for which requests it does.
- MoreCore: likewise.
- Search: likewise.
- Agreement: assumes in-order delivery without replay, as the protocol does; `LateVotePoisonsLog` and `LateSetValueCommits` show why.
- CrashIsAtomic: starts from a file with one completed write; `FirstWriteCrash` covers the first. A crash during a write may leave any mixture of old and new bytes, with the file extended by any part of it. Entries are any type with a faithful encoding; pickle itself is not part of this model.
- Refines: leaves out crashes in a node's very first write, for the same reason, and entries too large for a slot, for which the program ends with an exception.
- SetLastEntry: the error raised for an oversized entry is itself broken in the source, its message naming an unbound variable; either way an exception is raised at that line.
- HandleRequest: transaction ids are unbounded here and 32-bit in the messages.
- Decide: assumes, as the program does, that no student and course share a name; vertices compare by name. Capacities and limits must sum to Java's int, as `FitsInt` says.
- KruskalMST: edge costs are unbounded integers; which of several cheapest edges is polled first is left open, as it is for a priority queue.
- BuildHuffmanTree: says nothing of optimality when the frequencies add up to 2^32 or more and sums wrap.
- BuildTable: texts of 2^32 printable characters or more are left out, for which the counts themselves wrap.
- GenerateHuffTree: about tables that come from a code tree; what it builds from other tables is left open.
- Add: AVL keys are numbers, of which only the order matters; `pathTo` and printing are left out, and freed nodes stay allocated.
- ScalarPointMultiplication: the multiples of one point are related only as far as `TopAdded`, `EvenMultiple` and `ShiftedMultiple` go; further laws need associativity of the addition.
- ScaledStays: asks that no intermediate addition meets a vertical line, which is what the code leaves out; key generation, signing, verifying, the point at infinity and associativity of the addition are not part of this model.
- Subtract: arguments may be any integers, so the loop's bound is in its specification.
- LoadedAsWritten: addresses are unbounded here, and in the object file as many hex digits as the listing prints; lines of the file without code are skipped by the loader and not in the model's output.
- WireHouse: takes the vertices and connections as read; a light that comes before any switch, for which the program fails while reading, has a switch here. The sum is unbounded and a Java int in the program.
- FinishLine: takes the tokens of a line from the scanner, which is not modelled; the listing's text, `-V` output and its limits on addresses, the fixed sizes of the token and symbol tables, and what follows the operands on a line are left out. Addresses are unbounded.
- FetchAssembled: covers the instructions of the table; `pop2` has no bytes and is skipped.
- StepState: leaves out the messages it prints. Signed arithmetic that overflows, which C leaves undefined, wraps here, and the test that a word lies in memory adds 8 without overflow.
- CompareExecuted: the two lines and where the label is are given; that loading puts lines in their places is `LoadedInPlace`.
- SimulateSerial: boards are rectangular arrays; the file format is left out.

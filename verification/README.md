# A verified model of the xv6 kernel's hard parts

This project models the parts of an xv6 kernel with kernel threads whose
correctness lies in how functions work together, and proves what they promise:

- **The log** (`CrashSpec`, `GroupCommit`, `Bio`, `Log`, `LogSteps`).  A redo log with group
  commit over a buffer cache.  `CrashSpec` is the plan of sector writes and what a
  crash between any two of them leaves; `GroupCommit` is the log shared by
  concurrent system calls as a state machine over all interleavings and crashes;
  `Bio` and `Log` are the code, in place on buffers, ring pointers and header,
  shown to make exactly the planned writes; `LogSteps` shows its calls to be steps
  of that machine.
- **Files** (`BlockMap`, `Fs`, `Filewrite`, `Mkfs`).  The bitmap, the direct and indirect blocks
  and `readi`/`writei`, shown to be a flat byte sequence per inode over blocks
  with exactly one owner; and the image builder that establishes this.
- **Names** (`Dirents`, `Paths`, `Links`, `Icache`, `Handles`, `Namei`, `Sysfile`).
  Directories as lists of entries read off the bytes of a file, path walks, link
  counts, the inode cache, and the system calls that make and remove names.
- **Memory** (`FreeList`, `Umalloc`, `PageTables`, `Vm`, `Copyout`).  The K&R
  allocator (section 8.7 of The C Programming Language, 2nd edition) on its headers
  in memory, and two-level page tables (section 4.3, 32-bit paging, of the Intel
  SDM volume 3A) on the words in memory, with the list of free pages.
- **Concurrency** (`Spinlock`, `Sleep`, `Mutex`, `Pipe`).  Spin locks instruction by
  instruction, sleep and wakeup, the mutexes of kernel threads and pipes, over
  all interleavings.
- **Small languages** (`ShellGrammar`, `Shell`, `Grep`).  The shell's parser and
  grep's matcher.

Code that changes things in place is modelled by classes and methods with loops,
each proved against a specification function or relation; protocols are state
machines whose runs are built step by step.  Panics on misuse are preconditions;
panics for want of a resource are results.

Some of what the code seems to promise is false of it.  In these places the model
keeps the code as it is, shows a failing case, and proves exactly when the
property holds:

- A log of `LOGSIZE` sectors, which is what mkfs makes, is one too small for the
  reservation of `begin_op` (`GroupCommit.SpacePanicExactly`); in a bigger one a
  commit can have as many blocks as there are buffers, and then finds none for the
  log's own (`GroupCommit.FullExactly`, `Log.KernelLog.Commit`).  So no size of the
  log is safe for operations that use up their reservation (`LogSteps.NoSafeSize`).
- The pieces of `filewrite` are bigger than that reservation
  (`Filewrite.PieceExceeds`, `Filewrite.FullPiecePanics`).
- The size mkfs gives the root directory leaves an unmapped block if it was a whole
  number of blocks already (`Mkfs.RootRounding`, `Mkfs.RootHole`), and an entry
  written there does not reach the disk (`Fs.FileSystem.Writei`, `Mkfs.EntryLost`).
- mkfs leaves the log's blocks unmarked, so the kernel takes them when all others are
  in use (`Mkfs.Allocation`, `Mkfs.FirstOf`, `Mkfs.LogGivenAway`), and it checks no name
  (`Links.MkfsInv`).
- Names made in a directory that has been removed break the link counts
  (`Links.LinkKeeps`, `Links.LinkBreaks`, `Links.MakeKeeps`, `Links.MakeBreaks`), and
  a crash leaves such a directory in use (`Handles.CrashSettled`,
  `Handles.CrashOrphan`).  Its ".." may lead to an inode that is no longer in use
  (`Namei.StandingExactly`, `Namei.ParentGone`).
- The jump in `deallocuvm` can pass over mapped pages (`PageTables.LeavesNothing`,
  `PageTables.SkipMisses`, `Vm.PageMissed`), and `allocuvm` does not notice that the
  last page has no table (`Vm.Machine.Allocuvm`, `Vm.LastPageMissing`).  A page for
  which there is no table is lost: growth that is taken back, and a fork that fails,
  do not give back all pages (`PageTables.RunsOut`, `Vm.Machine.GrowAndShrink`,
  `Vm.PageLost`, `Vm.Machine.Copyuvm`, `Vm.CopyLost`).
- Between queueing and blocking in `kthread_mutex_lock` an unlock is lost
  (`Mutex.WindowRun`, `Mutex.StuckForever`, `Mutex.TrappedExactly`).
- A request near 2^32 bytes wraps in `malloc` (`FreeList.UnitsForExact`,
  `FreeList.UnitsForWraps`), and one of 2^31 bytes or more makes the process no bigger,
  or smaller (`Umalloc.SbrkExactly`, `Umalloc.SbrkShrinks`).
- The shell parses `>>` as `>` (`Shell.AppendOverwrites`): the two give the same tree
  in every line (`ShellGrammar.LinePlain`).

## Model

| member | source | states |
|---|---|---|
| `CrashSpec.CrashAtomicity` | log.c:68-199 | a crash between any two sector writes of commit, followed by any number of crashes inside recovery: the recovery that completes leaves all home blocks new if the first write_head reached the disk, and all old otherwise |
| `CrashSpec.CommitCrash` | log.c:189-199 | the same for one crash and one recovery: the home blocks are the transaction exactly when more than n writes got through |
| `CrashSpec.CommitComplete` | log.c:189-199 | a commit that runs to its end leaves the transaction installed at home and the log clear |
| `CrashSpec.CommitPoint` | log.c:193-197 | from the header write on, the disk is one on which recovery has begun: what commit still does is what recovery would do |
| `CrashSpec.RecoveryCrash` | log.c:114-121 | a crash after any prefix of recovery's writes changes nothing: running recovery again gives the same home blocks |
| `CrashSpec.ManyRecoveryCrashes` | log.c:114-121 | the same for any finite sequence of such crashes |
| `CrashSpec.RecoveredCommitted` | log.c:68-81 | recovery of a disk whose header lists the transaction gives the transaction's blocks at home |
| `CrashSpec.ApplyFrame` | log.c:68-81 | sectors no write names keep their block |
| `CrashSpec.InstallKeepsLog` | log.c:68-81 | installing writes no sector of the log, so the log still describes the transaction |
| `GroupCommit.StepInv` | log.c:124-230 | every step of the log shared by concurrent calls (begin_op, log_write, end_op, one sector write of a commit, a crash) keeps the invariant: reservations add up, the disk is a commit in progress, the trace is that of whole operations |
| `GroupCommit.RunsRecover` | log.c:124-230 | in every interleaving, a crash at any moment recovers to the result of a sequence of whole operations, in their order |
| `GroupCommit.CrashConsistent` | log.c:144-199 | at any reachable moment, a crash however often repeated in recovery leaves the stable part of the trace, whole operations only |
| `GroupCommit.Durable` | log.c:144-171 | once end_op's commit is through, everything that ended survives any crash |
| `GroupCommit.NoPanic` | log.c:150-218 | while an operation is outstanding no commit runs, so the "log.committing" and "log_write outside of trans" panics are unreachable; an operation within a budget of at most MAXOPBLOCKS calls finds room in the header |
| `GroupCommit.HomeChangesOnlyInInstall` | log.c:189-199 | a home sector changes on disk only in the install part of a commit, after its header write |
| `GroupCommit.NoSpacePanic` | log.c:131-216 | if every operation makes at most `budget` <= MAXOPBLOCKS calls of log_write and log.size exceeds MAXOPBLOCKS + 2 * budget (LOGSIZE, for the full budget), the space panic of log_write is unreachable |
| `GroupCommit.SpacePanicReachable` | log.c:215-216 | with a budget above 0 and a smaller log, and with a log of any size if operations may exceed MAXOPBLOCKS calls, a schedule of operations within their budget does reach that panic; the sectors it logs lie before the log |
| `GroupCommit.SpacePanicExactly` | log.c:131-216 | so, for every budget and every log with room for its entries in front of it (Room(log) <= log.start), the panic is reachable if and only if the budget exceeds MAXOPBLOCKS, or is above 0 and log.size <= MAXOPBLOCKS + 2 * budget; for the budget of MAXOPBLOCKS, if and only if log.size <= LOGSIZE |
| `GroupCommit.ThreePanic` | log.c:131-216 | three operations that begin before any has logged a block, and log more than MAXOPBLOCKS different blocks each, one after the other: the panic comes whatever the size of the log |
| `GroupCommit.FullExactly` | log.c:124-216 | operations can bring a commit of LOGSIZE blocks about if and only if log.size exceeds LOGSIZE and they may make MAXOPBLOCKS calls each |
| `GroupCommit.ReservedBegin` | log.c:124-140 | begin_op keeps lh.n plus all remaining budgets within the reservation |
| `GroupCommit.BeginInv` | log.c:124-140 | begin_op keeps the invariant |
| `GroupCommit.LogWriteInv` | log.c:210-230 | log_write keeps it, absorbed or not |
| `GroupCommit.EndInv` | log.c:144-160 | end_op keeps it; the last one out starts a commit |
| `GroupCommit.CommitWriteInv` | log.c:174-199 | each sector write of a commit keeps it |
| `GroupCommit.CommitDoneInv` | log.c:163-170 | the end of a commit keeps it |
| `GroupCommit.CrashInv` | log.c:52-121 | a crash and the recovery after it keep it |
| `GroupCommit.BootInv` | log.c:52-65 | a recovered disk establishes it |
| `Bio.BCache.constructor` | bio.c:38-56 | binit puts all NBUF buffers on one doubly linked ring, caching nothing |
| `Bio.BCache.Iderw` | memide.c:36-58 | the disk contract: a dirty buffer is written to its sector, any other is filled from it, and only that sector or buffer changes |
| `Bio.BCache.FindCached` | bio.c:70-80 | the search finds the buffer of the sector if any buffer caches it |
| `Bio.BCache.FindOldest` | bio.c:85-93 | the backward search finds the last idle clean buffer of the ring, and fails only when there is none |
| `Bio.BCache.Bget` | bio.c:61-95 | the cached buffer; or, after a miss, the recycled one; or sleep when it is busy; or the panic when nothing can be recycled |
| `Bio.BCache.Bread` | bio.c:98-107 | the buffer holds the last block logged or written for the sector; the victim of a miss is the least recently released idle clean buffer, never a dirty one; disk and cache are otherwise unchanged |
| `Bio.BCache.Pin` | log.c:228-229 | a buffer log_write marks dirty becomes the sector's current block, and keeps at most one buffer per sector |
| `Bio.BCache.Bwrite` | bio.c:110-117 | the data is on disk and current, and one more write is in the journal |
| `Bio.BCache.MoveToFront` | bio.c:129-134 | the released buffer moves to the front of the ring, the others keep their order |
| `Bio.BCache.Brelse` | bio.c:121-140 | the buffer is free, and the ring stays in order of release |
| `Bio.RingUnlink` | bio.c:129-130 | the two assignments take one buffer out of the ring |
| `Bio.RingPush` | bio.c:131-134 | the four assignments put it in front |
| `Bio.RecencyKept` | bio.c:121-140 | moving the released buffer to the front keeps the ring in order of last release |
| `Bio.OldestIsLeastRecent` | bio.c:85-93 | the buffer the backward search stops at was released no later than any other that could be taken |
| `Log.CleanBufferExists` | log.c:215-229 | with fewer logged sectors than buffers some buffer is clean |
| `Log.CleanBufferExactly` | bio.c:85-95 | in a valid log a buffer is clean if and only if fewer than NBUF sectors are logged: with NBUF of them, all buffers are pinned |
| `Log.KernelLog.Attach` | log.c:52-65 | the log knows its place on the disk and is idle |
| `Log.KernelLog.WriteHead` | log.c:100-112 | one disk write, of the header block overlaid with the list in memory |
| `Log.KernelLog.LogOne` | log.c:180-185 | one cached block goes to its log sector; bget has no buffer for that sector, and panics, if and only if lh.n is NBUF |
| `Log.KernelLog.WriteLog` | log.c:174-187 | the writes are the log copies of the cached blocks, in order, unless lh.n is NBUF |
| `Log.KernelLog.InstallOne` | log.c:74-79 | one logged block goes home, and in a commit its buffer is unpinned |
| `Log.KernelLog.InstallTrans` | log.c:68-81 | the writes are the logged blocks to their home sectors, in order |
| `Log.KernelLog.SaveToLog` | log.c:193-194 | the writes up to the commit point |
| `Log.KernelLog.InstallAndClear` | log.c:195-197 | the writes after it; the log is clear |
| `Log.KernelLog.Commit` | log.c:189-199 | it panics, before any write, if and only if lh.n is NBUF, which a log of at most NBUF sectors never reaches; otherwise the disk writes are exactly those the crash theorems speak of, no buffer stays dirty, cache and disk agree, and no home block changes its current content |
| `Log.KernelLog.ReadHead` | log.c:84-95 | the list in memory becomes the one on disk, and nothing else changes |
| `Log.KernelLog.RecoverFromLog` | log.c:114-121 | the writes are those of recovery, and the disk is the recovered one |
| `Log.KernelLog.LogWrite` | log.c:210-230 | the sector is added to the list unless it is there, and its buffer is pinned with the new block current |
| `Log.KernelLog.EndOp` | log.c:144-171 | the last operation out commits for all, or its commit panics, exactly if lh.n is NBUF; any other changes nothing on disk |
| `Log.CommitOrNothing` | log.c:189-199 | the crash theorem about the code itself, for every state of the log: after any prefix of the writes commit makes, and any number of crashes in recovery, the disk comes up with all that was current in the cache once the header was written, and with nothing new before |
| `Log.InitLog` | log.c:52-65 | start-up on whatever disk a crash left: the log is clear over the recovered blocks |
| `LogSteps.Boots` | log.c:52-65 | the log that start-up leaves is the initial state of the group-commit machine over the recovered disk |
| `LogSteps.Begins` | log.c:124-140 | begin_op enters if and only if the machine's step is enabled, and is then that step, so the reservation invariant of all runs holds of the code |
| `LogSteps.Writes` | log.c:210-230 | log_write is the machine's step |
| `LogSteps.Ends` | log.c:144-199 | end_op is the machine's step, followed, for the last operation out, by every sector write of the commit and its end |
| `LogSteps.NoSafeSize` | param.h:10-12 | whatever the size of the log, operations that may make MAXOPBLOCKS calls reach the panic of log_write or a commit of NBUF blocks |
| `BlockMap.WordRoundTrip` | fs.c:378-380 | a word written into an indirect block reads back, and no other word changes |
| `BlockMap.WordBytes` | mkfs.c:49-58 | the byte of least weight of a word comes first |
| `BlockMap.OneByte` | fs.c:65-70 | changing one bit of a bitmap byte changes that block's mark and no other |
| `BlockMap.MaskValues` | fs.c:65-66 | the bit of least weight of a byte is for its first block |
| `BlockMap.NoSharing` | fs.c:359-387 | no two slots, of one file or of two, refer to the same block |
| `BlockMap.GainedOwned` | fs.c:359-387 | a slot that gains a block nobody owns keeps ownership exact |
| `BlockMap.GainedBytes` | fs.c:359-387 | a new zeroed block changes no byte of any file |
| `BlockMap.GainPointer` | fs.c:365-376 | a pointer in the inode gains a block |
| `BlockMap.GainWord` | fs.c:377-383 | a word of the indirect block gains a block |
| `BlockMap.StoreBytes` | fs.c:482-488 | bytes stored in the block of a slot appear at that place of that file and nowhere else |
| `BlockMap.OverwriteContent` | fs.c:490-493 | splicing and then growing is overwriting the flat file |
| `BlockMap.EmptiedOwned` | fs.c:394-422 | emptying an inode leaves the ownership and the bytes of all others |
| `BlockMap.EmptiedMarked` | fs.c:394-422 | and leaves marked exactly the blocks still owned or reserved |
| `BlockMap.LackingNone` | fs.c:359-387 | slots lack no block, the indirect block included, if and only if each has its own |
| `BlockMap.PaySlot` | fs.c:359-387 | a call of bmap marks as many blocks as it leaves fewer lacking, for every range of slots around its own |
| `Fs.FileSystem.Balloc` | fs.c:53-77 | the first unmarked block, marked and zeroed, so that one block fewer is free; none if and only if every block is marked |
| `Fs.FileSystem.Bfree` | fs.c:80-96 | unmarks that block and no other |
| `Fs.FileSystem.Bmap` | fs.c:359-387 | the block of a slot, allocated on demand across the direct/indirect boundary, if and only if there are as many free blocks as the slot is missing, one or two; ownership stays exact, no byte of any file changes, and the inode itself changes exactly if its own pointer on the way was missing |
| `Fs.FileSystem.Readi` | fs.c:437-461 | a slice of the flat file, cut at its end, or -1; no byte of any file changes; blocks missing on the way are allocated, and nothing at all changes if there are none; it runs out of blocks if and only if more are lacking than are free |
| `Fs.FileSystem.ReadPiece` | fs.c:455-458 | one turn of the loop reads that piece of the flat file, and allocates its block if it is missing |
| `Fs.FileSystem.ReadAll` | fs.c:454-459 | the loop reads the slice and fills exactly the slots it touches, if and only if there are blocks for those that lack one |
| `Fs.FileSystem.WritePiece` | fs.c:482-488 | one turn splices a piece into the flat file and changes no other file |
| `Fs.FileSystem.WriteAll` | fs.c:482-488 | the loop splices all bytes, if and only if there are blocks for the slots that lack one, fills exactly the slots it touches, and logs a block as often as there are such slots |
| `Fs.FileSystem.Grow` | fs.c:490-493 | the file is longer, in memory and on disk |
| `Fs.FileSystem.Writei` | fs.c:465-495 | for every file, with holes or without: it becomes the overwritten byte sequence, no other file changes, no file gets a hole; the inode on disk, written only on growth, still equals the one in memory if and only if the file grew or its own pointers to the bytes were all there; it runs out of blocks if and only if more are lacking than are free, and then a prefix has been spliced |
| `Fs.FileSystem.WriteThenRead` | fs.c:437-495 | what writei has written readi returns |
| `Fs.FileSystem.FreeDirect` | fs.c:401-406 | the blocks of the direct slots, and no others, are unmarked |
| `Fs.FileSystem.FreeIndirect` | fs.c:408-418 | and those of the indirect slots, and the indirect block |
| `Fs.FileSystem.Itrunc` | fs.c:394-422 | every block of the inode is unmarked and no other is; bfree never meets a free block; other files keep their bytes |
| `Filewrite.Filewrite` | file.c:116-150 | cut into pieces of at most 13 blocks, the write is one overwrite of the flat file at its offset; all bytes are written if and only if the offset is in the file, the end within the biggest file and there are free blocks for all slots that lack one; it fails only on an offset behind the end or on the piece that would pass the biggest file, and panics only with every block in use; what was written before stays |
| `Filewrite.WriteOne` | file.c:138-143 | one piece: refused if and only if it starts behind the end or would pass the biggest file, out of blocks only if more are lacking than are free, and written otherwise |
| `Filewrite.PieceExceeds` | file.c:126-137 | a piece touches, and so logs, more than MAXOPBLOCKS blocks if and only if its offset in the first block plus its length exceeds MAXOPBLOCKS blocks |
| `Filewrite.FullPiecePanics` | file.c:132 | a full piece always does; three at once, each logging the blocks it touches, reach the panic of log_write whatever the size of the log |
| `Mkfs.Image.constructor` | mkfs.c:91-101 | a zeroed image in which no data block is owned |
| `Mkfs.Image.Ialloc` | mkfs.c:219-231 | a fresh inode with one link |
| `Mkfs.Image.MapBlock` | mkfs.c:265-287 | the block of a slot, taken in order, keeps ownership exact; it takes exactly the blocks that are missing |
| `Mkfs.Image.Iappend` | mkfs.c:251-298 | the file grows by exactly these bytes, has exactly the blocks its size calls for and zeros behind its end, no other file changes, and it fits if and only if the blocks it adds do |
| `Mkfs.Image.Balloc` | mkfs.c:233-247 | the bitmap marks exactly the blocks handed out, the log's blocks not among them |
| `Mkfs.Image.RoundRoot` | mkfs.c:148-153 | the root directory is padded with zeros to the rounded size, and has a hole if and only if it filled its last block |
| `Mkfs.RoundedUp` | mkfs.c:150-151 | the least whole number of blocks above the size |
| `Mkfs.AddFile` | mkfs.c:136-143 | one file: its inode holds its bytes, the root directory has one entry more, the rest is as it was, and it fits if and only if its blocks and those of the entry do |
| `Mkfs.Build` | mkfs.c:90-158 | the image of 1024 blocks for any list of files: each file is in an inode of its own, the root directory holds the entries, padded with zeros; it fits if and only if the blocks called for do; the root directory has a hole if and only if the number of files is 30 modulo 32 |
| `Mkfs.Mount` | mkfs.c:155-158 | the kernel's ownership and bitmap invariants hold of a finished image |
| `Mkfs.RootRounding` | mkfs.c:148-152 | rounding the root directory up leaves no hole if and only if its size was not already a whole number of blocks |
| `Mkfs.RootHole` | mkfs.c:120-153 | for every list of files whose entries fill the last block of the root directory of the 1024-block image, as those of thirty files do: after the rounding it has a hole there |
| `Mkfs.EntryLost` | fs.c:490-493 | an entry written into that hole: its block is in the inode in memory and not in the one on disk |
| `Mkfs.Allocation` | fs.c:53-77 | for every file system and every place lo of the log: balloc returns a block of the log, from lo on, if and only if every block below lo is marked and some block from lo on is not |
| `Mkfs.FirstAllocation` | mkfs.c:242-244 | the first block the kernel allocates is the next one mkfs would have: a block of the log if and only if mkfs had filled the data area |
| `Mkfs.FirstOf` | mkfs.c:155-158 | on that image the first block allocated is a block of the log if and only if the blocks in use reach up to block 994 and not to the end of the disk |
| `Mkfs.ThirtyFiles` | mkfs.c:120-145 | thirty empty files use one block |
| `Mkfs.LogGivenAway` | mkfs.c:16-19 | six files of the biggest size and one of 117 blocks: the first block allocated is the log's first, block 994 |
| `Dirents.RecordRead` | fs.h:51-54 | a record read back is the entry it was written for |
| `Dirents.DotRecord` | fs.h:51-54 | a record byte by byte: the number, its lower byte first, then the name and NULs |
| `Dirents.WriteRecord` | fs.c:556-558 | overwriting 16 bytes of a directory file replaces or appends one entry |
| `Dirents.EntriesPadded` | mkfs.c:148-153 | zero bytes at the end of a directory are free entries |
| `Dirents.WriteEntry` | sysfile.c:215-216 | a record written through writei replaces or appends that entry of the directory, and changes no other file |
| `Dirents.ReadEntry` | fs.c:518-519 | a record read through readi is that entry of the directory |
| `Paths.Skipelem` | fs.c:579-602 | the next element of the path, truncated, and the rest of its elements |
| `Paths.ElementsOfAny` | fs.c:564-602 | any names written as a path are its elements, each cut to its first 14 characters |
| `Paths.ElementsOfJoin` | fs.c:564-578 | names that fit an entry are the elements of their path |
| `Paths.TargetIsWalk` | fs.c:608-641 | nameiparent stops at the directory the path without its last element leads to |
| `Paths.WalkParts` | fs.c:618-634 | a path walked in two parts leads where it leads in one |
| `Paths.DownAndUp` | fs.c:508-532 | from every directory of the tree an entry's name leads to its inode, ".." leads back from there, and "." stays |
| `Paths.InvWalkable` | fs.c:608-641 | under the link-count invariant every entry of a directory leads to an inode in use |
| `Links.LinkKeeps` | sysfile.c:137-148 | a further name keeps the invariant (nlink is the number of entries naming the inode other than ".", and the directories form a tree) if and only if the directory has not been removed |
| `Links.TreeShape` | fs.c:608-641 | in every state of the invariant: each live directory leads to the root by "..", and no directory but the root comes back to itself that way |
| `Links.MakeKeeps` | sysfile.c:258-278 | so does a new directory, under the same condition |
| `Links.AllocKeeps` | fs.c:176-199 | taking a free inode keeps it |
| `Links.UnlinkKeeps` | sysfile.c:204-226 | removing an entry keeps it, with no condition; a directory loses its last link |
| `Links.RemovedDir` | sysfile.c:204-226 | a directory unlinked while it is in use: the invariant holds and its inode stays, without links |
| `Links.RemovedTwice` | sysfile.c:204-226 | a directory unlinked while in use, and its parent after it, which is freed |
| `Links.LinkBreaks` | sysfile.c:137-148 | a name made in it breaks the invariant |
| `Links.MakeBreaks` | sysfile.c:258-278 | so does a directory made in it |
| `Links.LastLink` | sysfile.c:210-226 | nothing but the entry in its parent names an empty directory |
| `Links.ParentStays` | sysfile.c:218-222 | its parent keeps a link |
| `Links.EntryNames` | sysfile.c:204-209 | an entry names an inode in use with a link, so "unlink: nlink < 1" is unreachable |
| `Links.FreeKeeps` | fs.c:324-336 | freeing an inode without links keeps it |
| `Links.FirstInv` | mkfs.c:107-118 | the root directory alone satisfies the invariant |
| `Links.MkfsInv` | mkfs.c:120-146 | with any list of files it does if and only if their names, cut to an entry, are apart and none is a dot entry's |
| `Links.PadKeeps` | mkfs.c:148-153 | free entries at the end of the root directory keep it |
| `Links.NlinkFits` | fs.h:31 | link counts fit a short on any disk with room for fewer than 32768 entries |
| `Icache.Kernel.constructor` | fs.c:165-169 | no entry of the cache is in use |
| `Icache.OneEntry` | fs.c:223-254 | at most one entry in use caches an inode |
| `Icache.Kernel.Iget` | fs.c:223-254 | one more handle on the inode, in its entry or in a free one; succeeds if and only if the inode is cached or an entry is free |
| `Icache.Kernel.Idup` | fs.c:258-265 | one more handle |
| `Icache.Kernel.Ilock` | fs.c:269-298 | the entry is locked and holds the inode |
| `Icache.Kernel.Iunlock` | fs.c:301-311 | the entry is unlocked |
| `Icache.Kernel.SetNlink` | fs.c:202-218 | the link count changes in memory and on disk |
| `Icache.Kernel.Iput` | fs.c:320-339 | one handle fewer; the inode is freed exactly when that was the last, the entry is valid and there are no links |
| `Icache.Kernel.Ialloc` | fs.c:176-199 | the first free inode |
| `Handles.PutSettled` | fs.c:320-339 | between calls an inode in use has a link or a handle, and an unlinked one a valid entry, so iput frees exactly on the last handle with no link |
| `Handles.StartSettled` | fs.c:165-169 | the kernel starts so if and only if the disk satisfies the invariant and has no inode in use without a link |
| `Handles.CrashSettled` | fs.c:320-339 | a crash keeps the invariant of the disk; the next start is settled if and only if no inode without links had a handle |
| `Handles.CrashOrphan` | fs.c:320-339 | a crash while a removed directory is in use leaves an inode in use that nothing leads to |
| `Handles.Iunlockput` | fs.c:342-347 | unlock, then drop the handle |
| `Namei.Scan` | fs.c:508-532 | the first entry with that name, compared over DIRSIZ characters |
| `Namei.Descend` | fs.c:618-634 | a turn of the walk moves the handle to the entry's inode, or drops it |
| `Namei.Stop` | fs.c:619-628 | nameiparent keeps the handle on a directory only |
| `Namei.Turn` | fs.c:618-639 | one turn of the loop |
| `Namei.Namex` | fs.c:608-641 | one handle on the inode the path leads to and no other, from the root if it begins with a slash and from the current directory otherwise; none if it leads nowhere; other handles stay where they are; it panics only if all entries are in use and an inode on the way is in none |
| `Namei.Name` | fs.c:643-654 | the same between system calls, for every walk that comes to no freed inode, keeping what holds there |
| `Namei.AbsolutePath` | fs.c:613-616 | names written with slashes before them lead from the root, whatever the current directory |
| `Namei.RelativePath` | fs.c:613-616 | without the first slash they lead from the current directory |
| `Namei.StandingExactly` | fs.c:292-297 | between system calls a walk is safe if and only if no inode it comes to has been freed: "ilock: no type" is the only panic in its way |
| `Namei.LiveInUse` | fs.c:608-641 | every walk from a directory with links is |
| `Namei.ParentGone` | fs.c:292-297 | a process in a removed directory whose parent is gone too: ".." leads to a freed inode |
| `Sysfile.IsDirEmpty` | sysfile.c:165-178 | exactly when the directory holds nothing but "." and ".." |
| `Sysfile.RemoveEntry` | sysfile.c:215-226 | the entry is zeroed, the links go, both handles are dropped |
| `Sysfile.UnlinkLocked` | sysfile.c:198-235 | with the parent locked: the name goes exactly when it may |
| `Sysfile.SysUnlink` | sysfile.c:181-236 | the last name of the path goes from its directory exactly when it is there, is neither "." nor "..", and names a file or a directory holding only those; the inode goes with its last link and handle; all handles are given back |
| `Sysfile.Dirlink` | fs.c:535-562 | if an entry is free the first such is overwritten and all others stay, else the entry is appended; or the name exists and nothing changes; it panics only for want of a cache entry or if the directory is as big as can be with no entry free |
| `Sysfile.NewInode` | sysfile.c:258-265 | a free inode with one link, locked |
| `Sysfile.FillDots` | sysfile.c:271-272 | a new directory gets its own number for "." and its parent's for ".." |
| `Sysfile.CreatedKeeps` | sysfile.c:238-281 | create keeps the link-count invariant if and only if the directory has not been removed |
| `Sysfile.CreateFound` | sysfile.c:249-256 | an existing name serves only a file where a file is wanted |
| `Sysfile.CreateNew` | sysfile.c:258-280 | a name that is free gets a new inode |
| `Sysfile.Create` | sysfile.c:238-281 | a locked handle on the inode of the path, new exactly when the name was free; nothing changes on failure |
| `Sysfile.SysLink` | sysfile.c:115-162 | a new name for the file of the first path in the directory of the second, or everything as it was, the extra link taken back |
| `Sysfile.Close` | fs.c:320-339 | dropping any handle frees its inode exactly when it was the last and there is no link |
| `FreeList.CanonicalUnique` | umalloc.c:24-90 | a sorted, fully coalesced list is determined by the units it covers |
| `FreeList.InsertCanonical` | umalloc.c:33-42 | merging with both neighbours keeps the list sorted and fully coalesced |
| `FreeList.InsertCovers` | umalloc.c:33-42 | and adds exactly the freed units |
| `FreeList.TakeTailCanonical` | umalloc.c:76-84 | taking the tail of a block keeps it so |
| `FreeList.TakeTailCovers` | umalloc.c:76-84 | and takes exactly those units |
| `FreeList.LinkInsert` | umalloc.c:33-42 | the pointer updates in memory realise the merge |
| `FreeList.LinkUnlink` | umalloc.c:76-77 | and the unlinking of a whole block |
| `FreeList.LinkTrim` | umalloc.c:78-82 | and the trimming of a larger one |
| `FreeList.FreeTiled` | umalloc.c:24-44 | free blocks and blocks in use still tile the heap after free |
| `FreeList.TakeTiled` | umalloc.c:76-84 | and after malloc |
| `FreeList.GrowTiled` | umalloc.c:54-58 | and after sbrk |
| `FreeList.ContiguousInOne` | umalloc.c:24-44 | free units next to each other lie in one block |
| `FreeList.UnitsForExact` | umalloc.c:69 | the payload is big enough if and only if rounding up does not wrap 32 bits |
| `FreeList.UnitsForWraps` | umalloc.c:69 | a request of 2^32 - 1 bytes gets an empty payload |
| `Umalloc.Heap.Search` | umalloc.c:30-32 | the loop ends at the free node just below the block, wherever freep starts it |
| `Umalloc.Heap.Relink` | umalloc.c:33-42 | the list in memory is the merged one |
| `Umalloc.Heap.Free` | umalloc.c:24-44 | the block's units join the free ones, the list stays circular, sorted and coalesced, and no unit of a block in use is written |
| `Umalloc.Heap.MoreCore` | umalloc.c:46-61 | what sbrk grants becomes free; without a grant nothing changes |
| `Umalloc.SbrkExactly` | umalloc.c:54 | sbrk gets the bytes asked for if and only if they are fewer than 2^31; from there on the process never grows, and it loses the end of its memory if and only if the bytes are short of 2^32 by no more than it has |
| `Umalloc.SbrkShrinks` | proc.c:133-147 | a process of two pages that loses one |
| `Umalloc.Heap.TrimOrUnlink` | umalloc.c:76-82 | the header updates give the list without the units taken |
| `Umalloc.Heap.Lap` | umalloc.c:74-87 | one lap finds the first node after freep that fits, and fails only if none does |
| `Umalloc.Heap.SearchOrGrow` | umalloc.c:74-90 | at most one morecore per malloc: the lap after it finds a block |
| `Umalloc.Heap.Malloc` | umalloc.c:63-90 | a block of exactly the units asked for, taken from the free ones; fails exactly when nothing fits and there is no memory; blocks in use keep their content |
| `Umalloc.Heap.Store` | umalloc.c:63-90 | a program's writes to its blocks do not disturb the allocator |
| `Umalloc.Heap.MallocThenFree` | umalloc.c:24-90 | malloc then free restores the very same free list |
| `PageTables.NoAliasing` | vm.c:45-90 | no page is mapped twice, in one address space or in two |
| `PageTables.AddTable` | vm.c:54-63 | a new page table changes no mapping |
| `PageTables.PagesLeast` | vm.c:232 | PGROUNDUP is the fewest pages that hold so many bytes |
| `PageTables.ChangePage` | vm.c:70-90 | mapping or unmapping one page keeps directories, tables and pages referring to each other exactly |
| `PageTables.LeavesNothing` | vm.c:259-272 | the loop of deallocuvm leaves no page mapped if and only if its start has a page table, or begins one, or nothing is mapped at the head of the first table after it |
| `PageTables.SkipMisses` | vm.c:262-263 | a valid machine state with a mapped page the loop does miss |
| `PageTables.AllGone` | vm.c:285 | from page 0, as freevm starts it, it misses none |
| `PageTables.FillUndone` | vm.c:221-274 | deallocation takes back exactly what allocation mapped |
| `PageTables.TabledNext` | vm.c:54-63 | the pages mapping one more page takes: itself, and a table exactly if it is the first of a missing one |
| `PageTables.AllocFails` | vm.c:234-239 | when no page is left before the last one, the pages free at first did not cover the request |
| `PageTables.NoLeak` | vm.c:234-241 | no page is lost if the pages run out with none left, or do not run out |
| `PageTables.RunsOut` | vm.c:234-241 | when they run out, a page is lost if and only if one was left and its page table was missing |
| `Vm.Machine.constructor` | kalloc.c:30-36 | before the allocator is set up no page is free |
| `Vm.Machine.Freerange` | kalloc.c:45-52 | the pages of the range are free, on top of those before |
| `Vm.Machine.Kalloc` | kalloc.c:82-95 | a free page that is then no longer free; fails exactly when there is none |
| `Vm.Machine.Kfree` | kalloc.c:59-77 | the page is filled and on top of the list |
| `Vm.Machine.Walkpgdir` | vm.c:45-65 | the page table of an address, made if asked for; no mapping changes, and a page is taken exactly if the table was missing |
| `Vm.Machine.Mappage` | vm.c:70-90 | the page is mapped there with those flags, and nothing else changes; or there is no page for the table |
| `Vm.Machine.Unmap` | vm.c:264-271 | the page is free and its entry clear, and nothing else changes |
| `Vm.Machine.Deallocuvm` | vm.c:250-274 | exactly the pages its loop comes to are unmapped and free, as many more are free as were mapped there, and the others keep mapping and content |
| `Vm.PageMissed` | vm.c:250-274 | a machine on which deallocuvm passes over a page that allocuvm mapped |
| `Vm.Machine.Allocuvm` | vm.c:221-244 | with n pages free before the call and Need of them for the pages and the tables missing: all pages are there, zeroed, with write and user flags, if and only if n >= Need; the last one is missing and the call still succeeds if and only if n is Need - 1 and that page is the first of a missing table; otherwise it fails and the mappings are as they were. In every case the n pages are accounted for: they are free, page tables, the pages mapped, and one that is lost if and only if the pages ran out with one left and no table for it |
| `Vm.LastPageMissing` | vm.c:221-244 | a machine on which that happens |
| `Vm.PageLost` | vm.c:221-244 | a machine on which a failed allocuvm loses a page |
| `Vm.Machine.GrowAndShrink` | vm.c:221-274 | allocuvm then deallocuvm restores every mapping and its pages, and gives all pages back but the page tables made on the way and the page lost, if and only if allocuvm loses one; with pages enough the growth succeeds and none is lost |
| `Vm.Machine.Freevm` | vm.c:278-293 | every page of the address space, its tables and its directory are free; other address spaces keep theirs |
| `Vm.Machine.Newdir` | vm.c:134-136 | an empty directory on a page that was free |
| `Vm.Machine.Copyuvm` | vm.c:310-340 | it succeeds if and only if the free pages suffice for the directory, the tables and the pages; the child then has the same pages with the same flags and content, on pages that were free, and the parent keeps its own; on failure all pages are back but one, which is lost if and only if the pages ran out with one left and no table for it |
| `Vm.CopyLost` | vm.c:310-340 | a machine on which a failed fork loses a page |
| `Copyout.SpaceInjective` | vm.c:343-356 | in every address space of a valid machine the user pages lie on pages of their own, each under a table that is there |
| `Copyout.Copyout` | vm.c:360-381 | the bytes appear at that address and nowhere else; a missing page, or one of the kernel's, stops the copy in front of it, and a missing page table faults |
| `Spinlock.StepInv` | spinlock.c:24-66 | every instruction of acquire and release, on any processor, keeps the lock's invariant |
| `Spinlock.MutualExclusion` | spinlock.c:24-66 | in every interleaving at most one processor is between winning the xchg and releasing |
| `Spinlock.HoldingExact` | spinlock.c:87-91 | holding is true for the processor that holds the lock and for no other |
| `Spinlock.HoldingStable` | spinlock.c:87-91 | no other processor changes the answer while it is computed |
| `Spinlock.Cpu.Pushcli` | spinlock.c:98-107 | interrupts are off, and what they were is remembered at the outermost call |
| `Spinlock.Cpu.Popcli` | spinlock.c:109-118 | the outermost call restores them |
| `Spinlock.Cpu.RunAll` | spinlock.c:93-118 | any nested run leaves interrupts off while unbalanced and as they were when balanced |
| `Sleep.StepInv` | proc.c:444-496 | every step of sleepers, wakers, the scheduler and kill keeps the invariant, whether or not lk is ptable.lock |
| `Sleep.ScanWakesAll` | proc.c:444-496 | no lost wakeup: at every scan, each thread that saw the condition false under lk and called sleep is asleep, and becomes runnable |
| `Sleep.NoneSince` | proc.c:444-496 | a thread asleep has had no wakeup since it saw the condition false |
| `Sleep.AsleepOnlyWhile` | proc.c:444-496 | a thread sleeps on a true condition only while its waker still holds lk on the way to the scan |
| `Sleep.InitInv` | proc.c:444-496 | the invariant holds at the start |
| `Sleep.Ptable.Wakeup1` | proc.c:480-489 | each thread sleeping on the channel becomes runnable and keeps its channel; every other thread is as it was |
| `Sleep.Ptable.Wakeup` | proc.c:492-496 | on the table of any state of the machine it is the machine's scan |
| `Sleep.Ptable.Kill` | proc.c:501-520 | the first process with that pid is killed, each of its sleeping threads is runnable on the channel it had, and its others are as they were; without such a process nothing changes |
| `Sleep.KillsRun` | proc.c:501-520 | waking the sleepers of one process is a run of the machine |
| `Sleep.Ptable.KillReflects` | proc.c:501-520 | kill is such a run |
| `Mutex.KernelMutex.constructor` | kthread.c:247-268 | unlocked, nobody waiting |
| `Mutex.KernelMutex.Empty` | kthread.c:202-206 | exactly when nobody waits |
| `Mutex.KernelMutex.Push` | kthread.c:208-218 | the thread waits behind the others |
| `Mutex.KernelMutex.Pop` | kthread.c:221-244 | the shift takes the longest waiter off the front and keeps the order of the rest |
| `Mutex.KernelMutex.Lock` | kthread.c:293-324 | the thread owns a free mutex, or waits last |
| `Mutex.KernelMutex.Unlock` | kthread.c:326-358 | the longest waiter gets the mutex, which stays locked; with none waiting it is free |
| `Mutex.RunInv` | kthread.c:293-358 | in every run where only owners unlock: one owner who does not wait while locked, nobody waiting otherwise |
| `Mutex.OneOwner` | kthread.c:293-358 | exactly one thread owns a locked mutex, none a free one, and a free one has no queue |
| `Mutex.FirstComeFirstServed` | kthread.c:293-358 | threads get the mutex in the order in which they asked; the queue is those still to get it |
| `Mutex.Execute` | kthread.c:293-358 | the mutex in memory follows every such run: locked and queue are those of the run |
| `Mutex.MutexTable.Alloc` | kthread.c:247-268 | the first mutex not in use |
| `Mutex.MutexTable.Dealloc` | kthread.c:270-291 | for every int: succeeds exactly on a mutex in use and not locked |
| `Mutex.WindowRun` | kthread.c:307-314 | a run in which unlock passes the mutex to a thread that has queued but not yet blocked |
| `Mutex.StuckForever` | kthread.c:307-314 | that thread then stays blocked, and no other ever gets the mutex, in every continuation |
| `Mutex.NotCaught` | kthread.c:307-314 | if no unlock falls into the window, no thread is caught |
| `Mutex.CaughtInWindow` | kthread.c:307-314 | if one does, some thread is |
| `Mutex.WindowTraps` | kthread.c:307-314 | once an unlock has fallen into the window, at every later moment some thread owns the mutex and is blocked or about to block for good |
| `Mutex.TrappedExactly` | kthread.c:307-314 | so in every run a thread is trapped if and only if an unlock fell into the window |
| `Pipe.FullMeansFull` | pipe.c:85-113 | the tests on the counters mean 512 and 0 bytes in flight, also after they wrap |
| `Pipe.PutAppends` | pipe.c:93 | storing a byte appends it to the pending ones and disturbs no other |
| `Pipe.GetRemoves` | pipe.c:116 | loading a byte takes the oldest |
| `Pipe.StreamOrder` | pipe.c:78-121 | in every interleaving, however often the counters wrap: what went in is what came out followed by at most 512 pending bytes |
| `Pipe.DeliveredPrefix` | pipe.c:78-121 | from a new pipe the bytes returned are a prefix of the bytes accepted |
| `Pipe.SectionsCompose` | pipe.c:78-121 | locked sections compose to one run |
| `Pipe.KernelPipe.constructor` | pipe.c:22-57 | an empty pipe, both ends open |
| `Pipe.KernelPipe.Write` | pipe.c:78-98 | a locked section accepts exactly the bytes that fit, in order, and then is done, sleeps or fails |
| `Pipe.KernelPipe.Read` | pipe.c:100-121 | a locked section returns the oldest pending bytes, as many as asked for and there are |
| `Pipe.ReadToEnd` | pipe.c:59-75 | once the write end is closed, reads get all pending bytes and then the end of the file, and none sleeps or fails |
| `Pipe.WriteToNobody` | pipe.c:59-75 | once the read end is closed, a write does not sleep, and fails if and only if its bytes do not fit |
| `ShellGrammar.LineRead` | sh.c:345-447 | the tokens of any command tree, in parentheses where its level asks for it, are parsed to that tree |
| `ShellGrammar.AtomRead` | sh.c:375-447 | the same for a command with redirections, or a block |
| `ShellGrammar.PipeRead` | sh.c:362-373 | the same for a pipeline |
| `ShellGrammar.RedirsRead` | sh.c:375-398 | redirections are read back in their order |
| `ShellGrammar.LinePlain` | sh.c:385-395 | every token list with ">" for ">>" has the same tree and, with the same exchange, the same rest |
| `ShellGrammar.BarRead` | sh.c:362-373 | a bar joins two commands in a pipe, the left one first |
| `ShellGrammar.SemicolonRead` | sh.c:345-360 | a semicolon joins them in a list |
| `ShellGrammar.AmpersandRead` | sh.c:350-353 | an ampersand puts the command before it in the background |
| `ShellGrammar.RedirectedRead` | sh.c:375-400 | a redirection goes around the command, for input after "<" and for output after ">" and ">>" |
| `ShellGrammar.LineGood` | sh.c:345-447 | every accepted line gives a tree whose argument lists fit and whose words are words of the line |
| `Shell.LexText` | sh.c:266-309 | tokens written with spaces between are read back |
| `Shell.LexSpread` | sh.c:263-309 | tokens are read back from every text with any of space, tab, CR, LF and VT around them, as long as there is some between two words and between ">" and ">" |
| `Shell.PrintParses` | sh.c:266-447 | parsing the canonical text of any command of at most nine arguments gives that command |
| `Shell.AppendOverwrites` | sh.c:389-394 | the lines `a >> f` and `a > f` give the same tree |
| `Shell.Operators` | sh.c:345-400 | the lines of two words with a bar, a semicolon or a redirection between them give the trees these stand for |
| `Shell.AcceptedPrints` | sh.c:266-447 | what comes out of the parser can be printed, and parsing that gives it back |
| `Shell.ReadPrinted` | sh.c:328-343 | so does the parser itself, in place on the line |
| `Shell.Parser.Gettoken` | sh.c:266-309 | the next token, its kind and its extent, and the cursor behind it |
| `Shell.Parser.Peek` | sh.c:311-321 | whether the next token starts with one of these symbols; no token is consumed |
| `Shell.Parser.Parseredirs` | sh.c:375-398 | agrees with the grammar on tree, rest and failure |
| `Shell.Parser.Parseexec` | sh.c:416-447 | agrees with the grammar, and terminates |
| `Shell.Parser.Parseblock` | sh.c:400-414 | agrees with the grammar |
| `Shell.Parser.Parsepipe` | sh.c:362-373 | agrees with the grammar |
| `Shell.Parser.Parseline` | sh.c:345-360 | agrees with the grammar |
| `Shell.Parser.Parsecmd` | sh.c:328-343 | succeeds exactly when the whole line is one command, and gives its tree |
| `Shell.Nulterminate` | sh.c:450-494 | exactly the ends of the words of the tree become NUL |
| `Shell.EndsSeparate` | sh.c:450-494 | those places are separators or the end of the line |
| `Shell.WordsIntact` | sh.c:450-494 | each stored C string equals its token |
| `Shell.ReadCommand` | sh.c:328-343 | all of it for any line: tree, termination and untouched words |
| `Grep.MatchesCons` | grep.c:84-105 | a list of items describes a text when the first describes a piece and the others what follows |
| `Grep.ReadWritten` | grep.c:84-95 | every list of items with characters, stars and at most a final anchor, written as a pattern, is read as that list |
| `Grep.WrittenRead` | grep.c:84-95 | and every pattern is the text of the list it is read as |
| `Grep.Suffix` | grep.c:90-91 | a plain word followed by "$" matches exactly the texts that end in it |
| `Grep.Exact` | grep.c:71-95 | between "^" and "$" it matches itself alone |
| `Grep.Inside` | grep.c:71-95 | alone it matches the texts it occurs in, and after "^" those that begin with it |
| `Grep.StarAll` | grep.c:98-105 | c* between "^" and "$" matches the texts of c alone, and .* all texts |
| `Grep.DotAny` | grep.c:92-93 | "." matches any one character |
| `Grep.MatchHere` | grep.c:84-95 | true if and only if the pattern describes a piece of the text that starts here |
| `Grep.MatchStar` | grep.c:98-105 | the same for c* followed by a pattern |
| `Grep.Match` | grep.c:71-81 | true if and only if the pattern, with its ^ . * and $, describes a piece of the text |

## Left out

- Process and thread life (fork, exit, wait, kthread_create, kthread_join), the scheduler's loop and context switches: only the thread states that sleep, wakeup and kill change are modelled.
- Condition variables, the monitors built on them and kthread_mutex_yieldlock.
- Drivers, interrupts, booting, system call arguments, exec and descriptor tables; the disk is the memory disk of memide.c.
- Device inodes: readi and writei through devsw, and the major and minor numbers create stores.
- fstat, chdir and open as such: they add nothing to the handles and walks modelled here.
- grep's loop over input buffers: only the matcher is modelled.
- Running parsed commands in the shell.
- setupkvm's mappings of the kernel, clearpteu, loaduvm, inituvm: address spaces are modelled below KERNBASE.
- Bytes and words: the log's blocks are lists of words and the file system's are bytes; inodes on disk are records rather than bytes.
- One device: the inode cache is keyed by inode number alone, since only the root device is ever used.
- Concurrency inside the file system: each system call on names runs to its end; inode locks are taken and released but never contended.
- GroupCommit.NoSpacePanic: is for operations with a budget of at most MAXOPBLOCKS log_write calls; Filewrite.FullPiecePanics is about those of filewrite, which exceed it.
- CrashSpec.CrashAtomicity: takes log and home sectors to be disjoint; Mkfs.Allocation says when the kernel gives a block of the log to a file.
- Log.KernelLog.Commit: takes no other process to hold a buffer while it runs; bget would wait for such a buffer, or find one less to recycle.
- Mkfs.Image.Iappend: stops at the end of the disk, where mkfs would go on to write behind it.
- Sysfile.Create: takes the parent directory not to have been removed; Links.MakeKeeps and Links.LinkKeeps show why.
- Sysfile.SysLink: takes the directory of the new name not to have been removed, for the same reason.
- Namei.Namex: takes the walk to come to no freed inode, where ilock panics; Namei.StandingExactly says which walks do.
- Namei.Name: the same.
- Sysfile.SysUnlink: the same.
- Umalloc.Heap.Malloc: takes a request that fits no free block to be below 2^31 bytes; Umalloc.SbrkExactly says what sbrk does with others.
- Umalloc.Heap.MoreCore: takes the request to be below 2^31 bytes, for the same reason.
- Umalloc.Heap.SearchOrGrow: the same as Umalloc.Heap.Malloc.
- Mutex.WindowTraps: does not model a second processor that runs the thread an unlock has set RUNNABLE while it is still running in the window.
- Mutex.TrappedExactly: the same.
- Vm.Machine.Mappage: is mappages for one page, the only way user memory is mapped; a range of pages occurs only in setupkvm.
- Copyout.Copyout: works on the mapping from pages to memory that Copyout.SpaceInjective justifies, with the memory in bytes rather than words.
- Links.NlinkFits: link counts are unbounded in the model; this is why their 16 bits do not matter.
- Mutex.RunInv: queueing and blocking are one step there; Mutex.TrappedExactly is about the two.
- Sleep.ScanWakesAll: takes each lock in one step, as Spinlock.MutualExclusion allows.
- Shell.Parser.Parseexec: builds the command once its arguments are known, where the code fills them in under the redirections already made.

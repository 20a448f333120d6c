# xv6 in Dafny

A verification project for the xv6 teaching kernel (the variant with file modes and `chmod`), its user-level
allocator, shell and grep, and its mkfs. Each module models the behaviour of one part of the C source and proves what that
part is for. `dafny verify dfyconfig.toml` checks the whole project.

| module | what it is about |
|---|---|
| `Base` | words, constants and the option type that the others share |
| `Log`, `RedoLog`, `LogSystem`, `Transactions` | the redo log: single-block disk writes with a crash possible between any two; the code of log.c over it; every interleaving of operations, commits, crashes and recoveries; filewrite's transactions over them |
| `BufferRing`, `BufferCache`, `Bio`, `BufferRuns`, `BufferView` | the buffer cache: the linked list as an order, the operations as functions on the cache, the code of bio.c over the list, every interleaving of its users, and what a user sees in a buffer |
| `FsModel`, `FileSystem`, `WriteBound` | block ownership and file contents; balloc, bmap, readi, writei, itrunc and filewrite over them; how many blocks a write needs and logs |
| `Directory`, `Paths`, `Inodes`, `Namei` | directories as maps, path names, inode references, the end of an unlinked inode, the walk of a path over the directories of a file system |
| `Mkfs`, `RootHole` | the first image, and the first file linked into its root directory |
| `VmModel`, `VmSpaces`, `VmCopy`, `VmFrames`, `Vm` | page frames and who holds each of them; address spaces; how many frames an operation takes; kalloc.c and vm.c |
| `HeapModel`, `Heap` | malloc and free |
| `SleepLock`, `Pipe`, `PipeSystem`, `PipeCalls`, `ProcTable`, `ProcScans`, `ProcWaits` | sleep locks, pipes and the process table, as state machines over the steps between lock operations; the loops of pipe.c and proc.c; what one call to read, write, wait, sleep or fork does over a run |
| `Shell`, `ShellParser`, `ShellPrint`, `ShellParens`, `ShellWords`, `ShellTokens`, `ShellCounts` | the shell's grammar, its parser, printing and parsing back, where parentheses are needed, nulterminate, what a command says about the text it was read from |
| `Grep` | the regular-expression matcher |

Code that updates things in place is modelled by classes and methods with the same loops, each proved against a function
or relation on values; the theorems are then about those. Concurrent code is modelled by a step relation; its theorems are
about every run of any length with any number of processes.

## What turned out false

Where the code does not meet what its comments suggest, there is a lemma or a method
with a concrete case, and the exact condition.

- log.c:218 panics before it looks for a block to absorb. With the log exactly full, an operation that stays inside its
  reservation panics by writing a block again (`LogSystem.AbsorbingWriteCanPanic`). mkfs.c:25 makes the on-disk log one
  block shorter than LOGSIZE blocks need. On such a log a write of a new block panics one slot early
  (`LogSystem.AppendingWriteCanPanic`). `LogSystem.LogWritePanicsIff` says exactly when either happens.
- log.c:218 makes that check before it takes the lock. Two operations within their reservations can pass it for the last
  slot together and log one block more than the log holds (`LogSystem.OverrunRun`); commit would then write past the log.
  It happens exactly if the log has between 2 and LOGSIZE blocks (`LogSystem.OverrunIff`), so it can on the image mkfs
  makes. Crash safety holds in every run that does not overrun the log (`LogSystem.CrashSafety`), and with one block more
  in every run of operations within their reservations (`LogSystem.BudgetedCrashSafety`).
- A writer killed in pipe.c:86 returns without waking readers. A reader can then sleep beside a full pipe
  (`PipeSystem.StrandedReader`). It happens in a run exactly if some step of the run is a killed writer's that has more
  to write than there is room for, while a reader sleeps (`PipeSystem.StrandedIff`).
- proc.c:486 compares pids without looking at the state. A failed fork leaves its pid in a free slot, and killing that pid
  marks the slot's next occupant (`ProcTable.KillMarksFreeSlot`); kill(0) on a fresh table does the same
  (`ProcTable.KillZero`). A new process starts out killed exactly if a kill found its slot, free or an EMBRYO, since the
  slot was last reaped (`ProcTable.StartsKilledIff`). kill marks a process in use exactly if some process in use has the
  pid (`ProcTable.KillMarksProcessIff`).
- writei calls iupdate only when the file grows (fs.c:511-514), but bmap may have put a new block into the inode in memory
  (fs.c:382-384). The inode on disk is the one in memory after a write exactly if the file grew or no block it touched
  lacked its pointer in the inode, after a read exactly if the latter (`FileSystem.FileSys.Writei`,
  `FileSystem.FileSys.FileWrite`, `FileSystem.FileSys.Readi`, `Directory.Dirlink`). Files without holes always meet that.
  The next item is where it fails.
- mkfs.c:161 rounds the root directory up by a whole block even when it ends on a block boundary. The image then has a
  root directory with a hole, exactly if the number of files plus two is a multiple of 32 (`Mkfs.Image.Build`). dirlink
  puts the next entry into that hole without making the directory longer, and sysfile.c:271 writes the directory's inode
  only for a new directory. Read back from disk, the root directory then lacks the entry, and a block is in use that
  nothing on disk refers to; both exactly in that case (`RootHole.LinkInRoot`). Thirty files are one
  (`RootHole.ThirtyFiles`).
- mkfs.c:226 counts inodes without a bound. From the 207th file on they lie past the inode blocks: inode 208 is the start
  of the bitmap block, and is lost when the bitmap is written (`Mkfs.LostInode`, `Mkfs.InodeBlockIff`). An image is
  finished and sound exactly if there are at most 206 files, none is too large, and all fit (`Mkfs.Image.Build`). Blocks
  past the image are caught: mkfs.c:281 and mkfs.c:289 read a new block before they write it, and the read at the end of
  the file makes mkfs exit (`Mkfs.SevenLargeFiles` is a case).
- umalloc.c:69 wraps for requests within 8 bytes of 4 GB and returns a block of one unit (`Heap.WrappedRequest`,
  `Heap.LargeEnoughIff`). The byte count morecore passes to sbrk is the one it means exactly for requests up to 2^31 - 16
  bytes (`Heap.AskableIff`).
- The initial buffers of bio.c all claim block 0 of device 0. A block can be in two buffers exactly if it is that one, and
  the empty run is a case (`BufferRuns.OneBufferPerBlock`). Because bget takes the first match in the list, two buffers
  that are in use never hold one block, that one included (`BufferRuns.OneInUse`).

## Model

| member | source | states |
|---|---|---|
| Log.CrashDuringRecovery | log.c:69-122 | a crash after any number of recovery's single-block writes leaves a disk from which recovery yields the same home blocks as it would have without the crash |
| Log.RepeatedCrashes | log.c:115-122 | the same for recovery interrupted and restarted any number of times, each time at any write |
| Log.CrashDuringCommit | log.c:192-202 | a crash after any write of commit() recovers to all old home blocks or all new ones, and to the new ones exactly if the non-zero header was written |
| Log.CommitComplete | log.c:192-202 | a commit that is not interrupted leaves the new home blocks and an empty header on disk |
| RedoLog.LogDevice.Commit | log.c:192-202 | commit() performs exactly the sequence of writes the crash theorems are about and empties the log |
| RedoLog.LogDevice.WriteLog | log.c:177-190 | write_log writes the cached contents of the logged blocks, in order, to the log slots |
| RedoLog.LogDevice.WriteHead | log.c:101-113 | write_head writes the header block that lists the logged blocks and leaves the rest of that block alone |
| RedoLog.LogDevice.InstallTrans | log.c:69-82 | install_trans makes the disk the update of itself by the logged blocks and unpins every buffer |
| RedoLog.LogDevice.ReadHead | log.c:85-96 | read_head gives the in-memory list the block numbers the header block holds |
| RedoLog.LogDevice.RecoverFromLog | log.c:115-122 | recover_from_log makes the disk the recovered one, by exactly the writes of the crash theorems |
| RedoLog.LogDevice.LogWrite | log.c:213-233 | log_write panics exactly if the log has no room or no operation is open; otherwise it lists the block once and pins its new contents |
| RedoLog.LogDevice.EndOp | log.c:144-174 | end_op commits exactly if it ends the last outstanding operation; then the home blocks are the old ones updated with everything logged, by exactly commit's writes, and the log is empty; otherwise disk, log and pinned buffers stay; it does not panic |
| LogSystem.CrashSafety | log.c:125-233 | in every run of operations, commits, crashes and recoveries that does not overrun the log, recovery at any moment yields exactly the durable prefix of the history; that prefix consists of whole operations and no operation is split over two commits |
| LogSystem.BudgetedCrashSafety | log.c:125-233 | the same for every run whose operations keep to MAXOPBLOCKS blocks each, on a log with room for LOGSIZE blocks |
| LogSystem.QuietIsDurable | log.c:144-174 | in every run that does not overrun the log, whenever no operation, commit or recovery is at work, everything written so far is durable, the log is empty, and the home blocks on disk are the replay of the whole history |
| LogSystem.LastEndCommits | log.c:154-168 | in every run the end of an operation starts a commit exactly if it was the only one open |
| LogSystem.DurableStays | log.c:69-202 | in every run what is durable stays durable, through every later step, crash and recovery |
| LogSystem.WorkFinishes | log.c:115-202 | from every reachable state in which a commit or a recovery is at work, its remaining writes can be taken to the end, and then the whole history is durable |
| LogSystem.OperationsCanBegin | log.c:125-142 | in every run, with nothing outstanding and no commit at work, a new operation can begin |
| LogSystem.OperationsCanEnd | log.c:144-174 | in every run an open operation that is not between log_write's check and its store can end |
| LogSystem.ReadsSeeWrites | log.c:213-233 | while operations run and the log is not overrun, reading through the cache gives the disk with every write so far applied |
| LogSystem.ReservationsHold | log.c:125-174 | if every operation stays within MAXOPBLOCKS distinct blocks, logged blocks plus unspent reservations never exceed LOGSIZE, logged numbers are distinct, and a commit starts only with no operation outstanding |
| LogSystem.LogWritePanicsIff | log.c:216-231 | for operations within their reservation, log_write's first panic happens exactly if the on-disk log is short or the write absorbs into a full log |
| LogSystem.AbsorbingWriteCanPanic | log.c:216-231 | a run in which three operations fill the log within their reservations and the next absorbing write panics |
| LogSystem.AppendingWriteCanPanic | log.c:216-219 | on a log of at most LOGSIZE blocks, a run in which an operation within its reservation panics by logging a new block |
| LogSystem.OverrunRun | log.c:216-233 | a run in which two operations within their reservations pass the check together and the log's last copy falls outside the log |
| LogSystem.OverrunIff | log.c:216-233 | operations within their reservations can overrun the log exactly if it has at least 2 and at most LOGSIZE blocks |
| Transactions.FilewritesFit | file.c:118-147 | in every run whose operations are filewrite's, any number at once, each keeps to MAXOPBLOCKS, reservations hold, and a log with room for LOGSIZE blocks is not overrun |
| BufferRing.Unlinked | bio.c:132-133 | taking a buffer out of the ring leaves a ring, both ways round, of the others in the same order |
| BufferRing.Pushed | bio.c:134-137 | putting a buffer in after the head leaves a ring with it in front |
| BufferCache.ReleasedShaped | bio.c:128-138 | after brelse the list still holds every buffer once, latest released first |
| Bio.Bcache.Binit | bio.c:38-56 | the list links every buffer once and no buffer caches a block |
| Bio.Bcache.FindBlock | bio.c:69-76 | the first loop of bget finds the first buffer of the list that holds the block, which is the latest released one, or there is none |
| Bio.Bcache.FindVictim | bio.c:81-91 | the second loop finds the least recently released buffer that is unreferenced and not dirty, or there is none |
| Bio.Bcache.Bget | bio.c:61-93 | bget references the cached buffer if there is one, else recycles the least recently released unreferenced clean one, and panics exactly if neither exists |
| Bio.Bcache.Iderw | memide.c:38-60 | iderw panics exactly for an unlocked buffer, nothing to do, a wrong disk or a block out of range, and otherwise writes a dirty buffer out or reads the block in |
| Bio.Bcache.Bread | bio.c:96-106 | bread reads the block in exactly if the buffer was not valid |
| Bio.Bcache.Bwrite | bio.c:109-116 | bwrite puts the buffer's bytes on disk and leaves it valid and clean, or panics for a caller without the lock |
| Bio.Bcache.MoveToFront | bio.c:132-137 | brelse's six pointer stores move the buffer to the front of the ring and keep the rest in order |
| Bio.Bcache.Brelse | bio.c:120-141 | brelse unlocks, drops one reference, and moves the buffer to the front exactly if it was the last one |
| BufferRuns.RunInv | bio.c:38-141 | every interleaving of bget, acquiresleep, bread, log_write, bwrite and the two halves of brelse keeps the cache invariant: ring, counts, lock holders, uniqueness and contents |
| BufferRuns.OneBufferPerBlock | bio.c:61-93 | some run ends with a block in two buffers exactly if it is block 0 of device 0, which unused buffers claim |
| BufferRuns.OneInUse | bio.c:61-93 | in every run no two buffers with references hold the same block, of any device: bget takes the first match, and a buffer moves only when nobody uses it |
| BufferRuns.SameBlockSameBuffer | bio.c:61-141 | in every run two users of one block have the same buffer, and at most one of them holds it |
| BufferRuns.CleanIsDisk | bio.c:96-116 | in every run a valid, clean, unlocked buffer holds the disk's bytes, if users log or write what they change before they release |
| BufferRuns.HeldByOne | bio.c:61-93 | in every run at most one user holds a buffer, and a buffer with a reference is never a candidate for recycling |
| BufferRuns.DirtyStays | bio.c:78-82 | a buffer marked dirty by log_write keeps its block and stays dirty over every run that does not write it out |
| BufferView.HoldersSeeLatest | bio.c:96-141 | in every run whoever holds a valid buffer sees the bytes last put into its block by any user, or the disk's first bytes if nobody has; recycling, reading in and writing out change nothing of that |
| BufferView.StepLatest | bio.c:61-141 | only a change by a holder changes the latest bytes of a block, and to what the holder put there |
| BufferView.ReadMakesValid | bio.c:96-106 | bread leaves its caller with a valid buffer |
| BufferView.RecyclesLeastRecent | bio.c:78-91 | in every run the buffer bget recycles is one whose last release lies no later in the run than that of any other candidate |
| BufferView.UsersGoOn | bio.c:61-141 | in every run a user of a buffer can take its next step, except to wait for a lock that another holds |
| FsModel.PutPtrExact | fs.c:383-396 | storing a fresh block in an empty direct slot, or as the indirect block, keeps exact block ownership |
| FsModel.PutEntryExact | fs.c:397-399 | storing a fresh block in an empty entry of the indirect block keeps exact block ownership |
| FsModel.PutDataFiles | fs.c:503-510 | replacing part of one block of a file splices those bytes into that file and changes no other |
| FileSystem.FileSys.Balloc | fs.c:58-79 | balloc takes the first free block, zeroes it and logs it and its bitmap block; none exactly if every bit is set |
| FileSystem.FileSys.Bmap | fs.c:377-404 | bmap returns the block's address, changes nothing if it was there, and otherwise fills exactly the missing slots, keeps ownership exact, every file's bytes and every other address, and logs exactly the new blocks, their bitmap blocks and the indirect block it wrote; it fails exactly if fewer blocks are free than slots are missing |
| FileSystem.FileSys.Writei | fs.c:487-516 | writei refuses exactly holes, wrap-around and oversize and runs out exactly if fewer blocks are free than it lacks; otherwise it splices src at off into that file alone, sets the size to the larger end, changes no other inode and nothing else of this one but addresses, keeps ownership exact, writes the inode to disk exactly if the file grew, so that disk and memory agree exactly if it grew or no touched block lacked its pointer; it logs exactly the blocks of WriteLog, at most ten for a chunk of a file without holes |
| FileSystem.FileSys.Readi | fs.c:458-481 | readi returns exactly the slice clipped to the size, fewer bytes than asked only if the slice ends where the file does, across the direct/indirect boundary, refuses exactly offsets past the end and wrap-around, keeps every file's bytes, takes exactly the blocks that are missing in the slice and logs exactly what that changes, runs out exactly if fewer are free, leaves the inode on disk the one in memory exactly if no touched block lacked its pointer, and on a file without holes changes nothing |
| FileSystem.FileSys.WriteRead | fs.c:458-516 | whatever writei accepts, readi at the same place then gives back, all of it, on any file and any disk |
| FileSystem.RefusedIff | fs.c:498-501 | the tests of writei, wrap-around included, refuse exactly what starts past the end of the file or ends past the largest file |
| FileSystem.FileSys.Itrunc | fs.c:412-439 | itrunc frees exactly the blocks of its file, never a free one, leaves no address, changes no other file, and logs exactly the bitmap blocks of what it frees and the inode's block |
| FileSystem.FileSys.WriteChunk | file.c:133-147 | one transaction of filewrite, with writei's exact outcomes for the file, its inode in memory and on disk; it logs exactly WriteLog, at most MAXOPBLOCKS blocks for a file without holes |
| FileSystem.FileSys.FileWrite | file.c:118-156 | filewrite writes exactly the chunks up to the first one writei refuses, leaves the file's final size and every other inode as one write of all that would, reports success exactly if that is everything, runs out of blocks exactly if fewer are free than all those chunks together lack, and leaves the inode on disk the one in memory exactly if the file grew or no touched block lacked its pointer |
| FileSystem.AcceptedIs | file.c:118-156 | filewrite's chunks take all of a write that fits the largest file, and of one that does not, whole chunks of 1536 bytes as far as they fit |
| FileSystem.PointersKept | fs.c:377-404 | mapping the blocks of a stretch leaves the inode as it was exactly if none of them lacked its direct pointer or the indirect one |
| FileSystem.DenseLacksNoPointer | fs.c:377-404 | a file without holes lacks no pointer within its length |
| FileSystem.LackingSplit | fs.c:377-404 | what a longer stretch of a file lacks is what its first part lacks and what the rest lacks once that is allocated, across the direct/indirect boundary |
| FileSystem.WritingBound | file.c:133-140 | what one chunk of at most 1536 bytes logs besides the inode is at most nine blocks, because an unaligned first block of a file without holes is already there |
| FileSystem.LoggedStep | fs.c:503-510 | each round of writei's loop adds to the log exactly what the closed form LoggedBy grows by |
| WriteBound.TenBlocks | file.c:133-140 | a chunk that leaves the direct blocks on a disk whose free blocks lie in different bitmap blocks logs at least ten blocks |
| WriteBound.TightChunk | file.c:133-140 | on a crowded disk laid out as mkfs would, filewrite's chunk succeeds and logs exactly ten blocks: the bound is tight |
| Directory.NameEqual | string.c:58-66 | strncmp over DIRSIZ bytes says equal exactly if the names, cut at NUL or 14 bytes, are the same |
| Directory.CopyName | string.c:68-79 | strncpy gives 14 bytes that spell the same name |
| Directory.Dirlookup | fs.c:530-553 | dirlookup finds the first entry in use under the name, or none exists; it panics only for a non-directory, a size that is no whole number of entries, or too few free blocks for the directory's holes; without holes it changes nothing |
| Directory.FindFree | fs.c:568-574 | dirlink's search stops at the first free entry, else at the end; it fails only for a broken size or too few free blocks for the holes |
| Directory.Dirlink | fs.c:557-583 | for a well-formed directory dirlink refuses exactly names that exist and panics exactly if the entry does not fit the largest file or too few blocks are free; otherwise it puts one entry, with the low 16 bits of the inode number, at the first free place, takes exactly the blocks the directory lacks, changes no other file or inode, and enters exactly that name in the directory's map; the directory's inode on disk is then the one in memory exactly if the entry went to the end or no block of the directory lacked its pointer |
| Directory.EntryPutMap | fs.c:557-583 | such an entry keeps live names unique, adds the name to the directory's map and leaves every other lookup as it was |
| Paths.SkipElem | fs.c:601-623 | skipelem splits a path into its first element, cut to 14 bytes, and a path with the remaining elements |
| Paths.ElemsJoin | fs.c:585-623 | the elements of two paths joined by a slash are the elements of the first and then of the second |
| Paths.ElemsOfJoined | fs.c:585-623 | the elements of names joined by slashes are those names, in order, each cut to 14 bytes |
| Paths.WalkPath | fs.c:630-662 | walking one path and then another from where it led is walking the two joined by a slash |
| Paths.ICache.Iget | fs.c:245-275 | iget adds one reference to the inode in its one slot, or finds every slot in use |
| Paths.ICache.Idup | fs.c:280-286 | idup adds one reference to that inode and to no other |
| Paths.ICache.Iput | fs.c:353-355 | the last step of iput drops one reference to that inode and to no other |
| Inodes.Iput | fs.c:336-356 | iput gives an inode and exactly its blocks back exactly if it is in memory, has no links and this was its last reference; otherwise only the reference goes |
| Namei.Namex | fs.c:630-662 | over the directories of a file system as dirlookup reads them: the result is the walk of the path's elements, from the root directory exactly if the path begins with a slash and else from the directory the caller is in; on every return namex has added one reference to the inode it returns and none to any other, and every directory has the entries and links it had; it panics only with every icache slot in use or at a directory with a hole or a broken size |
| Namei.TwoCallers | fs.c:634-637 | two callers in different directories who look up one absolute path get the same inode, in the same slot of the icache, or neither gets one, panics aside |
| Namei.Follow | fs.c:639-661 | namex's loop from any inode it holds: the walk of the path from there, with one reference moved to the inode it ends at or given back |
| Namei.Descend | fs.c:637-652 | one element: the lookup in the directory's bytes is one step in the tree, the reference moves from the directory to what the name leads to, and no directory goes away |
| Namei.LookupsAreDirMap | fs.c:530-553 | where no name is in use twice, what lookups find in a directory is its map |
| Paths.ParentThenLookup | fs.c:630-675 | nameiparent followed by a lookup of the last element is namei |
| Mkfs.Image.constructor | mkfs.c:108-111 | an image of zeroes has exact block ownership: only metadata is in use |
| Mkfs.Image.Ialloc | mkfs.c:223-236 | ialloc gives the next inode, empty, and leaves every file as it was, as long as it lies in the inode blocks |
| Mkfs.Image.Iappend | mkfs.c:256-298 | iappend puts data at the end of its file and takes exactly the blocks by which the file's need grows, keeps ownership exact and every other file; it fails exactly for a file too large or too few blocks |
| Mkfs.Image.FixRoot | mkfs.c:158-163 | rounding up the root directory leaves it without a hole exactly if its size was not a multiple of the block size |
| Mkfs.Image.Balloc | mkfs.c:238-252 | balloc marks exactly the first used blocks, exactly if they fit one bitmap block |
| Mkfs.Image.Build | mkfs.c:117-165 | a build finishes exactly if there are at most 206 files, none is too large and all fit; then the image has exact block ownership, each file is a plain file with one link that holds its host file's bytes and zeroes after them, the root directory lists them in order on exactly the blocks that takes, the bitmap has the computed number of blocks, and the root has a hole exactly if the number of files plus two is a multiple of 32; it overruns the inode blocks exactly if there are more files and the first 206 fit |
| Mkfs.Image.Rsect | mkfs.c:210-221 | reading a block fails exactly past the end of the image |
| Mkfs.InodeBlockIff | mkfs.c:183-207 | an inode lies in the inode blocks exactly below 208, and in the bitmap block for the next eight |
| Mkfs.LostInode | mkfs.c:223-252 | inode 208, read back after the bitmap is written over it, has type 0xffff |
| Mkfs.SevenLargeFiles | mkfs.c:256-298 | seven files of the largest size do not fit |
| RootHole.LinkInRoot | mkfs.c:158-163 | on every image mkfs finishes, dirlink of a new name into the root directory succeeds exactly if the directory has no hole or a block is free; then the inodes on disk are those in memory, the directory on disk has the name, and no data block in use is without a reference on disk, each exactly if the number of files plus two is not a multiple of 32 |
| RootHole.ThirtyFiles | mkfs.c:158-163 | with thirty files the name linked next is in the directory in memory and not in the one on disk |
| RootHole.EntryIs | mkfs.c:120-150 | entry j of the root directory mkfs writes has inode number j, or 1 for the first two, and the name it was given |
| VmModel.RetargetUser | vm.c:68-78 | a user entry and the frame behind it change together without disturbing any other place |
| VmModel.SameFree | kalloc.c:59-95 | who holds each frame fixes the set of free frames |
| Vm.Machine.Kalloc | kalloc.c:82-95 | kalloc hands out the first free frame and nothing else changes; none exactly if the list is empty |
| Vm.Machine.Freerange | kalloc.c:46-53 | freerange frees exactly the whole pages of its range |
| Vm.Machine.Walkpgdir | vm.c:35-55 | walkpgdir finds the table, or with alloc makes a zeroed one from a free frame; no translation of any space changes, and it fails exactly for want of a table or a frame |
| Vm.Machine.Mappages | vm.c:60-80 | mappages maps the pages of its range to consecutive frames up to where it stopped, changes no other entry of any space, makes user pages owners of their frames, and takes a frame for exactly the tables that are missing; it stops for want of a frame only if fewer are free than those, or at a page already mapped |
| Vm.Machine.Deallocuvm | vm.c:255-279 | deallocuvm with its directory-skipping loop unmaps and frees exactly the user pages from newsz, rounded up, to oldsz, and changes nothing else |
| Vm.Machine.Allocuvm | vm.c:221-249 | allocuvm adds exactly the pages from oldsz, rounded up, to newsz as zeroed pages that were free, exactly if there are as many free frames as those pages and their missing tables; else it returns 0 with every translation and every page in use as before and only tables added |
| Vm.Machine.Freevm | vm.c:283-298 | freevm frees exactly the directory, the tables and the user pages of its space, each once, and changes no other space |
| Vm.Machine.Setupkvm | vm.c:118-136 | setupkvm builds a space that has exactly the kernel's mappings, page by page, exactly if 65 frames are free, or leaves every frame where it was |
| Vm.Machine.Copyuvm | vm.c:315-345 | copyuvm gives a child with the parent's flags and bytes on frames that were free, the kernel's mappings and nothing else, every other space untouched; it fails only if fewer frames are free than the kernel half, the pages and a table every 4 MB take, and then every frame is back where it was, so the set of free frames is the same; it panics only if a page below sz is missing |
| VmFrames.FramesStep | vm.c:221-249 | one page and its missing table are what a range needs less once the page is mapped |
| VmFrames.KernelStep | vm.c:104-136 | each of the kernel's four mappings takes exactly the tables that the ones before it did not make |
| VmSpaces.Rollback | vm.c:234-246 | fresh pages followed by deallocuvm over the whole range restore every translation |
| VmCopy.BesideGone | vm.c:342-344 | freeing the half-built child gives every frame its former holder |
| VmCopy.KernelBits | vm.c:105-115 | in a space setupkvm built, no kernel entry is open to users; the entries present are exactly those for 0x80000000 up to 0x8E000000 and from 0xFE000000 on, each for the same physical address less the base; all are writable but the kernel's text |
| HeapModel.InsertFreeList | umalloc.c:24-44 | free keeps the list in address order, with no two blocks touching |
| HeapModel.InsertCovers | umalloc.c:33-42 | the free addresses after free are the ones before and the freed block's |
| HeapModel.LinkedInsert | umalloc.c:33-42 | free's four conditional assignments turn the circle in memory into the circle of the coalesced list |
| HeapModel.TakeCovers | umalloc.c:75-82 | malloc takes exactly the block's addresses out of the free ones |
| HeapModel.FreeUndoesMalloc | umalloc.c:24-90 | freeing what malloc just took gives the list malloc found |
| Heap.SearchStops | umalloc.c:30-32 | the two exits of free's search are taken at the block below the freed one and nowhere else, and each step comes closer to it |
| Heap.Allocator.Free | umalloc.c:24-44 | free inserts the block at its one place, coalesced both ways; every granted address stays free or allocated and never both |
| Heap.Allocator.Morecore | umalloc.c:46-61 | morecore asks for at least 4096 units, adds exactly what sbrk grants to the free list, and fails without change |
| Heap.Allocator.Malloc | umalloc.c:63-90 | malloc takes the first block large enough after freep if there is one, else grows the heap once; the result is disjoint from every other allocated and free block, units and addresses are conserved, and a refusal changes nothing |
| Heap.LargeEnoughIff | umalloc.c:69 | the block holds the request exactly if nbytes is at most 2^32 - 8 |
| Heap.WrappedRequest | umalloc.c:69 | a request of 2^32 - 1 bytes is counted as one unit |
| Heap.AskableIff | umalloc.c:52-54 | sbrk is asked for the bytes meant exactly if nbytes is at most 2^31 - 16 |
| SleepLock.NoLostWakeup | sleeplock.c:22-42 | in every run, when the inner spinlock is free and the lock is not held, no process sleeps on it or is about to |
| SleepLock.OneOwner | sleeplock.c:22-53 | in every run at most one process is between acquiresleep and releasesleep, and holdingsleep's test is true exactly of it |
| SleepLock.NoDeadlock | proc.c:418-474 | in every run, while a process uses the lock, some process that uses it can take a step, at worst after a process that has ptable.lock for something else gives it up, which it can |
| SleepLock.AcquireGetsLock | sleeplock.c:22-32 | in every run a process that entered acquiresleep is still in it or has held the lock since |
| SleepLock.InAndOut | sleeplock.c:22-42 | a lone process holds the lock after four steps, and after seven more the state is the one it began in |
| Pipe.WriteRunContents | pipe.c:78-98 | pipewrite's loop appends what it copies to the pipe's contents, through 32-bit wrap of the counters, and stops early only at a full pipe |
| Pipe.ReadRunContents | pipe.c:112-118 | piperead's loop takes as many bytes as there are, at most n, from the front of the contents |
| Pipe.PipeBuffer.Write | pipe.c:78-98 | the code's loop over the ring buffer is that specification |
| Pipe.PipeBuffer.Read | pipe.c:112-118 | the code's loop over the ring buffer is that specification |
| PipeSystem.BytesInOrder | pipe.c:60-121 | in every run the bytes delivered are a prefix of the bytes accepted, at most PIPESIZE behind; what each call adds and takes is PipeCalls |
| PipeCalls.WriterSends | pipe.c:78-98 | in every run, through every sleep and whatever other writers do in between, one call to write has put into the pipe exactly the bytes it has counted, each once and in order; when it has ended, all of them, unless its process was killed or nobody can read |
| PipeCalls.ReaderGets | pipe.c:100-121 | in every run a call to read takes nothing while it waits; when it has ended it took, at one step, the oldest bytes of the pipe, as many as it wanted or all there were; none only if it wanted none, nobody can write or it was killed |
| PipeCalls.OnlyWritesAccept | pipe.c:60-121 | no step but a writer's adds to the pipe's bytes, and none takes accepted bytes back |
| PipeCalls.KilledDontSleep | pipe.c:84-109 | in every run a killed process does not sleep in a pipe |
| PipeCalls.AwakeGoesOn | pipe.c:84-118 | in every run a process in a call that is not asleep can go on with it |
| PipeSystem.SleepersHaveReason | pipe.c:60-121 | in every run a sleeping writer faces a full pipe with a reader, a sleeping reader a pipe with a writer, and that pipe is empty if no step so far was a killed writer's with too much to write |
| PipeSystem.StepStrandsIff | pipe.c:60-121 | a step leaves a reader asleep beside bytes, where none was, exactly if it is a killed writer's with more bytes than room while a reader sleeps |
| PipeSystem.StrandedIff | pipe.c:60-121 | a run has a state with a reader asleep beside bytes exactly if it has such a step |
| PipeSystem.StrandedReader | pipe.c:85-89 | a run in which a killed writer leaves a reader asleep beside a full pipe |
| ProcScans.PTable.Wakeup | proc.c:457-465 | wakeup1 makes runnable exactly the processes that sleep on the channel |
| ProcScans.PTable.AllocSlot | proc.c:74-91 | allocproc takes the first free slot under a new pid, or there is none |
| ProcScans.PTable.Exit | proc.c:245-268 | exit's scan passes every child to init, wakes the parent, and init if it inherits a zombie, as the specification does in one piece |
| ProcScans.PTable.Wait | proc.c:273-312 | one pass of wait reaps the first zombie child, or there is none and it sleeps exactly if there are children and it is not killed |
| ProcScans.PTable.Kill | proc.c:480-497 | kill marks the first slot with the pid, whatever its state |
| ProcTable.ParentsAreLive | proc.c:181-268 | in every run every process past EMBRYO other than init has a live parent |
| ProcTable.WaitersWaitForSomething | proc.c:273-312 | in every run a process asleep on itself, as wait sleeps, has a child and none of its children is a zombie |
| ProcWaits.WaiterWokenIff | proc.c:245-312 | in every run, from the step at which a process goes to sleep in wait until it is scheduled again: it is runnable exactly if since then a child of it exited, init inherited a zombie (if it is init) or it was killed; while it sleeps it has a child and no zombie child |
| ProcWaits.ExitWakesParent | proc.c:252-265 | in every run the exit of a child makes a parent that went to sleep in wait runnable, with a zombie to reap |
| ProcWaits.SleeperWokenIff | proc.c:418-474 | in every run, from the step at which a process goes to sleep on a channel until it is scheduled again, it is runnable exactly if that channel was woken or it was killed since |
| ProcWaits.WaitDecides | proc.c:273-312 | wait does exactly one of three: reap, which it can exactly if there is a zombie child, fail, or sleep; and a killed process does not sleep |
| ProcWaits.ForkMakesChild | proc.c:181-220 | in every run a fork that allocated a slot and then succeeds makes the process in that slot a runnable child of the caller, under the pid it was given, whatever ran in between |
| ProcWaits.OnCpuIff | proc.c:323-390 | in every run a process has the state RUNNING exactly if it was scheduled and has not since yielded, gone to sleep, in wait or elsewhere, or exited |
| ProcWaits.CanGoOn | proc.c:181-390 | in every run a runnable process can be scheduled, a running one can yield or sleep, and, unless it is init or in fork, exit; a fork under way can be brought to either of its ends |
| ProcWaits.OneSlotFound | proc.c:74-497 | allocproc, wait and kill each have at most one slot they can take: the first one |
| ProcTable.PidsAreDistinct | proc.c:74-116 | in every run pids in use are distinct, and wait never returns a pid twice or one still in use |
| ProcTable.NoProcessLost | proc.c:273-312 | in every run a process once started is still in its slot or was returned by wait |
| ProcTable.KillMarksProcessIff | proc.c:480-497 | in every run a kill of a pid marks the one slot it finds, and that is a process in use exactly if some process in use has the pid |
| ProcTable.KillMarksFreeSlot | proc.c:480-497 | a run in which killing the pid of a failed fork marks the next process in its slot |
| ProcTable.StartsKilledIff | proc.c:74-91 | in every run a new process starts out killed exactly if a kill has found its slot since that was last reaped; every such kill found it free or an EMBRYO, under a smaller pid |
| ProcTable.KillZero | proc.c:480-497 | a run of three steps in which kill(0) marks the first process to be made |
| ShellParser.GetToken | sh.c:265-308 | gettoken's loops find the next token and the position behind it |
| ShellParser.Peek | sh.c:310-320 | peek skips blanks, tells whether the next byte is one of toks, and leaves the next token the same |
| ShellParser.ParseRedirs | sh.c:374-397 | parseredirs is the grammar's redirection list; that < and > mean what they do is ShellWords.ParsedModes |
| ShellParser.ParseExec | sh.c:415-446 | parseexec is the grammar's simple command, with its panics |
| ShellParser.ParseBlock | sh.c:399-413 | parseblock is the grammar's block |
| ShellParser.ParsePipe | sh.c:361-372 | parsepipe is the grammar's pipeline; the recursion ends on every input |
| ShellParser.ParseLine | sh.c:344-359 | parseline is the grammar's line; the recursion ends on every input |
| ShellParser.ParseCmd | sh.c:327-342 | parsecmd accepts exactly the lines that are one command to the end |
| ShellPrint.RoundTrip | sh.c:327-446 | printing any command of at most nine words each, with parentheses only around parts that bind looser than their place, and parsing it gives that command back: | binds tighter than &, & tighter than ;, and | and ; to the right |
| ShellPrint.LineOf | sh.c:344-446 | the same wherever the printed command stands, before the end or a closing parenthesis |
| ShellParens.ParensNeeded | sh.c:344-446 | a command is printed with a parenthesis exactly if no line without one parses to it |
| ShellWords.ParsedPrints | sh.c:265-446 | every line that parses spells a command that can be printed, and printing it gives a line that parses to the same command |
| ShellWords.ParsedWords | sh.c:265-446 | every word and file name of a parsed line is a maximal run of word bytes |
| ShellWords.ParsedModes | sh.c:374-397 | in every parsed line the last non-blank character before the name of a file is < exactly if the command reads the file, and > exactly if it writes it |
| ShellWords.TokenMode | sh.c:265-308 | the same of one redirection at any place of any line |
| ShellTokens.SameTokensSameParse | sh.c:327-446 | two lines with the same tokens parse to the same command or fail alike |
| ShellTokens.TokensJoin | sh.c:265-308 | the tokens of two lines put together are the tokens of one and then of the other, unless two halves of a word or two > meet at the seam |
| ShellTokens.BlanksDontMatter | sh.c:273-276 | one blank between two lines or any number gives the same tokens |
| ShellTokens.AppendIsWrite | sh.c:285-293 | a >> anywhere in a line gives the same tokens as a > there |
| ShellCounts.TokensConserved | sh.c:327-446 | a line that parses gives each of its tokens but the parentheses to the command exactly once: none is lost or used twice |
| Shell.CharCodes | sh.c:262-263 | the blanks and the symbols are exactly these character codes |
| ShellWords.Nulterminate | sh.c:448-493 | nulterminate writes a NUL at the end of every word and file name and nowhere else |
| ShellWords.WordsReadBack | sh.c:448-493 | after nulterminate every word and file name reads, as a C string, as exactly its span |
| Grep.Match | grep.c:72-82 | match says yes exactly if the text satisfies the pattern's meaning, given by a decomposition of the text, at some start |
| Grep.MatchHere | grep.c:85-96 | matchhere says yes exactly if a prefix of the text satisfies the pattern |
| Grep.MatchStar | grep.c:99-106 | matchstar says yes exactly if the text starts with any number of the character and then satisfies the rest |
| Grep.ReadWritten | grep.c:85-106 | writing out the atoms a pattern is read as gives the pattern back |
| Grep.WrittenRead | grep.c:85-106 | reading what was written from atoms gives those atoms, for every sequence of atoms some pattern is read as |
| Grep.AnchoredMeans | grep.c:74-75 | a pattern after ^ is satisfied exactly by the texts that satisfy it from their start |
| Grep.PlainMeans | grep.c:72-96 | a pattern without special characters is satisfied exactly by the texts that contain it |
| Grep.DotMeans | grep.c:93-94 | a dot without a star takes any one character |

## Left out

- Boot, traps, interrupt controllers, UART, keyboard, port I/O of the IDE disk, segments and context switch: effects on hardware.
- `chmod`, `sys_chmod` and the mode bits; major and minor numbers; the device branch of readi and writei.
- Link counts: files can be created below a directory that is already unlinked, so nlink is not the number of entries that reach an inode.
- `exec`, system-call arguments, the console, printf, `copyout`, `inituvm`, `loaduvm`, `clearpteu`: plumbing around what is modelled.
- grep's buffering loop, `split`, `base64`, `factor`: outside the core.
- Fairness of the scheduler and memory models weaker than atomic acquire and release.
- FileSystem.FileSys.Balloc: the bitmap is a sequence of bits, not bytes with shifts; the bitmap block of a bit is kept.
- Paths.ICache.Iput: the reference alone; all of iput is Inodes.Iput.
- Inodes.Iput: whether the inode was read into memory is a parameter.
- Namei.Namex: the inode lock is held over one element and is not modelled; entries in use name inodes that exist, and a directory has a link or a reference. Whether the starting inode was read into memory, which matters only for a path without elements, is a parameter.
- Directory.Dirlink: the inode number stored is cut to 16 bits, as in the code; in a directory with holes that the free blocks do not cover, an existing name may be found before the panic or not.
- RedoLog.LogDevice.Commit: a pinned buffer stands for a dirty buffer of the cache; the cache itself is in Bio and BufferRuns.
- LogSystem.CrashSafety: what commit writes past the end of an overrun log is not followed further; end_op's reset of the in-memory header and of `committing` after a commit are one step.
- BufferRuns.CleanIsDisk: that a user logs or writes what it changes before it releases the buffer is part of the step relation, as the file system does it.
- Bio.Bcache.Bget: waiting for the buffer's lock is a separate step, in BufferRuns.
- Vm.Machine.Kalloc: the free list is a sequence; the link stored in the first word of a free page is not.
- Vm.Machine.Mappages: the caller holds the frames it maps below KERNBASE, and the range does not wrap past 4 GB.
- Vm.Machine.Setupkvm: the physical address of the kernel's data is a parameter, aligned and above 1 MB as the linker script places it.
- Vm.Machine.Allocuvm: the range above oldsz must be unmapped, else mappages panics.
- Vm.Machine.Copyuvm: sz is at most KERNBASE, as for every process.
- Heap.Allocator.Malloc: what sbrk answers is a parameter, an address above everything granted before; a request for which sbrk is asked for something else ends in its own result.
- Heap.Allocator.Free: the argument is a block malloc returned and free has not taken yet.
- Mkfs.Image.Ialloc: from inode 208 on, where the code goes on over the bitmap and the data blocks, the build ends as Overrun; what is lost then is Mkfs.LostInode.
- Mkfs.Image.Build: the superblock is not part of the image, and host files are values.
- ProcTable.PidsAreDistinct: pids do not overflow.
- ProcScans.PTable.Wait: freeing the child's pages is in Vm, not here.
- ShellParser.ParseCmd: commands are values, so the allocation of their nodes is not modelled.
- ShellPrint.RoundTrip: `>>` is parsed like `>`, as in the code (ShellTokens.AppendIsWrite), and a command is printed with `>`.
- Grep.Match: patterns and texts are sequences of characters without a terminating NUL.

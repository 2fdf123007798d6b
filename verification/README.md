# xv6: kernel and user-library proofs

This project models the parts of the xv6 teaching kernel and its user library in which the
correctness argument is not local to one function, and proves what those parts are for.

| file | what it models |
|---|---|
| `WriteAheadLog.dfy`, `LogProtocol.dfy` | the write-ahead log: commit and recovery as lists of disk writes that a crash can cut short, and `begin_op`, `log_write`, `end_op` as a step system of any number of operations |
| `FsLayout.dfy`, `BlockMap.dfy`, `FileSystem.dfy` | bytes on disk, block ownership, and files: allocation, direct and indirect addressing, reading, writing, truncating |
| `FileWrite.dfy`, `Directory.dfy` | the chunked `filewrite`, and directories as finite maps |
| `CrashSafety.dfy` | what a crash leaves of the operations of one process: the file system on top of the log |
| `BufferCache.dfy`, `DiskQueue.dfy` | the ring of buffers in front of the disk, and the request queue of the IDE driver |
| `Malloc.dfy` | the user-level storage allocator |
| `Shell.dfy`, `ShellParser.dfy` | the command parser of the shell: a two-stage specification, and the one-pass program |
| `SleepWakeup.dfy`, `SleepLocks.dfy`, `ProcTable.dfy` | sleep and wakeup, sleep locks, and the process table with the scheduler, for any number of processes and CPUs |
| `PageTables.dfy`, `VirtualMemory.dfy` | page tables, the page allocator, and the address-space operations |
| `ExecMemory.dfy`, `UserMemory.dfy` | the address space that `exec` makes, and copying out to user memory |
| `Pipe.dfy`, `Grep.dfy` | the pipe's ring buffer, and the pattern matcher of grep |
| `Options.dfy`, `Counting.dfy` | the option type, and sizes of finite sets |

Objects that the C code updates in place are classes; a C loop is a loop.  Protocols are step
systems in which one step is one critical section, one unlocked access, or one disk write, so that a
theorem about all runs covers every interleaving.  A panic halts the machine: a method reports it
(`ok == false`, `Panic`, `Panicked`), and its contract says when it happens.

Where the code does not have a property that one would expect, the exact condition is proved:

- Operations are atomic across crashes in all runs exactly when the log has more than LOGSIZE blocks, or
  no slot at all (`LogProtocol.ExactAtomicity`), which is also when the list of a transaction always
  fits the log slots (`LogProtocol.ExactLogSize`).  `mkfs.c` makes a log of exactly LOGSIZE blocks: two
  operations that pass the unlocked test of `log_write` together overrun it (`LogProtocol.LogOverruns`),
  and the commit then overwrites the block behind the log (`LogProtocol.OverrunDestroys`).  With a log
  of any size, each run in which no commit overruns it is atomic (`LogProtocol.OperationsAreAtomic`).
- `log_write` panics on no operation that has logged `k` blocks exactly when 20 + k blocks leave room both
  in the list and in the log, or no operation can have logged `k` blocks, for every size of the log
  (`LogProtocol.ExactPanic`).  So with a large log it can panic on an operation that has used its whole
  reservation of ten blocks and only rewrites one of them; and with the log that `mkfs.c` makes also on
  one that has logged nine and has a block of its reservation left (`LogProtocol.MkfsPanics`).
- A sleeper is never left behind exactly when conditions change under the lock, and a free lock means
  that no sleeper's condition is true exactly when, in addition, the wakeup precedes the release
  (`SleepWakeup.ExactRule`, `SleepWakeup.ExactRules`).
- `malloc` hands out a block that is there and large enough exactly for requests of at most 0x7ffffff0
  bytes when `sbrk` has to be asked, since `sbrk` takes an `int`, and of at most 0xfffffff8 bytes when a
  free block is large enough (`Malloc.Heap.Malloc`); the first size that fails is in
  `Malloc.LargeRequest`.
- `pipewrite` leaves a reader asleep beside a filled pipe exactly when one sleeps, more bytes are to be
  written than the ring holds, and the writer is killed or the read end closed: the path that gives up
  calls no wakeup (`Pipes.Pipe.Write`; a run is in `Pipes.LeftAsleep`).
- `writei`, and with it `filewrite` and `dirlink`, panics exactly when more blocks are missing than are
  free (`FileSystem.Fs.Writei`, `FileWrite.Filewrite`, `Directory.Dirlink`).
- `allocuvm` panics exactly when a page of the range is mapped already and memory lasts until it comes to
  that page (`VirtualMemory.Vm.Allocuvm`).
- `setupkvm` fails exactly with fewer than 65 free frames, and `exec` makes an address space of `p` user
  pages exactly when 65 + p + ceil(p / 1024) frames are free (`ExecMemory.NewSpace`).

## Model

| member | source | states |
|---|---|---|
| WriteAheadLog.HeaderRoundTrip | xv6/xv6-public/log.c:85-113 | the list of block numbers read from a header block is the list that was written to it |
| WriteAheadLog.RedoAbsorbsPrefix | xv6/xv6-public/log.c:69-82 | writing part of a list of blocks and then all of it equals writing it once, whatever blocks repeat in it |
| WriteAheadLog.PartialInstall | xv6/xv6-public/log.c:69-82 | an install cut short anywhere leaves a disk whose recovery performs exactly the same writes |
| WriteAheadLog.RecoveryIsIdempotent | xv6/xv6-public/log.c:115-122 | a recovery cut short at any write, then a full one, ends in the same disk as one full recovery |
| WriteAheadLog.RecoveryClearsHeader | xv6/xv6-public/log.c:115-122 | recovery leaves an empty log, a second one changes nothing, and home blocks are those after the install |
| WriteAheadLog.CrashBeforeHeader | xv6/xv6-public/log.c:177-197 | stopped before the header write, recovery restores the home blocks of before the transaction |
| WriteAheadLog.CrashAfterHeader | xv6/xv6-public/log.c:192-202 | stopped anywhere from the header write on, recovery yields the whole transaction |
| WriteAheadLog.CommitIsAtomic | xv6/xv6-public/log.c:69-202 | commit stopped at any write, any number of recoveries stopped at any write, one full recovery: the home blocks are all-new exactly when the non-empty header was written, else all-old, and the log is empty |
| WriteAheadLog.CommitCompletes | xv6/xv6-public/log.c:192-202 | an uninterrupted commit installs the transaction and empties the log |
| WriteAheadLog.Log.WriteLog | xv6/xv6-public/log.c:177-190 | the loop performs exactly the list of log writes, with the cached data |
| WriteAheadLog.Log.WriteHead | xv6/xv6-public/log.c:101-113 | one disk write, of a header that lists the logged blocks and keeps the rest of the block |
| WriteAheadLog.Log.InstallTrans | xv6/xv6-public/log.c:69-82 | the loop copies each log slot home, in order, and unpins those blocks |
| WriteAheadLog.Log.ReadHead | xv6/xv6-public/log.c:85-96 | the in-memory list becomes the one on disk |
| WriteAheadLog.Log.RecoverFromLog | xv6/xv6-public/log.c:115-122 | performs exactly the recovery list that the crash theorems are about |
| WriteAheadLog.Log.Commit | xv6/xv6-public/log.c:192-202 | performs exactly the commit list that the crash theorems are about; home blocks become the transaction's, the list is empty and its blocks are unpinned |
| WriteAheadLog.Log.LogWrite | xv6/xv6-public/log.c:213-233 | panics exactly on a full list, a full log or no open operation; else the block is listed once and pinned |
| LogProtocol.SpacePreserved | xv6/xv6-public/log.c:125-174 | every step keeps: list length plus all unspent reservations is at most LOGSIZE, no commit beside an operation, no block listed twice |
| LogProtocol.ReservationHolds | xv6/xv6-public/log.c:125-141 | an operation always has room in LOGSIZE for the blocks it may still log |
| LogProtocol.InvPreserved | xv6/xv6-public/log.c:125-233 | for a log of any size, every step of every CPU, disk write or crash that does not begin a commit too long for the log keeps the protocol invariant |
| LogProtocol.OperationsAreAtomic | xv6/xv6-public/log.c:125-233 | for a log of any size, in every state of every run without an overrunning commit, with any interleaving and earlier crashes, recovering now yields the writes of a set of complete operations, none of them outstanding |
| LogProtocol.CacheShowsHistory | xv6/xv6-public/log.c:213-233 | in such runs, while operations run, disk plus pinned blocks is the effect of all logged writes |
| LogProtocol.EndOpIsDurable | xv6/xv6-public/log.c:146-174 | in such runs, when a commit finishes, everything logged so far survives any crash |
| LogProtocol.CommitRunsAlone | xv6/xv6-public/log.c:146-174 | in every reachable state a commit has no operation beside it, its list has no duplicates and is at most LOGSIZE long |
| LogProtocol.LogOverruns | xv6/xv6-public/log.c:218-221 | for each log of 2 to LOGSIZE blocks a reachable state whose list is longer than the slots |
| LogProtocol.OverrunDestroys | xv6/xv6-public/log.c:177-190 | for each log of 2 to LOGSIZE blocks a reachable state, in the middle of a commit, that no recovery makes atomic: the block behind the log is overwritten |
| LogProtocol.ExactLogSize | xv6/xv6-public/mkfs.c:25-25 | lists always fit the log slots if and only if the log has more than LOGSIZE blocks or just the header |
| LogProtocol.ExactAtomicity | xv6/xv6-public/mkfs.c:25-25 | every reachable state of every image with a log of this size is atomic if and only if the log has more than LOGSIZE blocks or just the header |
| LogProtocol.ExactPanic | xv6/xv6-public/log.c:218-219 | for every size of the log and every k, log_write never panics on an operation that has logged k blocks if and only if two reservations and k blocks leave room in the list and in the log, or no operation can have logged k blocks |
| LogProtocol.PanicAt | xv6/xv6-public/log.c:218-219 | for each size and number of blocks outside the condition, a reachable state in which the test fails |
| LogProtocol.MkfsPanics | xv6/xv6-public/mkfs.c:25-25 | with a log of LOGSIZE blocks, a reachable state in which log_write panics on an operation that has logged nine blocks |
| FsLayout.InodeRoundTrip | xv6/xv6-public/fs.h:34-41 | an inode decoded from its 64 bytes is the inode that was encoded |
| FsLayout.PutInodeSlots | xv6/xv6-public/fs.h:43-47 | storing an inode changes its slot of the inode blocks and no other inode |
| FsLayout.FlipBitIs | xv6/xv6-public/fs.c:67-69 | turning a bit over is adding its mask when it is clear and subtracting it when it is set, as balloc and bfree write it |
| FsLayout.FlipBits | xv6/xv6-public/fs.h:49-53 | flipping the bit of one block in the bit map changes the bit of no other block |
| BlockMap.BitsAreOwnership | xv6/xv6-public/fs.c:56-95 | a bit is set exactly for metadata and for blocks held by some inode slot or indirect entry, no block is held twice, and every pointer is a data block |
| BlockMap.Alloc | xv6/xv6-public/fs.c:63-73 | marking and zeroing a free block keeps ownership, and the block was held by nobody |
| BlockMap.Free | xv6/xv6-public/fs.c:81-95 | clearing the bit of a block that was given up keeps ownership; its bit was set |
| BlockMap.LinkAddr | xv6/xv6-public/fs.c:378-388 | storing a new block in an empty inode address keeps ownership and changes one pointer |
| BlockMap.LinkEntry | xv6/xv6-public/fs.c:389-394 | storing a new block in an empty indirect entry keeps ownership and changes one pointer |
| BlockMap.Unlink | xv6/xv6-public/fs.c:414-431 | clearing pointers turns exactly the blocks they held into blocks to be freed |
| FileSystem.WrittenContent | xv6/xv6-public/fs.c:498-509 | a completed block-by-block write is the abstract overwrite of the byte sequence, and leaves no holes |
| FileSystem.ChunkFitsReservation | xv6/xv6-public/file.c:126-139 | a chunk of at most 1536 bytes at any offset costs at most ten logged blocks |
| FileSystem.DataBlocks | xv6/xv6-public/fs.c:56-95 | the free blocks are the data blocks that no slot of an inode owns, and are counted so |
| FileSystem.Enough | xv6/xv6-public/fs.c:56-78 | a write that got its blocks needed at most as many as were free, one that got stuck needed more |
| FileSystem.EmptyImageOk | xv6/xv6-public/mkfs.c:238-251 | the image without files, its bit map marking the metadata as mkfs does, satisfies the invariant of file operations, for every layout |
| FileSystem.Truncated | xv6/xv6-public/fs.c:408-435 | with its blocks freed and the inode written, the file is empty on disk and every other file keeps its bytes |
| FileSystem.TruncatedInode | xv6/xv6-public/fs.c:433-434 | writing the emptied inode keeps ownership, and the inode on disk is the one in memory |
| FileSystem.Fs.Balloc | xv6/xv6-public/fs.c:56-78 | returns the lowest free block, marked and zeroed; panics exactly when all blocks are in use |
| FileSystem.Fs.Bfree | xv6/xv6-public/fs.c:81-95 | clears one bit; panics exactly on a block that is free already |
| FileSystem.Fs.Bmap | xv6/xv6-public/fs.c:372-400 | returns the block that holds a file block, allocating it and the indirect block if missing; no other pointer or file byte changes; at most one bit map block is logged per allocation; panics exactly out of range or with no block free for a slot that lacks one; changes only blocks it logs |
| FileSystem.Fs.Iupdate | xv6/xv6-public/fs.c:220-236 | the on-disk inode becomes the in-memory one; no file content changes |
| FileSystem.Fs.Readi | xv6/xv6-public/fs.c:453-476 | returns exactly the slice of the byte sequence, or -1 exactly on the source's two conditions; allocates and changes nothing |
| FileSystem.Fs.Writei | xv6/xv6-public/fs.c:482-511 | the file becomes the overwrite at the offset, all other files and inode fields are kept, the on-disk inode is the in-memory one again, at most WriteCost blocks are logged and no other changes; -1 exactly as in the source; panics if and only if more blocks are missing for the range than are free |
| FileSystem.Fs.WriteBlocks | xv6/xv6-public/fs.c:498-504 | the copying loop: blocks written so far, and the count of data and bit map blocks logged; it gets a block for each slot of the range that lacks one, or stops with none free |
| FileSystem.Fs.Itrunc | xv6/xv6-public/fs.c:408-435 | the inode is empty, exactly the bits of its blocks are cleared, no other file changes, and no bfree meets a free block |
| FileWrite.OverwriteTwice | xv6/xv6-public/file.c:135-152 | two adjacent overwrites are one |
| FileWrite.StoredMore | xv6/xv6-public/file.c:135-152 | two adjacent stored pieces are one stored piece, in the whole file system |
| FileWrite.WriteChunk | xv6/xv6-public/file.c:136-151 | one chunk: stored at the offset, which advances by it, within MAXOPBLOCKS logged blocks, and no other block changes |
| FileWrite.ChunkAccepted | xv6/xv6-public/file.c:135-143 | a chunk that writei does not refuse lies within the accepted bytes |
| FileWrite.Filewrite | xv6/xv6-public/file.c:117-156 | the total effect is one contiguous write of the accepted bytes; each operation stays within its reservation, changes only what it logs, and leaves a whole number of chunks; returns n exactly when all bytes were accepted; panics if and only if more blocks are missing for the accepted bytes than are free |
| CrashSafety.WordsDetermine | xv6/xv6-public/log.c:183-187 | the words of a block, as the log sees them, determine its bytes |
| CrashSafety.OperationsShow | xv6/xv6-public/log.c:213-233 | the logged writes of the first j operations of a process, applied to the disk at boot, give the disk after the j-th |
| CrashSafety.CrashRecovers | xv6/xv6-public/log.c:115-233 | stopping anywhere and recovering leaves the file system as after the first c operations of the process, for some c; after all of them if none is outstanding and the log is empty |
| CrashSafety.CrashDuringFilewrite | xv6/xv6-public/file.c:117-156 | on a log of more than LOGSIZE blocks, a crash before or during filewrite recovers to a file with a whole number of chunks of the write, or all of it, and every other file as it was |
| Directory.NamecmpIsCanon | xv6/xv6-public/fs.c:516-520 | two strings compare equal exactly when their first DIRSIZ characters up to a NUL agree |
| Directory.DirFinds | xv6/xv6-public/fs.c:533-547 | the finite map of a directory's bytes has a name exactly when the scan finds it, with that inode number |
| Directory.LinkIsUpdate | xv6/xv6-public/fs.c:564-577 | a new name written to an unused slot or the end adds one association, shadows none and keeps names unique |
| Directory.UnlinkIsRemoval | xv6/xv6-public/sysfile.c:218-220 | zeroing the entry of a name removes that name and no other |
| Directory.Dirlookup | xv6/xv6-public/fs.c:524-548 | finds a name exactly when the map has it, with its number and the offset of its entry; panics if and only if this is no directory, or its size is no whole number of entries and the name is not there |
| Directory.FreeSlot | xv6/xv6-public/fs.c:564-570 | the offset of the first unused entry, or the end when all are used |
| Directory.Dirlink | xv6/xv6-public/fs.c:551-578 | refuses exactly the names that are present; else the map gains name to inum mod 65536 and nothing else changes; panics if and only if this is no directory, or the name is not there and the first unused entry is torn, beyond the largest size, or needs more blocks than are free |
| Directory.ClearEntry | xv6/xv6-public/sysfile.c:218-220 | the zeroing write of unlink never panics; the map loses the name of that entry, and all other files and inode fields are kept |
| BufferCache.Unlink | xv6/xv6-public/bio.c:132-133 | the two pointer writes leave the ring without the buffer |
| BufferCache.PushFront | xv6/xv6-public/bio.c:134-137 | the four pointer writes put the buffer right behind the head |
| BufferCache.CoherentStep | xv6/xv6-public/bio.c:96-116 | changing one valid buffer and its block keeps the cache coherent |
| BufferCache.TakeOverCoherent | xv6/xv6-public/bio.c:81-90 | giving an unused clean buffer to an uncached block keeps the cache coherent |
| BufferCache.UncachedOnDisk | xv6/xv6-public/bio.c:96-106 | a block whose buffer has not been read is up to date on disk |
| BufferCache.Cache.constructor | xv6/xv6-public/bio.c:38-56 | the ring holds every buffer once; the cache is coherent |
| BufferCache.Cache.FindCached | xv6/xv6-public/bio.c:69-76 | finds the buffer of a block exactly when there is one |
| BufferCache.Cache.FindFree | xv6/xv6-public/bio.c:81-91 | the least recently released buffer with no users that is not dirty, or none exists |
| BufferCache.Cache.Bget | xv6/xv6-public/bio.c:61-93 | a cached block's buffer gains a user; else the least recently released free clean buffer is recycled; panics exactly when there is none; no block is cached twice |
| BufferCache.Cache.Fill | xv6/xv6-public/bio.c:96-106 | bread returns the last content given to the block |
| BufferCache.Cache.Store | xv6/xv6-public/log.c:208-212 | the holder's change of the data is the one step that changes a block's logical content, and no other block's |
| BufferCache.Cache.Bwrite | xv6/xv6-public/bio.c:109-116 | the data reach the disk and the buffer is clean; panics exactly without the lock |
| BufferCache.Cache.Pin | xv6/xv6-public/log.c:231-231 | a buffer marked by log_write stays dirty, hence is never recycled |
| BufferCache.Cache.Release | xv6/xv6-public/bio.c:121-126 | gives up the buffer's lock; panics exactly without it |
| BufferCache.Cache.Put | xv6/xv6-public/bio.c:128-140 | one user fewer; a buffer without users moves to the front and the order of the others is kept |
| DiskQueue.ReplayLastWrite | xv6/xv6-public/memide.c:52-59 | after a list of requests each block holds what the last write to it carried |
| DiskQueue.Ide.Last | xv6/xv6-public/ide.c:153-154 | the walk ends at the last request |
| DiskQueue.Ide.Iderw | xv6/xv6-public/ide.c:137-159 | the request joins the end of the queue and is started exactly when it is alone; panics exactly on the source's conditions |
| DiskQueue.Ide.Ideintr | xv6/xv6-public/ide.c:103-131 | completes the head request with exactly the effect of the synchronous disk on it, once and in order of issue, and starts the next |
| DiskQueue.Ide.Finish | xv6/xv6-public/ide.c:111-124 | the disk is the replay of the finished requests in order, and issued is finished followed by queued |
| Malloc.AtPlace | xv6/xv6-public/umalloc.c:30-32 | the exit test of free holds at the address-ordered place of the block and nowhere else on the cycle |
| Malloc.FreedIsFree | xv6/xv6-public/umalloc.c:33-42 | the two merges leave one address-ordered cycle without adjoining blocks, holding exactly the old units and those of the block |
| Malloc.FreedFits | xv6/xv6-public/umalloc.c:33-42 | afterwards some free block is at least as large as the one returned |
| Malloc.FreedPlaces | xv6/xv6-public/umalloc.c:33-42 | free writes two headers and nothing else |
| Malloc.AllocatedPlace | xv6/xv6-public/umalloc.c:24-44 | an allocated block lies between two neighbours of the free list without overlapping them |
| Malloc.TakenIsList | xv6/xv6-public/umalloc.c:75-84 | taking a whole block or its tail keeps the list well formed and removes exactly those units |
| Malloc.UnitsSuffice | xv6/xv6-public/umalloc.c:69-69 | the units computed hold nbytes if and only if nbytes is at most 2^32-8, with less than one unit to spare |
| Malloc.AskedFor | xv6/xv6-public/umalloc.c:52-54 | the int that morecore passes to sbrk is the size of the units it then frees if and only if nbytes is at most 0x7ffffff0 or rounding it up wraps around; in between it is zero or negative |
| Malloc.AskedForNothing | xv6/xv6-public/umalloc.c:52-54 | the smallest request for a negative number of bytes, and the one that asks for none |
| Malloc.NewBlock | xv6/xv6-public/umalloc.c:74-89 | of a request for which sbrk was asked, the new block is there and large enough if and only if nbytes is at most 0x7ffffff0 |
| Malloc.Heap.constructor | xv6/xv6-public/umalloc.c:21-22 | the empty heap satisfies the invariant |
| Malloc.Heap.Locate | xv6/xv6-public/umalloc.c:30-32 | the walk terminates at the place of the block, from any starting point |
| Malloc.Heap.Link | xv6/xv6-public/umalloc.c:33-43 | the statements compute exactly the merged links and sizes |
| Malloc.Heap.Free | xv6/xv6-public/umalloc.c:24-44 | the free units gain exactly the block's units, the block is no longer allocated, no word of another block changes |
| Malloc.Heap.Morecore | xv6/xv6-public/umalloc.c:46-61 | on success the list gains exactly the units counted on and a block of the size needed is free, while the process gains what the int argument of sbrk stands for; on refusal nothing changes |
| Malloc.Heap.Take | xv6/xv6-public/umalloc.c:75-84 | hands out a block of exactly the units asked for, disjoint from all others |
| Malloc.Heap.Search | xv6/xv6-public/umalloc.c:74-89 | terminates, asks sbrk at most once, fails exactly when no free block fits and sbrk refuses |
| Malloc.Heap.Begin | xv6/xv6-public/umalloc.c:70-73 | the first call makes base the whole list |
| Malloc.Heap.Malloc | xv6/xv6-public/umalloc.c:63-90 | fails exactly when no free block fits and sbrk refuses; else a new block disjoint from all others; free and allocated units partition the arena; no other block is touched; the block is there and large enough if and only if nbytes is at most 0xfffffff8, or 0x7ffffff0 when sbrk is asked; the arena stays what the process has under the same kind of condition |
| Malloc.LargeRequest | xv6/xv6-public/umalloc.c:63-90 | a first request for 0x7ffffff1 bytes that is answered with a block the process does not have |
| Shell.Lex | xv6/xv6-public/sh.c:265-308 | every word token is a maximal run of word characters of the line |
| Shell.LexSpells | xv6/xv6-public/sh.c:265-308 | the tokens spell exactly the line without its white space: no character is lost, doubled or moved |
| Shell.Redirs | xv6/xv6-public/sh.c:374-397 | no word is lost or invented, the result is representable, the tokens left are no more than before |
| Shell.AppendIsCreate | xv6/xv6-public/sh.c:384-394 | after any command, >> and > with a file give the same tree |
| Shell.Args | xv6/xv6-public/sh.c:429-445 | the same, for the words and redirections of a simple command with fewer than MAXARGS words |
| Shell.Line | xv6/xv6-public/sh.c:344-359 | the same, for a whole line; the mutual recursion terminates on every token list |
| Shell.Parse | xv6/xv6-public/sh.c:327-342 | a parsed line uses every token, and its tree holds exactly the words of the line |
| Shell.ParseNatural | xv6/xv6-public/sh.c:344-446 | parsing commutes with any renaming of the words |
| Shell.ParseRender | xv6/xv6-public/sh.c:344-446 | every representable tree is the parse of its fully parenthesised token list |
| Shell.LexUnlex | xv6/xv6-public/sh.c:265-308 | tokens written out with spaces are read back as the same tokens |
| Shell.RoundTrip | xv6/xv6-public/sh.c:262-446 | the text of the fully parenthesised rendering of any printable tree parses, completely, to that tree |
| Shell.ParsedIsPrintable | xv6/xv6-public/sh.c:262-446 | every tree that a line parses to is printable |
| Shell.ExactlyPrintable | xv6/xv6-public/sh.c:262-446 | a tree is the parse of some line if and only if it is printable |
| ShellParser.GetToken | xv6/xv6-public/sh.c:265-308 | returns the kind and span of the first token of the rest of the line, and a cursor after it |
| ShellParser.Peek | xv6/xv6-public/sh.c:310-320 | tells whether the next token begins with one of the symbols, without consuming it |
| ShellParser.ParseRedirs | xv6/xv6-public/sh.c:374-397 | same tree, panic message and cursor as the token parser |
| ShellParser.ParseExec | xv6/xv6-public/sh.c:415-446 | same tree, panic message and cursor as the token parser |
| ShellParser.ParseArgs | xv6/xv6-public/sh.c:429-445 | same tree, panic message and cursor as the token parser |
| ShellParser.ParseBlock | xv6/xv6-public/sh.c:399-413 | same tree, panic message and cursor as the token parser |
| ShellParser.ParsePipe | xv6/xv6-public/sh.c:361-372 | same tree, panic message and cursor as the token parser |
| ShellParser.ParseLine | xv6/xv6-public/sh.c:344-359 | same tree, panic message and cursor as the token parser |
| ShellParser.Nulterminate | xv6/xv6-public/sh.c:449-493 | a NUL is written at the end of every word of the tree and nowhere else |
| ShellParser.WordsSurvive | xv6/xv6-public/sh.c:449-493 | no word ends inside another, so every word then reads, as a C string, as it was typed |
| ShellParser.Parsecmd | xv6/xv6-public/sh.c:327-342 | the tree with its words read from memory is what the line means, or the panic is the token parser's and the buffer is unchanged |
| SleepWakeup.CoveredKept | xv6/xv6-public/proc.c:456-513 | every step keeps: a process blocked with its condition true is still ahead of the wakeup of some process that owes one |
| SleepWakeup.OwingKept | xv6/xv6-public/proc.c:456-513 | with wakeups first, a process that owes a wakeup holds the lock |
| SleepWakeup.NoLostWakeup | xv6/xv6-public/proc.c:456-513 | for any number of processes: when lk is free, nobody sleeps with a true condition |
| SleepWakeup.WakeAfterRelease | xv6/xv6-public/sleep1.p:42-51 | waking after the release is as good: once no wakeup is owed, nobody sleeps with a true condition |
| SleepWakeup.LateWakeup | xv6/xv6-public/sleep1.p:42-51 | a run in which the release comes first and lk is free beside a sleeper with a true condition |
| SleepWakeup.LostWakeup | xv6/xv6-public/sleep1.p:29-40 | a run in which a change outside lk leaves a sleeper behind for good |
| SleepWakeup.ExactRule | xv6/xv6-public/sleep1.p:21-51 | no sleeper is ever left behind if and only if conditions change under lk |
| SleepWakeup.ExactRules | xv6/xv6-public/sleep1.p:21-51 | a free lk excludes sleepers with a true condition if and only if both rules are kept |
| SleepLocks.MutualExclusion | xv6/xv6-public/sleeplock.c:22-42 | in every state of every run at most one process owns the sleep lock |
| SleepLocks.NoSleeperOnFreeLock | xv6/xv6-public/sleeplock.c:22-42 | with the spin lock free and the sleep lock not taken, nobody sleeps waiting for it |
| SleepLocks.HoldingTellsOwner | xv6/xv6-public/sleeplock.c:44-53 | the test of holdingsleep is true exactly for the owner |
| ProcTable.InsideLock | xv6/xv6-public/proc.c:75-353 | a process inside ptable.lock, in the middle of any routine, is on the CPU that holds the lock |
| ProcTable.FoundOnce | xv6/xv6-public/proc.c:327-332 | a zombie that wait finds still has its stack, and is the process of no CPU |
| ProcTable.InvKept | xv6/xv6-public/proc.c:75-537 | every step of every CPU, preemption of a process inside fork included, keeps the whole invariant |
| ProcTable.RunningOnOneCpu | xv6/xv6-public/proc.c:363-431 | with ptable.lock free, a process is RUNNING if and only if it is the process of a CPU, and of one only |
| ProcTable.PidsUnique | xv6/xv6-public/proc.c:90-92 | slots in use have different pids |
| ProcTable.ParentsAlive | xv6/xv6-public/proc.c:287-305 | a parent is never UNUSED, EMBRYO or ZOMBIE |
| ProcTable.StackFreedOnce | xv6/xv6-public/proc.c:203-209 | whenever wait or a failing fork frees a stack, it is allocated to that slot and no CPU is on it, whether or not the fork was preempted in between |
| ProcTable.StacksOwned | xv6/xv6-public/proc.c:96-101 | every allocated stack is the stack of a slot in use: none is lost |
| ProcTable.ZombiesNoticed | xv6/xv6-public/proc.c:287-353 | no process sleeps in wait while it has a zombie child, also after children are handed to init |
| ProcTable.NoSchedPanic | xv6/xv6-public/proc.c:406-422 | sched is entered with the lock held and a state other than RUNNING, and a dead process never resumes |
| PageTables.SetEntry | xv6/xv6-public/vm.c:71-73 | writing an entry of a page table changes one mapping of one directory |
| PageTables.NewTable | xv6/xv6-public/vm.c:45-53 | a new zeroed page table changes no mapping |
| PageTables.UnmapUser | xv6/xv6-public/vm.c:269-276 | freeing a user page and clearing its entry keeps user pages and owners in step |
| PageTables.DropDir | xv6/xv6-public/vm.c:291-297 | a directory without user pages can go with its tables; other address spaces are kept |
| VirtualMemory.CutSkip | xv6/xv6-public/vm.c:266-268 | pages without a page table are unmapped, so the skip misses no present page |
| VirtualMemory.RollBack | xv6/xv6-public/vm.c:235-246 | after the roll-back the range is unmapped, its frames are free, and only page tables were added |
| VirtualMemory.TooFew | xv6/xv6-public/vm.c:232-246 | memory that runs out at a page or at its page table was less than the pages and missing page tables need |
| VirtualMemory.RanOut | xv6/xv6-public/vm.c:232-246 | memory that runs out was less than allocuvm takes before it ends, be it at the end or at a mapped page |
| VirtualMemory.RowIs | xv6/xv6-public/vm.c:105-115 | the address ranges of the kernel map, in 32-bit arithmetic, are whole disjoint page ranges, also the one that ends at 2^32 |
| VirtualMemory.KernelPaid | xv6/xv6-public/vm.c:124-136 | the kernel map uses exactly 64 page tables |
| VirtualMemory.Vm.Kfree | xv6/xv6-public/kalloc.c:60-77 | the frame joins the free list and has no owner |
| VirtualMemory.Vm.Kalloc | xv6/xv6-public/kalloc.c:83-95 | takes a frame that nobody owns; fails exactly when none is free |
| VirtualMemory.Vm.Freerange | xv6/xv6-public/kalloc.c:47-53 | exactly the frames of the whole pages between the addresses become free |
| VirtualMemory.Vm.Walkpgdir | xv6/xv6-public/vm.c:36-55 | finds the page table, creating it if asked to; no mapping changes; null exactly as in the source; a new page table takes one free frame |
| VirtualMemory.Vm.MapPage | xv6/xv6-public/vm.c:69-73 | maps one page that was unmapped, or reports a mapped page, or no free frame for a page table that is missing |
| VirtualMemory.Vm.Mappages | xv6/xv6-public/vm.c:61-80 | terminates by equality for every range, wrapping around or not; maps exactly the pages of the range, all of them or those before a mapped page or before a missing page table with no frame left; takes one frame for each page table it adds |
| VirtualMemory.Vm.DropPage | xv6/xv6-public/vm.c:266-276 | frees the page if it is mapped, and no other |
| VirtualMemory.Vm.Deallocuvm | xv6/xv6-public/vm.c:256-279 | unmaps and frees exactly the user pages between the sizes; kernel pages stay closed to users |
| VirtualMemory.Vm.AddUserPage | xv6/xv6-public/vm.c:240-241 | the new frame is mapped for the user at one page; no memory only without a free frame for a missing page table |
| VirtualMemory.Vm.Allocuvm | xv6/xv6-public/vm.c:222-249 | the pages between the sizes are mapped to new frames, taking exactly one frame a page and one for each missing page table; out of memory if and only if fewer frames are free than it takes before it ends, and then rolled back; else panics if and only if one of the pages was mapped; kernel pages stay closed to users |
| VirtualMemory.Vm.Freevm | xv6/xv6-public/vm.c:284-298 | exactly the frames of the address space become free; other address spaces are unchanged |
| VirtualMemory.Vm.Setupkvm | xv6/xv6-public/vm.c:118-136 | a new directory that maps exactly the kernel map, closed to users, from 65 frames; fails if and only if fewer are free, and then the owners are exactly as before |
| VirtualMemory.Vm.Clearpteu | xv6/xv6-public/vm.c:302-311 | the page is no longer for the user and nothing else changes; panics exactly without a page table |
| ExecMemory.NeedBetween | xv6/xv6-public/exec.c:43-66 | growing a space takes exactly the difference of the frames for the two sizes |
| ExecMemory.SpaceUndone | xv6/xv6-public/exec.c:106-108 | giving up a new space, at any stage, leaves every frame owned as before it was made |
| ExecMemory.Grow | xv6/xv6-public/exec.c:52-53 | one allocuvm on a space being made: fails if and only if the size reaches the kernel, is 0 or needs more frames than there are |
| ExecMemory.LoadSegments | xv6/xv6-public/exec.c:41-53 | all segments: succeeds if and only if none reaches the kernel, the first does not end at 0, and the frames suffice for the largest end |
| ExecMemory.AddStack | xv6/xv6-public/exec.c:63-69 | two more pages at the next page boundary, the lower one closed to the user |
| ExecMemory.NewSpace | xv6/xv6-public/exec.c:38-69 | succeeds if and only if segments and stack end below the kernel and 65 + pages + one for each 1024 pages are free; then user pages below the size, the guard page closed, and the kernel map above; else every frame is owned as before |
| UserMemory.OwnedIsSeparate | xv6/xv6-public/vm.c:381-391 | with every user page owned by one mapping and kernel pages closed to users, no frame is visible to the user at two pages |
| UserMemory.PatchSeen | xv6/xv6-public/vm.c:408-411 | patching one page changes what the user sees at the patched addresses and nowhere else |
| UserMemory.UserAddress | xv6/xv6-public/vm.c:381-391 | in the space that exec makes, exactly the addresses below the size, the guard page apart, pass the test of uva2ka |
| UserMemory.CopiedIff | xv6/xv6-public/vm.c:396-417 | in that space copyout completes if and only if its range is empty, or ends within the size and leaves out the guard page |
| UserMemory.UserRam.Copyout | xv6/xv6-public/vm.c:396-417 | the user sees the bytes at the addresses, also across pages, and nothing else differs; it stops at the first page that is not the user's, with all bytes before it copied |
| UserMemory.NewImage | xv6/xv6-public/exec.c:38-108 | making the space and copying the arguments to it, in any number of pieces: succeeds if and only if the space can be made and every piece is within the user pages; then the user sees at each address the last piece that covers it; on failure every frame is owned as before, except after a missing page table |
| Pipes.Counters | xv6/xv6-public/pipe.c:85-106 | the wrapping counters tell empty, full and the number of bytes |
| Pipes.Pipe.Put | xv6/xv6-public/pipe.c:93-93 | one byte is appended; the bytes in the ring stay those written and not delivered |
| Pipes.Pipe.Get | xv6/xv6-public/pipe.c:116-116 | the oldest byte comes out |
| Pipes.Pipe.Write | xv6/xv6-public/pipe.c:79-98 | appends exactly the bytes taken, as many as there are or as fit; fails or sleeps only on a full ring; leaves a reader asleep beside bytes if and only if one sleeps, more bytes are left than the ring holds, and the writer is killed or the read end closed |
| Pipes.LeftAsleep | xv6/xv6-public/pipe.c:79-98 | a run that leaves a reader asleep beside a full ring |
| Pipes.Pipe.Read | xv6/xv6-public/pipe.c:101-121 | sleeps or fails exactly on an empty pipe open for writing; else delivers the next min(n, available) bytes, so what is delivered is always a prefix of what is written; 0 for n > 0 only when closed and drained |
| Pipes.Pipe.Close | xv6/xv6-public/pipe.c:60-75 | closes one end, leaves no sleeper behind, and tells when both are closed |
| Grep.FirstItem | xv6/xv6-public/grep.c:85-96 | a prefix is in the language of an item and a pattern exactly when it splits |
| Grep.StarItem | xv6/xv6-public/grep.c:99-106 | some prefix matches c* followed by a pattern exactly when some run of c is followed by a match |
| Grep.MatchHere | xv6/xv6-public/grep.c:85-96 | true if and only if some prefix of the text is in the language of the pattern |
| Grep.MatchStar | xv6/xv6-public/grep.c:99-106 | true if and only if some number of c, then a match |
| Grep.Match | xv6/xv6-public/grep.c:73-82 | true if and only if the pattern matches at some position, or at the start after '^' |

## Left out

- wmap, wunmap, wremap and their page-fault handler, and the lazy region lists in fork and exit.
- forkuvm, copyuvm: frames are shared across fork without counts, so ownership of frames is stated for the operations that do not share.
- exec other than the making of the address space and the copying to it: the ELF file and what loaduvm reads from it, the choice of stack addresses, the commit to the new image.
- loaduvm, inituvm: short uses of the same page tables.
- Boot code, interrupt controllers, the console, the serial line, trap entry and swtch: swtch is a transfer of control, an interrupt is a step.
- Device inodes in readi and writei.
- ialloc, iget, iput, ilock and the inode cache: the model keeps the in-memory copy of every inode.
- namex, skipelem and the path-walking system calls; link counts.
- Contents of user pages other than in copyout, and the junk that kfree fills pages with.
- Liveness: that a sleeper which has been woken runs, that a scheduler is fair.
- runcmd and the rest of the shell; grep's reading of lines; the other user programs.
- LogProtocol.OverrunDestroys: a commit that overruns the log is followed through write_log; its header write and install are not modelled.
- WriteAheadLog.Log.RecoverFromLog: assumes that the header on disk lists at most LOGSIZE home blocks, which every run of the protocol keeps.
- FileSystem.Fs.Writei: after a panic on a full disk nothing is promised about the files, since the machine halts.
- FileWrite.Filewrite: other processes do not write the same file between two chunks.
- CrashSafety.CrashRecovers: the operations of one process; with several, LogProtocol.OperationsAreAtomic says which operations a crash keeps, but not what the file system makes of their interleaving.
- Directory.Dirlookup: does not model the reference that iget takes on the inode found.
- BufferCache.Cache.Bwrite: the disk write is one step; the request queue below it is in DiskQueue.
- DiskQueue.Ide.Ideintr: no disk errors and no spurious interrupts.
- Malloc.Heap.Malloc: sbrk is a parameter, the break it returns or a refusal; the break is above everything counted on before.
- Malloc.LargeRequest: when sbrk was asked for nothing or less, morecore's store of the header size already goes to memory that the process may not have, so the program can fault there before malloc returns the block.
- ShellParser.ParseArgs: the argument vector that parseexec grows in place, under redirections already built around it, is a value; malloc in the constructors of command nodes does not fail.
- SleepWakeup.NoLostWakeup: one channel; the scheduling of a woken process is one step.
- ProcTable.PidsUnique: nextpid does not wrap around.
- ProcTable.InvKept: the flag killed is a free choice where wait tests it; kill may hit any slot; the address space and open files of a process are left out.
- VirtualMemory.Vm.Deallocuvm: for sizes up to KERNBASE, as all callers pass.
- VirtualMemory.Vm.Setupkvm: the kernel's data begins on a page boundary past EXTMEM, as the linker script arranges.
- ProcTable.NoSchedPanic: the panics of sched about ncli and the interrupt flag are not covered; the nesting of interrupt disabling is not modelled.
- UserMemory.UserRam.Copyout: where there is no page table, uva2ka takes what is at a low address of the current address space for an entry, and may go on, refuse or fault; the model stops there and reports it.
- UserMemory.NewImage: where there is no page table it stops as Copyout does, with the new space still allocated; this can happen only to a copy that is not within the user pages.
- Pipes.Pipe.Write: the copies from and to user memory do not fault.

# Winx in Dafny

Winx is a small x86 kernel. This project models the parts of it whose correctness does not depend on the
hardware, and proves what they promise: the block file system, the memory allocators, the scheduler with
semaphores and locks, the lists and bit maps below them, and the calendar and path computations.

## How the model is built

**The disk** is a sequence of 512-byte sectors. `Partition` is a class with the disk, the open inodes and the two
bit maps as fields; each C function that changes them is a method, with the same branches, and each kernel assertion
is an `assert` or a case of an exact outcome. Records of 108 bytes that straddle sectors, 24-byte directory
slots and the indirect table are laid out byte by byte (`Bytes`, `InodeTable`, `BlockMap`, `DirMap`). On top of
the methods, `FsState.Image` is a volume at rest and `FsState.Consistent` its invariant, for a map `kinds` that tells
which inodes exist, which are directories, and where these hang in the tree:

- exactly the inodes of `kinds` are allocated, their numbers are below 256, number 0 is the root;
- every open inode agrees with its record;
- a file that was written has exactly size/512 + 1 data blocks, without holes, and a table iff there are more than 12;
- a directory has 24 bytes for each live entry, and a live entry in every block but the first;
- no block has two owners, owned blocks have their bits set, and set bits have an owner;
- every inode but the root is entered exactly once, with its type, and the dot entries name the directory and its
  parent; parents are one level closer to the root.

`FsFormat.FormatAndMount` tells when a new volume satisfies it. `FsRuns.RunFromFormat` carries out any sequence of
requests (open, close, create, write, mkdir, unlink, rmdir) from there on: the volume is consistent after each of them,
until the first one that loses a block or an inode, and `FsRuns.Loses` says exactly which ones do. The contract of each
operation says, for all inputs that it admits, when it succeeds, and that all other inodes, their maps and their bytes
stay as they were. `FsInstances` has concrete runs on a small volume.

**The bit maps on the disk** follow those in memory: `Images.Recorded` says that every bit an operation changes is on
the disk when it ends, but for a set of bits that it names, and the contract of each operation says which these are.
`FsRuns.RunAndMountAgain` draws the conclusion: what is mounted after a run is the volume that the run had.

**Threads** are a transition system (`Threads`, `Locks`). A state has the threads, the ready list, and the locks; an
action is one statement of `lock_acquire` or `lock_release`, a clock interrupt between two statements, the start of an
operation, a yield, a wait or a wake-up. Regions with interrupts off are single actions. A failing assertion and a
dangling reference are the outcome `Panic`. `Locks.Run` is any sequence of enabled actions from the state that
`thread_init` leaves, and `LockRuns` has what holds over time: waiters are served in the order in which they came, and
the holder of a lock is the thread with more acquires than releases. `Kernel.Scheduler` is the class whose methods are
proved to refine these actions.

**Memory** is modelled by page and frame numbers (`PagingState`, `Paging`): four bit maps, the page table entries and
the page directory; `Agree` says that they fit together. `HeapState` and `KernelHeap` put the arenas of `sys_malloc`
on top. What has been handed out is a ghost field `live` from addresses to sizes; it is not used by the code.
`HeapRuns` carries out any sequence of requests and returns from the start of memory management on.

**Lists** (`Lists`) are the intrusive doubly linked lists, with real links and the sequence of elements as
ghost field; `TagLists` adds the step from a tag to the object around it, and so carries out the sequence operations by
which the scheduler, the locks and the heap are modelled. `LongDivision`, `Calendar` and `Paths` model `math.c`,
`cmos.c`, `path_parse` and `wash_path`.

## What the proofs found

Where a promise does not hold for all inputs, the exact condition under which it holds is proved.

- `inode_sync` keeps eight bits of the inode number: it works iff the number is below 256 (`InodeTable.SyncIsFaithfulIff`).
- `search_dir_entry` skips the block behind a hole: an entry is found iff an even number of holes stands directly
  before its block (`DirScan.SearchFindsIff`). A removal that gives a block up hides the block behind it
  (`DirScan.RemovalHidesNextBlock`). Hence `sys_getcwd` and `search_file` are inverse iff every directory on the way can
  be found (`FsCwd.CwdRoundTrip`).
- `file_write` refuses a file of 71680 bytes, although its message calls that the maximum; the limit is one byte lower
  (`FileOps.FileWrite`).
- A write that runs out of blocks loses all blocks that were free. Unless the file had more than twelve blocks, the new
  entries stay in its block list, and the same write fails an assertion as soon as a block is free again
  (`FileOps.FileWrite`, `FileOps.StartMapping`, `FsWrite.SysWrite`).
- A write that gives a file its indirect table does not write the bit of the table. The bit reaches the disk iff the
  next free bit lies in the same sector of the bit map, whose sector is written with that bit (`FileOps.FileWrite`,
  `Images.WrittenWithNext`; an input for which it does not, `FileOps.TableBitStaysBehind`). Then mounting the partition
  again may hand the table out once more; every other operation leaves both bit maps on the disk (`Images.OnDiskIff`,
  `FsRuns.RunIsOnDisk`).
- `file_read` from a position beyond the end of the file computes a length that wraps around; it fails an assertion or runs
  beyond its block list (`FileOps.FileRead`).
- `sys_mkdir` loses a block when there is one block for the directory but none for its entry (`FsMkDir.MkDir`, and a run
  from a new volume that gets there, `FsInstances.BlockLost`).
- `sys_rmdir` removes a directory that somebody has open, and leaves an open inode without an allocated number
  (`FsRemove.RmDir`, `FsInstances.OpenDirRemoved`).
- `partition_format` clears one bit too many: unless the bit map became shorter than first estimated, one free bit stands
  for the sector behind the partition (`FsFormat.FreeBitsInsideIff`). The model's disk may therefore end with
  that sector.
- `search_file` returns a variable that was never set for a path such as `//` (`FsPaths.SearchFile`).
- `sys_malloc` fails the assertion of `malloc_page` for requests of 3840 pages and more (`KernelHeap.KHeap.SysMalloc`).
- `malloc_page` loses addresses and frames when the frames run out (`Paging.Memory.MallocPage`).
- `lock_release` by a thread without an outstanding acquire fails an assertion, and only then (`Locks.ReleaseFailsIff`).
- `thread_unblock` puts a thread in front of the ready list, so a woken waiter overtakes threads that were ready
  before (`Locks.WokenRunsNext`).
- `divide_u64_u32` does not clear the remainder it is given (`LongDivision.Divide`).
- Time stamps whose day count needs more than 32 bits do not survive the conversion (`Calendar.ThereAndBack`).

## Model

Paths are relative to the root of the Winx repository.

| member | source | states |
|---|---|---|
| FileOps.FileWrite | src/fs/file.c:216-411 | a write succeeds iff the new size stays below 140 blocks (one byte short of the documented 71680) and enough blocks are free; then the file is its old content followed by the buffer, exactly the blocks needed were taken from the free ones, every other block keeps its bytes, the position is the new size minus one, the record on the disk is the new inode, and the bits of the blocks taken are on the disk, but for that of a new table if the next free bit is in another sector of the bit map; a failed write changes no data and no size, and it is stated exactly how many blocks it loses and when the inode is still well-formed |
| FileOps.MapBlocks | src/fs/file.c:247-372 | all four situations of the block map: a file within its direct blocks, one that passes its twelfth block and gets a table, one that has a table, and one that needs no block; success iff the blocks needed are free, and afterwards exactly size/512 + 1 data blocks are mapped without holes, the table exists iff there are more than 12, and the disk follows the bit map but for the bit that is late |
| FileOps.AllocRange | src/fs/file.c:289-301 | the allocation loop fills exactly the missing entries with distinct free blocks, stops iff no block is left, and puts the bit of each block it takes on the disk |
| FileOps.GrowDirect | src/fs/file.c:283-305 | situation 1: success iff the missing blocks are free; then exactly the new direct entries are added, without a hole, all_blocks has them, and their bits are on the disk |
| FileOps.GrowNewTable | src/fs/file.c:307-347 | situation 2: success iff the missing blocks and one for the table are free; then the map has no hole the new table is read back as entries 12 and on, and the bits of all blocks but perhaps the table are on the disk; the assertions that the entries were empty hold |
| FileOps.GrowOldTable | src/fs/file.c:349-371 | situation 3: success iff the missing blocks are free; then the table has its old entries and the new ones, and the new bits are on the disk; the assertion that there is a table holds |
| FileOps.MapFirst | src/fs/file.c:247-257 | an empty file gets its first block iff one is free, the one of the lowest free bit, its bit is on the disk, and nothing else changes |
| FileOps.WriteChunks | src/fs/file.c:374-404 | the data loop stores the buffer at the end of the file and leaves the bytes before it and all other blocks alone |
| BlockMap.ContentAppended | src/fs/file.c:216-411 | mapping the blocks, storing the data and syncing the inode, seen together, turn the content into the old content followed by the buffer |
| BlockMap.GrewKeepsOwns | src/fs/file.c:282-372 | an inode that gains free blocks still names each block once, and only blocks whose bits are set |
| BlockMap.GrewTrans | src/fs/file.c:247-372 | two growths in a row are one growth: nothing taken twice, nothing given back |
| BlockMap.ContentKept | src/fs/file.c:413-514 | the content depends on the blocks that the file uses and on nothing else |
| BlockMap.ContentIsSum | src/fs/file.c:413-514 | if each byte below the new size is the old byte of the file or the byte of the buffer, the content is the old content followed by the buffer |
| FileOps.FileRead | src/fs/file.c:413-514 | a read returns exactly the bytes from the position to the end of the request or of the file, -1 at the end of the file, and advances the position by as much; the assertions on the table hold, the one on the block index fails exactly as stated; from a position beyond the end it fails that assertion or runs beyond its block list |
| FileOps.StartMapping | src/fs/file.c:259-350 | the next write after one that left new blocks in the block list fails the assertion at line 296 or 317 iff a block is free |
| FileOps.PlanRead | src/fs/file.c:415-442 | how a read ends before it reads, or the length it reads, in unsigned 32-bit arithmetic |
| FileOps.LoadBlocks | src/fs/file.c:444-489 | the entries that a read needs are loaded, and the assertions on the table hold because a file keeps size/512 + 1 blocks |
| FileOps.ReadChunks | src/fs/file.c:491-510 | the read loop returns the slice of the content |
| FileOps.ReadInTwo | src/fs/file.c:413-514 | two reads in a row, the first not cut short, give together what one read of the whole length gives |
| FileOps.TableBitStaysBehind | src/fs/file.c:312-345 | an input for which the bit of a new table is not written: the two lowest free bits are in different sectors of the bit map |
| Allocation.BlockBitmapAlloc | src/fs/file.c:52-59 | the lowest free block, or -1 iff there is none; one bit changes |
| Allocation.InodeBitmapAlloc | src/fs/file.c:43-50 | the lowest free inode number, or -1 iff there is none |
| Allocation.BlockBitmapSync | src/fs/file.c:61-80 | one sector of the bit map is written, the one that holds the bit |
| Allocation.TakeBlock | src/fs/file.c:52-80 | the lowest free block is taken, or none iff there is none; if its bit is written, all bits of that sector of the map are on the disk, and sectors of the map that were full are not touched |
| Images.BitSynced | src/fs/file.c:61-80 | writing the sector of a changed bit puts the bit on the disk and takes no other bit off it |
| Images.WrittenWithNext | src/fs/file.c:312-345 | a bit that was set without being written reaches the disk with the blocks taken next iff the next free bit is in the same sector of the map |
| Images.OnDiskIff | src/fs/file.c:61-80 | if both bit maps were on the disk before an operation, they are after it iff the operation leaves no bit to later writes |
| InodeTable.InodeLocate | src/fs/inode.c:24-47 | where the 108-byte record lies, that it straddles two sectors iff it does not fit the rest of the first, and that it lies in the table iff the number is below 4096; the guard lets 4096 through |
| InodeTable.DecodeEncode | src/fs/inode.c:49-87 | an inode that is stored and loaded is the same |
| InodeTable.RecordLayout | lib/fs/inode.h:7-18 | the byte offset of each field in a record |
| InodeTable.InodeSync | src/fs/inode.c:49-87 | the record of inode number mod 256 becomes the inode without its volatile fields, and no other record and no other sector changes |
| InodeTable.InodeOpen | src/fs/inode.c:89-135 | an open inode is counted once more, one that is not open is loaded from its record |
| InodeTable.InodeClose | src/fs/inode.c:137-151 | the opening is uncounted; the last one closes the inode |
| InodeTable.InodeDelete | src/fs/inode.c:153-183 | for a number of the table its record is blanked and no other changes; otherwise nothing changes |
| InodeTable.SyncThenOpen | src/fs/inode.c:49-135 | for a number below 256, syncing and opening afresh gives the inode with its volatile fields reset |
| InodeTable.SyncIsFaithfulIff | src/fs/inode.c:49-87 | syncing stores an inode where opening finds it and damages no other inode, iff its number is below 256 |
| InodeTable.SyncHitsAnotherInode | src/fs/inode.c:49-56 | the failing family: a larger number, synced, overwrites the record of another inode |
| InodeTable.DeletedIsBlank | src/fs/inode.c:153-183 | a deleted record loads as an inode without size and without blocks |
| InodeTable.RecordInSectors | src/fs/inode.c:102-135 | the bytes read from one or two sectors are those of the record |
| Release.FreeBlocks | src/fs/inode.c:188-215 | exactly the bits of the blocks of the inode, and of its table, are cleared, in memory and on the disk |
| Release.InodeRelease | src/fs/inode.c:185-225 | releasing clears exactly the blocks, the number and the record of the inode, which then loads as a blank one; all other records, the data and the open inodes stay, and both bit maps on the disk follow |
| DirOps.SyncDirEntry | src/fs/dir.c:94-188 | an entry goes to the lowest free slot, where a hole counts as free slots; it fails, without a trace, iff that slot needs a block and there is none; only the one slot changes, and the bit of a new block is on the disk |
| DirMap.EntryLayout | lib/fs/dir.h:17-21 | the byte offset of each field in a directory entry |
| DirOps.LocateFree | src/fs/dir.c:115-185 | the scan finds the lowest free slot |
| DirOps.ScanBlock | src/fs/dir.c:220-243 | the inner loop of the removal counts the live children of a block and finds the wanted one; its assertion that nothing was found before holds |
| DirOps.LocateChild | src/fs/dir.c:215-248 | the outer loop finds the block of the child, or tells that there is none |
| DirOps.DeleteDirEntry | src/fs/dir.c:190-292 | the child is removed iff it is there, and its slot only; its block is given back iff it was alone there and it is not the first block; the assertions on the entry count and on the size hold |
| DirMap.InsertKeepsShape | src/fs/dir.c:94-188 | the directory invariant (size is 24 times the live entries, every block but the first has a live entry) survives an insertion |
| DirMap.RemoveKeepsShape | src/fs/dir.c:190-292 | and a removal |
| DirMap.EmptyDirHasOneBlock | src/fs/dir.c:343-368 | the size test tells exactly whether there is a child, and if there is none the assertions on sectors 1 to 12 hold |
| DirOps.AloneByCount | src/fs/dir.c:225-250 | the count of entries tells whether the child is alone in its block |
| DirScan.DirRead | src/fs/dir.c:294-341 | the next live entry in slot order, across holes, or nothing behind the last one; its assertion on the position holds |
| DirScan.ReadAll | src/fs/dir.c:294-341 | reading from position 0 to the end gives every live entry once, in slot order |
| DirScan.LiveSeqCount | src/fs/dir.c:294-341 | there are as many as live slots, which is what the size of the directory counts |
| DirScan.SearchDirEntry | src/fs/dir.c:27-78 | the first live entry of that name in a block that the search looks at, or nothing iff there is none |
| DirScan.ReachedIff | src/fs/dir.c:52-56 | a block is looked at iff an even number of holes stands directly before it |
| DirScan.SearchFindsIff | src/fs/dir.c:27-78 | the search by the name of a live entry finds that entry iff an even number of holes stands directly before its block; it never finds another one |
| DirScan.RemovalHidesNextBlock | src/fs/dir.c:52-56 | the failing family: a removal that gives its block up hides all entries of the block behind it from the search |
| FsFormat.FormatBits | src/fs/fs.c:140-153 | bit by bit, what the block bit map of a new volume is: all bits up to and including bit number bitLen are clear, but for the first one |
| FsFormat.PartitionFormat | src/fs/fs.c:72-197 | what is on the disk after formatting: the super block with the layout, both bit maps, the inode table and the root directory; no sector outside the partition head and the root block changes |
| FsFormat.MountPartition | src/fs/fs.c:22-70 | the layout is what the super block says, the bit maps in memory are those on the disk, no inode is open, and all objects are new |
| FsFormat.SuperBlockRead | src/fs/fs.c:26-35 | the super block that was written is read with the same fields |
| FsFormat.SuperBlockLayout | lib/fs/super_block.h:8-28 | the byte offset of each field of the super block, and how the areas of the partition follow each other |
| FsFormat.NewVolume | src/fs/fs.c:72-197 | a new volume is consistent iff its map keeps the bit of the root block and no set bit stands for a block of the disk |
| FsFormat.FreeBitsInsideIff | src/fs/fs.c:72-153 | all clear bits stand for sectors of the partition iff the bit map became shorter than first estimated; otherwise one bit stands for the sector behind the partition |
| FsFormat.FormatAndMount | src/fs/fs.c:22-197 | both conditions, for the partition that was formatted and mounted; its objects are new, so that operations can follow |
| FsState.StoreStep | src/fs/file.c:216-411 | if one inode changes and takes free blocks or gives its own back, then again every block has one owner, every owner has its bit, and every set bit an owner |
| FsSteps.GrowStep | src/fs/file.c:216-411 | so for an inode that grows |
| FsSteps.DropStep | src/fs/inode.c:185-225 | so for an inode that is released or shrinks |
| FsSteps.AppearStep | src/fs/file.c:82-170 | so for a new inode |
| FsState.NamesAfterInsert | src/fs/dir.c:94-188 | the tree of directories stays a tree when a new inode is entered |
| FsState.NamesAfterRemove | src/fs/dir.c:190-292 | and when an inode without children is removed |
| FsWrite.SysWrite | src/fs/fs.c:392-413 | the result is exact; a success appends to that file, leaves the content of every other file, every other inode, its map and its blocks alone, takes exactly the blocks needed, and keeps the volume consistent; a failure either changes nothing or has lost blocks, so that no volume fits the bit map any more, while every inode record and every block is as before |
| FsWrite.TakenIsLost | src/fs/file.c:289-294 | a block that was taken without becoming anybody's is lost: no volume is consistent with the bit map |
| FsState.UntouchedFiles | src/fs/file.c:216-411 | a file whose inode, map and blocks are as before has the same content |
| FsWrite.AppendKeepsVolume | src/fs/file.c:216-411 | block ownership and the directory tree survive an append |
| FsCreate.FileCreate | src/fs/file.c:82-170 | a file with the lowest free number appears with one entry in the lowest free slot of its directory, all other inodes and the content of all files unchanged; it fails, without a trace, iff the entry needs a block and there is none |
| FsCreate.EnterInParent | src/fs/file.c:132-140 | the entry is made and the directory synced, and every block has still one owner |
| FsMkDir.MkDir | src/fs/fs.c:519-628 | a directory with its two dot entries appears iff there are the blocks it needs, with the lowest free number and all files as before; without any block nothing changes; with one block too few the block of the new directory is lost for good |
| FsMkDir.LeakedOnly | src/fs/fs.c:598-628 | in that case nothing else happened to the volume |
| FsMkDir.NewDirIsGood | src/fs/fs.c:577-591 | the block that is written makes an empty directory |
| FsRemove.Unlink | src/fs/fs.c:467-517 | a file that is open is refused; otherwise its entry, its number and exactly its blocks (and a block the directory gave up) are released, the content of every other file is as before and the volume is consistent |
| FsRemove.RmDir | src/fs/fs.c:675-705 | a directory is removed iff it has no children, with all files as before; afterwards the volume is consistent if nobody had the directory open, and no consistent volume at all if somebody had |
| FsRemove.EmptyIffNoChild | src/fs/dir.c:343-368 | the emptiness test agrees with the tree, and the assertions of dir_remove hold |
| FsRemove.RemoveInode | src/fs/dir.c:349-368 | delete_dir_entry followed by inode_release |
| FsRemove.OpenedVolume | src/fs/inode.c:89-135 | opening an inode that exists keeps the volume consistent, and every inode as it was |
| FsRoundTrip.ClosedVolume | src/fs/inode.c:137-151 | so does the last closing |
| FsRoundTrip.BitsDetermined | src/fs/inode.c:185-225 | the block bit map is a function of who owns which block: two consistent volumes with the same owners have the same map |
| FsRoundTrip.LifeLeavesNothing | src/fs/file.c:82-411 | creating an inode, changing it alone, and removing it restores both bit maps, the directory and every other inode |
| FsRoundTrip.WholeLife | src/fs/fs.c:309-517 | create, write, read back, close, unlink: it works iff there is room; what is read is what was written, and the volume is as before |
| FsRuns.RunAll | src/fs/fs.c:309-705 | any sequence of open, close, create, write, mkdir, unlink and rmdir requests: the volume is consistent after each of them, each has had its stated effect or none, until the first one that loses a block or an inode, and it is stated exactly which ones do; after each of them the changes of both bit maps are on the disk, but for the bits that writes leave late |
| FsRuns.RunFromFormat | src/fs/fs.c:22-705 | the same for any sequence from the formatting of the partition on |
| FsRuns.RunIsOnDisk | src/fs/file.c:61-80 | if both bit maps are on the disk before a run, they are after it, but for the bits of new tables that its writes left late; the sectors before the bit maps never change |
| FsRuns.RunAndMountAgain | src/fs/fs.c:22-705 | formatting, any run, and mounting again from the disk: if no write left a bit late, the volume is the one that the run had, without open inodes, and consistent; otherwise it differs in those bits at most |
| FsRuns.LeakedIsLost | src/fs/fs.c:598-628 | after mkdir has lost a block no volume is consistent with the bit map |
| FsRuns.HasRoom | src/fs/file.c:92-138 | whether a file can be created: a free slot in the open directory and a free number below 256 |
| FsRuns.FindChild | src/fs/dir.c:190-246 | whether the directory has the child, and where |
| FsInstances.FirstFile | src/fs/fs.c:309-517 | on a new volume of eight free blocks a file lives through its whole life iff it is shorter than 4096 bytes, and is read back unchanged |
| FsInstances.OpenDirRemoved | src/fs/fs.c:675-705 | a run on a new volume that removes an open directory |
| FsInstances.BlockLost | src/fs/fs.c:598-628 | a run on a new volume in which mkdir loses the last block |
| FsRoundTrip.ReadBack | src/fs/fs.c:415-434 | a read from the start returns the content of the file |
| FsPaths.SearchFile | src/fs/fs.c:235-307 | the inode that the names of the path lead to, one lookup after the other, or -1; for a path of several slashes and nothing else, whatever an unset variable holds |
| FsPaths.Descend | src/fs/fs.c:272-297 | one round of the search |
| FsPaths.SpecialPaths | src/fs/fs.c:237-245 | the three paths that are not walked lead to the root, as the walk would |
| FsPaths.DotsFound | src/fs/dir.c:27-78 | looking up the dot names always finds the directory and its parent |
| FsPaths.FoundExists | src/fs/dir.c:27-78 | what is found is an existing inode of the type that its entry says |
| FsCwd.GetParent | src/fs/fs.c:707-719 | the parent in the tree; its assertions hold |
| FsCwd.GetChildName | src/fs/fs.c:721-760 | the name of an entry with that inode number, or failure iff there is none |
| FsCwd.ClimbAll | src/fs/fs.c:783-793 | the first loop ends and yields the names from the directory up to the root |
| FsCwd.MoveNames | src/fs/fs.c:796-802 | the second loop reverses the path name by name |
| FsCwd.GetCwd | src/fs/fs.c:762-805 | the absolute path of the names from the root down |
| FsCwd.LookupChild | src/fs/dir.c:27-78 | looking a directory up in its parent finds it iff the search looks at its block |
| FsCwd.WalkPath | src/fs/fs.c:235-307 | walking these names leads to the directory iff all directories on the way can be found |
| FsCwd.CwdRoundTrip | src/fs/fs.c:762-805 | search_file on the path that sys_getcwd returned leads back iff so, and nowhere otherwise |
| FsCwd.LookupEntry | src/fs/dir.c:27-78 | looking any entry up by its name finds it iff the search looks at its block |
| FsCwd.SearchChild | src/fs/fs.c:235-307 | search_file with the path of any child, file or directory, finds its inode iff every entry on the way can be found, and nothing otherwise |
| Paths.PathParse | src/fs/fs.c:199-213 | the next name and what follows it |
| Paths.ParseStep | src/fs/fs.c:199-213 | repeated calls take the names of the path off one by one |
| Paths.PathDepthCnt | src/fs/fs.c:215-233 | the number of names |
| Paths.WashPath | src/shell/builtin_cmd.c:13-46 | the rendering of the stack of names that results when every name is pushed, `.` is ignored and `..` pops |
| Paths.GoUp | src/shell/builtin_cmd.c:26-33 | the path is cut at its last slash, or becomes the root, and that pops the stack |
| Paths.ParseRendered | src/shell/builtin_cmd.c:13-46 | parsing the rendering of a stack gives the stack |
| Paths.WashedIsClean | src/shell/builtin_cmd.c:13-46 | the result is absolute, has no empty name, no `.` and no `..`, and washing it again changes nothing |
| Paths.NameIsAppended | src/shell/builtin_cmd.c:35-38 | washing a path with one more name appends the name to the washed path |
| Paths.DotDotCuts | src/shell/builtin_cmd.c:26-33 | washing a path with `..` behind it cuts the washed path at its last slash; the root stays the root |
| Paths.DotDotUndoes | src/shell/builtin_cmd.c:26-38 | `..` behind a name undoes the name |
| Paths.DotStays | src/shell/builtin_cmd.c:34-39 | a dot changes nothing |
| Paths.SlashesDoNotCount | src/fs/fs.c:199-213 | one slash more between two names or at the end changes nothing |
| Paths.NoNamesIsRoot | src/shell/builtin_cmd.c:18-22 | a path of slashes only is the root |
| Threads.DispatchRuns | src/thread/thread.c:138-162 | from any state in which nobody runs, the first ready thread runs, or the idle thread if there is none; no empty list is popped and the idle thread is blocked when it is unblocked |
| Threads.BlockKeeps | src/thread/thread.c:190-199 | blocking keeps: one thread runs, the ready list holds exactly the ready threads, each once |
| Threads.YieldKeeps | src/thread/thread.c:217-225 | so does yielding |
| Threads.UnblockKeeps | src/thread/thread.c:201-215 | so does unblocking, whose assertions hold |
| Threads.StartKeeps | src/thread/thread.c:112-128 | so does starting a thread |
| Threads.TickKeeps | src/device/timer.c:32-45 | so does a clock interrupt |
| Threads.YieldHandsOver | src/thread/thread.c:217-225 | after a yield the thread that was ready first runs and the caller is the last of the ready list, behind the others in their order; with an empty list the caller runs again; all ticks stay |
| Threads.YieldsRotate | src/thread/thread.c:217-225 | threads that only yield take turns in the order of the ready list, and after n yields those that ran stand behind in the order in which they did |
| Threads.TickHandsOver | src/device/timer.c:40-42 | a clock interrupt that finds no ticks left does the same and renews the ticks of the thread to its priority |
| Threads.BlockHandsOver | src/thread/thread.c:190-199 | after blocking the first ready thread or the idle thread runs, the caller has its status and is on no list, and all ticks stay |
| Threads.StartAndUnblockPlaces | src/thread/thread.c:112-128 | a started thread is the last ready one, with its priority as ticks; one that is unblocked is the first; nothing else changes |
| Threads.WaitsExactly | src/device/timer.c:32-45 | under clock interrupts only, the thread at place k of the ready list runs after exactly the ticks of those before it, plus one each, and not before |
| Threads.WaitIsBounded | src/thread/thread.c:138-162 | that is at most the ticks left to the running thread plus one and, for each thread ahead, its priority plus one |
| Kernel.Scheduler.DoSchedule | src/thread/thread.c:138-162 | the new state is the one of the transition system, and the lists are in order; it never pops an empty list |
| Kernel.Scheduler.ThreadBlock | src/thread/thread.c:190-199 | the new state is the one of the transition system: the caller has the given status, and the first ready thread runs, or the idle thread if there is none |
| Kernel.Scheduler.ThreadUnblock | src/thread/thread.c:201-215 | the new state is the one of the transition system; the assertion that the thread is not on the ready list holds |
| Kernel.Scheduler.ThreadYield | src/thread/thread.c:217-225 | the new state is the one of the transition system: the first ready thread runs, the caller is the last ready one, and all ticks stay; the assertion that the caller is not on the ready list holds |
| Kernel.Scheduler.ThreadStart | src/thread/thread.c:112-128 | the new state is the one of the transition system, with the new thread last on the ready list |
| Kernel.Scheduler.TimerInterrupt | src/device/timer.c:32-45 | the new state is the one of the transition system; a thread without ticks left goes to the end of the ready list with its priority as ticks |
| Kernel.Scheduler.SemaDownRound | src/thread/sync.c:19-37 | one round of the waiting loop refines the step of the lock machine: if the value is 0 the caller joins the waiters behind all others; the assertions hold |
| Kernel.Scheduler.DoSemaUp | src/thread/sync.c:39-51 | sema_up refines the step of the lock machine and keeps its invariant; the assertions hold |
| Kernel.Scheduler.ClockStep | src/device/timer.c:32-45 | a clock interrupt between any two statements keeps the invariant of threads and locks |
| Kernel.Scheduler.constructor | src/thread/thread.c:174-188 | the initial state |
| Locks.StepKeeps | src/thread/sync.c:19-77 | from a state in order, no enabled step fails an assertion, and the next state is in order |
| Locks.RunKeeps | src/thread/sync.c:19-77 | so every state of every run is in order |
| Locks.RunNeverPanics | src/thread/sync.c:19-77 | no assertion of the lock and thread code fails in any interleaving |
| Locks.MutualExclusion | src/thread/sync.c:53-77 | in every reachable state at most one thread is between its sema_down and its sema_up |
| Locks.ValueTellsInside | src/thread/sync.c:19-51 | the value is 1 or 0, and 0 iff some thread is there |
| Locks.HolderCounts | src/thread/sync.c:53-77 | holder and holder_repeat_nr are the thread inside and its outstanding acquires |
| Locks.NoLostWakeup | src/thread/sync.c:19-51 | in every reachable state, if the value is 1 and threads wait, a thread that was popped is ready or running and has to test again |
| Locks.OnOneList | src/thread/sync.c:19-51 | in every reachable state a waiter is not on the ready list and not among the waiters of another lock, and on each list once |
| LockRuns.StepQueues | src/thread/sync.c:19-51 | in every step the waiters of a lock stay as they are, or the current thread joins behind them in sema_down, or the first one leaves in sema_up and becomes the first ready thread |
| LockRuns.WaiterAdvances | src/thread/sync.c:19-51 | in every run a waiter with k others before it has one less with each sema_up of its lock |
| LockRuns.WokenByItsTurn | src/thread/sync.c:39-51 | so the sema_up after k others takes it off and puts it first on the ready list |
| LockRuns.FirstComeFirstServed | src/thread/sync.c:19-51 | in every run a thread that joins the waiters while another waits is not taken off before that one is |
| LockRuns.HolderIsBalance | src/thread/sync.c:53-77 | in every state of every run a thread outside the calls is the holder iff it came back from more acquires than releases, and holder_repeat_nr is the difference |
| Locks.ReleaseFailsIff | src/thread/sync.c:64-77 | the first assertion of lock_release fails iff the caller has no acquire outstanding |
| Locks.WokenRunsNext | src/thread/thread.c:201-215 | a woken waiter is dispatched before all threads that were ready earlier |
| Paging.MemPoolInit | src/kernel/memory.c:35-89 | after start-up bit maps and page tables agree, nothing is in use, every frame of the two pools exists, the bit maps have the stated lengths, and all objects but the address map of the process are new |
| PagingState.PdeIsPteOfPte | src/kernel/memory.c:132-141 | the directory entry of an address is the table entry of its table entry |
| PagingState.PtePtrByPage | src/kernel/memory.c:137-141 | two addresses share a table entry iff they are in one page |
| PagingState.TableOfPde | src/kernel/memory.c:158-165 | the page that is cleared for a new table holds exactly the entries below one directory entry |
| PagingState.MapKeeps | src/kernel/memory.c:143-167 | entering a free frame for a reserved page keeps: distinct pages have distinct frames, mapped frames and pages have their bits |
| PagingState.TableKeeps | src/kernel/memory.c:143-167 | so does adding a page table |
| PagingState.UnmapKeeps | src/kernel/memory.c:357-361 | so does unmapping with the release of the frame |
| PagingState.VaddrKeeps | src/kernel/memory.c:363-378 | so does reserving addresses, and giving back unmapped ones |
| Paging.Memory.VaddrGet | src/kernel/memory.c:91-117 | the lowest run of free addresses, or failure iff there is none |
| Paging.Memory.Palloc | src/kernel/memory.c:119-127 | the lowest free frame of the pool, or failure iff there is none |
| Paging.Memory.PageTableAdd | src/kernel/memory.c:143-167 | the page is mapped to the frame, after adding a page table if it has none; the assertions that it was not mapped hold |
| Paging.Memory.MallocPage | src/kernel/memory.c:169-189 | the lowest free addresses are mapped to distinct free frames, nothing else changes; each failure happens exactly when addresses or frames are short, and it is stated what is lost then |
| Paging.Memory.MfreePage | src/kernel/memory.c:380-424 | exactly these pages, frames and addresses become free; its assertions hold |
| Paging.Memory.AllocAndRelease | src/kernel/memory.c:169-424 | kernel pages that are allocated and released leave both bit maps and the mapping as they were |
| Paging.GiveAndTake | src/kernel/memory.c:169-424 | the bit maps after allocation and release are those before |
| HeapState.BlockDescInit | src/kernel/memory.c:239-248 | the block sizes and the blocks of each arena, as the tables of the model have them |
| HeapState.SlotsApart | src/kernel/memory.c:250-253 | blocks of one arena do not overlap |
| HeapState.SlotInPage | src/kernel/memory.c:250-257 | block2arena is the inverse of arena2block |
| HeapState.NoOverlap | src/kernel/memory.c:259-342 | no two blocks that are handed out overlap, large or small |
| HeapState.AllFree | src/kernel/memory.c:450-457 | the counter of an arena reaches its number of blocks iff all of them are on the free list |
| HeapState.TakeKeeps | src/kernel/memory.c:333-340 | handing a block out keeps: every block is either free or handed out, and the counter counts the free ones |
| HeapState.ReturnKeeps | src/kernel/memory.c:448-450 | so does taking it back |
| HeapState.DropKeeps | src/kernel/memory.c:450-459 | so does giving up an arena without blocks in use |
| HeapState.RefillKeeps | src/kernel/memory.c:309-331 | so does a new arena |
| HeapState.LargeKeeps | src/kernel/memory.c:285-299 | so does a block of whole pages |
| KernelHeap.KHeap.SysMalloc | src/kernel/memory.c:259-342 | a request succeeds iff it is within the pool, needs fewer than 3840 pages, and a free block or enough addresses and frames are there; the block is new and large enough; the assertion of malloc_page fails iff 3840 pages or more are needed; no page is mapped without belonging to an arena |
| KernelHeap.KHeap.SysFree | src/kernel/memory.c:426-463 | only that block changes hands, the assertions hold, and the pages of arenas that disappear are unmapped, no others |
| HeapRuns.RunHeap | src/kernel/memory.c:259-463 | any sequence of requests and returns: blocks that are held never overlap, the only assertion that fails is that of a request of 3840 pages or more, and if no request was refused and everything was given back, the same pages are mapped as before |
| HeapRuns.RunFromStart | src/kernel/memory.c:35-463 | the same from the start of memory management on |
| HeapRuns.FirstBlock | src/kernel/memory.c:35-342 | with 32 MB of memory the first small request is served |
| HeapRuns.NothingLeft | src/kernel/memory.c:448-459 | a heap whose blocks have all been given back has no arena left |
| KernelHeap.KHeap.RemoveBlocks | src/kernel/memory.c:451-457 | each block of a free arena is found on the free list and removed, and no other |
| KernelHeap.KHeap.AppendBlocks | src/kernel/memory.c:324-329 | all blocks of a new arena go to the free list, none was there before |
| KernelHeap.KHeap.FindDesc | src/kernel/memory.c:303-307 | the smallest block size that fits |
| Bitmaps.Bitmap.Scan | src/kernel/bitmap.c:19-41 | the lowest run of cnt clear bits, or -1 iff there is none, whatever the byte behind the map; it ends for every map |
| Bitmaps.Bitmap.ScanTest | src/kernel/bitmap.c:13-17 | the bit |
| Bitmaps.Bitmap.Set | src/kernel/bitmap.c:43-53 | one bit changes |
| Bitmaps.SetByte | src/kernel/bitmap.c:43-53 | changing one bit of a byte changes one bit of the map |
| Lists.List.InsertBefore | src/kernel/list.c:12-23 | on a well-linked list the element stands directly before the other one, and the order of the rest is kept |
| Lists.List.Push | src/kernel/list.c:25-27 | it stands first |
| Lists.List.Append | src/kernel/list.c:29-31 | it stands last |
| Lists.List.Remove | src/kernel/list.c:33-40 | exactly that element goes; its own links stay |
| Lists.List.Pop | src/kernel/list.c:42-46 | the first element goes |
| Lists.List.ElemFind | src/kernel/list.c:48-57 | whether it is on the list; the walk ends |
| Lists.List.Len | src/kernel/list.c:75-83 | the number of elements |
| Lists.List.IsEmpty | src/kernel/list.c:85-87 | whether there is none |
| TagLists.TagList.Push | lib/kernel/list.h:8-9 | on a linked list of tags, the object stands first: the sequence operation by which the scheduler and the heap are modelled |
| TagLists.TagList.Append | lib/kernel/list.h:8-9 | it stands last |
| TagLists.TagList.Pop | lib/kernel/list.h:8-9 | the first object is taken off and found from its tag |
| TagLists.TagList.Find | lib/kernel/list.h:8-9 | whether the object is on the list |
| TagLists.TagList.Remove | lib/kernel/list.h:8-9 | exactly that object goes |
| TagLists.TagList.IdsDiffer | lib/kernel/list.h:8-9 | no object is on the list twice |
| LongDivision.DivideLoop | src/impl/math.c:5-74 | 64 shift-and-subtract steps give quotient and remainder, and no bit is shifted out |
| LongDivision.DivideNoMod | src/impl/math.c:29-51 | the quotient, 0 for a zero divisor |
| LongDivision.Mod | src/impl/math.c:53-74 | the remainder, 0 for a zero divisor |
| LongDivision.Divide | src/impl/math.c:5-27 | what is computed from a remainder that was not cleared and that is smaller than the divisor: it is the division of the dividend iff that remainder was 0 |
| Calendar.DatetimeToTimestamp | src/device/cmos.c:26-46 | for a valid date, the seconds since 1 January 1970 in the Gregorian calendar, in spite of 32-bit intermediate values |
| Calendar.TimestampToDatetime | src/device/cmos.c:48-79 | the valid Gregorian date, of the time stamp whose day count is cut to 32 bits |
| Calendar.SecondsInjective | src/device/cmos.c:26-46 | different valid dates have different time stamps |
| Calendar.LeapYearsCount | src/device/cmos.c:12-14 | the leap years up to a year are its multiples of 4, without those of 100, with those of 400 |
| Calendar.DaysBeforeYearIs | src/device/cmos.c:33-35 | a closed form of the days before a year |
| Calendar.DaysBeforeMonthIs | src/device/cmos.c:37-39 | a closed form of the days before a month |
| Calendar.MonthLengthIs | src/device/cmos.c:16-24 | each month has the days between its first day and that of the next month in the Gregorian calendar |
| Calendar.DayNumberIsGregorian | src/device/cmos.c:26-46 | the day number of every valid date is its distance from 1 January 1970 in the Gregorian calendar, given by one formula without tables |
| Calendar.ThereAndBack | src/device/cmos.c:26-79 | time stamp to date and back is the identity iff the day count fits 32 bits |
| Calendar.BackAndThere | src/device/cmos.c:26-79 | date to time stamp and back is the identity iff the day count fits 32 bits |

## Left out

Contracts that are weaker than the code allows:

- FsMkDir.MkDir: the three results are told apart although the code returns -1 for two of them.
- FsFormat.MountPartition: requires a super block that `partition_format` wrote for a partition of this size.
- FsFormat.PartitionFormat: requires the bit map to end within the buffer it is built in, and a partition that has data blocks.
- FsCwd.GetCwd: requires the path to fit the 512-byte buffer and the one of the caller, and names that are unique, nonempty and at most 15 characters; the code checks none of it.
- FsPaths.SearchFile: requires names of at most 15 characters, the size of the buffer in the code, and leaves out the record of the searched path.
- Paths.PathDepthCnt: takes the name buffer, which the code does not clear, as clear.
- Paths.WashPath: requires names of at most 15 characters.
- Paging.Memory.MallocPage: says nothing of the tables when a user request finds no frame for a new page table; the code then goes on with a table at physical address 0.
- Paging.Memory.MfreePage: requires the pages to be mapped, as the callers do.
- LongDivision.Divide: requires a remainder smaller than the divisor at the start; from a larger one the remainder may leave 64 bits.
- FsRuns.RunAll: leaves out reads and path names, and passes over a request that the code would refuse or for which a directory is full.
- Kernel.Scheduler.DoSchedule: works on the ready list as a sequence; the pointers are those of `TagLists.TagList`, which the class does not hold.
- InodeTable.InodeOpen: requires that a loaded record holds its own number, because the open inodes are a map by number and not a list.
- DirOps.SyncDirEntry: requires a free slot in the twelve direct blocks; for a full directory the code goes on with indirect blocks.
- DirScan.DirRead: requires a position that is a multiple of the entry size, as `dir_read` and `sys_rewinddir` leave it, and a directory without indirect blocks.
- FsCwd.ClimbAll: requires names that are unique, nonempty and at most 15 characters, as `FsCwd.GetCwd` does.
- FsCwd.LookupChild: requires names that are unique, nonempty and at most 15 characters.
- FsCwd.WalkPath: requires names that are unique, nonempty and at most 15 characters.
- FsCwd.CwdRoundTrip: requires what `FsCwd.GetCwd` and `FsPaths.SearchFile` require.
- Kernel.Scheduler.SemaDownRound: is one round of the loop of `sema_down`; that the thread comes back for the next round is in `Locks`.
- FsRemove.Unlink: asks whether the inode is open where the code searches the file table.

Parts of the repository that are not modelled:

- Indirect blocks of directories: `sync_dir_entry` reads entries of the table that it never loaded; directories keep to their 12 direct blocks and are not full.
- The path search before `file_create`, `sys_mkdir`, `sys_unlink` and `sys_rmdir`: these take the open parent directory and the child.
- The file table, file descriptors, `write_deny`, `sys_open`, `sys_lseek`, `sys_stat` and `sys_chdir`.
- Failures of `sys_malloc` within the file system, and its scratch buffers, which are sequences.
- The reference counts of directories that `search_file` and `sys_getcwd` open and close again.
- IDE commands, interrupts and partition tables: reading and writing sectors is immediate.
- The contents of memory, so also the clearing of pages and of blocks that `sys_malloc` hands out, CR3 and TLB, `get_a_page`, and the address spaces of other processes.
- The heap of user processes, which runs the same code with other descriptors.
- fork, exec, exit and wait, `thread_exit`, process identifiers, pipes and the I/O queue.
- The counters `elapsed_ticks` and the global `ticks`.
- Increments of `holder_repeat_nr` are single steps; only the holder executes them.
- `list_traversal`, which calls a function, and `div_u64_rem`, which is inline assembly.
- The console, the shell besides `wash_path`, the editor, formatted output, system call stubs, boot code and drivers: easy or hardware.

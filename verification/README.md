# Verification of the UFS file system layers

This project models UFS370, a file system in the manner of Unix Version 7, and proves
what its layers promise. Each layer is stated over the one below it:

- `Pager.dfy`: a write-back cache of disk blocks, with least-used eviction.
- `FreeChain.dfy`: the free blocks, a cache of 51 numbers in the superblock that is
  spilled into, and refilled from, free blocks. `Disk.free` is the stack they form.
- `Addressing.dfy`, `DatablockAddr.dfy`: the place of a block of a file as 16 direct
  numbers and three index trees, and the 32-bit arithmetic that finds it.
- `Forests.dfy`, `SizeChanges.dfy`, `InodeDisk.dfy`, `InodeTree.dfy`: the trees of all
  files of a disk, and growing and shrinking a file one block at a time. A `Forest` maps
  every position in use (leaf or index block) to a block and back; `Linked` ties it to
  the inodes, the index blocks and the free list.
- `Files.dfy`: what that means without the forest: positions are found by following the
  numbers in inodes and index blocks (`Walk`).
- `Traversal.dfy`: visiting the blocks of a file in order, and finding its last block.
- `Dirents.dfy`, `Directories.dfy`: directories, as maps from names to inode numbers.
- `Hierarchy.dfy`: trees of directories as values, and what each request does to them.
- `Effects.dfy`: the same requests described entry by entry and link by link.
- `Rename.dfy`, `Creation.dfy`: removing, renaming and creating files on a disk, which do
  to the tree of the disk what `Hierarchy.dfy` says.
- `InodeList.dfy`: the cache of free inode numbers.
- `Service.dfy`: creating, removing and renaming in any order on a mounted disk.
- `Streams.dfy`, `FileHandles.dfy`: reading and writing bytes through a block buffer.
- `Paths.dfy`: the path normaliser.

`n` is the number of words in a block (a quarter of its size), `lo` the first data block.
Sizes, counters and rounding are taken in 32-bit arithmetic where the program does so;
the seven block sizes from 512 to 32768 are all covered. `Times` and `Quotient` are
multiplication and division by a variable, defined by repeated addition and subtraction,
which keeps nonlinear arithmetic out of the proofs; `TimesIsProduct` and
`QuotientIsDivision` say that they are the operators.

## Model

| member | source | states |
|---|---|---|
| `Pager.Serve` | src/ufspgrrd.c:19-68 | Through any sequence of reads, writes and flushes on a working disk, with whatever evictions they cause, each read answers what a plain block map would; the use count of every page is the number of requests for its block since it was loaded, and its time that of the last one (counts go on at 1 after 2^32 - 1). |
| `Pager.Pager.Read` | src/ufspgrrd.c:19-62 | A successful read returns the block as last written, and no read changes what the pager shows, even if a write-back fails. A hit counts one use more (1 after 2^32 - 1) and sets the time; a miss that succeeds leaves one use and the time; the counts and times of all other pages stay. |
| `Pager.Pager.Write` | src/ufspgrwt.c:19-64 | The view changes, in this block only, exactly if the block is cached, or the first disk operation works and the block exists; the write fails exactly if that is not so, or the block was not cached, a dirty page had to go, and writing it back failed. Uses and times are kept as by a read. |
| `Pager.Pager.Flush` | src/ufspgrfl.c:22-38 | After a successful flush the disk is what the pager shows, and no page is dirty. |
| `Pager.Pager.LruPage` | src/ufspgrlp.c:5-61 | The cache grows up to its maximum (at least one page, by `Valid`); then the victim is least in (used, lru), lexicographically. |
| `Pager.Pager.PageFlush` | src/ufspgfls.c:5-28 | Writing a page back makes the disk agree with it and changes nothing else. |
| `Pager.Pager.FindBlock` | src/ufspgrfb.c:5-21 | Finds the one page that holds a block, or none. |
| `FreeChain.Disk.Allocate` | src/ufsdaalc.c:49-107 | Pops the block freed last, cleared, also when it was a node of the chain whose entries refill the cache; the count is the length of the stack (`Valid`). |
| `FreeChain.Disk.Deallocate` | src/ufsdadal.c:40-93 | Pushes a block on the stack, also when the full cache is spilled into it; other blocks stay. |
| `FreeChain.Disk.FreeblockUpdate` | src/ufsdafup.c:48-64 | The cache becomes the entries of a chain node. |
| `FreeChain.ChainDeterminesStack` | src/ufsdaalc.c:49-76 | Cache and disk hold one stack only: the abstraction is a function. |
| `FreeChain.ChainSpill` | src/ufsdadal.c:57-93 | The spilled node leads on to the same stack, so a block freed into a full cache is the next one allocated, and the rest follows unchanged. |
| `Addressing.NumberOfAddr` | src/ufsdaadr.c:50-88 | The address of the k-th block, in mixed radix with all digits in range, has number k. |
| `Addressing.AddrOfNumber` | src/ufsdaadr.c:50-88 | And the address of that number is the address: addressing is a bijection. |
| `Addressing.SuccIsNext` | src/ufsdaadr.c:50-88 | Consecutive blocks have successive addresses, across all carries and level changes. |
| `DatablockAddr.LastAddr` | src/ufsdaadr.c:31-89 | The 32-bit computation gives the address of the last block of a file of any size, for all block sizes, and divides by zero exactly for files of more than 16 + n blocks on disks with blocks over 2048 bytes. |
| `DatablockAddr.RoundIsMask` | include/ufs/disk.h:73-79 | Rounding by adding and masking, bit by bit, is rounding up to a multiple; a mask of 0 gives 0. |
| `DatablockAddr.SignedExactly` | src/ufsdachg.c:31-43 | The 32-bit difference of two sizes is right exactly if it is in the signed range; otherwise it has the wrong sign, and the call asks for more bytes to be cut off than there are, or for a size past 2^32. |
| `InodeTree.Vdisk.Expand` | src/ufsdaexp.c:31-133 | Succeeds exactly if there are enough free blocks; then the file has the added blocks, all clear, taken off the top of the free list, across all transitions between levels and inside them. Otherwise all files are as before, no block is free any more, and the inode is as it was, unless the block that was lacking is one the inode itself was to name. |
| `InodeTree.Vdisk.Contract` | src/ufsdacon.c:31-125 | Keeps the first blocks in place and frees exactly the removed leaves and the index blocks above none but removed leaves, each once. |
| `InodeTree.Vdisk.SizeChange` | src/ufsdachg.c:31-43 | Grows or shrinks to the new size, or does nothing. |
| `InodeTree.Vdisk.AddLeaf` | src/ufsdaalf.c:38-59 | A fresh clear block is attached at a word of an index block; nothing else in use changes. |
| `InodeTree.Vdisk.RemoveLeaf` | src/ufsdarml.c:35-43 | A child is detached and freed, even if freeing overwrites it with a spilled cache. |
| `InodeTree.Vdisk.RemoveSelf` | src/ufsdarms.c:35-43 | The first child is detached and the index block itself freed. |
| `InodeTree.Vdisk.Unlink` | src/ufsdaulk.c:43-60 | One word of an index block is cleared. |
| `InodeTree.Vdisk.LinkReaches` | src/ufsdalnk.c:37-56 | Following a word of an index block in use reaches the block at the position below. |
| `InodeTree.Vdisk.InodeWriteback` | src/ufsinwbk.c:32-86 | One slot of one block of the inode list gets the inode, or nothing changes. |
| `Directories.SetNlink` | src/ufsfidal.c:109-118 | The link count is set, in memory and in the place of the inode on disk; all other inodes keep their places on disk as they were, and all files their contents. |
| `InodeDisk.GetSetInode` | src/ufsinwbk.c:50-76 | The inode written to a slot is the one loaded from it, and the other slots of the block keep theirs. |
| `InodeDisk.InodeLayout` | include/ufs/inode.h:47-57 | Mode and link count are the halves of the first of 32 words, then come the size, eleven words, and the 19 addresses. |
| `InodeDisk.LocationIsInjective` | src/ufsinidl.c:31-47 | Different inodes have different places in the inode list. |
| `Files.SingleOwner` | src/ufsdaexp.c:58-127 | In every state the operations leave, a block stands at one position of one file within its size, or on the free list, never at two places. |
| `Forests.RootsAreAllWords` | include/ufs/inode.h:40-44 | Every one of the 19 words of an inode is the root of some address, and no other word is. |
| `Files.ExpandAppends` | src/ufsdaexp.c:58-130 | Growing keeps the blocks of the file and of all other files, in place and contents, and appends clear blocks that were free. |
| `Files.ContractKeepsPrefix` | src/ufsdacon.c:56-122 | Shrinking keeps the first blocks, in place and contents, and all other files. |
| `Files.ContractFrees` | src/ufsdacon.c:56-122 | The free blocks afterwards are those before and those that went out of use, no more and no fewer. |
| `Files.ExpandTakes` | src/ufsdaexp.c:58-130 | The blocks taken off the free list are those that came into use, no more and no fewer. |
| `Files.Conservation` | src/ufsdaexp.c:64-119 | Growing from n to m blocks takes (m-n)+Idx(m)-Idx(n) free blocks, with Idx the number of index blocks in closed form; shrinking gives as many back. |
| `Files.ExpandContractRestores` | src/ufsdacon.c:61-117 | Growing and shrinking back restores the trees, the set of free blocks, and all contents. |
| `Files.TreesFromDisk` | src/ufsdalnk.c:37-56 | The trees are a function of disk and inodes. |
| `Files.FailureLosesFree` | src/ufsdaexp.c:122-125 | After growing failed for lack of space, no block that was free is free or in use. |
| `Traversal.Foreach` | src/ufsdafor.c:44-95 | Visits the blocks of a file in order, with their bytes (the exact rest for the last), until the callback returns non-zero, and returns that value. |
| `Traversal.VisitsCoverFile` | src/ufsdafor.c:44-95 | The sizes given to the callback add up to the size of the file; none is 0 or larger than a block. |
| `Traversal.Loop1` | src/ufsdalp1.c:41-52 | The blocks below an index block, in order, while bytes are left. |
| `Traversal.Loop2` | src/ufsdalp2.c:39-47 | The blocks below a double index block, in order, while bytes are left. |
| `Traversal.Last` | src/ufsdalst.c:40-58 | The block found for an offset is the one the traversal visits at that place. |
| `Directories.LookupByName` | src/ufsfilbn.c:34-141 | The inode number of the first entry with the name, across all blocks, or ENOENT, or ENOTDIR. |
| `Directories.AddEntry` | src/ufsdirad.c:32-122 | Appends the entry exactly if there are enough free blocks, counts it if it is a directory's, and leaves the directory's inode on disk as in memory; otherwise every file is as before. |
| `Directories.RemoveEntry` | src/ufsdirrm.c:34-146 | ENOENT if there is no entry with the name, also in an empty directory; else the last entry takes the place of the removed one, the directory is one entry smaller, and what it and the free list have together stays the same; no other file changes, and the directory's inode is on disk as in memory. |
| `Directories.ReplaceEntry` | src/ufsdirrp.c:34-92 | The entry with the name gets the new inode number; nothing else changes. |
| `Directories.LookupIsMap` | src/ufsfilbn.c:117-132 | Searching the entries is looking the name up in the map they stand for. |
| `Directories.AddIsMap` | src/ufsdirad.c:56-110 | Appending an entry with a new name adds one binding, and names stay unique. |
| `Directories.RemoveIsMap` | src/ufsdirrm.c:128-141 | Removal by moving the last entry deletes exactly one binding, also when it is the last entry that goes. |
| `Directories.ReplaceIsMap` | src/ufsdirrp.c:75-86 | Replacing changes exactly one binding. |
| `Dirents.EntryLayout` | include/ufs/dir.h:42-44 | An entry is sixteen words, the inode number before the name. |
| `Dirents.EntryPlace` | src/ufsfilbn.c:114-132 | Entry number k * m + i of a directory is in place i of its block k. |
| `Rename.Deallocate` | src/ufsfidal.c:32-131 | Removes an empty directory or one link to a file, as `Hierarchy.Unlink` says, or reports exactly why not; the inode removed from, and that of the file, are on disk as in memory. |
| `Effects.RemovalByEntries` | src/ufsfidal.c:58-126 | Written out: succeeds exactly for a name that stands for something other than a directory, or for one with no entries but "." and ".."; then this entry alone is gone, and the file has one link less, unless it had none, or is an emptied directory without links. |
| `Rename.CanDirmove` | src/ufsfiren.c:105-141 | Climbing from the new parent finds out exactly if its parent is the moved directory or below it; it ends at the root. |
| `Rename.LookupParent` | src/ufsfiren.c:143-185 | The ".." of a directory, 0 if it has none. |
| `Directories.CheckingSearches` | src/ufsfiren.c:161-181 | Where all inode numbers pass the sanity check, the callback that checks them first finds the same entry. |
| `Rename.RenameFile` | src/ufsfiren.c:34-97 | For any two names, "." and ".." among them, and also for an entry renamed onto itself: turns the tree of the disk into what `Hierarchy.RenameOutcome` says, with the error it says; ENOSPC exactly if no entry is replaced and the free blocks do not suffice for one more. After success the inodes of both directories are on disk as in memory. |
| `Effects.RenameByEntries` | src/ufsfiren.c:54-92 | Written out, for files and directories: after a rename that succeeds the old entry is gone, the new one has its inode, a directory in another parent has that as "..", what was replaced has lost a link or is empty, and every other entry of every directory, and every other link count of a file, is as it was. |
| `Effects.RenameAnswers` | src/ufsfiren.c:43-92 | Written out, for any old name but "." and "..": ENOENT exactly if there is no such entry; then ENOTEMPTY or EINVAL for a target that may not be removed, EINVAL exactly if climbing from the parent of the new parent comes to the moved directory, ENOSPC exactly without room and a replaced entry, and otherwise success. |
| `Effects.FailedRenameByEntries` | src/ufsfiren.c:54-67 | A rename that fails changes nothing, or has removed the target: when the check refused it, or when the target was the directory of the old entry. |
| `Creation.CreateFile` | src/ufsfialc.c:32-167 | Turns the tree of the disk into what `Hierarchy.CreateOutcome` says: the new inode with its entry, or the tree as it was, or, without room for the entry, an inode without one; it returns the number of the entry that is there, or the number offered; numbers handed out and taken back stay in step with the inodes in memory. After success the inode has the given mode and stamps and 2 links for a directory, 1 otherwise, and it and that of its directory are on disk as in memory. The seven known kinds are never refused with EINVAL, and no other kind succeeds. |
| `Effects.CreationByEntries` | src/ufsfialc.c:113-164 | Written out: when a creation succeeds, and which inode, entries and link counts it then adds. |
| `Creation.FillDirectory` | src/ufsfialc.c:113-141 | A new directory gets "." and ".." exactly if there is a free block for them. |
| `Creation.GiveUp` | src/ufsfialc.c:95-117 | When creation fails, the inode is cleared and its number may be handed out again; the tree is as it was. |
| `Hierarchy.MoveKeepsTree` | src/ufsfiren.c:69-92 | The directories are a tree after a move exactly if the new parent is neither the moved directory nor below it. |
| `Hierarchy.CheckIsExact` | src/ufsfiren.c:120-138 | The check lets through exactly those moves, and the move of a directory directly into itself. |
| `Hierarchy.RenameKeepsTree` | src/ufsfiren.c:34-97 | A rename leaves a tree exactly if it is neither that of a directory into itself nor one of "." or "..", with nothing else in the way; each condition is one a caller can look up before. |
| `Hierarchy.MoveIntoItselfBreaksTree` | src/ufsfiren.c:110-130 | The root with one sub-directory, which is renamed to an entry of itself: this succeeds, and leaves no tree. |
| `Hierarchy.RenamingDotBreaksTree` | src/ufsfiren.c:43-92 | In the same tree, entry "." of the sub-directory is renamed to an entry of the root: this succeeds, and leaves no tree. |
| `Hierarchy.RelinkedSame` | src/ufsfiren.c:54-83 | An entry renamed onto itself is removed as the target, then added and removed: it is gone, and the rest is as the removal left it. |
| `Hierarchy.CreationKeepsTree` | src/ufsfialc.c:113-164 | A creation leaves a tree exactly if it is not that of a directory for which there was a block but no room for its entry. |
| `Hierarchy.NoRoomLosesDirectory` | src/ufsfialc.c:161-164 | Creating a directory for whose entry there is no room reports ENOSPC and leaves no tree. |
| `Hierarchy.UnlinkKeepsTree` | src/ufsfidal.c:95-126 | Removing a file or an empty directory leaves a tree. |
| `Hierarchy.RunKeepsTree` | src/ufsfialc.c:113-141 | After any run of creations, removals and renames, failing or not, none of which is one of the three above, the directories are a tree and every link count is 2 and the number of sub-directories, modulo 2^16. |
| `Effects.RunKeepsLinks` | src/ufsfidal.c:115-120 | In any such run every file that is not a directory keeps at least as many links as entries name it. |
| `Service.Serve` | src/ufsfiren.c:34-97 | A caller that declines those three, by checks it can make before each call, serves any list of creations, removals and renames on a disk: the directories on it are a tree throughout, each answer is that of the operation on this tree, and no file has fewer links than entries name it. Making a directory is declined only if there is no space for its entry and its block. |
| `InodeList.FreeInodes.FreeinodeUpdate` | src/ufsinfup.c:32-99 | The cache becomes what it was and the free inodes in ascending order, cut to 64. |
| `InodeList.FreeInBlocksAscend` | src/ufsinfup.c:56-93 | The scan finds numbers in ascending order. |
| `InodeList.FreeInBlocksIs` | src/ufsinfup.c:56-93 | The scan finds exactly the inodes whose mode on disk is 0. |
| `InodeList.FreeAtPlace` | src/ufsinfup.c:56-93 | Inode b * ipb + j + 1 stands at word 32 j of block b, and is free exactly if the mode there is 0. |
| `InodeList.FreeInodes.Allocate` | src/ufsinalc.c:31-94 | Hands out the last number of the cache, which is free and not handed out; 1 and the largest number are refused, and gone. |
| `InodeList.FreeInodes.Deallocate` | src/ufsindal.c:31-61 | The inode is free, and its number cached if there is room; also for a number just handed out. |
| `InodeList.FreeInodes.Serve` | src/ufsinalc.c:54-84 | Through any sequence of creations, failed creations and removals, of inodes in use before as well, no number in use is handed out, and none twice unless it was given back in between; the inodes in use on disk afterwards are those the log of it says. |
| `InodeList.FreeInodes.IsInUse` | src/ufsinfup.c:56-93 | The mode in its slot tells whether the scan would find an inode. |
| `FileHandles.UfsFile.Getc` | src/ufsfgetc.c:5-73 | One step of the byte reader `Streams.GetcNext`; a byte exactly if there was no error or end of file before, the handle reads, and the position is in the file; otherwise nothing but the error or the end of file is recorded. |
| `FileHandles.BytesLayout` | src/ufsfgetc.c:67 | The words of a block are its bytes in order, the most significant one first. |
| `FileHandles.UfsFile.Getn` | src/ufsfgetn.c:5-118 | Reading n bytes at once leaves the handle, and returns the bytes, as reading one byte n times, across any number of blocks, at the end of the file and after errors. |
| `Streams.GetnIsSlice` | src/ufsfgetn.c:28-97 | From a handle in place, the bytes read are those of the file from the position, n or what is left, and end of file is shown exactly if it was less. |
| `Streams.Moved` | src/ufs#fsee.c:26-70 | A position moved by a signed offset, in 32-bit arithmetic with its overflow checks, is the sum exactly if that is a position; otherwise there is none. |
| `FileHandles.UfsFile.Seek` | src/ufs#fsee.c:20-134 | The new position is the offset (0 for a negative one), or the old position and the offset, or the size and the offset; EINVAL, and nothing moves, exactly if one of the latter two leaves 0 .. 2^32 - 1. Positioning reads the block of the byte before the position, or the first one. |
| `Streams.SoughtIsInPlace` | src/ufs#fsee.c:95-110 | Positioning brings a handle in place, except exactly at the start of a block that is neither the first one nor equal to the block before it. |
| `Streams.SeekReadsBefore` | src/ufs#fsee.c:95-110 | What is read from such a position is the block before it. |
| `FileHandles.WriteAndRead` | src/ufs#open.c:100-107 | What is written to a new file, in any buffers, is what is read after it is opened again, exactly if the free blocks suffice for it. |
| `FileHandles.UfsFile.Putn` | src/ufsfputn.c:5-101 | The bytes follow those written before, across any number of blocks; exactly if the file must grow and the free blocks do not suffice, nothing is written. No other file changes. |
| `FileHandles.UfsFile.Sync` | src/ufsfsync.c:5-32 | What was written is on disk; if it reaches the end of the file, the file contains it and nothing else. |
| `FileHandles.UfsFile.WriteAll` | src/ufsfputn.c:28-93 | Any sequence of buffers written to a new file and synced are its contents, one after the other, exactly if the free blocks suffice for all of them. |
| `Streams.WritingDone` | src/ufsfsync.c:11-21 | The blocks on disk cut to the size are what was written. |
| `Paths.FixPath` | src/ufs#lkup.c:240-308 | The rewriting in place ends, and the path is the join of its components folded over a stack: empty ones and "." skipped, ".." popping, the root its own parent. |
| `Paths.SkipParent` | src/ufs#lkup.c:284-302 | A part and the ".." after it may be left out without changing the normal form. |
| `Paths.NormalTwice` | src/ufs#lkup.c:240-308 | Normalising twice is normalising once. |
| `Paths.CleanIsNormal` | src/ufs#lkup.c:240-308 | A path the rewriting leaves alone is in normal form. |

## Findings

- Files of more than 16 + n blocks cannot be addressed on disks with blocks over 2048
  bytes: the size of a double-indirect tree wraps to 0 (src/ufsdaadr.c:40), and
  src/ufsdaadr.c:82 divides by it. `DatablockAddr.LastAddr` gives the exact condition.
  `UFS_BSIZE` is 4096 (include/ufs/disk.h:70).
- `UFS_ROUND_BSIZE` and the addresses wrap for sizes within one block of 2^32.
- A difference of sizes of 2^31 or more takes the wrong branch in src/ufsdachg.c:31-43
  (`DatablockAddr.SignedExactly`).
- A growth that fails for lack of space has emptied the free list and does not put the
  blocks back (src/ufsdaexp.c:122-125, `Files.FailureLosesFree`). The inode gets its old
  contents back there, but not at src/ufsdaexp.c:66-67 and 90-91, that is, unless the
  block that was lacking is one the inode itself was to name (`InodeTree.Vdisk.Expand`);
  its size is right in all cases, so its blocks are.
- A directory can be moved directly into itself: src/ufsfiren.c:110-130 looks at the
  parents of the new parent only (`Hierarchy.MoveIntoItselfBreaksTree`).
- Entries "." and ".." can be renamed: src/ufsfiren.c:43-92 does not look at the old name.
  The directory then lacks the entry (`Hierarchy.RenamingDotBreaksTree`). If the target was
  that directory itself, it has been emptied when its entry is to be removed: the new entry
  stays, and ENOENT is reported.
- An entry renamed onto itself is lost: it is removed as the target (`Hierarchy.RelinkedSame`).
- The target of a rename is removed before the hierarchy and the space are checked, so a
  rename refused with EINVAL has removed it (`Hierarchy.RenameOutcome`). A rename that
  replaces an entry never lacks space.
- A new directory whose entry finds no room is left without a name
  (src/ufsfialc.c:161-164, `Hierarchy.NoRoomLosesDirectory`); a file of another kind is left as
  an inode without an entry.
- Inode number 1 and the largest number are refused by the sanity check after they were
  taken from the cache and the total (src/ufsinalc.c:79-87), and are lost until a scan.
- The pager can report failure after the block was written, when the write-back of the
  evicted page fails (src/ufspgrwt.c:19-64, `Pager.Pager.Write` says exactly when).
- Positioning to the start of a block other than the first reads the block before it
  (src/ufs#fsee.c:101, `Streams.SoughtIsInPlace`, `Streams.SeekReadsBefore`): the bytes
  before the position are read once more, and the block of the position is skipped.
- A negative offset from the start is taken as 0 (src/ufs#fsee.c:23-25).

## Left out

- InodeTree.Vdisk.Expand: sizes within one block of 2^32, and sizes whose last block cannot be addressed, are excluded by `IsSize`; the program has no check for them that works (src/ufsdaadr.c:88).
- InodeTree.Vdisk.SizeChange: requires the difference of the sizes to be in the signed 32-bit range; outside it the wrong branch runs, with the arguments `DatablockAddr.SignedExactly` gives, and what it does to the file is not stated.
- InodeTree.Vdisk.Contract: the error of the last deallocation is always 0 here, because every block in use passes the sanity check; the EIO branches are unreachable under `Valid`.
- FreeChain.Disk.Allocate: the loop over entries that fail the sanity check is not modelled; under `Valid` it ends at the first entry.
- FileHandles.UfsFile.Putn: the 32-bit sum of position and length is excluded from wrapping by `IsSize`, and one buffer is shorter than 2^31 bytes.
- Streams.GetnIsSlice: on a handle with unsynced changes Getn still does what Getc does, but which bytes of the file that gives is not stated.
- Rename.RenameFile: all inode numbers are taken to pass the sanity check, as those do that `ufs_inode_allocate` hands out; with an entry whose number does not, the climb ends with ENOENT after the target was removed.
- Rename.LookupParent: as there, all inode numbers of the directory are taken to pass the sanity check.
- Creation.CreateFile: the time stamps, owner and group are a parameter; a number handed out is taken to have a cleared inode, as `ufs_inode_deallocate` leaves it; the running out of memory is not modelled.
- Rename.CanDirmove: as there; and directories on the way are taken from the inodes in memory instead of loaded from the inode list.
- InodeList.FreeInodes.FreeinodeUpdate: blocks of the inode list that cannot be read are not modelled.
- Directories.SetNlink: numbers above 2^25 share their places in the inode list with smaller ones, because the byte offset wraps (src/ufsinidl.c:31-47); what is said of other places is said for numbers up to that. A number without a place in the inode list is not stored.
- InodeList.FreeInodes.Deallocate: an inode number that is free and was not handed out is excluded; the program would list it twice.
- Directories.RemoveEntry: the block that is read for the last entry of an empty directory, whose contents are not used, is taken to be readable.
- FileHandles.UfsFile.Seek: positions past the end of the file, where the numbers followed may be stale, and handles that are open for writing.
- Service.Serve: the checks before each call are those of a caller; the repository has none.
- All inodes in use are held in memory (`Vdisk.minodes`); the cache of inodes and its use counts are not modelled. The number of the inode list in `InodeList.FreeInodes` is the superblock's side, that in `Vdisk.disk` the side of the inodes in memory; only `Creation.InStep` relates them.
- The inode part of `ufs_file_sync` does nothing: the dirty flag of an inode in memory is never set.
- Disk I/O below the pager, locks, access checks, console messages, buffers that cannot be had, and the library of dynamic arrays.
- Failing reads and writes above the pager: the layers from `FreeChain` up work on a disk that does not fail.
- Hard and symbolic links (`ufs_file_link`, `ufs_file_symlink`), which would add an entry and a link, and a file of one block.
- Mounted disks in `ufs_file_deallocate`, and path lookup across them.
- Names are 15 words padded with zeros; cutting longer names, stripping a path from a new name, and comparing names with bytes after the terminator are not modelled.
- Writing single bytes, and opening for appending or with truncation.
- The formatter is not part of this repository; that the first free list and the first directory are well formed is required where a disk is opened.
- The dirty counts of the pages of the pager are unbounded, and its statistics are not modelled; block number 2^32 - 1, which marks an unused page, is excluded as a request.

/** Creating files and directories. */
module Creation {
  import opened Blocks
  import opened Addressing
  import opened DatablockAddr
  import opened Forests
  import opened InodeDisk
  import opened SizeChanges
  import opened InodeTree
  import opened Files
  import opened Traversal
  import opened Dirents
  import opened Directories
  import opened Hierarchy
  import opened Rename
  import opened InodeList

  // ---------- inodes without blocks ----------

  /** From x to y, inode `ino` was put in memory, or taken out, and had no blocks; the
      data blocks are as they were. */
  ghost predicate IsEmptyChange(n: nat, lo: nat, x: Snapshot, y: Snapshot, ino: nat)
  {
    && IsFileSystem(n, lo, x)
    && y.forest == x.forest && y.free == x.free && |y.blocks| == |x.blocks| && Uniform(y.blocks, n)
    && (forall b :: lo <= b < |x.blocks| ==> y.blocks[b] == x.blocks[b])
    && (forall j :: j in x.minodes && j != ino ==> j in y.minodes && y.minodes[j] == x.minodes[j])
    && (forall j :: j in y.minodes && j != ino ==> j in x.minodes)
    && (ino in x.minodes ==> x.minodes[ino].filesize == 0)
    && (ino in y.minodes ==> y.minodes[ino].filesize == 0 && |y.minodes[ino].addr| == NADDR)
  }

  lemma NoSlots(n: nat, lo: nat, x: Snapshot, ino: nat, s: Slot)
    requires IsFileSystem(n, lo, x) && s in x.forest.at && (ino in x.minodes ==> x.minodes[ino].filesize == 0)
    ensures s.ino != ino
  {
    BlockCountZero(4 * n);
  }

  lemma CountsAfter(n: nat, lo: nat, x: Snapshot, y: Snapshot, ino: nat, s: Slot)
    requires n > 0 && IsEmptyChange(n, lo, x, y, ino)
    ensures s in x.forest.at <==> s.ino in Counts(4 * n, y.minodes) && Owns(n, s, Counts(4 * n, y.minodes)[s.ino])
  {
    BlockCountZero(4 * n);
  }

  lemma LinkedAfter(n: nat, lo: nat, x: Snapshot, y: Snapshot, ino: nat)
    requires n > 0 && IsEmptyChange(n, lo, x, y, ino)
    ensures Linked(n, lo, y.blocks, y.minodes, y.forest, y.free)
  {
    assert forall i :: i in y.minodes ==> |y.minodes[i].addr| == NADDR;
    forall s | s in x.forest.at ensures s.ino in x.minodes && s.ino != ino && s.ino in y.minodes {
      NoSlots(n, lo, x, ino, s);
    }
    forall s | s in y.forest.at ensures IsReached(n, y.blocks, y.minodes, y.forest, s) {
      assert IsReached(n, x.blocks, x.minodes, x.forest, s);
    }
  }

  /** The trees and the other files are as they were. */
  lemma EmptyChange(n: nat, lo: nat, x: Snapshot, y: Snapshot, ino: nat)
    requires IsEmptyChange(n, lo, x, y, ino)
    ensures IsFileSystem(n, lo, y)
    ensures forall j :: j in x.minodes && j != ino ==>
              j in y.minodes && FileBlocks(n, lo, y, j) == FileBlocks(n, lo, x, j)
  {
    LinkedAfter(n, lo, x, y, ino);
    forall s: Slot
      ensures s in y.forest.at
              <==> s.ino in Counts(4 * n, y.minodes) && Owns(n, s, Counts(4 * n, y.minodes)[s.ino])
    {
      CountsAfter(n, lo, x, y, ino, s);
    }
    BlockCountZero(4 * n);
    FilesKept(n, lo, x, y);
  }

  lemma WordsHoldEntries(blksize: nat, n: nat)
    requires IsBlksize(blksize) && blksize == 4 * n
    ensures n % DIRENT_WORDS == 0 && n >= 128
  {
    BlksizeCases(blksize);
    if blksize == 512 {
      assert n == 128;
    } else if blksize == 1024 {
      assert n == 256;
    } else if blksize == 2048 {
      assert n == 512;
    } else if blksize == 4096 {
      assert n == 1024;
    } else if blksize == 8192 {
      assert n == 2048;
    } else if blksize == 16384 {
      assert n == 4096;
    } else {
      assert n == 8192;
    }
  }

  /** A directory without blocks has no entries. */
  lemma EmptyIsGoodDir(n: nat, lo: nat, y: Snapshot, ino: nat)
    requires IsFileSystem(n, lo, y) && n % DIRENT_WORDS == 0 && ino in y.minodes && y.minodes[ino].filesize == 0
    ensures IsGoodDir(n, lo, y, ino) && DirEntries(n, lo, y, ino) == [] && AsMap(DirEntries(n, lo, y, ino)) == map[]
  {
    SizeOfEntries(n, lo, y, ino);
  }

  lemma GoodAfter(n: nat, lo: nat, x: Snapshot, y: Snapshot, ino: nat)
    requires AreGoodDirs(n, lo, x) && IsEmptyChange(n, lo, x, y, ino) && n % DIRENT_WORDS == 0
    ensures AreGoodDirs(n, lo, y)
    ensures forall j :: j in x.minodes && j != ino ==> j in y.minodes && NodeOf(n, lo, y, j) == NodeOf(n, lo, x, j)
    ensures ino in y.minodes ==> NodeOf(n, lo, y, ino) == Node(IsDir(y.minodes[ino]), y.minodes[ino].nlink, map[])
  {
    EmptyChange(n, lo, x, y, ino);
    forall i | i in y.minodes && IsDir(y.minodes[i])
      ensures IsGoodDir(n, lo, y, i) && (i != ino ==> DirEntries(n, lo, y, i) == DirEntries(n, lo, x, i))
    {
      if i == ino {
        EmptyIsGoodDir(n, lo, y, ino);
      } else {
        assert IsGoodDir(n, lo, x, i);
        SameNode(n, lo, x, y, i);
      }
    }
    if ino in y.minodes && IsDir(y.minodes[ino]) {
      EmptyIsGoodDir(n, lo, y, ino);
    }
  }

  lemma TreeWith(n: nat, lo: nat, x: Snapshot, y: Snapshot, ino: nat)
    requires AreGoodDirs(n, lo, x) && IsEmptyChange(n, lo, x, y, ino) && n % DIRENT_WORDS == 0 && ino in y.minodes
    ensures AreGoodDirs(n, lo, y)
    ensures TreeOf(n, lo, y) == TreeOf(n, lo, x)[ino := Node(IsDir(y.minodes[ino]), y.minodes[ino].nlink, map[])]
  {
    GoodAfter(n, lo, x, y, ino);
  }

  lemma TreeWithout(n: nat, lo: nat, x: Snapshot, y: Snapshot, ino: nat)
    requires AreGoodDirs(n, lo, x) && IsEmptyChange(n, lo, x, y, ino) && n % DIRENT_WORDS == 0 && ino !in y.minodes
    ensures AreGoodDirs(n, lo, y)
    ensures TreeOf(n, lo, y) == TreeOf(n, lo, x) - {ino}
  {
    GoodAfter(n, lo, x, y, ino);
    SameWithout(TreeOf(n, lo, x), TreeOf(n, lo, y), ino);
  }

  lemma SameWithout(t: Tree, u: Tree, ino: nat)
    requires ino !in u && (forall j :: j in t && j != ino ==> j in u && u[j] == t[j]) && forall j :: j in u ==> j in t
    ensures u == t - {ino}
  {
  }

  /** Sets an inode without blocks. */
  method SetInodeOf(v: Vdisk, ino: nat, d: Dinode)
    requires IsVolume(v) && (ino in v.minodes ==> v.minodes[ino].filesize == 0) && IsDinode(d) && d.filesize == 0
    modifies v`minodes
    ensures IsVolume(v) && v.minodes == old(v.minodes)[ino := d]
    ensures VolumeTree(v) == old(VolumeTree(v))[ino := Node(IsDir(d), d.nlink, map[])]
  {
    ghost var n, lo, x := v.disk.words, v.disk.datablockStart, v.Now();
    ghost var y := x.(minodes := x.minodes[ino := d]);
    WordsHoldEntries(v.Blksize(), n);
    EmptyChange(n, lo, x, y, ino);
    BlockCountZero(v.Blksize());
    v.minodes := v.minodes[ino := d];
    TreeWith(n, lo, x, y, ino);
  }

  /** Clears an inode without blocks on disk, and takes it out of memory. */
  method DropInode(v: Vdisk, ino: nat)
    requires IsVolume(v) && ino in v.minodes && v.minodes[ino].filesize == 0
    modifies v`minodes, v.disk`blocks
    ensures IsVolume(v) && v.minodes == old(v.minodes) - {ino}
    ensures VolumeTree(v) == old(VolumeTree(v)) - {ino}
  {
    ghost var n, lo, x := v.disk.words, v.disk.datablockStart, v.Now();
    WordsHoldEntries(v.Blksize(), n);
    ClearInode(v, ino, x);
    ghost var y := v.Now().(minodes := x.minodes - {ino});
    DroppedIs(n, lo, x, v.Now(), y, ino);
    ForgetInode(v, ino, x, y);
    TreeWithout(n, lo, x, y, ino);
  }

  /** Takes an inode without blocks out of memory. */
  method ForgetInode(v: Vdisk, ino: nat, ghost x: Snapshot, ghost y: Snapshot)
    requires v.Valid() && IsEmptyChange(v.disk.words, v.disk.datablockStart, x, y, ino)
    requires y == v.Now().(minodes := v.minodes - {ino})
    modifies v`minodes
    ensures v.Valid() && v.Now() == y
  {
    EmptyChange(v.disk.words, v.disk.datablockStart, x, y, ino);
    v.minodes := v.minodes - {ino};
  }

  lemma DroppedIs(n: nat, lo: nat, x: Snapshot, y: Snapshot, z: Snapshot, ino: nat)
    requires IsEmptyChange(n, lo, x, y, ino) && z == y.(minodes := x.minodes - {ino})
    requires y.minodes == x.minodes[ino := ClearedDinode()]
    ensures IsEmptyChange(n, lo, x, z, ino) && z.minodes == y.minodes - {ino}
  {
  }

  /** Clears an inode without blocks, in memory and on disk. */
  method ClearInode(v: Vdisk, ino: nat, ghost x: Snapshot)
    requires v.Valid() && v.Now() == x && ino in v.minodes && v.minodes[ino].filesize == 0
    modifies v`minodes, v.disk`blocks
    ensures v.Valid() && v.minodes == x.minodes[ino := ClearedDinode()]
    ensures IsEmptyChange(v.disk.words, v.disk.datablockStart, x, v.Now(), ino)
  {
    ghost var n, lo := v.disk.words, v.disk.datablockStart;
    ghost var y := x.(minodes := x.minodes[ino := ClearedDinode()]);
    EmptyChange(n, lo, x, y, ino);
    BlockCountZero(v.Blksize());
    v.minodes := v.minodes[ino := ClearedDinode()];
    StoreInode(v, ino, y);
    ClearedOnDisk(n, lo, x, y, v.Now(), ino);
  }

  /** Blocks of the inode list hold no data. */
  lemma ClearedOnDisk(n: nat, lo: nat, x: Snapshot, y: Snapshot, z: Snapshot, ino: nat)
    requires IsEmptyChange(n, lo, x, y, ino) && z == y.(blocks := z.blocks)
    requires |z.blocks| == |y.blocks| && Uniform(z.blocks, n)
    requires forall b :: lo <= b < |y.blocks| ==> z.blocks[b] == y.blocks[b]
    ensures IsEmptyChange(n, lo, x, z, ino)
  {
  }

  // ---------- the first block of a directory ----------

  lemma OneBlock(n: nat)
    requires n >= 128
    ensures BlockCount(4 * n, 2 * DIRENT_SIZE) == 1 && Need(n, 2 * DIRENT_SIZE) == 1 && Need(n, 0) == 0
  {
    QuotientUnique(2 * DIRENT_SIZE + 4 * n - 1, 4 * n, 1, 2 * DIRENT_SIZE - 1);
    BlockCountZero(4 * n);
    assert AddrOf(n, 0).level == 0;
    assert TotalBlocks(n, 1) == 1;
  }

  /** The two entries of a new directory. */
  function Dots(ino: nat, dir: nat): seq<Dirent>
  {
    [Dirent(ino, DOT), Dirent(dir, DOTDOT)]
  }

  /** A block with those entries. */
  function WithDots(buf: Block, ino: nat, dir: nat): (b: Block)
    requires |buf| >= 2 * DIRENT_WORDS
    ensures |b| == |buf|
  {
    SetEntry(SetEntry(buf, 0, Dirent(ino, DOT)), 1, Dirent(dir, DOTDOT))
  }

  lemma DotsAreRead(n: nat, lo: nat, z: Snapshot, ino: nat, dir: nat, buf: Block, block: Block)
    requires IsFileSystem(n, lo, z) && ino in z.minodes && z.minodes[ino].filesize == 2 * DIRENT_SIZE
    requires n >= 128 && n % DIRENT_WORDS == 0 && |buf| == n
    requires block == WithDots(buf, ino, dir) && FileBlocks(n, lo, z, ino) == [block]
    ensures IsDirFile(n, lo, z, ino) && DirEntries(n, lo, z, ino) == Dots(ino, dir)
  {
    var blocks, m := FileBlocks(n, lo, z, ino), n / DIRENT_WORDS;
    FileBlocksAre(n, lo, z, ino);
    EntriesLength(blocks, m, 2, 1);
    var es := DirEntries(n, lo, z, ino);
    assert EntriesUpTo(blocks, m, 2, 0) == [];
    assert es == BlockEntries(blocks[0], CountIn(m, 2, 0));
    EntryInSetEntry(buf, 0, Dirent(ino, DOT), 0);
    EntryInSetEntry(SetEntry(buf, 0, Dirent(ino, DOT)), 1, Dirent(dir, DOTDOT), 0);
    EntryInSetEntry(SetEntry(buf, 0, Dirent(ino, DOT)), 1, Dirent(dir, DOTDOT), 1);
  }

  /** Makes room for two entries in a new directory. */
  method MakeFirstBlock(v: Vdisk, ino: nat, ghost x: Snapshot) returns (error: Status)
    requires v.Valid() && v.Now() == x && ino in v.minodes && v.minodes[ino].filesize == 0
    modifies v`forest, v`minodes, v.disk, v.disk.freeblock
    ensures v.Valid() && v.disk.words >= 128 && v.disk.words % DIRENT_WORDS == 0
    ensures if x.free == [] then
              error == ENOSPC && v.disk.free == [] && AllKept(v.disk.words, v.disk.datablockStart, x, v.Now())
            else
              && error == Ok && |v.disk.free| + 1 == |x.free|
              && OthersKept(v.disk.words, v.disk.datablockStart, x, v.Now(), ino)
              && Resized(x.minodes, v.minodes, ino, 2 * DIRENT_SIZE)
              && FileBlocks(v.disk.words, v.disk.datablockStart, v.Now(), ino) == [ZeroBlock(v.disk.words)]
  {
    ghost var n := v.disk.words;
    WordsHoldEntries(v.Blksize(), n);
    OneBlock(n);
    BlockCountZero(v.Blksize());
    error := v.Expand(ino, DIRENT_SIZE * 2, 2 * DIRENT_SIZE);
    ValidIsFileSystem(v);
    if error == Ok {
      ExpandKeepsOthers(n, v.disk.datablockStart, x, v.Now(), ino, 2 * DIRENT_SIZE);
    } else {
      FailureKeepsAll(n, v.disk.datablockStart, x, v.Now(), ino);
    }
  }

  lemma OneUpdated(s: seq<Block>, a: Block, b: Block)
    requires s == [a]
    ensures s[0 := b] == [b]
  {
  }

  /** Writes "." and ".." to the first block of a new directory. */
  method WriteDots(v: Vdisk, ino: nat, dir: nat, ghost x: Snapshot)
    requires v.Valid() && v.disk.words >= 128 && v.disk.words % DIRENT_WORDS == 0
    requires OthersKept(v.disk.words, v.disk.datablockStart, x, v.Now(), ino)
    requires Resized(x.minodes, v.minodes, ino, 2 * DIRENT_SIZE)
    requires FileBlocks(v.disk.words, v.disk.datablockStart, v.Now(), ino) == [ZeroBlock(v.disk.words)]
    modifies v.disk`blocks
    ensures v.Valid() && DirChanged(v.disk.words, v.disk.datablockStart, x, v.Now(), ino, Dots(ino, dir))
  {
    ghost var n, lo, y := v.disk.words, v.disk.datablockStart, v.Now();
    OneBlock(n);
    FirstLeaf(n, y, ino);
    LeafInUse(n, lo, y, ino, 0);
    var blk := v.minodes[ino].addr[0];
    var buf := v.disk.blocks[blk];
    var block := WithDots(buf, ino, dir);
    OneUpdated(FileBlocks(n, lo, y, ino), ZeroBlock(n), block);
    WriteLeaf(v, blk, block, ino, 0);
    DotsAreRead(n, lo, v.Now(), ino, dir, buf, block);
    OthersKeptTwice(n, lo, x, y, v.Now(), ino);
  }

  // ---------- the tree ----------

  lemma DotsAreNames(ino: nat, dir: nat)
    requires ino >= 1 && dir >= 1
    ensures AreUnique(Dots(ino, dir)) && HaveInodes(Dots(ino, dir))
    ensures AsMap(Dots(ino, dir)) == map[DOT := ino, DOTDOT := dir]
  {
    var es := Dots(ino, dir);
    assert es[..1] == [Dirent(ino, DOT)] && es[..1][..0] == [];
    assert AsMap(es[..1]) == map[DOT := ino];
  }

  /** Gives a new directory its entries. */
  method FillDirectory(v: Vdisk, ino: nat, dir: nat, ghost x: Snapshot, ghost t: Tree) returns (error: Status)
    requires IsVolume(v) && v.Now() == x && VolumeTree(v) == t && ino in v.minodes && ino >= 1 && dir >= 1
    requires v.minodes[ino].filesize == 0 && t[ino] == Node(true, 2, map[])
    modifies v`forest, v`minodes, v.disk, v.disk.freeblock
    ensures IsVolume(v) && v.minodes.Keys == x.minodes.Keys
    ensures error == if x.free == [] then ENOSPC else Ok
    ensures error == Ok ==>
              && VolumeTree(v) == t[ino := NewNode(ino, dir, true)] && |v.disk.free| + 1 == |x.free|
              && Resized(x.minodes, v.minodes, ino, 2 * DIRENT_SIZE)
    ensures error != Ok ==> VolumeTree(v) == t && v.minodes[ino].filesize == 0
  {
    ghost var n, lo := v.disk.words, v.disk.datablockStart;
    NodeIs(n, lo, x, ino);
    error := MakeFirstBlock(v, ino, x);
    if error == Ok {
      PutDots(v, ino, dir, x, t);
    } else {
      TreeKept(n, lo, x, v.Now());
    }
  }

  /** Writes the entries of a new directory that has a block for them. */
  method PutDots(v: Vdisk, ino: nat, dir: nat, ghost x: Snapshot, ghost t: Tree)
    requires v.Valid() && v.disk.words >= 128 && v.disk.words % DIRENT_WORDS == 0 && ino >= 1 && dir >= 1
    requires AreGoodDirs(v.disk.words, v.disk.datablockStart, x) && TreeOf(v.disk.words, v.disk.datablockStart, x) == t
    requires ino in x.minodes && IsDir(x.minodes[ino]) && x.minodes[ino].nlink == 2
    requires OthersKept(v.disk.words, v.disk.datablockStart, x, v.Now(), ino)
    requires Resized(x.minodes, v.minodes, ino, 2 * DIRENT_SIZE)
    requires FileBlocks(v.disk.words, v.disk.datablockStart, v.Now(), ino) == [ZeroBlock(v.disk.words)]
    modifies v.disk`blocks
    ensures IsVolume(v) && VolumeTree(v) == t[ino := NewNode(ino, dir, true)]
  {
    WriteDots(v, ino, dir, x);
    DotsAreNames(ino, dir);
    TreeChanged(v.disk.words, v.disk.datablockStart, x, v.Now(), ino, Dots(ino, dir));
  }

  // ---------- creating a file ----------

  /** The inode of a new file. */
  predicate IsMade(d: Dinode, mode: nat, stamps: seq<nat>)
  {
    d.mode == mode && d.stamps == stamps && d.nlink == if IsDirMode(mode) then 2 else 1
  }

  /** Inode `ino` is that of a new file, in memory and on disk. */
  ghost predicate HasFile(n: nat, lo: nat, x: Snapshot, dir: nat, ino: nat, mode: nat, stamps: seq<nat>)
  {
    && n > 0 && ino in x.minodes && IsMade(x.minodes[ino], mode, stamps)
    && (IsPlaced(dir) && IsPlaced(ino) ==> IsSaved(n, lo, x, ino))
  }

  /** The inode of its directory is on disk as well. */
  ghost predicate IsStored(n: nat, lo: nat, x: Snapshot, dir: nat, ino: nat, mode: nat, stamps: seq<nat>)
  {
    HasFile(n, lo, x, dir, ino, mode, stamps) && IsSaved(n, lo, x, dir)
  }

  lemma StoredMeans(n: nat, lo: nat, x: Snapshot, dir: nat, ino: nat, mode: nat, stamps: seq<nat>)
    requires IsStored(n, lo, x, dir, ino, mode, stamps)
    ensures n > 0 && IsSaved(n, lo, x, dir) && ino in x.minodes
    ensures x.minodes[ino].mode == mode && x.minodes[ino].stamps == stamps
    ensures x.minodes[ino].nlink == if mode / 0x1000 % 16 == 4 then 2 else 1
    ensures IsPlaced(dir) && IsPlaced(ino) ==> IsSaved(n, lo, x, ino)
  {
  }

  lemma StillHasFile(n: nat, lo: nat, x: Snapshot, y: Snapshot, dir: nat, ino: nat, mode: nat, stamps: seq<nat>)
    requires OthersKept(n, lo, x, y, dir) && ino != dir && HasFile(n, lo, x, dir, ino, mode, stamps)
    ensures HasFile(n, lo, y, dir, ino, mode, stamps)
  {
  }

  /** The kinds of files that can be created. */
  predicate IsKnown(mode: nat)
  {
    var kind := mode / 0x1000 % 16;
    kind == 1 || kind == 2 || kind == 4 || kind == 6 || kind == 8 || kind == 10 || kind == 12
  }

  predicate IsDirMode(mode: nat)
  {
    mode / 0x1000 % 16 == 4
  }

  /** The inodes in memory are in use. */
  ghost predicate InStep(v: Vdisk, f: FreeInodes)
    requires f.IsShaped()
    reads v, f, f.freeinode
  {
    forall i :: i in v.minodes ==> i !in AllFree(f.ilist, f.ipb)
  }

  /** Number `ino` was handed out for an inode in memory that is not yet on disk. */
  ghost predicate Awaits(v: Vdisk, f: FreeInodes, ino: nat)
    reads v, v.disk, f, f.freeinode
  {
    && f.Valid() && f.pending == {ino} && f.freeinode != v.disk.freeblock && 1 <= ino <= f.MaxInode()
    && ino in v.minodes && forall i :: i in v.minodes && i != ino ==> i !in AllFree(f.ilist, f.ipb)
  }

  /** There is a block for the entries of a new directory. */
  ghost predicate HasBlock(x: Snapshot)
  {
    x.free != []
  }

  /** There is room for the entry of a new file, when the file has its own block. */
  ghost predicate HasEntryRoom(n: nat, x: Snapshot, dir: nat, isDir: bool, newsz: nat)
    requires n > 0 && dir in x.minodes
  {
    Budget(n, x, dir) >= Need(n, newsz) + if isDir then 1 else 0
  }

  /** Takes back a new inode, and its number. */
  method GiveUp(v: Vdisk, f: FreeInodes, ino: nat, ghost t: Tree)
    requires IsVolume(v) && Awaits(v, f, ino) && v.minodes[ino].filesize == 0 && VolumeTree(v) - {ino} == t
    modifies v`minodes, v.disk`blocks
    modifies f`ilist, f`nfreeinode, f`totalFreeinode, f`modified, f`pending, f.freeinode
    ensures IsVolume(v) && VolumeTree(v) == t && f.Valid() && f.pending == {} && InStep(v, f)
  {
    DropInode(v, ino);
    f.Deallocate(ino);
  }

  /** Creates a file of the given mode, with a number for it from the list of free inodes. */
  method CreateFile(v: Vdisk, f: FreeInodes, dir: nat, name: Name, mode: nat, stamps: seq<nat>, ghost newsz: nat)
    returns (error: Status, ino: nat)
    requires IsVolume(v) && Live(VolumeTree(v), dir) && dir >= 1 && |name| == NAME_WORDS && |stamps| == STAMP_WORDS
    requires f.Valid() && f.pending == {} && InStep(v, f) && f.freeinode != v.disk.freeblock
    requires dir in v.minodes && newsz == v.minodes[dir].filesize + DIRENT_SIZE && v.IsSize(newsz)
    modifies v`forest, v`minodes, v.disk, v.disk.freeblock
    modifies f`ilist, f`nfreeinode, f`totalFreeinode, f`modified, f`pending, f.freeinode
    ensures IsVolume(v) && f.Valid() && f.pending == {} && InStep(v, f)
    ensures dir in old(VolumeTree(v)) && (old(f.Offer()).0 == Ok ==> old(f.Offer()).1 !in old(VolumeTree(v)))
    ensures CreateOutcome(old(VolumeTree(v)), VolumeTree(v), dir, name, old(f.Offer()).0, old(f.Offer()).1,
                          IsKnown(mode), IsDirMode(mode), old(HasBlock(v.Now())),
                          old(HasEntryRoom(v.disk.words, v.Now(), dir, IsDirMode(mode), newsz)), error)
    ensures var entries := old(VolumeTree(v))[dir].entries;
            ino == if name in entries then entries[name] else old(f.Offer()).1
    ensures error == Ok ==>
              && ino in v.minodes && v.minodes[ino].mode == mode && v.minodes[ino].stamps == stamps
              && v.minodes[ino].nlink == if mode / 0x1000 % 16 == 4 then 2 else 1
    ensures error == Ok ==>
              && v.disk.words > 0 && IsSaved(v.disk.words, v.disk.datablockStart, v.Now(), dir)
              && (IsPlaced(dir) && IsPlaced(ino) ==> IsSaved(v.disk.words, v.disk.datablockStart, v.Now(), ino))
    ensures mode / 0x1000 % 16 in {1, 2, 4, 6, 8, 10, 12} ==> error != EINVAL
    ensures mode / 0x1000 % 16 !in {1, 2, 4, 6, 8, 10, 12} ==> error != Ok
  {
    ghost var t, x, offer := VolumeTree(v), v.Now(), f.Offer();
    LiveIsDir(v, dir);
    NewIsOther(v, f);
    var found;
    found, ino := Lookup(v, dir, name, t);
    if found == Ok {
      return EEXIST, ino;
    }
    error, ino := AllocateAndMake(v, f, dir, name, mode, stamps, newsz, t, x, offer);
    if error == Ok {
      StoredMeans(v.disk.words, v.disk.datablockStart, v.Now(), dir, ino, mode, stamps);
    }
  }

  /** Creates a file with a new name. */
  method AllocateAndMake(v: Vdisk, f: FreeInodes, dir: nat, name: Name, mode: nat, stamps: seq<nat>, ghost newsz: nat,
                         ghost t: Tree, ghost x: Snapshot, ghost offer: (Status, nat))
    returns (error: Status, ino: nat)
    requires IsVolume(v) && v.Now() == x && VolumeTree(v) == t && dir in v.minodes && IsDir(v.minodes[dir]) && dir >= 1
    requires dir in t && name !in t[dir].entries && |name| == NAME_WORDS && |stamps| == STAMP_WORDS
    requires f.Valid() && f.pending == {} && InStep(v, f) && f.freeinode != v.disk.freeblock
    requires offer == f.Offer() && (offer.0 == Ok ==> offer.1 !in t && offer.1 !in v.minodes)
    requires newsz == v.minodes[dir].filesize + DIRENT_SIZE && v.IsSize(newsz)
    modifies v`forest, v`minodes, v.disk, v.disk.freeblock
    modifies f`ilist, f`nfreeinode, f`totalFreeinode, f`modified, f`pending, f.freeinode
    ensures IsVolume(v) && f.Valid() && f.pending == {} && InStep(v, f)
    ensures CreateOutcome(t, VolumeTree(v), dir, name, offer.0, offer.1, IsKnown(mode), IsDirMode(mode),
                          HasBlock(x), HasEntryRoom(v.disk.words, x, dir, IsDirMode(mode), newsz), error)
    ensures ino == offer.1
    ensures error == Ok ==> IsStored(v.disk.words, v.disk.datablockStart, v.Now(), dir, ino, mode, stamps)
  {
    error, ino := f.Allocate();
    if error == Ok {
      error := MakeFile(v, f, dir, name, ino, mode, stamps, newsz, t, x);
    }
  }

  /** A number that is offered is not that of an inode in memory. */
  lemma NewIsOther(v: Vdisk, f: FreeInodes)
    requires IsVolume(v) && f.Valid() && InStep(v, f)
    ensures f.Offer().0 == Ok ==> f.Offer().1 !in VolumeTree(v) && f.Offer().1 !in v.minodes
  {
    if f.Offer().0 == Ok {
      FirstIsDistinct(f.ilist, f.ipb);
      assert f.Offer().1 in AllFree(f.ilist, f.ipb);
    }
  }

  /** Makes the inode that was handed out a file. */
  method MakeFile(v: Vdisk, f: FreeInodes, dir: nat, name: Name, ino: nat, mode: nat, stamps: seq<nat>,
                  ghost newsz: nat,
                  ghost t: Tree, ghost x: Snapshot)
    returns (error: Status)
    requires IsVolume(v) && v.Now() == x && VolumeTree(v) == t && dir in v.minodes && IsDir(v.minodes[dir]) && dir >= 1
    requires dir in t && name !in t[dir].entries && |name| == NAME_WORDS && |stamps| == STAMP_WORDS
    requires f.Valid() && f.pending == {ino} && InStep(v, f) && f.freeinode != v.disk.freeblock
    requires ino !in v.minodes && ino !in t && 1 <= ino <= f.MaxInode()
    requires newsz == v.minodes[dir].filesize + DIRENT_SIZE && v.IsSize(newsz)
    modifies v`forest, v`minodes, v.disk, v.disk.freeblock
    modifies f`ilist, f`nfreeinode, f`totalFreeinode, f`modified, f`pending, f.freeinode
    ensures IsVolume(v) && f.Valid() && f.pending == {} && InStep(v, f)
    ensures CreateOutcome(t, VolumeTree(v), dir, name, Ok, ino, IsKnown(mode), IsDirMode(mode),
                          HasBlock(x), HasEntryRoom(v.disk.words, x, dir, IsDirMode(mode), newsz), error)
    ensures error == Ok ==> IsStored(v.disk.words, v.disk.datablockStart, v.Now(), dir, ino, mode, stamps)
  {
    var d := NewDinode(mode, stamps);
    SetInodeOf(v, ino, d);
    if IsKnown(mode) {
      error := BuildFile(v, f, dir, name, ino, mode, stamps, newsz, t, v.Now());
    } else {
      PutTwice(t, ino, Node(IsDir(d), d.nlink, map[]), Node(false, 0, map[]));
      GiveUp(v, f, ino, t);
      error := EINVAL;
    }
  }

  /** The inode of a new file. */
  function NewDinode(mode: nat, stamps: seq<nat>): (d: Dinode)
    requires |stamps| == STAMP_WORDS
    ensures IsDinode(d) && d.filesize == 0 && IsDir(d) == IsDirMode(mode)
    ensures IsKnown(mode) ==> d.mode != 0 && IsMade(d, mode, stamps)
  {
    Dinode(mode, if !IsKnown(mode) then 0 else if IsDirMode(mode) then 2 else 1, 0, stamps, ZeroBlock(NADDR))
  }

  /** Makes the new inode a directory, or a file of another known kind. */
  method BuildFile(v: Vdisk, f: FreeInodes, dir: nat, name: Name, ino: nat, mode: nat, ghost stamps: seq<nat>,
                   ghost newsz: nat, ghost t: Tree, ghost y: Snapshot)
    returns (error: Status)
    requires IsVolume(v) && v.Now() == y && dir in v.minodes && IsDir(v.minodes[dir])
    requires VolumeTree(v) == t[ino := Node(IsDirMode(mode), if IsDirMode(mode) then 2 else 1, map[])]
    requires dir in t && dir >= 1 && name !in t[dir].entries && |name| == NAME_WORDS && ino !in t
    requires Awaits(v, f, ino) && v.minodes[ino].filesize == 0 && v.minodes[ino].mode != 0
    requires IsMade(v.minodes[ino], mode, stamps)
    requires newsz == v.minodes[dir].filesize + DIRENT_SIZE && v.IsSize(newsz)
    modifies v`forest, v`minodes, v.disk, v.disk.freeblock
    modifies f`ilist, f`nfreeinode, f`totalFreeinode, f`modified, f`pending, f.freeinode
    ensures IsVolume(v) && f.Valid() && f.pending == {} && InStep(v, f)
    ensures CreateOutcome(t, VolumeTree(v), dir, name, Ok, ino, true, IsDirMode(mode),
                          HasBlock(y), HasEntryRoom(v.disk.words, y, dir, IsDirMode(mode), newsz), error)
    ensures error == Ok ==> IsStored(v.disk.words, v.disk.datablockStart, v.Now(), dir, ino, mode, stamps)
  {
    if IsDirMode(mode) {
      error := MakeDirectory(v, f, dir, name, ino, mode, stamps, newsz, t, y);
    } else {
      error := LinkFile(v, f, dir, name, ino, mode, stamps, newsz, VolumeTree(v));
    }
  }

  /** Makes the new inode a directory. */
  method MakeDirectory(v: Vdisk, f: FreeInodes, dir: nat, name: Name, ino: nat, ghost mode: nat,
                       ghost stamps: seq<nat>, ghost newsz: nat, ghost t: Tree, ghost y: Snapshot)
    returns (error: Status)
    requires IsVolume(v) && v.Now() == y && VolumeTree(v) == t[ino := Node(true, 2, map[])] && dir in v.minodes
    requires IsDir(v.minodes[dir])
    requires dir in t && dir >= 1 && name !in t[dir].entries && |name| == NAME_WORDS && ino !in t
    requires Awaits(v, f, ino) && v.minodes[ino].filesize == 0 && v.minodes[ino].mode != 0
    requires IsMade(v.minodes[ino], mode, stamps)
    requires newsz == v.minodes[dir].filesize + DIRENT_SIZE && v.IsSize(newsz)
    modifies v`forest, v`minodes, v.disk, v.disk.freeblock
    modifies f`ilist, f`nfreeinode, f`totalFreeinode, f`modified, f`pending, f.freeinode
    ensures IsVolume(v) && f.Valid() && f.pending == {} && InStep(v, f)
    ensures CreateOutcome(t, VolumeTree(v), dir, name, Ok, ino, true, true,
                          HasBlock(y), HasEntryRoom(v.disk.words, y, dir, true, newsz), error)
    ensures error == Ok ==> IsStored(v.disk.words, v.disk.datablockStart, v.Now(), dir, ino, mode, stamps)
  {
    error := FillOrGiveUp(v, f, dir, ino, t, y);
    if error == Ok {
      error := LinkFile(v, f, dir, name, ino, mode, stamps, newsz, VolumeTree(v));
    }
  }

  /** Gives a new directory its entries, or takes it back. */
  method FillOrGiveUp(v: Vdisk, f: FreeInodes, dir: nat, ino: nat, ghost t: Tree, ghost y: Snapshot)
    returns (error: Status)
    requires IsVolume(v) && v.Now() == y && VolumeTree(v) == t[ino := Node(true, 2, map[])] && ino !in t && dir >= 1
    requires Awaits(v, f, ino) && v.minodes[ino].filesize == 0
    modifies v`forest, v`minodes, v.disk, v.disk.freeblock
    modifies f`ilist, f`nfreeinode, f`totalFreeinode, f`modified, f`pending, f.freeinode
    ensures IsVolume(v) && error == if HasBlock(y) then Ok else ENOSPC
    ensures error == Ok ==>
              && VolumeTree(v) == t[ino := NewNode(ino, dir, true)] && Awaits(v, f, ino)
              && Resized(y.minodes, v.minodes, ino, 2 * DIRENT_SIZE) && |v.disk.free| + 1 == |y.free|
    ensures error != Ok ==> VolumeTree(v) == t && f.Valid() && f.pending == {} && InStep(v, f)
  {
    PutTwice(t, ino, Node(true, 2, map[]), NewNode(ino, dir, true));
    error := FillAwaiting(v, f, dir, ino, VolumeTree(v), y);
    if error != Ok {
      GiveUp(v, f, ino, t);
    }
  }

  method FillAwaiting(v: Vdisk, f: FreeInodes, dir: nat, ino: nat, ghost t: Tree, ghost y: Snapshot)
    returns (error: Status)
    requires IsVolume(v) && v.Now() == y && VolumeTree(v) == t && dir >= 1
    requires Awaits(v, f, ino) && v.minodes[ino].filesize == 0 && t[ino] == Node(true, 2, map[])
    modifies v`forest, v`minodes, v.disk, v.disk.freeblock
    ensures IsVolume(v) && Awaits(v, f, ino) && error == if HasBlock(y) then Ok else ENOSPC
    ensures error == Ok ==>
              && VolumeTree(v) == t[ino := NewNode(ino, dir, true)]
              && Resized(y.minodes, v.minodes, ino, 2 * DIRENT_SIZE) && |v.disk.free| + 1 == |y.free|
    ensures error != Ok ==> VolumeTree(v) == t && v.minodes[ino].filesize == 0
  {
    error := FillDirectory(v, ino, dir, y, t);
    StillAwaits(v, f, ino, y.minodes.Keys);
  }

  lemma StillAwaits(v: Vdisk, f: FreeInodes, ino: nat, keys: set<nat>)
    requires f.Valid() && f.pending == {ino} && f.freeinode != v.disk.freeblock && 1 <= ino <= f.MaxInode()
    requires v.minodes.Keys == keys && ino in keys
    requires forall i :: i in keys && i != ino ==> i !in AllFree(f.ilist, f.ipb)
    ensures Awaits(v, f, ino)
  {
  }

  lemma PutTwice(t: Tree, ino: nat, a: Node, b: Node)
    requires ino !in t
    ensures t[ino := a] - {ino} == t && t[ino := a][ino := b] == t[ino := b]
  {
  }

  /** Writes the new inode, and enters it in its directory. */
  method LinkFile(v: Vdisk, f: FreeInodes, dir: nat, name: Name, ino: nat, ghost mode: nat,
                  ghost stamps: seq<nat>, ghost newsz: nat, ghost t: Tree)
    returns (error: Status)
    requires IsVolume(v) && VolumeTree(v) == t && dir in v.minodes && IsDir(v.minodes[dir])
    requires dir in t && name !in t[dir].entries && |name| == NAME_WORDS && Awaits(v, f, ino)
    requires v.minodes[ino].mode != 0 && IsMade(v.minodes[ino], mode, stamps) && ino != dir
    requires newsz == v.minodes[dir].filesize + DIRENT_SIZE && v.IsSize(newsz)
    modifies v`forest, v`minodes, v.disk, v.disk.freeblock
    modifies f`ilist, f`pending
    ensures IsVolume(v) && f.Valid() && f.pending == {} && InStep(v, f)
    ensures error == if old(Budget(v.disk.words, v.Now(), dir)) >= Need(v.disk.words, newsz) then Ok else ENOSPC
    ensures VolumeTree(v) == if error == Ok then AddName(t, dir, name, ino) else t
    ensures error == Ok ==> IsStored(v.disk.words, v.disk.datablockStart, v.Now(), dir, ino, mode, stamps)
  {
    SaveInode(v, f, ino, t);
    error := EnterFile(v, dir, name, ino, mode, stamps, newsz, t);
  }

  /** Enters a new file in its directory. */
  method EnterFile(v: Vdisk, dir: nat, name: Name, ino: nat, ghost mode: nat, ghost stamps: seq<nat>,
                   ghost newsz: nat, ghost t: Tree)
    returns (error: Status)
    requires IsVolume(v) && VolumeTree(v) == t && dir in v.minodes && IsDir(v.minodes[dir])
    requires dir in t && name !in t[dir].entries && |name| == NAME_WORDS && ino != dir && ino >= 1
    requires HasFile(v.disk.words, v.disk.datablockStart, v.Now(), dir, ino, mode, stamps)
    requires newsz == v.minodes[dir].filesize + DIRENT_SIZE && v.IsSize(newsz)
    modifies v`forest, v`minodes, v.disk, v.disk.freeblock
    ensures IsVolume(v) && v.minodes.Keys == old(v.minodes).Keys
    ensures error == if old(Budget(v.disk.words, v.Now(), dir)) >= Need(v.disk.words, newsz) then Ok else ENOSPC
    ensures VolumeTree(v) == if error == Ok then AddName(t, dir, name, ino) else t
    ensures error == Ok ==> IsStored(v.disk.words, v.disk.datablockStart, v.Now(), dir, ino, mode, stamps)
  {
    ghost var n, lo, y := v.disk.words, v.disk.datablockStart, v.Now();
    error := AddToDir(v, dir, name, ino, newsz);
    if error == Ok {
      StillHasFile(n, lo, y, v.Now(), dir, ino, mode, stamps);
    }
  }

  /** Writes the new inode: its number is in use. */
  method SaveInode(v: Vdisk, f: FreeInodes, ino: nat, ghost t: Tree)
    requires IsVolume(v) && VolumeTree(v) == t && Awaits(v, f, ino) && v.minodes[ino].mode != 0
    modifies v.disk`blocks, f`ilist, f`pending
    ensures IsVolume(v) && VolumeTree(v) == t && f.Valid() && f.pending == {} && InStep(v, f)
    ensures IsSaved(v.disk.words, v.disk.datablockStart, v.Now(), ino)
  {
    WriteInode(v, ino, t);
    f.Commit(ino, v.minodes[ino]);
  }

  /** Writes an inode to the inode list. */
  method WriteInode(v: Vdisk, ino: nat, ghost t: Tree)
    requires IsVolume(v) && VolumeTree(v) == t && ino in v.minodes
    modifies v.disk`blocks
    ensures IsVolume(v) && VolumeTree(v) == t && IsSaved(v.disk.words, v.disk.datablockStart, v.Now(), ino)
  {
    ghost var n, lo, x := v.disk.words, v.disk.datablockStart, v.Now();
    StoreInode(v, ino, x);
    ValidIsFileSystem(v);
    FilesKept(n, lo, x, v.Now());
    TreeKept(n, lo, x, v.Now());
  }
}

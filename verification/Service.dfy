/** Serving requests for changes of a mounted disk, one after the other. */
module Service {
  import opened Blocks
  import opened Addressing
  import opened DatablockAddr
  import opened Forests
  import opened InodeDisk
  import opened SizeChanges
  import opened InodeTree
  import opened Files
  import opened Dirents
  import opened Directories
  import opened Hierarchy
  import opened Effects
  import opened Rename
  import opened InodeList
  import opened Creation

  datatype Change =
    | ToCreate(dir: nat, name: Name, mode: nat, stamps: seq<nat>)
    | ToRemove(dir: nat, name: Name)
    | ToRename(pf: nat, from: Name, pt: nat, to: Name)

  predicate IsChange(c: Change)
  {
    match c
    case ToCreate(dir, name, mode, stamps) => |name| == NAME_WORDS && |stamps| == STAMP_WORDS
    case ToRemove(dir, name) => true
    case ToRename(pf, from, pt, to) => |to| == NAME_WORDS
  }

  /** The inodes with these numbers are in use. */
  ghost predicate AreInUse(f: FreeInodes, inos: set<nat>)
    reads f, f.freeinode
  {
    && f.Valid() && f.pending == {}
    && forall i :: i in inos ==> i !in AllFree(f.ilist, f.ipb) && IsSaneInode(i, f.MaxInode())
  }

  /** The directories are a tree, and the list of free inodes is that of the disk. */
  ghost predicate IsMounted(v: Vdisk, f: FreeInodes)
    reads v, v.disk, v.disk.freeblock, f, f.freeinode
  {
    && IsVolume(v) && IsTree(VolumeTree(v)) && AreInUse(f, v.minodes.Keys)
    && f.freeinode != v.disk.freeblock && f.MaxInode() == MaxInode(v.disk.words, v.disk.datablockStart)
  }

  /** Tree t becomes u: the operation has the outcome it has on trees and breaks nothing,
      or the change is declined. */
  ghost predicate Serves(n: nat, free: nat, t: Tree, c: Change, error: Status, u: Tree)
    requires IsTree(t)
  {
    || (error != Ok && u == t && MayDecline(n, free, t, c))
    || exists op :: IsFor(op, c) && IsStep(t, op, error, u) && !Breaks(t, op)
  }

  ghost predicate IsFor(op: Op, c: Change)
  {
    match c
    case ToCreate(dir, name, mode, stamps) =>
      op.Creating? && op.d == dir && op.name == name && op.isKnown == IsKnown(mode) && op.isDir == IsDirMode(mode)
    case ToRemove(dir, name) => op.Removing? && op.d == dir && op.name == name
    case ToRename(pf, from, pt, to) => op.Renaming? && op.pf == pf && op.from == from && op.pt == pt && op.to == to
  }

  /** What is declined: changes of what is no directory, or of one that is as large as a
      directory can be; making a directory for whose entries there is no space; and the
      renames that break the tree. */
  ghost predicate MayDecline(n: nat, free: nat, t: Tree, c: Change)
  {
    match c
    case ToCreate(dir, name, mode, stamps) =>
      !Live(t, dir) || IsFull(n, t, dir) || (IsDirMode(mode) && LacksSpace(n, free, t, dir))
    case ToRemove(dir, name) => !Live(t, dir)
    case ToRename(pf, from, pt, to) =>
      || !Live(t, pf) || !Live(t, pt) || IsFull(n, t, pt) || !IsOwn(from)
      || (from in t[pf].entries && t[pf].entries[from] == pt)
  }

  ghost predicate IsFull(n: nat, t: Tree, d: nat)
    requires d in t
  {
    var size := DIRENT_SIZE * |t[d].entries| + DIRENT_SIZE;
    n == 0 || size + 4 * n > TWO_TO_32 || !Addressable(4 * n, BlockCount(4 * n, size))
  }

  /** With this many free blocks there is none left for the entries of a new directory
      once its own entry has the blocks it needs. */
  ghost predicate LacksSpace(n: nat, free: nat, t: Tree, d: nat)
    requires n > 0 && d in t
  {
    var size := DIRENT_SIZE * |t[d].entries|;
    free + Need(n, size) <= Need(n, size + DIRENT_SIZE)
  }

  lemma TreeKeys(v: Vdisk)
    requires IsVolume(v)
    ensures VolumeTree(v).Keys == v.minodes.Keys
  {
  }

  lemma MountedIsInStep(v: Vdisk, f: FreeInodes)
    requires IsMounted(v, f)
    ensures InStep(v, f) && HasSaneInodes(VolumeTree(v), f.MaxInode())
  {
    TreeKeys(v);
  }

  /** After a change of the disk that leaves the list of free inodes alone. */
  lemma StillMounted(v: Vdisk, f: FreeInodes, inos: set<nat>)
    requires IsVolume(v) && IsTree(VolumeTree(v)) && v.minodes.Keys == inos && AreInUse(f, inos)
    requires f.freeinode != v.disk.freeblock && f.MaxInode() == MaxInode(v.disk.words, v.disk.datablockStart)
    ensures IsMounted(v, f)
  {
  }

  lemma FullIs(v: Vdisk, t: Tree, d: nat, size: nat)
    requires v.disk.Valid() && d in t && size == DIRENT_SIZE * |t[d].entries| + DIRENT_SIZE
    ensures IsFull(v.disk.words, t, d) <==> !v.IsSize(size)
  {
    assert v.Blksize() == 4 * v.disk.words;
  }

  /** Serving a change by the operation for it. */
  lemma ServedBy(n: nat, free: nat, t: Tree, c: Change, op: Op, error: Status, u: Tree)
    requires IsTree(t) && IsFor(op, c) && IsStep(t, op, error, u) && !Breaks(t, op)
    ensures IsTree(u) && Serves(n, free, t, c, error, u)
  {
    StepKeepsTree(t, op, error, u);
  }

  /** Looks up whether an inode is that of a directory that has not been removed. */
  method IsLive(v: Vdisk, d: nat, ghost t: Tree) returns (isLive: bool)
    requires IsVolume(v) && VolumeTree(v) == t
    ensures IsVolume(v) && VolumeTree(v) == t && isLive == Live(t, d)
    ensures isLive ==> d in v.minodes && IsDir(v.minodes[d]) && v.minodes[d].filesize == DIRENT_SIZE * |t[d].entries|
  {
    TreeKeys(v);
    if d !in v.minodes {
      return false;
    }
    NodeIs(v.disk.words, v.disk.datablockStart, v.Now(), d);
    if !IsDir(v.minodes[d]) {
      return false;
    }
    var error, parent := Lookup(v, d, DOTDOT, t);
    DirSize(v, d);
    isLive := error == Ok;
  }

  /** Creating leaves sane numbers. */
  lemma CreatedAreSane(t: Tree, u: Tree, d: nat, name: Name, offered: Status, ino: nat, isKnown: bool, isDir: bool,
                       block: bool, room: bool, error: Status, max: nat)
    requires d in t && (offered == Ok ==> ino != d && IsSaneInode(ino, max)) && HasSaneInodes(t, max)
    requires CreateOutcome(t, u, d, name, offered, ino, isKnown, isDir, block, room, error)
    ensures HasSaneInodes(u, max)
  {
  }

  /** Creates a file, unless it is a directory and there is no room for its entry. */
  method ServeCreation(v: Vdisk, f: FreeInodes, dir: nat, name: Name, mode: nat, stamps: seq<nat>, ghost t: Tree)
    returns (error: Status)
    requires IsMounted(v, f) && VolumeTree(v) == t && |name| == NAME_WORDS && |stamps| == STAMP_WORDS
    modifies v`forest, v`minodes, v.disk, v.disk.freeblock
    modifies f`ilist, f`nfreeinode, f`totalFreeinode, f`modified, f`pending, f.freeinode
    ensures IsMounted(v, f)
    ensures Serves(v.disk.words, old(|v.disk.free|), t, ToCreate(dir, name, mode, stamps), error, VolumeTree(v))
  {
    var newsz;
    error, newsz := CheckCreation(v, dir, IsDirMode(mode), t);
    if error == Ok {
      error := Create(v, f, dir, name, mode, stamps, newsz, t);
    }
  }

  /** Refuses to create what would be left without an entry. */
  method CheckCreation(v: Vdisk, dir: nat, isDir: bool, ghost t: Tree) returns (error: Status, newsz: nat)
    requires IsVolume(v) && VolumeTree(v) == t
    ensures IsVolume(v) && VolumeTree(v) == t
    ensures error != Ok ==>
              || !Live(t, dir) || IsFull(v.disk.words, t, dir)
              || (isDir && LacksSpace(v.disk.words, |v.disk.free|, t, dir))
    ensures error == Ok ==> Live(t, dir) && CanCreate(v, dir, isDir, newsz)
  {
    error, newsz := CanGrow(v, dir, t);
    if error == Ok && isDir {
      var room := HasDirRoom(v, dir, newsz, t);
      if !room {
        error := ENOSPC;
      }
    }
  }

  ghost predicate CanCreate(v: Vdisk, dir: nat, isDir: bool, newsz: nat)
    reads v, v.disk
  {
    && dir in v.minodes && v.disk.words > 0 && newsz == v.minodes[dir].filesize + DIRENT_SIZE && v.IsSize(newsz)
    && (isDir ==> HasEntryRoom(v.disk.words, v.Now(), dir, true, newsz))
  }

  /** Whether there is room for the entry of a new directory. */
  method HasDirRoom(v: Vdisk, dir: nat, newsz: nat, ghost t: Tree) returns (room: bool)
    requires v.Valid() && v.disk.words > 0 && dir in v.minodes && dir in t
    requires v.minodes[dir].filesize == DIRENT_SIZE * |t[dir].entries| && newsz == v.minodes[dir].filesize + DIRENT_SIZE
    ensures v.Valid() && room == HasEntryRoom(v.disk.words, v.Now(), dir, true, newsz)
    ensures room == !LacksSpace(v.disk.words, |v.disk.free|, t, dir)
  {
    room := v.disk.totalFreeblock + Need(v.disk.words, v.minodes[dir].filesize) >= Need(v.disk.words, newsz) + 1;
  }

  /** Creates a file for which there is room. */
  method Create(v: Vdisk, f: FreeInodes, dir: nat, name: Name, mode: nat, stamps: seq<nat>, ghost newsz: nat,
                ghost t: Tree)
    returns (error: Status)
    requires IsMounted(v, f) && VolumeTree(v) == t && |name| == NAME_WORDS && |stamps| == STAMP_WORDS
    requires Live(t, dir) && CanCreate(v, dir, IsDirMode(mode), newsz)
    modifies v`forest, v`minodes, v.disk, v.disk.freeblock
    modifies f`ilist, f`nfreeinode, f`totalFreeinode, f`modified, f`pending, f.freeinode
    ensures IsMounted(v, f)
    ensures Serves(v.disk.words, old(|v.disk.free|), t, ToCreate(dir, name, mode, stamps), error, VolumeTree(v))
  {
    MountedIsInStep(v, f);
    error := CreateChecked(v, f, dir, name, mode, stamps, newsz, t, f.Offer());
    MountedAgain(v, f);
  }

  lemma MountedAgain(v: Vdisk, f: FreeInodes)
    requires IsVolume(v) && IsTree(VolumeTree(v)) && HasSaneInodes(VolumeTree(v), f.MaxInode())
    requires f.Valid() && f.pending == {} && InStep(v, f) && f.freeinode != v.disk.freeblock
    requires f.MaxInode() == MaxInode(v.disk.words, v.disk.datablockStart)
    ensures IsMounted(v, f)
  {
    TreeKeys(v);
  }

  method CreateChecked(v: Vdisk, f: FreeInodes, dir: nat, name: Name, mode: nat, stamps: seq<nat>, ghost newsz: nat,
                       ghost t: Tree, ghost offer: (Status, nat))
    returns (error: Status)
    requires IsVolume(v) && VolumeTree(v) == t && IsTree(t) && HasSaneInodes(t, f.MaxInode())
    requires f.Valid() && f.pending == {} && InStep(v, f) && f.freeinode != v.disk.freeblock && offer == f.Offer()
    requires |name| == NAME_WORDS && |stamps| == STAMP_WORDS
    requires Live(t, dir) && CanCreate(v, dir, IsDirMode(mode), newsz)
    modifies v`forest, v`minodes, v.disk, v.disk.freeblock
    modifies f`ilist, f`nfreeinode, f`totalFreeinode, f`modified, f`pending, f.freeinode
    ensures IsVolume(v) && IsTree(VolumeTree(v)) && HasSaneInodes(VolumeTree(v), f.MaxInode())
    ensures f.Valid() && f.pending == {} && InStep(v, f)
    ensures Serves(v.disk.words, old(|v.disk.free|), t, ToCreate(dir, name, mode, stamps), error, VolumeTree(v))
  {
    ghost var n, free, max := v.disk.words, |v.disk.free|, f.MaxInode();
    ghost var block, room := HasBlock(v.Now()), HasEntryRoom(n, v.Now(), dir, IsDirMode(mode), newsz);
    OfferIsSane(f, max, offer);
    error := CreateOnly(v, f, dir, name, mode, stamps, newsz, t, offer, block, room);
    Created(n, free, t, VolumeTree(v), dir, name, mode, stamps, offer, block, room, error, max);
  }

  lemma OfferIsSane(f: FreeInodes, max: nat, offer: (Status, nat))
    requires f.IsShaped() && offer == f.Offer() && max == f.MaxInode()
    ensures offer.0 == Ok ==> IsSaneInode(offer.1, max)
  {
  }

  method CreateOnly(v: Vdisk, f: FreeInodes, dir: nat, name: Name, mode: nat, stamps: seq<nat>, ghost newsz: nat,
                    ghost t: Tree, ghost offer: (Status, nat), ghost block: bool, ghost room: bool)
    returns (error: Status)
    requires IsVolume(v) && VolumeTree(v) == t && Live(t, dir) && dir >= 1
    requires f.Valid() && f.pending == {} && InStep(v, f) && f.freeinode != v.disk.freeblock && offer == f.Offer()
    requires |name| == NAME_WORDS && |stamps| == STAMP_WORDS && CanCreate(v, dir, IsDirMode(mode), newsz)
    requires block == HasBlock(v.Now()) && room == HasEntryRoom(v.disk.words, v.Now(), dir, IsDirMode(mode), newsz)
    modifies v`forest, v`minodes, v.disk, v.disk.freeblock
    modifies f`ilist, f`nfreeinode, f`totalFreeinode, f`modified, f`pending, f.freeinode
    ensures IsVolume(v) && f.Valid() && f.pending == {} && InStep(v, f) && (offer.0 == Ok ==> offer.1 !in t)
    ensures CreateOutcome(t, VolumeTree(v), dir, name, offer.0, offer.1, IsKnown(mode), IsDirMode(mode), block, room,
                          error)
  {
    var ino;
    error, ino := CreateFile(v, f, dir, name, mode, stamps, newsz);
  }

  lemma Created(n: nat, free: nat, t: Tree, u: Tree, dir: nat, name: Name, mode: nat, stamps: seq<nat>,
                offer: (Status, nat), block: bool, room: bool, error: Status, max: nat)
    requires IsTree(t) && Live(t, dir) && HasSaneInodes(t, max)
    requires offer.0 == Ok ==> offer.1 !in t && IsSaneInode(offer.1, max)
    requires CreateOutcome(t, u, dir, name, offer.0, offer.1, IsKnown(mode), IsDirMode(mode), block, room, error)
    requires IsDirMode(mode) ==> room
    ensures IsTree(u) && HasSaneInodes(u, max) && Serves(n, free, t, ToCreate(dir, name, mode, stamps), error, u)
  {
    var op := Creating(dir, name, offer.0, offer.1, IsKnown(mode), IsDirMode(mode), block, room);
    ServedBy(n, free, t, ToCreate(dir, name, mode, stamps), op, error, u);
    CreatedAreSane(t, u, dir, name, offer.0, offer.1, IsKnown(mode), IsDirMode(mode), block, room, error, max);
  }

  /** Whether a directory is there and may get one more entry. */
  method CanGrow(v: Vdisk, d: nat, ghost t: Tree) returns (error: Status, newsz: nat)
    requires IsVolume(v) && VolumeTree(v) == t
    ensures IsVolume(v) && VolumeTree(v) == t
    ensures error != Ok ==> !Live(t, d) || IsFull(v.disk.words, t, d)
    ensures error == Ok ==>
              && Live(t, d) && d in v.minodes && v.IsSize(newsz)
              && newsz == v.minodes[d].filesize + DIRENT_SIZE == DIRENT_SIZE * |t[d].entries| + DIRENT_SIZE
  {
    var isLive := IsLive(v, d, t);
    if !isLive {
      return ENOENT, 0;
    }
    newsz := v.minodes[d].filesize + DIRENT_SIZE;
    FullIs(v, t, d, newsz);
    var fits := v.IsSize(newsz);
    error := if fits then Ok else EFBIG;
  }

  /** Removes a file from a directory, if that is one. */
  method ServeRemoval(v: Vdisk, dir: nat, name: Name, ghost t: Tree) returns (error: Status)
    requires IsVolume(v) && VolumeTree(v) == t && IsTree(t)
    modifies v`forest, v`minodes, v.disk, v.disk.freeblock
    ensures IsVolume(v) && IsTree(VolumeTree(v)) && v.minodes.Keys == old(v.minodes).Keys
    ensures Serves(v.disk.words, old(|v.disk.free|), t, ToRemove(dir, name), error, VolumeTree(v))
  {
    var isLive := IsLive(v, dir, t);
    if !isLive {
      return ENOENT;
    }
    error := Remove(v, dir, name, t);
  }

  method Remove(v: Vdisk, dir: nat, name: Name, ghost t: Tree) returns (error: Status)
    requires IsVolume(v) && VolumeTree(v) == t && IsTree(t) && Live(t, dir)
    modifies v`forest, v`minodes, v.disk, v.disk.freeblock
    ensures IsVolume(v) && IsTree(VolumeTree(v)) && v.minodes.Keys == old(v.minodes).Keys
    ensures Serves(v.disk.words, old(|v.disk.free|), t, ToRemove(dir, name), error, VolumeTree(v))
  {
    error := Deallocate(v, dir, name);
    ServedBy(v.disk.words, old(|v.disk.free|), t, ToRemove(dir, name), Removing(dir, name), error, VolumeTree(v));
  }

  /** Renames an entry, unless it is "." or "..", or that of the new parent. */
  method ServeRename(v: Vdisk, pf: nat, from: Name, pt: nat, to: Name, ghost t: Tree) returns (error: Status)
    requires IsVolume(v) && VolumeTree(v) == t && IsTree(t) && |to| == NAME_WORDS
    requires HasSaneInodes(t, MaxInode(v.disk.words, v.disk.datablockStart))
    modifies v`forest, v`minodes, v.disk, v.disk.freeblock
    ensures IsVolume(v) && IsTree(VolumeTree(v)) && v.minodes.Keys == old(v.minodes).Keys
    ensures Serves(v.disk.words, old(|v.disk.free|), t, ToRename(pf, from, pt, to), error, VolumeTree(v))
  {
    ghost var newsz;
    error, newsz := CheckRename(v, pf, from, pt, t);
    if error == Ok {
      error := Relink(v, pf, from, pt, to, newsz, t);
    }
  }

  /** Refuses the renames that break the tree. */
  method CheckRename(v: Vdisk, pf: nat, from: Name, pt: nat, ghost t: Tree) returns (error: Status, ghost newsz: nat)
    requires IsVolume(v) && VolumeTree(v) == t
    ensures IsVolume(v) && VolumeTree(v) == t
    ensures error != Ok ==> forall to :: MayDecline(v.disk.words, |v.disk.free|, t, ToRename(pf, from, pt, to))
    ensures error == Ok ==>
              && Live(t, pf) && Live(t, pt) && IsOwn(from)
              && newsz == DIRENT_SIZE * |t[pt].entries| + DIRENT_SIZE && v.IsSize(newsz)
              && (from in t[pf].entries ==> t[pf].entries[from] != pt)
  {
    newsz := 0;
    if from == DOT || from == DOTDOT {
      return EINVAL, 0;
    }
    var isLive := IsLive(v, pf, t);
    if !isLive {
      return ENOENT, 0;
    }
    var size;
    error, size := CanGrow(v, pt, t);
    newsz := size;
    if error == Ok {
      error := CheckMove(v, pf, from, pt, t);
    }
  }

  /** Refuses to move a directory into itself. */
  method CheckMove(v: Vdisk, pf: nat, from: Name, pt: nat, ghost t: Tree) returns (error: Status)
    requires IsVolume(v) && VolumeTree(v) == t && Live(t, pf)
    ensures IsVolume(v) && VolumeTree(v) == t
    ensures error == if from in t[pf].entries && t[pf].entries[from] == pt then EINVAL else Ok
  {
    LiveIsDir(v, pf);
    var found, ino := Lookup(v, pf, from, t);
    error := if found == Ok && ino == pt then EINVAL else Ok;
  }

  /** Renames an entry that may be. */
  method Relink(v: Vdisk, pf: nat, from: Name, pt: nat, to: Name, ghost newsz: nat, ghost t: Tree)
    returns (error: Status)
    requires IsVolume(v) && VolumeTree(v) == t && IsTree(t) && |to| == NAME_WORDS && IsOwn(from)
    requires HasSaneInodes(t, MaxInode(v.disk.words, v.disk.datablockStart))
    requires Live(t, pf) && Live(t, pt) && newsz == DIRENT_SIZE * |t[pt].entries| + DIRENT_SIZE && v.IsSize(newsz)
    requires from in t[pf].entries ==> t[pf].entries[from] != pt
    modifies v`forest, v`minodes, v.disk, v.disk.freeblock
    ensures IsVolume(v) && IsTree(VolumeTree(v)) && v.minodes.Keys == old(v.minodes).Keys
    ensures Serves(v.disk.words, old(|v.disk.free|), t, ToRename(pf, from, pt, to), error, VolumeTree(v))
  {
    LiveIsDir(v, pt);
    ghost var rank :| IsRanked(t, rank);
    ghost var room := HasRoom(v.disk.words, v.Now(), pt, newsz);
    error := RenameFile(v, pf, from, pt, to, rank, newsz);
    Renamed(v.disk.words, old(|v.disk.free|), t, VolumeTree(v), rank, pf, from, pt, to, room, error);
  }

  lemma Renamed(n: nat, free: nat, t: Tree, u: Tree, rank: map<nat, nat>, pf: nat, from: Name, pt: nat, to: Name,
                room: bool, error: Status)
    requires IsTree(t) && IsRanked(t, rank) && Live(t, pf) && Live(t, pt) && IsOwn(from)
    requires from in t[pf].entries ==> t[pf].entries[from] != pt
    requires RenameOutcome(t, rank, u, pf, from, pt, to, room, error)
    ensures IsTree(u) && Serves(n, free, t, ToRename(pf, from, pt, to), error, u)
  {
    ServedBy(n, free, t, ToRename(pf, from, pt, to), Renaming(pf, from, pt, to, room), error, u);
  }

  /** Serves a change of the disk that needs no new inode. */
  method ServeOnDisk(v: Vdisk, c: Change, ghost t: Tree) returns (error: Status)
    requires IsVolume(v) && VolumeTree(v) == t && IsTree(t) && IsChange(c) && !c.ToCreate?
    requires HasSaneInodes(t, MaxInode(v.disk.words, v.disk.datablockStart))
    modifies v`forest, v`minodes, v.disk, v.disk.freeblock
    ensures IsVolume(v) && IsTree(VolumeTree(v)) && v.minodes.Keys == old(v.minodes).Keys
    ensures Serves(v.disk.words, old(|v.disk.free|), t, c, error, VolumeTree(v))
  {
    match c
    case ToRemove(dir, name) => error := ServeRemoval(v, dir, name, t);
    case ToRename(pf, from, pt, to) => error := ServeRename(v, pf, from, pt, to, t);
  }

  method ServeChange(v: Vdisk, f: FreeInodes, c: Change, ghost t: Tree) returns (error: Status)
    requires IsMounted(v, f) && VolumeTree(v) == t && IsChange(c)
    modifies v`forest, v`minodes, v.disk, v.disk.freeblock
    modifies f`ilist, f`nfreeinode, f`totalFreeinode, f`modified, f`pending, f.freeinode
    ensures IsMounted(v, f) && Serves(v.disk.words, old(|v.disk.free|), t, c, error, VolumeTree(v))
  {
    if c.ToCreate? {
      error := ServeCreation(v, f, c.dir, c.name, c.mode, c.stamps, t);
    } else {
      MountedIsInStep(v, f);
      error := ServeBeside(v, f, c, t, v.minodes.Keys);
    }
  }

  /** Serves a change that leaves the list of free inodes alone. */
  method ServeBeside(v: Vdisk, f: FreeInodes, c: Change, ghost t: Tree, ghost inos: set<nat>) returns (error: Status)
    requires IsVolume(v) && VolumeTree(v) == t && IsTree(t) && IsChange(c) && !c.ToCreate?
    requires v.minodes.Keys == inos && AreInUse(f, inos) && f.freeinode != v.disk.freeblock
    requires f.MaxInode() == MaxInode(v.disk.words, v.disk.datablockStart) && HasSaneInodes(t, f.MaxInode())
    modifies v`forest, v`minodes, v.disk, v.disk.freeblock
    ensures IsMounted(v, f) && Serves(v.disk.words, old(|v.disk.free|), t, c, error, VolumeTree(v))
  {
    error := ServeOnDisk(v, c, t);
    StillMounted(v, f, inos);
  }

  /** A tree, and the number of free blocks. */
  datatype State = State(tree: Tree, free: nat)

  ghost function StateOf(v: Vdisk): State
    requires IsVolume(v)
    reads v, v.disk, v.disk.freeblock
  {
    State(VolumeTree(v), |v.disk.free|)
  }

  /** The states s, of which each became the next one when the first k changes were
      served, lead from a to b. */
  ghost predicate IsHistory(n: nat, s: seq<State>, changes: seq<Change>, errors: seq<Status>, k: nat, a: State,
                            b: State)
  {
    && |s| == |errors| + 1 == k + 1 <= |changes| + 1 && s[0] == a && s[k] == b
    && forall i :: 0 <= i < k ==>
        IsTree(s[i].tree) && Serves(n, s[i].free, s[i].tree, changes[i], errors[i], s[i + 1].tree)
  }

  lemma HistoryGrows(n: nat, s: seq<State>, changes: seq<Change>, errors: seq<Status>, k: nat, next: nat, a: State,
                     b: State, error: Status, c: State)
    requires IsHistory(n, s, changes, errors, k, a, b) && IsTree(b.tree) && next == k + 1 <= |changes|
    requires Serves(n, b.free, b.tree, changes[k], error, c.tree)
    ensures IsHistory(n, s + [c], changes, errors + [error], next, a, c)
  {
    var s', errors' := s + [c], errors + [error];
    forall i | 0 <= i < next
      ensures IsTree(s'[i].tree) && Serves(n, s'[i].free, s'[i].tree, changes[i], errors'[i], s'[i + 1].tree)
    {
      if i < k {
        assert s'[i] == s[i] && s'[i + 1] == s[i + 1] && errors'[i] == errors[i];
      }
    }
  }

  /** Throughout, files keep at least as many links as entries name them. */
  lemma {:induction false} HistoryKeepsLinks(n: nat, s: seq<State>, changes: seq<Change>, errors: seq<Status>, k: nat,
                                             a: State, b: State, j: nat)
    requires IsHistory(n, s, changes, errors, k, a, b) && HasLinks(a.tree) && j <= k
    ensures HasLinks(s[j].tree)
  {
    if j > 0 {
      var i := j - 1;
      HistoryKeepsLinks(n, s, changes, errors, k, a, b, i);
      assert Serves(n, s[i].free, s[i].tree, changes[i], errors[i], s[i + 1].tree);
      if s[j].tree != s[i].tree {
        var op :| IsFor(op, changes[i]) && IsStep(s[i].tree, op, errors[i], s[j].tree) && !Breaks(s[i].tree, op);
        StepKeepsLinks(s[i].tree, op, errors[i], s[j].tree);
      }
    }
  }

  /** Serves all changes.  The directories on the disk stay a tree throughout, each answer
      is that of the operation on this tree, and no file has fewer links than names. */
  method Serve(v: Vdisk, f: FreeInodes, changes: seq<Change>) returns (errors: seq<Status>, ghost states: seq<State>)
    requires IsMounted(v, f) && forall i :: 0 <= i < |changes| ==> IsChange(changes[i])
    modifies v`forest, v`minodes, v.disk, v.disk.freeblock
    modifies f`ilist, f`nfreeinode, f`totalFreeinode, f`modified, f`pending, f.freeinode
    ensures IsMounted(v, f)
    ensures IsHistory(v.disk.words, states, changes, errors, |changes|, old(StateOf(v)), StateOf(v))
    ensures HasLinks(old(VolumeTree(v))) ==> forall k :: 0 <= k <= |changes| ==> HasLinks(states[k].tree)
  {
    ghost var n, a := v.disk.words, StateOf(v);
    errors, states := [], [a];
    for k := 0 to |changes|
      invariant IsMounted(v, f) && v.disk.words == n && IsHistory(n, states, changes, errors, k, a, StateOf(v))
    {
      ghost var b, next := StateOf(v), k + 1;
      var error := ServeChange(v, f, changes[k], b.tree);
      HistoryGrows(n, states, changes, errors, k, next, a, b, error, StateOf(v));
      errors, states := errors + [error], states + [StateOf(v)];
    }
    if HasLinks(a.tree) {
      forall k | 0 <= k <= |changes| ensures HasLinks(states[k].tree) {
        HistoryKeepsLinks(n, states, changes, errors, |changes|, a, StateOf(v), k);
      }
    }
  }
}

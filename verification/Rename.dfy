/** Renaming and removing files: the tree that the directories on a disk
    form, and what these operations do to it. */
module Rename {
  import opened Blocks
  import opened Addressing
  import opened DatablockAddr
  import opened Forests
  import opened InodeDisk
  import opened SizeChanges
  import opened InodeTree
  import opened Files
  import opened Traversal
  import opened Dirents
  import opened Directories
  import opened Hierarchy

  // ---------- the tree on a disk ----------

  ghost predicate HaveInodes(es: seq<Dirent>)
  {
    forall k :: 0 <= k < |es| ==> es[k].ino >= 1
  }

  lemma HaveInodesAfter(es: seq<Dirent>, i: nat, ino: nat, name: Name)
    requires HaveInodes(es) && ino >= 1
    ensures HaveInodes(es + [Dirent(ino, name)])
    ensures i < |es| ==> HaveInodes(Removed(es, i)) && HaveInodes(es[i := Dirent(ino, name)])
  {
  }

  /** A directory whose names are unique and whose entries name inodes. */
  ghost predicate IsGoodDir(n: nat, lo: nat, x: Snapshot, i: nat)
  {
    IsDirFile(n, lo, x, i) && AreUnique(DirEntries(n, lo, x, i)) && HaveInodes(DirEntries(n, lo, x, i))
  }

  ghost predicate AreGoodDirs(n: nat, lo: nat, x: Snapshot)
  {
    && IsFileSystem(n, lo, x)
    && forall i :: i in x.minodes && IsDir(x.minodes[i]) ==> IsGoodDir(n, lo, x, i)
  }

  ghost function NodeOf(n: nat, lo: nat, x: Snapshot, i: nat): Node
    requires AreGoodDirs(n, lo, x) && i in x.minodes
  {
    if IsDir(x.minodes[i]) then
      assert IsGoodDir(n, lo, x, i);
      Node(true, x.minodes[i].nlink, AsMap(DirEntries(n, lo, x, i)))
    else
      Node(false, x.minodes[i].nlink, map[])
  }

  /** The directory tree of a disk. */
  ghost function TreeOf(n: nat, lo: nat, x: Snapshot): Tree
    requires AreGoodDirs(n, lo, x)
  {
    map i | i in x.minodes :: NodeOf(n, lo, x, i)
  }

  /** A file that has the contents it had is the same directory. */
  lemma SameNode(n: nat, lo: nat, x: Snapshot, y: Snapshot, i: nat)
    requires IsGoodDir(n, lo, x, i) && IsFileSystem(n, lo, y) && i in y.minodes
    requires y.minodes[i].filesize == x.minodes[i].filesize && FileBlocks(n, lo, y, i) == FileBlocks(n, lo, x, i)
    ensures IsGoodDir(n, lo, y, i) && DirEntries(n, lo, y, i) == DirEntries(n, lo, x, i)
  {
    FileBlocksAre(n, lo, x, i);
    FileBlocksAre(n, lo, y, i);
  }

  lemma OthersAreGood(n: nat, lo: nat, x: Snapshot, y: Snapshot, dir: nat)
    requires AreGoodDirs(n, lo, x) && OthersKept(n, lo, x, y, dir) && dir in x.minodes
    requires IsDir(y.minodes[dir]) ==> IsGoodDir(n, lo, y, dir)
    ensures AreGoodDirs(n, lo, y)
    ensures forall i :: i in x.minodes && i != dir ==> NodeOf(n, lo, y, i) == NodeOf(n, lo, x, i)
  {
    forall i | i in x.minodes && i != dir && IsDir(x.minodes[i])
      ensures IsGoodDir(n, lo, y, i) && DirEntries(n, lo, y, i) == DirEntries(n, lo, x, i)
    {
      assert IsGoodDir(n, lo, x, i);
      SameNode(n, lo, x, y, i);
    }
  }

  /** An operation on one directory changes its node only. */
  lemma TreeChanged(n: nat, lo: nat, x: Snapshot, y: Snapshot, dir: nat, es: seq<Dirent>)
    requires AreGoodDirs(n, lo, x) && DirChanged(n, lo, x, y, dir, es) && IsDir(x.minodes[dir])
    requires AreUnique(es) && HaveInodes(es)
    ensures AreGoodDirs(n, lo, y)
    ensures TreeOf(n, lo, y) == TreeOf(n, lo, x)[dir := Node(true, y.minodes[dir].nlink, AsMap(es))]
  {
    assert IsGoodDir(n, lo, y, dir);
    OthersAreGood(n, lo, x, y, dir);
    OneNodeChanged(n, lo, x, y, dir);
  }

  lemma OneNodeChanged(n: nat, lo: nat, x: Snapshot, y: Snapshot, dir: nat)
    requires AreGoodDirs(n, lo, x) && AreGoodDirs(n, lo, y) && dir in x.minodes && y.minodes.Keys == x.minodes.Keys
    requires forall i :: i in x.minodes && i != dir ==> NodeOf(n, lo, y, i) == NodeOf(n, lo, x, i)
    ensures TreeOf(n, lo, y) == TreeOf(n, lo, x)[dir := NodeOf(n, lo, y, dir)]
  {
  }

  lemma NodeIs(n: nat, lo: nat, x: Snapshot, i: nat)
    requires AreGoodDirs(n, lo, x) && i in x.minodes
    ensures i in TreeOf(n, lo, x) && TreeOf(n, lo, x)[i].isDir == IsDir(x.minodes[i])
    ensures TreeOf(n, lo, x)[i].nlink == x.minodes[i].nlink
    ensures IsDir(x.minodes[i]) ==>
              IsGoodDir(n, lo, x, i) && TreeOf(n, lo, x)[i].entries == AsMap(DirEntries(n, lo, x, i))
    ensures !IsDir(x.minodes[i]) ==> TreeOf(n, lo, x)[i].entries == map[]
  {
    assert IsDir(x.minodes[i]) ==> IsGoodDir(n, lo, x, i);
  }

  /** Entries without inode number 0 are all found. */
  lemma NothingSkipped(es: seq<Dirent>, name: seq<nat>)
    requires HaveInodes(es)
    ensures IndexOf(es, name, true) == IndexOf(es, name, false)
  {
    IndexOfUnique(es, name, true, IndexOf(es, name, false));
  }

  /** Finding a name in a directory is looking it up in the tree. */
  lemma FoundInTree(n: nat, lo: nat, x: Snapshot, dir: nat, name: seq<nat>, skip: bool)
    requires AreGoodDirs(n, lo, x) && dir in x.minodes && IsDir(x.minodes[dir])
    ensures IsGoodDir(n, lo, x, dir) && dir in TreeOf(n, lo, x)
    ensures var es, entries := DirEntries(n, lo, x, dir), TreeOf(n, lo, x)[dir].entries;
            && (name in entries <==> IndexOf(es, name, skip) < |es|)
            && (name in entries ==> entries[name] == es[IndexOf(es, name, skip)].ino >= 1)
            && IndexOf(es, name, skip) == IndexOf(es, name, false)
  {
    NodeIs(n, lo, x, dir);
    LookupIsMap(DirEntries(n, lo, x, dir), name);
    NothingSkipped(DirEntries(n, lo, x, dir), name);
  }

  // ---------- operations on the tree ----------

  /** The tree of a virtual disk. */
  ghost predicate IsVolume(v: Vdisk)
    reads v, v.disk, v.disk.freeblock
  {
    v.Valid() && AreGoodDirs(v.disk.words, v.disk.datablockStart, v.Now())
  }

  ghost function VolumeTree(v: Vdisk): Tree
    requires IsVolume(v)
    reads v, v.disk, v.disk.freeblock
  {
    TreeOf(v.disk.words, v.disk.datablockStart, v.Now())
  }

  /** The inode number a name stands for. */
  method Lookup(v: Vdisk, dir: nat, name: Name, ghost t: Tree) returns (error: Status, ino: nat)
    requires IsVolume(v) && VolumeTree(v) == t && dir in v.minodes && IsDir(v.minodes[dir])
    ensures IsVolume(v) && VolumeTree(v) == t && dir in t
    ensures if name in t[dir].entries then error == Ok && ino == t[dir].entries[name] else error == ENOENT
  {
    FoundInTree(v.disk.words, v.disk.datablockStart, v.Now(), dir, name, true);
    error, ino := LookupByName(v, dir, name);
  }

  /** Adding an entry with a new name. */
  method AddToDir(v: Vdisk, dir: nat, name: Name, ino: nat, ghost newsz: nat) returns (error: Status)
    requires IsVolume(v) && dir in v.minodes && IsDir(v.minodes[dir]) && ino in v.minodes && ino >= 1
    requires |name| == NAME_WORDS
    requires newsz == v.minodes[dir].filesize + DIRENT_SIZE && v.IsSize(newsz) && name !in VolumeTree(v)[dir].entries
    modifies v`forest, v`minodes, v.disk, v.disk.freeblock
    ensures IsVolume(v) && dir in old(VolumeTree(v))
    ensures error == if old(Budget(v.disk.words, v.Now(), dir)) >= Need(v.disk.words, newsz) then Ok else ENOSPC
    ensures VolumeTree(v) == if error == Ok then AddName(old(VolumeTree(v)), dir, name, ino) else old(VolumeTree(v))
    ensures v.minodes.Keys == old(v.minodes).Keys
    ensures error == Ok ==> OthersKept(v.disk.words, v.disk.datablockStart, old(v.Now()), v.Now(), dir)
    ensures error == Ok ==> IsSaved(v.disk.words, v.disk.datablockStart, v.Now(), dir)
  {
    ghost var n, lo, x := v.disk.words, v.disk.datablockStart, v.Now();
    NodeIs(n, lo, x, dir);
    NodeIs(n, lo, x, ino);
    error := AddEntry(v, dir, ino, name, newsz);
    if error == Ok {
      AddedToTree(n, lo, x, v.Now(), dir, name, ino);
    } else {
      TreeKept(n, lo, x, v.Now());
    }
  }

  lemma CountIs(n: nat, lo: nat, x: Snapshot, dir: nat, ino: nat, delta: int)
    requires AreGoodDirs(n, lo, x) && dir in x.minodes
    ensures dir in TreeOf(n, lo, x)
    ensures Count(TreeOf(n, lo, x), dir, ino, delta)
            == Counted(x.minodes[dir].nlink, ino in x.minodes && IsDir(x.minodes[ino]), delta)
  {
    var t := TreeOf(n, lo, x);
    NodeIs(n, lo, x, dir);
    if ino in x.minodes {
      NodeIs(n, lo, x, ino);
    }
    CountOfNode(t, dir, ino, delta, x.minodes[dir].nlink, ino in x.minodes && IsDir(x.minodes[ino]));
  }

  lemma CountOfNode(t: Tree, dir: nat, ino: nat, delta: int, nlink: nat, isDir: bool)
    requires dir in t && t[dir].nlink == nlink && (ino in t && t[ino].isDir <==> isDir)
    ensures Count(t, dir, ino, delta) == Counted(nlink, isDir, delta)
  {
  }

  lemma AddedToTree(n: nat, lo: nat, x: Snapshot, y: Snapshot, dir: nat, name: Name, ino: nat)
    requires AreGoodDirs(n, lo, x) && dir in x.minodes && IsDir(x.minodes[dir]) && ino in x.minodes && ino >= 1
    requires IsGoodDir(n, lo, x, dir) && name !in AsMap(DirEntries(n, lo, x, dir))
    requires DirChanged(n, lo, x, y, dir, DirEntries(n, lo, x, dir) + [Dirent(ino, name)])
    requires y.minodes[dir].nlink == Counted(x.minodes[dir].nlink, IsDir(x.minodes[ino]), 1)
    ensures dir in TreeOf(n, lo, x) && AreGoodDirs(n, lo, y)
    ensures TreeOf(n, lo, y) == AddName(TreeOf(n, lo, x), dir, name, ino)
  {
    var es, e := DirEntries(n, lo, x, dir), Dirent(ino, name);
    NodeIs(n, lo, x, dir);
    CountIs(n, lo, x, dir, ino, 1);
    AddIsMap(es, e);
    HaveInodesAfter(es, 0, ino, name);
    TreeChanged(n, lo, x, y, dir, es + [e]);
  }

  /** A failed growth changes nothing in the tree. */
  lemma TreeKept(n: nat, lo: nat, x: Snapshot, y: Snapshot)
    requires AreGoodDirs(n, lo, x) && AllKept(n, lo, x, y)
    ensures AreGoodDirs(n, lo, y) && TreeOf(n, lo, y) == TreeOf(n, lo, x)
  {
    forall i | i in y.minodes && IsDir(y.minodes[i]) ensures IsGoodDir(n, lo, y, i) {
      SameNode(n, lo, x, y, i);
    }
    forall i | i in x.minodes ensures NodeOf(n, lo, y, i) == NodeOf(n, lo, x, i) {
      if IsDir(x.minodes[i]) {
        assert IsGoodDir(n, lo, x, i);
        SameNode(n, lo, x, y, i);
      }
    }
  }

  /** Removing an entry, if it is there. */
  method RemoveFromDir(v: Vdisk, dir: nat, name: Name) returns (error: Status)
    requires IsVolume(v) && dir in v.minodes && IsDir(v.minodes[dir])
    requires name in VolumeTree(v)[dir].entries ==> VolumeTree(v)[dir].entries[name] in v.minodes
    modifies v`forest, v`minodes, v.disk, v.disk.freeblock
    ensures IsVolume(v) && v.minodes.Keys == old(v.minodes).Keys
    ensures var t := old(VolumeTree(v));
            && dir in t
            && error == (if name in t[dir].entries then Ok else ENOENT)
            && VolumeTree(v) == if name in t[dir].entries then RemoveName(t, dir, name) else t
    ensures Budget(v.disk.words, v.Now(), dir) == old(Budget(v.disk.words, v.Now(), dir))
    ensures error == Ok ==> OthersKept(v.disk.words, v.disk.datablockStart, old(v.Now()), v.Now(), dir)
    ensures error == Ok ==> IsSaved(v.disk.words, v.disk.datablockStart, v.Now(), dir)
  {
    ghost var n, lo, x := v.disk.words, v.disk.datablockStart, v.Now();
    FoundInTree(n, lo, x, dir, name, false);
    error := RemoveEntry(v, dir, name);
    if error == Ok {
      RemovedFromTree(n, lo, x, v.Now(), dir, name, error);
    }
  }

  lemma RemovedFromTree(n: nat, lo: nat, x: Snapshot, y: Snapshot, dir: nat, name: Name, error: Status)
    requires AreGoodDirs(n, lo, x) && dir in x.minodes && IsDir(x.minodes[dir]) && IsGoodDir(n, lo, x, dir)
    requires name in AsMap(DirEntries(n, lo, x, dir)) && AsMap(DirEntries(n, lo, x, dir))[name] in x.minodes
    requires RemoveOutcome(n, lo, x, y, dir, name, error)
    ensures dir in TreeOf(n, lo, x) && TreeOf(n, lo, x)[dir].entries == AsMap(DirEntries(n, lo, x, dir))
    ensures AreGoodDirs(n, lo, y) && TreeOf(n, lo, y) == RemoveName(TreeOf(n, lo, x), dir, name)
  {
    var es := DirEntries(n, lo, x, dir);
    var at := IndexOf(es, name, false);
    LookupIsMap(es, name);
    NodeIs(n, lo, x, dir);
    CountIs(n, lo, x, dir, es[at].ino, -1);
    RemoveIsMap(es, at);
    HaveInodesAfter(es, at, 1, name);
    TreeChanged(n, lo, x, y, dir, Removed(es, at));
  }

  /** Giving an entry another inode number. */
  method ReplaceInDir(v: Vdisk, dir: nat, name: Name, ino: nat)
    requires IsVolume(v) && dir in v.minodes && IsDir(v.minodes[dir]) && ino >= 1 && |name| == NAME_WORDS
    requires name in VolumeTree(v)[dir].entries
    modifies v.disk`blocks
    ensures IsVolume(v) && ListKept(v.disk.datablockStart, old(v.Now()), v.Now())
    ensures dir in old(VolumeTree(v)) && VolumeTree(v) == ReplaceName(old(VolumeTree(v)), dir, name, ino)
  {
    ghost var n, lo, x := v.disk.words, v.disk.datablockStart, v.Now();
    FoundInTree(n, lo, x, dir, name, false);
    var error := ReplaceEntry(v, dir, name, ino);
    ReplacedInTree(n, lo, x, v.Now(), dir, name, ino);
  }

  lemma ReplacedInTree(n: nat, lo: nat, x: Snapshot, y: Snapshot, dir: nat, name: Name, ino: nat)
    requires AreGoodDirs(n, lo, x) && dir in x.minodes && IsDir(x.minodes[dir]) && IsGoodDir(n, lo, x, dir) && ino >= 1
    requires var es := DirEntries(n, lo, x, dir); var at := IndexOf(es, name, false);
             at < |es| && DirChanged(n, lo, x, y, dir, es[at := Dirent(ino, name)])
    requires y.minodes == x.minodes
    ensures dir in TreeOf(n, lo, x) && AreGoodDirs(n, lo, y)
    ensures TreeOf(n, lo, y) == ReplaceName(TreeOf(n, lo, x), dir, name, ino)
  {
    var es := DirEntries(n, lo, x, dir);
    var at := IndexOf(es, name, false);
    NodeIs(n, lo, x, dir);
    ReplaceIsMap(es, at, ino);
    HaveInodesAfter(es, at, ino, name);
    TreeChanged(n, lo, x, y, dir, es[at := Dirent(ino, name)]);
  }

  // ---------- removing a file ----------

  /** A directory whose only entries are "." and ".." is told by its size. */
  lemma {:induction false} AsMapSize(es: seq<Dirent>)
    requires AreUnique(es)
    ensures |AsMap(es)| == |es|
  {
    if es != [] {
      var front, last := es[..|es| - 1], es[|es| - 1];
      AsMapSize(front);
      assert last.name !in AsMap(front);
    }
  }

  lemma EmptyIsTwoEntries(n: nat, lo: nat, x: Snapshot, c: nat)
    requires AreGoodDirs(n, lo, x) && Live(TreeOf(n, lo, x), c) && DOT in TreeOf(n, lo, x)[c].entries
    ensures c in x.minodes && IsDir(x.minodes[c])
    ensures IsEmptyDir(TreeOf(n, lo, x), c) <==> x.minodes[c].filesize == DIRENT_SIZE * 2
    ensures x.minodes[c].filesize > 0
  {
    NodeIs(n, lo, x, c);
    var es := DirEntries(n, lo, x, c);
    SizeOfEntries(n, lo, x, c);
    AsMapSize(es);
    TwoKeys(AsMap(es));
  }

  lemma TwoKeys(m: map<Name, nat>)
    requires DOT in m && DOTDOT in m
    ensures m.Keys == {DOT, DOTDOT} <==> |m| == 2
    ensures |m| > 0
  {
    var own := m.Keys - {DOT, DOTDOT};
    assert m.Keys == {DOT, DOTDOT} + own && |{DOT, DOTDOT}| == 2;
    assert |m| == |m.Keys| == 2 + |own|;
  }

  /** Empties a directory and takes its links away. */
  method EmptyDir(v: Vdisk, c: nat)
    requires IsVolume(v) && c in v.minodes && IsDir(v.minodes[c]) && v.minodes[c].filesize < TWO_TO_31
    modifies v`forest, v`minodes, v.disk, v.disk.freeblock
    ensures IsVolume(v) && v.minodes.Keys == old(v.minodes).Keys
    ensures c in old(VolumeTree(v)) && VolumeTree(v) == old(VolumeTree(v))[c := Node(true, 0, map[])]
    ensures |v.disk.free| >= old(|v.disk.free|)
    ensures forall j :: j in v.minodes && j != c ==> v.minodes[j] == old(v.minodes)[j]
    ensures IsSaved(v.disk.words, v.disk.datablockStart, v.Now(), c)
  {
    ghost var n, lo, x := v.disk.words, v.disk.datablockStart, v.Now();
    NodeIs(n, lo, x, c);
    ghost var y := EmptyFile(v, c);
    EmptiedTree(n, lo, x, y, v.Now(), c);
  }

  /** Cuts a file to size 0 and takes its links away. */
  method EmptyFile(v: Vdisk, c: nat) returns (ghost y: Snapshot)
    requires v.Valid() && c in v.minodes && v.minodes[c].filesize < TWO_TO_31
    modifies v`forest, v`minodes, v.disk, v.disk.freeblock
    ensures v.Valid()
    ensures OthersKept(v.disk.words, v.disk.datablockStart, old(v.Now()), y, c)
    ensures y.minodes[c].mode == old(v.minodes)[c].mode
    ensures OthersKept(v.disk.words, v.disk.datablockStart, y, v.Now(), c) && v.minodes[c] == y.minodes[c].(nlink := 0)
    ensures y.minodes[c].filesize == 0 && |v.disk.free| >= old(|v.disk.free|)
    ensures IsSaved(v.disk.words, v.disk.datablockStart, v.Now(), c)
  {
    Truncate(v, c);
    y := v.Now();
    SetNlink(v, c, 0);
  }

  lemma EmptiedTree(n: nat, lo: nat, x: Snapshot, y: Snapshot, z: Snapshot, c: nat)
    requires AreGoodDirs(n, lo, x) && c in x.minodes && IsDir(x.minodes[c])
    requires OthersKept(n, lo, x, y, c) && y.minodes[c].mode == x.minodes[c].mode && y.minodes[c].filesize == 0
    requires OthersKept(n, lo, y, z, c) && z.minodes[c] == y.minodes[c].(nlink := 0)
    ensures AreGoodDirs(n, lo, z) && TreeOf(n, lo, z) == TreeOf(n, lo, x)[c := Node(true, 0, map[])]
  {
    assert IsGoodDir(n, lo, x, c);
    OthersKeptTwice(n, lo, x, y, z, c);
    SizeOfEntries(n, lo, z, c);
    assert DirEntries(n, lo, z, c) == [];
    TreeChanged(n, lo, x, z, c, []);
  }

  /** Cuts a file to size 0. */
  method Truncate(v: Vdisk, c: nat)
    requires v.Valid() && c in v.minodes && v.minodes[c].filesize < TWO_TO_31
    modifies v`forest, v`minodes, v.disk, v.disk.freeblock
    ensures v.Valid() && OthersKept(v.disk.words, v.disk.datablockStart, old(v.Now()), v.Now(), c)
    ensures v.minodes[c].mode == old(v.minodes)[c].mode && v.minodes[c].filesize == 0
    ensures |v.disk.free| >= old(|v.disk.free|)
  {
    ghost var x := v.Now();
    ValidIsFileSystem(v);
    BlockCountZero(v.Blksize());
    if v.minodes[c].filesize > 0 {
      var error := v.SizeChange(0, c);
      ValidIsFileSystem(v);
      ContractKeepsOthers(v.disk.words, v.disk.datablockStart, x, v.Now(), c, 0);
    }
  }

  /** Takes a link from a file that is not a directory. */
  method DropLink(v: Vdisk, c: nat)
    requires IsVolume(v) && c in v.minodes && !IsDir(v.minodes[c])
    modifies v`minodes, v.disk`blocks
    ensures IsVolume(v) && v.minodes.Keys == old(v.minodes).Keys
    ensures c in old(VolumeTree(v)) && VolumeTree(v) == old(VolumeTree(v))[c := Unlinked(old(VolumeTree(v))[c])]
    ensures |v.disk.free| >= old(|v.disk.free|)
    ensures forall j :: j in v.minodes && j != c ==> v.minodes[j] == old(v.minodes)[j]
    ensures IsSaved(v.disk.words, v.disk.datablockStart, v.Now(), c)
  {
    ghost var n, lo, x := v.disk.words, v.disk.datablockStart, v.Now();
    assert IsDinode(v.minodes[c]);
    NodeIs(n, lo, x, c);
    SetNlink(v, c, if v.minodes[c].nlink > 0 then v.minodes[c].nlink - 1 else 0);
    OthersAreGood(n, lo, x, v.Now(), c);
    OneNodeChanged(n, lo, x, v.Now(), c);
  }

  /** Whether a file may be removed: a directory must be empty, and not be removed by
      the name "." or "..". */
  method CheckRemovable(v: Vdisk, name: Name, c: nat) returns (error: Status)
    requires IsVolume(v) && c in v.minodes
    requires IsDir(v.minodes[c]) ==> Live(VolumeTree(v), c) && DOT in VolumeTree(v)[c].entries
    ensures c in VolumeTree(v)
    ensures error == if IsDir(v.minodes[c]) && !IsOwn(name) then EINVAL
                     else if IsDir(v.minodes[c]) && !IsEmptyDir(VolumeTree(v), c) then ENOTEMPTY
                     else Ok
    ensures error == Ok && IsDir(v.minodes[c]) ==> v.minodes[c].filesize < TWO_TO_31
  {
    NodeIs(v.disk.words, v.disk.datablockStart, v.Now(), c);
    if IsDir(v.minodes[c]) {
      if name == DOTDOT {
        return EINVAL;
      }
      if name == DOT {
        return EINVAL;
      }
      EmptyIsTwoEntries(v.disk.words, v.disk.datablockStart, v.Now(), c);
      if v.minodes[c].filesize > 0 {
        if v.minodes[c].filesize != DIRENT_SIZE * 2 {
          return ENOTEMPTY;
        }
      }
    }
    error := Ok;
  }

  /** Empties a directory, or takes a link from another file. */
  method ClearFile(v: Vdisk, c: nat)
    requires IsVolume(v) && c in v.minodes && (IsDir(v.minodes[c]) ==> v.minodes[c].filesize < TWO_TO_31)
    modifies v`forest, v`minodes, v.disk, v.disk.freeblock
    ensures IsVolume(v) && v.minodes.Keys == old(v.minodes).Keys
    ensures c in old(VolumeTree(v)) && VolumeTree(v) == old(VolumeTree(v))[c := Unlinked(old(VolumeTree(v))[c])]
    ensures |v.disk.free| >= old(|v.disk.free|)
    ensures forall j :: j in v.minodes && j != c ==> v.minodes[j] == old(v.minodes)[j]
    ensures IsSaved(v.disk.words, v.disk.datablockStart, v.Now(), c)
  {
    NodeIs(v.disk.words, v.disk.datablockStart, v.Now(), c);
    if IsDir(v.minodes[c]) {
      EmptyDir(v, c);
    } else {
      DropLink(v, c);
    }
  }

  /** Removes the file with a name: an empty directory, or one link to a file. */
  method Deallocate(v: Vdisk, dir: nat, name: Name) returns (error: Status)
    requires IsVolume(v) && IsTree(VolumeTree(v)) && Live(VolumeTree(v), dir)
    modifies v`forest, v`minodes, v.disk, v.disk.freeblock
    ensures IsVolume(v) && v.minodes.Keys == old(v.minodes).Keys
    ensures DeallocateOutcome(old(VolumeTree(v)), VolumeTree(v), dir, name, error)
    ensures error == Ok ==>
              var c := old(VolumeTree(v))[dir].entries[name];
              && v.disk.words > 0 && IsSaved(v.disk.words, v.disk.datablockStart, v.Now(), dir)
              && (IsPlaced(dir) && IsPlaced(c) ==> IsSaved(v.disk.words, v.disk.datablockStart, v.Now(), c))
    ensures dir in v.minodes && Budget(v.disk.words, v.Now(), dir) >= old(Budget(v.disk.words, v.Now(), dir))
  {
    ghost var t := VolumeTree(v);
    assert EntriesAreSound(t, dir);
    LiveIsDir(v, dir);
    var c;
    error, c := Lookup(v, dir, name, t);
    if error != Ok {
      return;
    }
    error := CheckAndUnlink(v, dir, name, c, t);
  }

  /** Removes file `c` if it may be removed. */
  method CheckAndUnlink(v: Vdisk, dir: nat, name: Name, c: nat, ghost t: Tree) returns (error: Status)
    requires IsVolume(v) && VolumeTree(v) == t && IsTree(t) && Live(t, dir) && dir in v.minodes && IsDir(v.minodes[dir])
    requires name in t[dir].entries && t[dir].entries[name] == c
    modifies v`forest, v`minodes, v.disk, v.disk.freeblock
    ensures IsVolume(v) && v.minodes.Keys == old(v.minodes).Keys
    ensures DeallocateOutcome(t, VolumeTree(v), dir, name, error)
    ensures error == Ok ==>
              && v.disk.words > 0 && IsSaved(v.disk.words, v.disk.datablockStart, v.Now(), dir)
              && (IsPlaced(dir) && IsPlaced(c) ==> IsSaved(v.disk.words, v.disk.datablockStart, v.Now(), c))
    ensures Budget(v.disk.words, v.Now(), dir) >= old(Budget(v.disk.words, v.Now(), dir))
  {
    TargetIs(v, dir, name, c);
    error := CheckRemovable(v, name, c);
    if error == Ok {
      UnlinkFile(v, dir, name, c);
    }
  }

  method UnlinkFile(v: Vdisk, dir: nat, name: Name, c: nat)
    requires IsVolume(v) && dir in v.minodes && c in v.minodes && c != dir
    requires (IsDir(v.minodes[c]) ==> v.minodes[c].filesize < TWO_TO_31)
    requires IsDir(v.minodes[dir]) && name in VolumeTree(v)[dir].entries && VolumeTree(v)[dir].entries[name] == c
    modifies v`forest, v`minodes, v.disk, v.disk.freeblock
    ensures IsVolume(v) && v.minodes.Keys == old(v.minodes).Keys
    ensures dir in old(VolumeTree(v)) && c in old(VolumeTree(v))
    ensures VolumeTree(v) == Unlink(old(VolumeTree(v)), dir, name)
    ensures IsSaved(v.disk.words, v.disk.datablockStart, v.Now(), dir)
    ensures IsPlaced(dir) && IsPlaced(c) ==> IsSaved(v.disk.words, v.disk.datablockStart, v.Now(), c)
    ensures Budget(v.disk.words, v.Now(), dir) >= old(Budget(v.disk.words, v.Now(), dir))
  {
    NodeIs(v.disk.words, v.disk.datablockStart, v.Now(), dir);
    ClearFile(v, c);
    NodeIs(v.disk.words, v.disk.datablockStart, v.Now(), dir);
    var error := RemoveFromDir(v, dir, name);
  }

  /** What a name stands for in a tree. */
  lemma TargetFacts(t: Tree, dir: nat, name: Name, c: nat)
    requires IsTree(t) && Live(t, dir) && name in t[dir].entries && t[dir].entries[name] == c
    ensures c in t && (t[c].isDir ==> Live(t, c) && DOT in t[c].entries) && (!t[c].isDir || IsOwn(name) ==> c != dir)
  {
    assert EntriesAreSound(t, dir);
    if t[c].isDir {
      if IsOwn(name) {
        SubDirIsOther(t, dir, name);
      } else {
        assert EntriesAreSound(t, ParentOf(t, dir));
      }
    }
  }

  /** The file a name stands for on a disk. */
  lemma TargetIs(v: Vdisk, dir: nat, name: Name, c: nat)
    requires IsVolume(v) && IsTree(VolumeTree(v)) && Live(VolumeTree(v), dir)
    requires name in VolumeTree(v)[dir].entries && VolumeTree(v)[dir].entries[name] == c
    ensures c in v.minodes && c in VolumeTree(v) && VolumeTree(v)[c].isDir == IsDir(v.minodes[c])
    ensures IsDir(v.minodes[c]) ==> Live(VolumeTree(v), c) && DOT in VolumeTree(v)[c].entries
    ensures !IsDir(v.minodes[c]) || IsOwn(name) ==> c != dir
  {
    TargetFacts(VolumeTree(v), dir, name, c);
    NodeIs(v.disk.words, v.disk.datablockStart, v.Now(), c);
  }

  lemma LiveIsDir(v: Vdisk, dir: nat)
    requires IsVolume(v) && Live(VolumeTree(v), dir)
    ensures dir in v.minodes && IsDir(v.minodes[dir])
  {
    NodeIs(v.disk.words, v.disk.datablockStart, v.Now(), dir);
  }

  /** The directory an own name stands for is another one, with a "." of its own. */
  lemma SubDirIsOther(t: Tree, dir: nat, name: Name)
    requires IsTree(t) && Live(t, dir) && name in SubDirs(t, dir)
    ensures var c := t[dir].entries[name]; Live(t, c) && c != dir && DOT in t[c].entries
  {
    assert EntriesAreSound(t, dir);
    var c := t[dir].entries[name];
    assert EntriesAreSound(t, c);
    var rank :| IsRanked(t, rank);
    assert ParentOf(t, c) == dir && c != ROOT_INODE;
  }

  // ---------- renaming ----------

  /** The number of inodes, as the sanity check computes it. */
  function MaxInode(n: nat, lo: nat): nat
  {
    Wrap(Wrap(lo - ILIST_SECTOR) * (n / INODE_WORDS))
  }

  const ILIST_SECTOR: int := 2

  /** All inodes have numbers that pass the sanity check. */
  ghost predicate HasSaneInodes(t: Tree, max: nat)
  {
    forall i :: i in t ==> IsSaneInode(i, max)
  }

  /** The entries that stand for names in the tree have sane numbers. */
  lemma EntriesAreSane(n: nat, lo: nat, x: Snapshot, d: nat, max: nat)
    requires AreGoodDirs(n, lo, x) && d in x.minodes && IsDir(x.minodes[d])
    requires d in TreeOf(n, lo, x) && HasSaneInodes(TreeOf(n, lo, x), max)
    requires forall m :: m in TreeOf(n, lo, x)[d].entries ==> TreeOf(n, lo, x)[d].entries[m] in TreeOf(n, lo, x)
    ensures IsGoodDir(n, lo, x, d) && forall e :: e in DirEntries(n, lo, x, d) ==> IsSaneInode(e.ino, max)
  {
    NodeIs(n, lo, x, d);
    var es := DirEntries(n, lo, x, d);
    forall e | e in es ensures IsSaneInode(e.ino, max) {
      var k :| 0 <= k < |es| && es[k] == e;
      AsMapAt(es, k);
    }
  }

  /** The inode number of the parent of a directory, 0 if it has no "..". */
  method LookupParent(v: Vdisk, d: nat, ghost t: Tree) returns (parent: nat)
    requires IsVolume(v) && VolumeTree(v) == t && d in t && t[d].isDir
    requires HasSaneInodes(t, MaxInode(v.disk.words, v.disk.datablockStart))
    requires forall m :: m in t[d].entries ==> t[d].entries[m] in t
    ensures IsVolume(v) && VolumeTree(v) == t
    ensures parent == if DOTDOT in t[d].entries then t[d].entries[DOTDOT] else 0
    ensures DOTDOT in t[d].entries ==> parent != 0
  {
    ghost var n, lo := v.disk.words, v.disk.datablockStart;
    var max := MaxInode(v.disk.words, v.disk.datablockStart);
    NodeIs(n, lo, v.Now(), d);
    FoundInTree(n, lo, v.Now(), d, DOTDOT, false);
    EntriesAreSane(n, lo, v.Now(), d, max);
    CheckingSearches(n, lo, v.Now(), d, DOTDOT, max);
    var ret, blk, i;
    ghost var k;
    ret, blk, i, k := FindWith(v, d, DOTDOT, false, CheckingSearcher(v.disk.blocks, DOTDOT, max));
    parent := 0;
    if ret == ITERATOR_BREAK {
      MatchEntry(n, lo, v.Now(), d, DOTDOT, false, k, i);
      parent := EntryIn(v.disk.blocks[blk], i).ino;
    }
  }

  /** Whether a directory may be moved into directory `to`: climbs from `to` to the
      root and looks for the directory on the way.  It does not look at `to` itself. */
  method CanDirmove(v: Vdisk, from: nat, to: nat, ghost t: Tree, ghost rank: map<nat, nat>) returns (error: Status)
    requires IsVolume(v) && VolumeTree(v) == t && to in t && IsSound(t) && IsRanked(t, rank)
    requires HasSaneInodes(t, MaxInode(v.disk.words, v.disk.datablockStart))
    requires forall m :: m in t[to].entries ==> t[to].entries[m] in t
    ensures IsVolume(v) && VolumeTree(v) == t
    ensures if !t[to].isDir then error == ENOTDIR
            else if !Live(t, to) then error == ENOENT
            else Live(t, ParentOf(t, to)) && error == if IsBelow(t, rank, from, ParentOf(t, to)) then EINVAL else Ok
  {
    NodeIs(v.disk.words, v.disk.datablockStart, v.Now(), to);
    if !IsDir(v.minodes[to]) {
      return ENOTDIR;
    }
    var parent := LookupParent(v, to, t);
    if parent == 0 {
      return ENOENT;
    }
    assert EntriesAreSound(t, to);
    while parent != from && parent != ROOT_INODE
      invariant IsVolume(v) && VolumeTree(v) == t && Live(t, parent)
      invariant IsBelow(t, rank, from, ParentOf(t, to)) <==> IsBelow(t, rank, from, parent)
      decreases rank[parent]
    {
      parent := Up(v, t, parent);
    }
    error := if parent == from then EINVAL else Ok;
  }

  /** One step up. */
  method Up(v: Vdisk, ghost t: Tree, d: nat) returns (parent: nat)
    requires IsVolume(v) && VolumeTree(v) == t && IsSound(t) && Live(t, d)
    requires HasSaneInodes(t, MaxInode(v.disk.words, v.disk.datablockStart))
    ensures IsVolume(v) && VolumeTree(v) == t
    ensures parent == ParentOf(t, d) && Live(t, parent)
  {
    assert EntriesAreSound(t, d);
    parent := LookupParent(v, d, t);
  }

  /** The size of a directory is that of its entries. */
  lemma DirSize(v: Vdisk, d: nat)
    requires IsVolume(v) && d in v.minodes && IsDir(v.minodes[d])
    ensures d in VolumeTree(v) && v.minodes[d].filesize == DIRENT_SIZE * |VolumeTree(v)[d].entries|
  {
    NodeIs(v.disk.words, v.disk.datablockStart, v.Now(), d);
    SizeOfEntries(v.disk.words, v.disk.datablockStart, v.Now(), d);
    AsMapSize(DirEntries(v.disk.words, v.disk.datablockStart, v.Now(), d));
  }

  /** The tree between the steps of a rename. */
  lemma MoveSteps(t: Tree, rank: map<nat, nat>, pf: nat, from: Name, pt: nat, to: Name, ino: nat)
    requires CanRelink(t, rank, pf, from, pt, to, ino) && !IsRefused(t, rank, pt, ino)
    ensures var t2 := AddName(t, pt, to, ino);
            && pf in t2 && t2[pf].isDir && ino in t2 && t2[ino].isDir == t[ino].isDir
            && (from in t2[pf].entries ==>
                  && t2[pf].entries[from] == ino
                  && (t[ino].isDir && pf != pt ==>
                        var t3 := RemoveName(t2, pf, from); t3[ino].isDir && DOTDOT in t3[ino].entries))
  {
    if t[ino].isDir && from in t[pf].entries {
      NotRefusedIsNotRoot(t, rank, pt, ino);
      assert EntriesAreSound(t, pf);
      if !IsOwn(from) {
        assert EntriesAreSound(t, ino);
      }
    }
  }

  /** Entry `from` of `pf` is that of inode `ino`, if it is still there; `pt` has no entry `to`. */
  ghost predicate CanRelink(t: Tree, rank: map<nat, nat>, pf: nat, from: Name, pt: nat, to: Name, ino: nat)
  {
    && IsSound(t) && IsRanked(t, rank) && Live(t, pt) && pf in t && t[pf].isDir && ino in t
    && IsOwn(to) && to !in t[pt].entries
    && (from in t[pf].entries ==> Live(t, pf) && t[pf].entries[from] == ino)
  }

  /** Adds the new entry, removes the old one, and gives a directory that changed its
      parent a new "..". */
  method MoveEntry(v: Vdisk, pf: nat, from: Name, pt: nat, to: Name, ino: nat, ghost rank: map<nat, nat>, ghost t: Tree,
                   ghost newsz: nat)
    returns (error: Status)
    requires IsVolume(v) && VolumeTree(v) == t && CanRelink(t, rank, pf, from, pt, to, ino)
    requires !IsRefused(t, rank, pt, ino)
    requires newsz == DIRENT_SIZE * |t[pt].entries| + DIRENT_SIZE && v.IsSize(newsz)
    requires pt >= 1 && ino >= 1 && |to| == NAME_WORDS
    modifies v`forest, v`minodes, v.disk, v.disk.freeblock
    ensures IsVolume(v) && pt in old(v.minodes) && v.minodes.Keys == old(v.minodes).Keys
    ensures MoveOutcome(t, VolumeTree(v), pf, from, pt, to, ino,
                        old(Budget(v.disk.words, v.Now(), pt)) >= Need(v.disk.words, newsz), error)
    ensures error == Ok ==> AreSaved(v.disk.words, v.disk.datablockStart, v.Now(), pf, pt)
  {
    MoveSteps(t, rank, pf, from, pt, to, ino);
    LiveIsDir(v, pt);
    DirSize(v, pt);
    NodeIs(v.disk.words, v.disk.datablockStart, v.Now(), ino);
    var dirMove := IsDir(v.minodes[ino]);
    error := AddToDir(v, pt, to, ino, newsz);
    if error == Ok {
      error := MoveRest(v, pf, from, pt, ino, dirMove, VolumeTree(v));
    }
  }

  /** What the entries are after that. */
  ghost predicate MoveOutcome(t: Tree, u: Tree, pf: nat, from: Name, pt: nat, to: Name, ino: nat, room: bool,
                              error: Status)
    requires pf in t && pt in t
  {
    if !room then error == ENOSPC && u == t
    else
      && error == (if StillThere(t, pf, from, pt, to, ino) then Ok else ENOENT)
      && u == Relinked(t, pf, from, pt, to, ino)
  }

  /** The inode list holds the inodes of two directories. */
  ghost predicate AreSaved(n: nat, lo: nat, x: Snapshot, pf: nat, pt: nat)
  {
    && n > 0 && IsSaved(n, lo, x, pf)
    && (IsPlaced(pf) && IsPlaced(pt) ==> IsSaved(n, lo, x, pt))
  }

  lemma BothSaved(n: nat, lo: nat, x: Snapshot, y: Snapshot, pf: nat, pt: nat)
    requires n > 0 && OthersKept(n, lo, x, y, pf) && IsSaved(n, lo, y, pf) && IsSaved(n, lo, x, pt)
    ensures AreSaved(n, lo, y, pf, pt)
  {
  }

  lemma StillSaved(n: nat, lo: nat, x: Snapshot, y: Snapshot, pf: nat, pt: nat)
    requires ListKept(lo, x, y) && y.minodes == x.minodes && AreSaved(n, lo, x, pf, pt)
    ensures AreSaved(n, lo, y, pf, pt)
  {
    ListKeepsSlots(n, lo, x, y, pf);
    ListKeepsSlots(n, lo, x, y, pt);
  }

  method MoveRest(v: Vdisk, pf: nat, from: Name, pt: nat, ino: nat, dirMove: bool, ghost t: Tree)
    returns (error: Status)
    requires IsVolume(v) && VolumeTree(v) == t && pf in t && t[pf].isDir && ino in t && pt >= 1
    requires from in t[pf].entries ==> t[pf].entries[from] == ino
    requires IsSaved(v.disk.words, v.disk.datablockStart, v.Now(), pt)
    requires from in t[pf].entries && dirMove && pf != pt ==>
               var u := RemoveName(t, pf, from); u[ino].isDir && DOTDOT in u[ino].entries
    modifies v`forest, v`minodes, v.disk, v.disk.freeblock
    ensures IsVolume(v) && v.minodes.Keys == old(v.minodes).Keys
    ensures error == if from in t[pf].entries then Ok else ENOENT
    ensures error == Ok ==> AreSaved(v.disk.words, v.disk.datablockStart, v.Now(), pf, pt)
    ensures VolumeTree(v) == if from !in t[pf].entries then t
                             else if dirMove && pf != pt then ReplaceName(RemoveName(t, pf, from), ino, DOTDOT, pt)
                             else RemoveName(t, pf, from)
  {
    NodeIs(v.disk.words, v.disk.datablockStart, v.Now(), pf);
    ghost var inos, x := v.minodes.Keys, v.Now();
    error := RemoveFromDir(v, pf, from);
    if error == Ok {
      BothSaved(v.disk.words, v.disk.datablockStart, x, v.Now(), pf, pt);
      if dirMove && pf != pt {
        SetParent(v, ino, pt, VolumeTree(v), inos, pf);
      }
    }
  }

  /** Gives a directory another parent. */
  method SetParent(v: Vdisk, d: nat, parent: nat, ghost t: Tree, ghost inos: set<nat>, ghost pf: nat)
    requires IsVolume(v) && VolumeTree(v) == t && d in t && t[d].isDir && DOTDOT in t[d].entries && parent >= 1
    requires v.minodes.Keys == inos && AreSaved(v.disk.words, v.disk.datablockStart, v.Now(), pf, parent)
    modifies v.disk`blocks
    ensures IsVolume(v) && v.minodes.Keys == inos
    ensures AreSaved(v.disk.words, v.disk.datablockStart, v.Now(), pf, parent)
    ensures VolumeTree(v) == ReplaceName(t, d, DOTDOT, parent)
  {
    NodeIs(v.disk.words, v.disk.datablockStart, v.Now(), d);
    ghost var y := v.Now();
    ReplaceInDir(v, d, DOTDOT, parent);
    StillSaved(v.disk.words, v.disk.datablockStart, y, v.Now(), pf, parent);
  }

  /** Renames entry `from` of directory `pf` to entry `to` of directory `pt`. */
  method RenameFile(v: Vdisk, pf: nat, from: Name, pt: nat, to: Name, ghost rank: map<nat, nat>, ghost newsz: nat)
    returns (error: Status)
    requires IsVolume(v) && IsSound(VolumeTree(v)) && IsRanked(VolumeTree(v), rank)
    requires Live(VolumeTree(v), pf) && Live(VolumeTree(v), pt) && |to| == NAME_WORDS
    requires HasSaneInodes(VolumeTree(v), MaxInode(v.disk.words, v.disk.datablockStart))
    requires newsz == DIRENT_SIZE * |VolumeTree(v)[pt].entries| + DIRENT_SIZE && v.IsSize(newsz)
    modifies v`forest, v`minodes, v.disk, v.disk.freeblock
    ensures IsVolume(v) && pt in old(v.minodes) && v.minodes.Keys == old(v.minodes).Keys
    ensures RenameOutcome(old(VolumeTree(v)), rank, VolumeTree(v), pf, from, pt, to,
                          old(HasRoom(v.disk.words, v.Now(), pt, newsz)), error)
    ensures error == Ok ==> AreSaved(v.disk.words, v.disk.datablockStart, v.Now(), pf, pt)
  {
    ghost var t := VolumeTree(v);
    LiveIsDir(v, pf);
    LiveIsDir(v, pt);
    var ino;
    error, ino := Lookup(v, pf, from, t);
    if error != Ok {
      return;
    }
    error := RenameFound(v, pf, from, pt, to, ino, rank, newsz, t, v.Now());
  }

  /** Renames an entry that is there. */
  method RenameFound(v: Vdisk, pf: nat, from: Name, pt: nat, to: Name, ino: nat, ghost rank: map<nat, nat>,
                     ghost newsz: nat, ghost t: Tree, ghost x: Snapshot)
    returns (error: Status)
    requires IsVolume(v) && v.Now() == x && VolumeTree(v) == t && IsSound(t) && IsRanked(t, rank)
    requires Live(t, pf) && Live(t, pt) && |to| == NAME_WORDS && pt in x.minodes && IsDir(x.minodes[pt])
    requires from in t[pf].entries && t[pf].entries[from] == ino
    requires HasSaneInodes(t, MaxInode(v.disk.words, v.disk.datablockStart))
    requires newsz == DIRENT_SIZE * |t[pt].entries| + DIRENT_SIZE && v.IsSize(newsz)
    modifies v`forest, v`minodes, v.disk, v.disk.freeblock
    ensures IsVolume(v) && v.minodes.Keys == old(v.minodes).Keys
    ensures RenameOutcome(t, rank, VolumeTree(v), pf, from, pt, to, HasRoom(v.disk.words, x, pt, newsz), error)
    ensures error == Ok ==> AreSaved(v.disk.words, v.disk.datablockStart, v.Now(), pf, pt)
  {
    DirSize(v, pt);
    error := ClearTarget(v, pt, to);
    if error != Ok {
      return;
    }
    ClearedIsTree(t, rank, pt, to);
    ghost var size := ClearedSize(v, t, pt, to, newsz);
    RoomAfterClearing(v.disk.words, x, v.Now(), pt, newsz, size, to in t[pt].entries);
    error := MoveCleared(v, pf, from, pt, to, ino, rank, t, HasRoom(v.disk.words, x, pt, newsz), size);
  }

  /** A removed entry leaves room for one. */
  lemma RoomAfterClearing(n: nat, x: Snapshot, y: Snapshot, pt: nat, newsz: nat, size: nat, replaced: bool)
    requires n > 0 && pt in x.minodes && pt in y.minodes && newsz == x.minodes[pt].filesize + DIRENT_SIZE
    requires size == if replaced then x.minodes[pt].filesize else newsz
    requires Budget(n, y, pt) >= Budget(n, x, pt) && (!replaced ==> Budget(n, y, pt) == Budget(n, x, pt))
    ensures Budget(n, y, pt) >= Need(n, size) <==> HasRoom(n, x, pt, newsz) || replaced
  {
  }

  /** Renames an entry when the way is clear. */
  method MoveCleared(v: Vdisk, pf: nat, from: Name, pt: nat, to: Name, ino: nat,
                     ghost rank: map<nat, nat>, ghost t: Tree, ghost room: bool, ghost size: nat)
    returns (error: Status)
    requires IsSound(t) && IsRanked(t, rank) && Live(t, pf) && Live(t, pt) && IsRemovable(t, pt, to)
    requires from in t[pf].entries && t[pf].entries[from] == ino && |to| == NAME_WORDS
    requires HasSaneInodes(t, MaxInode(v.disk.words, v.disk.datablockStart))
    requires IsVolume(v) && VolumeTree(v) == Cleared(t, pt, to) && v.IsSize(size)
    requires size == DIRENT_SIZE * |Cleared(t, pt, to)[pt].entries| + DIRENT_SIZE && pt in v.minodes
    requires Budget(v.disk.words, v.Now(), pt) >= Need(v.disk.words, size) <==> room || to in t[pt].entries
    modifies v`forest, v`minodes, v.disk, v.disk.freeblock
    ensures IsVolume(v) && v.minodes.Keys == old(v.minodes).Keys
    ensures RenameOutcome(t, rank, VolumeTree(v), pf, from, pt, to, room, error)
    ensures error == Ok ==> AreSaved(v.disk.words, v.disk.datablockStart, v.Now(), pf, pt)
  {
    RemovableIsOwn(t, pt, to);
    ClearedIsTree(t, rank, pt, to);
    ClearedEntries(t, pf, from, pt, to);
    error := CheckAndMove(v, pf, from, pt, to, ino, rank, VolumeTree(v), size);
  }

  /** Removes the file a name stands for, if there is one. */
  method ClearTarget(v: Vdisk, pt: nat, to: Name) returns (error: Status)
    requires IsVolume(v) && IsTree(VolumeTree(v)) && Live(VolumeTree(v), pt)
    modifies v`forest, v`minodes, v.disk, v.disk.freeblock
    ensures IsVolume(v) && v.minodes.Keys == old(v.minodes).Keys
    ensures var t := old(VolumeTree(v));
            if IsRemovable(t, pt, to) then error == Ok && VolumeTree(v) == Cleared(t, pt, to)
            else error == (if IsOwn(to) then ENOTEMPTY else EINVAL) && VolumeTree(v) == t
    ensures pt in v.minodes && Budget(v.disk.words, v.Now(), pt) >= old(Budget(v.disk.words, v.Now(), pt))
    ensures to !in old(VolumeTree(v))[pt].entries ==>
              Budget(v.disk.words, v.Now(), pt) == old(Budget(v.disk.words, v.Now(), pt))
  {
    ghost var t := VolumeTree(v);
    assert EntriesAreSound(t, pt);
    LiveIsDir(v, pt);
    var toIno;
    error, toIno := Lookup(v, pt, to, t);
    if error == Ok {
      error := Deallocate(v, pt, to);
    } else {
      error := Ok;
    }
  }

  /** The size the target directory may grow to after a file in it was removed. */
  ghost function ClearedSize(v: Vdisk, t: Tree, pt: nat, to: Name, newsz: nat): (size: nat)
    requires IsBlksize(v.Blksize()) && pt in t && newsz == DIRENT_SIZE * |t[pt].entries| + DIRENT_SIZE
    requires v.IsSize(newsz)
    requires to in t[pt].entries ==> t[pt].entries[to] in t && t[pt].entries[to] != pt
    ensures v.IsSize(size) && size == DIRENT_SIZE * |Cleared(t, pt, to)[pt].entries| + DIRENT_SIZE
    ensures size == if to in t[pt].entries then newsz - DIRENT_SIZE else newsz
  {
    if to in t[pt].entries then
      OneLess(t[pt].entries, to);
      v.SmallerIsSize(newsz, DIRENT_SIZE);
      newsz - DIRENT_SIZE
    else newsz
  }

  lemma OneLess(m: map<Name, nat>, name: Name)
    requires name in m
    ensures |m - {name}| + 1 == |m|
  {
    assert (m - {name}).Keys == m.Keys - {name};
    assert |m - {name}| == |(m - {name}).Keys| && |m| == |m.Keys|;
  }

  /** Refuses to move a directory below itself, or moves the entry. */
  method CheckAndMove(v: Vdisk, pf: nat, from: Name, pt: nat, to: Name, ino: nat, ghost rank: map<nat, nat>,
                      ghost t: Tree, ghost newsz: nat)
    returns (error: Status)
    requires IsVolume(v) && VolumeTree(v) == t && CanRelink(t, rank, pf, from, pt, to, ino)
    requires newsz == DIRENT_SIZE * |t[pt].entries| + DIRENT_SIZE && v.IsSize(newsz)
    requires |to| == NAME_WORDS && HasSaneInodes(t, MaxInode(v.disk.words, v.disk.datablockStart))
    modifies v`forest, v`minodes, v.disk, v.disk.freeblock
    ensures IsVolume(v) && pt in old(v.minodes) && v.minodes.Keys == old(v.minodes).Keys
    ensures if IsRefused(t, rank, pt, ino) then error == EINVAL && VolumeTree(v) == t
            else MoveOutcome(t, VolumeTree(v), pf, from, pt, to, ino,
                             old(Budget(v.disk.words, v.Now(), pt)) >= Need(v.disk.words, newsz), error)
    ensures error == Ok ==> AreSaved(v.disk.words, v.disk.datablockStart, v.Now(), pf, pt)
  {
    assert EntriesAreSound(t, pt);
    LiveIsDir(v, pt);
    NodeIs(v.disk.words, v.disk.datablockStart, v.Now(), ino);
    if IsDir(v.minodes[ino]) {
      error := CanDirmove(v, ino, pt, t, rank);
      if error != Ok {
        return;
      }
    }
    error := MoveEntry(v, pf, from, pt, to, ino, rank, t, newsz);
  }
}

/** Directories as maps from names to inode numbers. */
module Directories {
  import opened Blocks
  import opened Addressing
  import opened DatablockAddr
  import opened Forests
  import opened InodeDisk
  import opened SizeChanges
  import opened InodeTree
  import opened Files
  import opened Traversal
  import opened Dirents

  const ITERATOR_BREAK: int := -1
  const DIRENT_SIZE: nat := 64

  // ---------- lists of entries ----------

  /** The first entry with a name, |es| if there is none; entries with inode number 0
      may be skipped. */
  function IndexOf(es: seq<Dirent>, name: seq<nat>, skip: bool): (i: nat)
    ensures i <= |es|
    ensures i < |es| ==> es[i].name == name && !(skip && es[i].ino < 1)
    ensures forall j :: 0 <= j < i ==> es[j].name != name || (skip && es[j].ino < 1)
  {
    if es == [] then 0
    else if es[0].name == name && !(skip && es[0].ino < 1) then 0
    else 1 + IndexOf(es[1..], name, skip)
  }

  lemma IndexOfUnique(es: seq<Dirent>, name: seq<nat>, skip: bool, i: nat)
    requires i <= |es| && (i < |es| ==> es[i].name == name && !(skip && es[i].ino < 1))
    requires forall j :: 0 <= j < i ==> es[j].name != name || (skip && es[j].ino < 1)
    ensures IndexOf(es, name, skip) == i
  {
  }

  /** The entry list after the last entry is moved over entry i. */
  function Removed(es: seq<Dirent>, i: nat): seq<Dirent>
    requires i < |es|
  {
    es[i := es[|es| - 1]][..|es| - 1]
  }

  ghost predicate AreUnique(es: seq<Dirent>)
  {
    forall i, j :: 0 <= i < j < |es| ==> es[i].name != es[j].name
  }

  /** What the list means: each name is bound to an inode number. */
  ghost function AsMap(es: seq<Dirent>): (m: map<seq<nat>, nat>)
    ensures forall i :: 0 <= i < |es| ==> es[i].name in m
    ensures forall name :: name in m ==> exists i :: 0 <= i < |es| && es[i] == Dirent(m[name], name)
  {
    if es == [] then map[]
    else
      var front, e := es[..|es| - 1], es[|es| - 1];
      assert forall i :: 0 <= i < |front| ==> front[i] == es[i];
      AsMap(front)[e.name := e.ino]
  }

  lemma {:induction false} AsMapAt(es: seq<Dirent>, i: nat)
    requires AreUnique(es) && i < |es|
    ensures AsMap(es)[es[i].name] == es[i].ino
  {
    if i + 1 < |es| {
      AsMapAt(es[..|es| - 1], i);
    }
  }

  /** Looking a name up in the list is looking it up in the map. */
  lemma LookupIsMap(es: seq<Dirent>, name: seq<nat>)
    requires AreUnique(es)
    ensures IndexOf(es, name, false) < |es| <==> name in AsMap(es)
    ensures name in AsMap(es) ==> AsMap(es)[name] == es[IndexOf(es, name, false)].ino
  {
    if name in AsMap(es) {
      AsMapAt(es, IndexOf(es, name, false));
    }
  }

  /** Adding an entry with a new name adds a binding. */
  lemma AddIsMap(es: seq<Dirent>, e: Dirent)
    requires AreUnique(es) && e.name !in AsMap(es)
    ensures AreUnique(es + [e]) && AsMap(es + [e]) == AsMap(es)[e.name := e.ino]
  {
    assert (es + [e])[..|es|] == es;
  }

  /** The bindings of the map are the entries of the list. */
  lemma BindingIsEntry(es: seq<Dirent>, e: Dirent)
    requires AreUnique(es)
    ensures e in es <==> e.name in AsMap(es) && AsMap(es)[e.name] == e.ino
  {
    if e in es {
      var i :| 0 <= i < |es| && es[i] == e;
      AsMapAt(es, i);
    }
  }

  /** Two maps with the same bindings are equal. */
  lemma SameBindings(m: map<seq<nat>, nat>, m': map<seq<nat>, nat>)
    requires forall e: Dirent :: (e.name in m && m[e.name] == e.ino) <==> (e.name in m' && m'[e.name] == e.ino)
    ensures m == m'
  {
    forall name ensures name in m <==> name in m' {
      if name in m {
        assert Dirent(m[name], name).name in m';
      }
      if name in m' {
        assert Dirent(m'[name], name).name in m;
      }
    }
    forall name | name in m ensures m[name] == m'[name] {
      assert Dirent(m[name], name).name in m;
    }
  }

  lemma RemovedEntries(es: seq<Dirent>, i: nat, e: Dirent)
    requires AreUnique(es) && i < |es|
    ensures AreUnique(Removed(es, i))
    ensures e in Removed(es, i) <==> e in es && e.name != es[i].name
  {
    var rs, last := Removed(es, i), |es| - 1;
    if e in es && e.name != es[i].name {
      var j :| 0 <= j < |es| && es[j] == e;
      assert rs[if j == last then i else j] == e;
    }
    if e in rs {
      var j :| 0 <= j < |rs| && rs[j] == e;
      assert es[if j == i then last else j] == e;
    }
  }

  /** Moving the last entry over another one removes exactly the binding of that one. */
  lemma RemoveIsMap(es: seq<Dirent>, i: nat)
    requires AreUnique(es) && i < |es|
    ensures AreUnique(Removed(es, i)) && AsMap(Removed(es, i)) == AsMap(es) - {es[i].name}
  {
    var m, m' := AsMap(Removed(es, i)), AsMap(es) - {es[i].name};
    RemovedEntries(es, i, es[i]);
    forall e: Dirent ensures (e.name in m && m[e.name] == e.ino) <==> (e.name in m' && m'[e.name] == e.ino) {
      RemovedEntries(es, i, e);
      BindingIsEntry(es, e);
      BindingIsEntry(Removed(es, i), e);
    }
    SameBindings(m, m');
  }

  lemma ReplacedEntries(es: seq<Dirent>, i: nat, ino: nat, e: Dirent)
    requires AreUnique(es) && i < |es|
    ensures var rs := es[i := Dirent(ino, es[i].name)];
            AreUnique(rs) && (e in rs <==> if e.name == es[i].name then e.ino == ino else e in es)
  {
    var rs := es[i := Dirent(ino, es[i].name)];
    assert forall j :: 0 <= j < |es| ==> rs[j].name == es[j].name;
    assert rs[i] == Dirent(ino, es[i].name);
    if e in es && e.name != es[i].name {
      var j :| 0 <= j < |es| && es[j] == e;
      assert rs[j] == e;
    }
  }

  /** Giving an entry another inode number changes one binding. */
  lemma ReplaceIsMap(es: seq<Dirent>, i: nat, ino: nat)
    requires AreUnique(es) && i < |es|
    ensures var rs := es[i := Dirent(ino, es[i].name)];
            AreUnique(rs) && AsMap(rs) == AsMap(es)[es[i].name := ino]
  {
    var rs := es[i := Dirent(ino, es[i].name)];
    var m, m' := AsMap(rs), AsMap(es)[es[i].name := ino];
    ReplacedEntries(es, i, ino, es[i]);
    forall e: Dirent ensures (e.name in m && m[e.name] == e.ino) <==> (e.name in m' && m'[e.name] == e.ino) {
      ReplacedEntries(es, i, ino, e);
      BindingIsEntry(es, e);
      BindingIsEntry(rs, e);
    }
    SameBindings(m, m');
  }

  // ---------- directory files ----------

  /** File `dir` consists of whole entries, and so does every block. */
  ghost predicate IsDirFile(n: nat, lo: nat, x: Snapshot, dir: nat)
  {
    && IsFileSystem(n, lo, x) && dir in x.minodes
    && n % DIRENT_WORDS == 0 && x.minodes[dir].filesize % DIRENT_SIZE == 0
  }

  function EntryCount(x: Snapshot, dir: nat): nat
    requires dir in x.minodes
  {
    x.minodes[dir].filesize / DIRENT_SIZE
  }

  lemma FileBlocksAre(n: nat, lo: nat, x: Snapshot, dir: nat)
    requires IsDirFile(n, lo, x, dir)
    ensures AreBlocks(FileBlocks(n, lo, x, dir), n / DIRENT_WORDS) && n / DIRENT_WORDS > 0
    ensures |FileBlocks(n, lo, x, dir)| == Nblk(n, x, dir) == BlockCount(n / DIRENT_WORDS, EntryCount(x, dir))
  {
    forall k | 0 <= k < Nblk(n, x, dir) ensures |FileBlocks(n, lo, x, dir)[k]| == n {
      LeafInUse(n, lo, x, dir, k);
    }
    EntryBlocks(n / DIRENT_WORDS, EntryCount(x, dir));
  }

  /** Counting in entries is counting in bytes. */
  lemma EntryBlocks(m: nat, count: nat)
    requires m > 0
    ensures BlockCount(DIRENT_SIZE * m, DIRENT_SIZE * count) == BlockCount(m, count)
  {
    var q := BlockCount(m, count);
    QuotientBounds(count + m - 1, m);
    assert q * (DIRENT_SIZE * m) == DIRENT_SIZE * (q * m);
    QuotientUnique(DIRENT_SIZE * count + DIRENT_SIZE * m - 1, DIRENT_SIZE * m, q,
                   DIRENT_SIZE * count + DIRENT_SIZE * m - 1 - DIRENT_SIZE * (q * m));
  }

  lemma EntryBytes(m: nat, count: nat, k: nat)
    ensures BytesIn(DIRENT_SIZE * m, DIRENT_SIZE * count, k) == DIRENT_SIZE * CountIn(m, count, k)
  {
    TimesIsProduct(k, m);
    TimesIsProduct(k, DIRENT_SIZE * m);
    assert k * (DIRENT_SIZE * m) == DIRENT_SIZE * (k * m);
  }

  /** The entries of a directory. */
  ghost function DirEntries(n: nat, lo: nat, x: Snapshot, dir: nat): seq<Dirent>
    requires IsDirFile(n, lo, x, dir)
  {
    FileBlocksAre(n, lo, x, dir);
    Entries(FileBlocks(n, lo, x, dir), n / DIRENT_WORDS, EntryCount(x, dir))
  }

  // ---------- the inode list ----------

  /** The inode with a number as the inode list holds it; None if it has no place there. */
  function OnDisk(n: nat, lo: nat, x: Snapshot, ino: nat): Option<Dinode>
    requires n > 0
  {
    var block, slot := IlistBlock(4 * n, ino) + x.ilist, IlistSlot(4 * n, ino);
    if block < lo && block < |x.blocks| && slot * INODE_WORDS + INODE_WORDS <= |x.blocks[block]|
    then Some(GetInode(x.blocks[block], slot))
    else None
  }

  /** The numbers whose places are not those of smaller ones: 128 bytes for each in 2^32. */
  predicate IsPlaced(ino: nat)
  {
    1 <= ino <= 0x200_0000
  }

  /** The inode list holds the inode as it is in memory, if it has a place there. */
  ghost predicate IsSaved(n: nat, lo: nat, x: Snapshot, ino: nat)
    requires n > 0
  {
    ino in x.minodes && (OnDisk(n, lo, x, ino).Some? ==> OnDisk(n, lo, x, ino).value == x.minodes[ino])
  }

  /** The inode list holds the other inodes as it did. */
  ghost predicate SlotsKept(n: nat, lo: nat, x: Snapshot, y: Snapshot, dir: nat)
    requires n > 0
  {
    && y.ilist == x.ilist
    && forall j :: IsPlaced(dir) && IsPlaced(j) && j != dir ==> OnDisk(n, lo, y, j) == OnDisk(n, lo, x, j)
  }

  /** The inode list is as it was. */
  ghost predicate ListKept(lo: nat, x: Snapshot, y: Snapshot)
  {
    && y.ilist == x.ilist && |y.blocks| == |x.blocks|
    && forall b :: 0 <= b < lo && b < |x.blocks| ==> y.blocks[b] == x.blocks[b]
  }

  lemma ListKeepsSlots(n: nat, lo: nat, x: Snapshot, y: Snapshot, ino: nat)
    requires n > 0 && ListKept(lo, x, y)
    ensures SlotsKept(n, lo, x, y, ino) && OnDisk(n, lo, y, ino) == OnDisk(n, lo, x, ino)
  {
  }

  /** Writing an inode to its place changes no other place. */
  lemma SlotsAfterSave(n: nat, lo: nat, x: Snapshot, y: Snapshot, ino: nat)
    requires IsBlksize(4 * n) && ino in y.minodes && y.ilist == x.ilist
    requires InodeSaved(4 * n, x.ilist, lo, x.blocks, y.blocks, ino, y.minodes[ino])
    ensures SlotsKept(n, lo, x, y, ino) && IsSaved(n, lo, y, ino)
  {
    forall j | IsPlaced(ino) && IsPlaced(j) && j != ino ensures OnDisk(n, lo, y, j) == OnDisk(n, lo, x, j) {
      OtherSlot(n, lo, x, y, ino, j);
    }
    var block, slot := IlistBlock(4 * n, ino) + x.ilist, IlistSlot(4 * n, ino);
    if block < lo && block < |x.blocks| {
      GetSetInode(x.blocks[block], slot, y.minodes[ino], slot);
    }
  }

  lemma OtherSlot(n: nat, lo: nat, x: Snapshot, y: Snapshot, ino: nat, j: nat)
    requires IsBlksize(4 * n) && ino in y.minodes && y.ilist == x.ilist
    requires InodeSaved(4 * n, x.ilist, lo, x.blocks, y.blocks, ino, y.minodes[ino])
    requires IsPlaced(ino) && IsPlaced(j) && j != ino
    ensures OnDisk(n, lo, y, j) == OnDisk(n, lo, x, j)
  {
    var block, slot := IlistBlock(4 * n, j) + x.ilist, IlistSlot(4 * n, j);
    if block < lo && block < |x.blocks| && block == IlistBlock(4 * n, ino) + x.ilist {
      if slot == IlistSlot(4 * n, ino) {
        LocationIsInjective(4 * n, ino, j);
      }
      if slot * INODE_WORDS + INODE_WORDS <= |x.blocks[block]| {
        GetSetInode(x.blocks[block], IlistSlot(4 * n, ino), y.minodes[ino], slot);
      }
    }
  }

  /** Every file but `dir` has the contents it had, and every inode. */
  ghost predicate OthersKept(n: nat, lo: nat, x: Snapshot, y: Snapshot, dir: nat)
  {
    && IsFileSystem(n, lo, x) && IsFileSystem(n, lo, y) && y.minodes.Keys == x.minodes.Keys
    && SlotsKept(n, lo, x, y, dir)
    && forall j :: j in x.minodes && j != dir ==>
         y.minodes[j] == x.minodes[j] && FileBlocks(n, lo, y, j) == FileBlocks(n, lo, x, j)
  }

  lemma OthersKeptTwice(n: nat, lo: nat, x: Snapshot, y: Snapshot, z: Snapshot, dir: nat)
    requires OthersKept(n, lo, x, y, dir) && OthersKept(n, lo, y, z, dir)
    ensures OthersKept(n, lo, x, z, dir)
  {
  }

  /** Writing leaf number k of a file changes that block of that file. */
  lemma LeafWritten(n: nat, lo: nat, x: Snapshot, y: Snapshot, ino: nat, k: nat, block: Block)
    requires IsFileSystem(n, lo, x) && IsFileSystem(n, lo, y) && ino in x.minodes && k < Nblk(n, x, ino)
    requires y.minodes == x.minodes && y.forest == x.forest && |y.blocks| == |x.blocks| && y.ilist == x.ilist
    requires var b := Leaves(n, x, ino)[k];
             && (b < |y.blocks| ==> y.blocks[b] == block)
             && forall c :: 0 <= c < |x.blocks| && c != b ==> y.blocks[c] == x.blocks[c]
    ensures FileBlocks(n, lo, y, ino) == FileBlocks(n, lo, x, ino)[k := block]
    ensures OthersKept(n, lo, x, y, ino) && ListKept(lo, x, y)
  {
    LeafKeepsList(n, lo, x, y, ino, k);
    forall i, j | i in x.minodes && 0 <= j < Nblk(n, x, i)
      ensures FileBlocks(n, lo, y, i)[j] == if i == ino && j == k then block else FileBlocks(n, lo, x, i)[j]
    {
      OneLeafWritten(n, lo, x, y, ino, k, block, i, j);
    }
  }

  /** Leaves are not in the inode list. */
  lemma LeafKeepsList(n: nat, lo: nat, x: Snapshot, y: Snapshot, ino: nat, k: nat)
    requires IsFileSystem(n, lo, x) && ino in x.minodes && k < Nblk(n, x, ino)
    requires |y.blocks| == |x.blocks| && y.ilist == x.ilist
    requires forall c :: 0 <= c < |x.blocks| && c != Leaves(n, x, ino)[k] ==> y.blocks[c] == x.blocks[c]
    ensures ListKept(lo, x, y) && SlotsKept(n, lo, x, y, ino)
  {
    LeafInUse(n, lo, x, ino, k);
    ListKeepsSlots(n, lo, x, y, ino);
  }

  lemma OneLeafWritten(n: nat, lo: nat, x: Snapshot, y: Snapshot, ino: nat, k: nat, block: Block, i: nat, j: nat)
    requires IsFileSystem(n, lo, x) && IsFileSystem(n, lo, y) && ino in x.minodes && k < Nblk(n, x, ino)
    requires y.minodes == x.minodes && y.forest == x.forest && |y.blocks| == |x.blocks|
    requires var b := Leaves(n, x, ino)[k];
             && (b < |y.blocks| ==> y.blocks[b] == block)
             && forall c :: 0 <= c < |x.blocks| && c != b ==> y.blocks[c] == x.blocks[c]
    requires i in x.minodes && j < Nblk(n, x, i)
    ensures FileBlocks(n, lo, y, i)[j] == if i == ino && j == k then block else FileBlocks(n, lo, x, i)[j]
  {
    LeafInUse(n, lo, x, ino, k);
    LeafInUse(n, lo, x, i, j);
    LeafInUse(n, lo, y, i, j);
    if i == ino && j != k {
      DifferentLeaves(n, ino, j, k);
    }
  }

  lemma DifferentLeaves(n: nat, ino: nat, j: nat, k: nat)
    requires n > 0 && j != k
    ensures Leaf(n, ino, j) != Leaf(n, ino, k)
  {
    NumberOfAddr(n, j);
    NumberOfAddr(n, k);
  }

  /** Changes below the data blocks, and to what is not the size or block numbers
      of an inode, change no file. */
  lemma FilesKept(n: nat, lo: nat, x: Snapshot, y: Snapshot)
    requires IsFileSystem(n, lo, x) && IsFileSystem(n, lo, y)
    requires y.forest == x.forest && |y.blocks| == |x.blocks|
    requires forall i :: i in x.minodes && i in y.minodes ==> y.minodes[i].filesize == x.minodes[i].filesize
    requires forall b :: lo <= b < |x.blocks| ==> y.blocks[b] == x.blocks[b]
    ensures forall i :: i in x.minodes && i in y.minodes ==> FileBlocks(n, lo, y, i) == FileBlocks(n, lo, x, i)
  {
    forall i, j | i in x.minodes && i in y.minodes && 0 <= j < Nblk(n, x, i)
      ensures FileBlocks(n, lo, y, i)[j] == FileBlocks(n, lo, x, i)[j]
    {
      LeafInUse(n, lo, x, i, j);
      LeafInUse(n, lo, y, i, j);
    }
  }

  // ---------- finding an entry ----------

  /** Whether the callback stops at a block: it holds an entry with the name. */
  function Stops(blocks: seq<Block>, visit: Visit, name: seq<nat>, skip: bool): bool
  {
    var count := visit.size / DIRENT_SIZE;
    visit.blk < |blocks| && count * DIRENT_WORDS <= |blocks[visit.blk]|
    && IndexOf(BlockEntries(blocks[visit.blk], count), name, skip) < count
  }

  /** What the callback returns for the blocks visited so far. */
  function Searcher(blocks: seq<Block>, name: seq<nat>, skip: bool): seq<Visit> -> int
  {
    (visits: seq<Visit>) =>
      if visits != [] && Stops(blocks, visits[|visits| - 1], name, skip) then ITERATOR_BREAK else 0
  }

  /** The k-th visit shows the entries of the k-th block. */
  lemma VisitShows(n: nat, lo: nat, x: Snapshot, dir: nat, k: nat)
    requires IsDirFile(n, lo, x, dir) && k < Nblk(n, x, dir)
    ensures var visit, c := AllVisits(n, x, dir)[k], CountIn(n / DIRENT_WORDS, EntryCount(x, dir), k);
            && visit.blk == Leaves(n, x, dir)[k] < |x.blocks| && x.blocks[visit.blk] == FileBlocks(n, lo, x, dir)[k]
            && visit.size / DIRENT_SIZE == c && c * DIRENT_WORDS <= |x.blocks[visit.blk]|
  {
    var m, count := n / DIRENT_WORDS, EntryCount(x, dir);
    LeafInUse(n, lo, x, dir, k);
    EntryBytes(m, count, k);
    assert 4 * n == DIRENT_SIZE * m && x.minodes[dir].filesize == DIRENT_SIZE * count;
    var visit := AllVisits(n, x, dir)[k];
    assert visit.size == DIRENT_SIZE * CountIn(m, count, k);
    assert CountIn(m, count, k) * DIRENT_WORDS <= m * DIRENT_WORDS == n;
  }

  lemma {:induction false} IndexOfAppend(a: seq<Dirent>, b: seq<Dirent>, name: seq<nat>, skip: bool)
    requires IndexOf(a, name, skip) == |a|
    ensures IndexOf(a + b, name, skip) == |a| + IndexOf(b, name, skip)
  {
    IndexOfUnique(a + b, name, skip, |a| + IndexOf(b, name, skip));
  }

  lemma IndexOfPrefix(a: seq<Dirent>, b: seq<Dirent>, name: seq<nat>, skip: bool)
    requires IndexOf(a, name, skip) < |a|
    ensures IndexOf(a + b, name, skip) == IndexOf(a, name, skip)
  {
    IndexOfUnique(a + b, name, skip, IndexOf(a, name, skip));
  }

  /** Blocks at which the callback goes on have no entry with the name. */
  lemma {:induction false} NotInBlocks(blocks: seq<Block>, m: nat, count: nat, name: seq<nat>, skip: bool, k: nat)
    requires AreBlocks(blocks, m) && k <= |blocks|
    requires forall j :: 0 <= j < k ==>
               IndexOf(BlockEntries(blocks[j], CountIn(m, count, j)), name, skip) == CountIn(m, count, j)
    ensures IndexOf(EntriesUpTo(blocks, m, count, k), name, skip) == |EntriesUpTo(blocks, m, count, k)|
  {
    if k > 0 {
      NotInBlocks(blocks, m, count, name, skip, k - 1);
      IndexOfAppend(EntriesUpTo(blocks, m, count, k - 1), BlockEntries(blocks[k - 1], CountIn(m, count, k - 1)), name,
                    skip);
    }
  }

  lemma FoundInLast(blocks: seq<Block>, m: nat, count: nat, name: seq<nat>, skip: bool, k: nat, n: nat, i: nat)
    requires AreBlocks(blocks, m) && n == k + 1 <= |blocks|
    requires forall j :: 0 <= j < k ==>
               IndexOf(BlockEntries(blocks[j], CountIn(m, count, j)), name, skip) == CountIn(m, count, j)
    requires i == IndexOf(BlockEntries(blocks[k], CountIn(m, count, k)), name, skip) < CountIn(m, count, k)
    ensures IndexOf(EntriesUpTo(blocks, m, count, n), name, skip)
            == |EntriesUpTo(blocks, m, count, k)| + i < |EntriesUpTo(blocks, m, count, n)|
  {
    var front, back := EntriesUpTo(blocks, m, count, k), BlockEntries(blocks[k], CountIn(m, count, k));
    assert EntriesUpTo(blocks, m, count, n) == front + back;
    NotInBlocks(blocks, m, count, name, skip, k);
    IndexOfAppend(front, back, name, skip);
  }

  /** The first block with an entry of the name holds the first entry of the name. */
  lemma {:induction false} FoundInBlock(blocks: seq<Block>, m: nat, count: nat, name: seq<nat>, skip: bool, k: nat,
                                        n: nat, i: nat)
    requires AreBlocks(blocks, m) && k < n <= |blocks|
    requires forall j :: 0 <= j < k ==>
               IndexOf(BlockEntries(blocks[j], CountIn(m, count, j)), name, skip) == CountIn(m, count, j)
    requires i == IndexOf(BlockEntries(blocks[k], CountIn(m, count, k)), name, skip) < CountIn(m, count, k)
    ensures IndexOf(EntriesUpTo(blocks, m, count, n), name, skip)
            == |EntriesUpTo(blocks, m, count, k)| + i < |EntriesUpTo(blocks, m, count, n)|
    decreases n
  {
    if k + 1 == n {
      FoundInLast(blocks, m, count, name, skip, k, n, i);
    } else {
      var before := n - 1;
      var front, back := EntriesUpTo(blocks, m, count, before), BlockEntries(blocks[before], CountIn(m, count, before));
      assert EntriesUpTo(blocks, m, count, n) == front + back;
      FoundInBlock(blocks, m, count, name, skip, k, before, i);
      IndexOfPrefix(front, back, name, skip);
    }
  }

  /** Entry i of block number k is the first with the name. */
  ghost predicate IsFirstMatch(n: nat, lo: nat, x: Snapshot, dir: nat, name: seq<nat>, skip: bool, k: nat, i: nat)
    requires IsDirFile(n, lo, x, dir)
  {
    && k < Nblk(n, x, dir) && i < CountIn(n / DIRENT_WORDS, EntryCount(x, dir), k)
    && (FileBlocksAre(n, lo, x, dir);
        IndexOf(DirEntries(n, lo, x, dir), name, skip)
        == |EntriesUpTo(FileBlocks(n, lo, x, dir), n / DIRENT_WORDS, EntryCount(x, dir), k)| + i
        < |DirEntries(n, lo, x, dir)|)
  }

  lemma PassedBlock(n: nat, lo: nat, x: Snapshot, dir: nat, name: seq<nat>, skip: bool, j: nat)
    requires IsDirFile(n, lo, x, dir) && j < Nblk(n, x, dir)
    requires GoesOn(AllVisits(n, x, dir), Searcher(x.blocks, name, skip), j)
    ensures var c := CountIn(n / DIRENT_WORDS, EntryCount(x, dir), j);
            && c * DIRENT_WORDS <= |FileBlocks(n, lo, x, dir)[j]|
            && IndexOf(BlockEntries(FileBlocks(n, lo, x, dir)[j], c), name, skip) == c
  {
    VisitShows(n, lo, x, dir, j);
    SearcherGoesOn(x.blocks, name, skip, AllVisits(n, x, dir), j);
  }

  lemma SearcherGoesOn(blocks: seq<Block>, name: seq<nat>, skip: bool, all: seq<Visit>, j: nat)
    requires j < |all| && GoesOn(all, Searcher(blocks, name, skip), j)
    ensures !Stops(blocks, all[j], name, skip)
  {
    var visits := all[..j + 1];
    assert visits != [] && visits[|visits| - 1] == all[j];
  }

  /** What the traversal with that callback tells about the directory. */
  lemma SearchResult(n: nat, lo: nat, x: Snapshot, dir: nat, name: seq<nat>, skip: bool, visits: seq<Visit>, ret: int)
    requires IsDirFile(n, lo, x, dir)
    requires Finished(AllVisits(n, x, dir), Searcher(x.blocks, name, skip), visits, ret)
    ensures ret == ITERATOR_BREAK || ret == ITERATOR_END
    ensures ret == ITERATOR_END ==> IndexOf(DirEntries(n, lo, x, dir), name, skip) == |DirEntries(n, lo, x, dir)|
    ensures ret == ITERATOR_BREAK ==>
              && 0 < |visits| <= Nblk(n, x, dir) && visits[|visits| - 1] == AllVisits(n, x, dir)[|visits| - 1]
              && Stops(x.blocks, visits[|visits| - 1], name, skip)
              && var visit := visits[|visits| - 1];
                 IsFirstMatch(n, lo, x, dir, name, skip, |visits| - 1,
                              IndexOf(BlockEntries(x.blocks[visit.blk], visit.size / DIRENT_SIZE), name, skip))
  {
    var all, func := AllVisits(n, x, dir), Searcher(x.blocks, name, skip);
    var blocks, m, count := FileBlocks(n, lo, x, dir), n / DIRENT_WORDS, EntryCount(x, dir);
    FileBlocksAre(n, lo, x, dir);
    var passed := if ret == ITERATOR_END then |all| else |visits| - 1;
    forall j | 0 <= j < passed
      ensures IndexOf(BlockEntries(blocks[j], CountIn(m, count, j)), name, skip) == CountIn(m, count, j)
    {
      assert GoesOn(all, func, j);
      PassedBlock(n, lo, x, dir, name, skip, j);
    }
    if ret == ITERATOR_END {
      NotInBlocks(blocks, m, count, name, skip, |blocks|);
    } else {
      VisitShows(n, lo, x, dir, passed);
      assert visits[passed] == all[passed];
      FoundInBlock(blocks, m, count, name, skip, passed, |blocks|,
                   IndexOf(BlockEntries(blocks[passed], CountIn(m, count, passed)), name, skip));
    }
  }

  // ---------- operations ----------

  predicate IsDir(d: Dinode)
  {
    d.mode / 0x1000 % 16 == 4
  }

  /** The entry of a block with the name, `count` if there is none. */
  method SearchBlock(block: Block, count: nat, name: seq<nat>, skip: bool) returns (i: nat)
    requires count * DIRENT_WORDS <= |block|
    ensures i == IndexOf(BlockEntries(block, count), name, skip)
  {
    i := 0;
    ghost var es := BlockEntries(block, count);
    while i < count
      invariant i <= count
      invariant forall j :: 0 <= j < i ==> es[j].name != name || (skip && es[j].ino < 1)
    {
      var e := EntryIn(block, i);
      if !(skip && e.ino < 1) && e.name == name {
        break;
      }
      i := i + 1;
    }
    IndexOfUnique(es, name, skip, i);
  }

  /** Runs through the blocks of a directory until the callback finds the name. */
  method Find(v: Vdisk, dir: nat, name: seq<nat>, skip: bool) returns (ret: int, blk: nat, i: nat, ghost k: nat)
    requires v.Valid() && IsDirFile(v.disk.words, v.disk.datablockStart, v.Now(), dir)
    ensures ret == ITERATOR_BREAK || ret == ITERATOR_END
    ensures ret == ITERATOR_END ==>
              var es := DirEntries(v.disk.words, v.disk.datablockStart, v.Now(), dir); IndexOf(es, name, skip) == |es|
    ensures ret == ITERATOR_BREAK ==>
              && IsFirstMatch(v.disk.words, v.disk.datablockStart, v.Now(), dir, name, skip, k, i)
              && blk == Leaves(v.disk.words, v.Now(), dir)[k]
  {
    ret, blk, i, k := FindWith(v, dir, name, skip, Searcher(v.disk.blocks, name, skip));
  }

  /** The callback does on the blocks of the directory what the one that searches does. */
  ghost predicate Searches(func: seq<Visit> -> int, all: seq<Visit>, blocks: seq<Block>, name: seq<nat>, skip: bool)
  {
    forall i :: 0 <= i <= |all| ==> func(all[..i]) == Searcher(blocks, name, skip)(all[..i])
  }

  lemma FinishedSame(func: seq<Visit> -> int, all: seq<Visit>, blocks: seq<Block>, name: seq<nat>, skip: bool,
                     visits: seq<Visit>, ret: int)
    requires Finished(all, func, visits, ret) && Searches(func, all, blocks, name, skip)
    ensures Finished(all, Searcher(blocks, name, skip), visits, ret)
  {
    var search := Searcher(blocks, name, skip);
    forall i | 0 <= i < |all| ensures GoesOn(all, func, i) <==> GoesOn(all, search, i) {
      assert func(all[..i + 1]) == search(all[..i + 1]);
    }
    if visits != [] {
      assert visits == all[..|visits|] ==> func(visits) == search(visits);
    }
  }

  /** The same with a callback that may do more. */
  method FindWith(v: Vdisk, dir: nat, name: seq<nat>, skip: bool, func: seq<Visit> -> int)
    returns (ret: int, blk: nat, i: nat, ghost k: nat)
    requires v.Valid() && IsDirFile(v.disk.words, v.disk.datablockStart, v.Now(), dir)
    requires Searches(func, AllVisits(v.disk.words, v.Now(), dir), v.disk.blocks, name, skip)
    ensures ret == ITERATOR_BREAK || ret == ITERATOR_END
    ensures ret == ITERATOR_END ==>
              var es := DirEntries(v.disk.words, v.disk.datablockStart, v.Now(), dir); IndexOf(es, name, skip) == |es|
    ensures ret == ITERATOR_BREAK ==>
              && IsFirstMatch(v.disk.words, v.disk.datablockStart, v.Now(), dir, name, skip, k, i)
              && blk == Leaves(v.disk.words, v.Now(), dir)[k]
  {
    ghost var x := v.Now();
    blk, i, k := 0, 0, 0;
    var visits;
    ret, visits := Foreach(v, dir, func);
    FinishedSame(func, AllVisits(v.disk.words, x, dir), x.blocks, name, skip, visits, ret);
    SearchResult(v.disk.words, v.disk.datablockStart, x, dir, name, skip, visits, ret);
    if ret == ITERATOR_BREAK {
      var visit := visits[|visits| - 1];
      blk, k := visit.blk, |visits| - 1;
      VisitShows(v.disk.words, v.disk.datablockStart, x, dir, k);
      i := SearchBlock(v.disk.blocks[blk], visit.size / DIRENT_SIZE, name, skip);
    }
  }

  // ---------- finding an entry in checked blocks ----------

  const ITERATOR_ERROR: int := -3

  /** The numbers that pass the sanity check, where there are `max` inodes. */
  predicate IsSaneInode(ino: nat, max: nat)
  {
    ROOT_INODE <= ino < max
  }

  /** Whether a visited block has an entry whose inode number does not pass the check. */
  predicate HasBadNumber(blocks: seq<Block>, visit: Visit, max: nat)
  {
    var count := visit.size / DIRENT_SIZE;
    visit.blk < |blocks| && count * DIRENT_WORDS <= |blocks[visit.blk]|
    && exists e :: e in BlockEntries(blocks[visit.blk], count) && !IsSaneInode(e.ino, max)
  }

  /** The callback that checks all numbers of a block before it searches it. */
  function CheckingSearcher(blocks: seq<Block>, name: seq<nat>, max: nat): seq<Visit> -> int
  {
    (visits: seq<Visit>) =>
      if visits != [] && HasBadNumber(blocks, visits[|visits| - 1], max) then ITERATOR_ERROR
      else Searcher(blocks, name, false)(visits)
  }

  /** The entries of a block are entries of the directory. */
  lemma BlockIsPart(n: nat, lo: nat, x: Snapshot, dir: nat, k: nat, e: Dirent)
    requires IsDirFile(n, lo, x, dir) && k < Nblk(n, x, dir)
    requires |FileBlocks(n, lo, x, dir)[k]| == n
    requires var c := CountIn(n / DIRENT_WORDS, EntryCount(x, dir), k);
             c * DIRENT_WORDS <= n && e in BlockEntries(FileBlocks(n, lo, x, dir)[k], c)
    ensures e in DirEntries(n, lo, x, dir)
  {
    var blocks, m, count := FileBlocks(n, lo, x, dir), n / DIRENT_WORDS, EntryCount(x, dir);
    FileBlocksAre(n, lo, x, dir);
    var i :| 0 <= i < CountIn(m, count, k) && BlockEntries(blocks[k], CountIn(m, count, k))[i] == e;
    EntryAt(blocks, m, count, k, i, |EntriesUpTo(blocks, m, count, k)| + i, |blocks|);
  }

  /** Where all numbers pass the check, it makes no difference. */
  lemma CheckingSearches(n: nat, lo: nat, x: Snapshot, dir: nat, name: seq<nat>, max: nat)
    requires IsDirFile(n, lo, x, dir) && forall e :: e in DirEntries(n, lo, x, dir) ==> IsSaneInode(e.ino, max)
    ensures Searches(CheckingSearcher(x.blocks, name, max), AllVisits(n, x, dir), x.blocks, name, false)
  {
    var func, all := CheckingSearcher(x.blocks, name, max), AllVisits(n, x, dir);
    forall i | 0 < i <= |all| ensures func(all[..i]) == Searcher(x.blocks, name, false)(all[..i]) {
      var k := i - 1;
      NoBadNumber(n, lo, x, dir, k, max);
      CheckingSame(x.blocks, name, max, all[..i], k);
    }
  }

  lemma CheckingSame(blocks: seq<Block>, name: seq<nat>, max: nat, visits: seq<Visit>, k: nat)
    requires |visits| == k + 1 && !HasBadNumber(blocks, visits[k], max)
    ensures CheckingSearcher(blocks, name, max)(visits) == Searcher(blocks, name, false)(visits)
  {
  }

  lemma NoBadNumber(n: nat, lo: nat, x: Snapshot, dir: nat, k: nat, max: nat)
    requires IsDirFile(n, lo, x, dir) && k < Nblk(n, x, dir)
    requires forall e :: e in DirEntries(n, lo, x, dir) ==> IsSaneInode(e.ino, max)
    ensures !HasBadNumber(x.blocks, AllVisits(n, x, dir)[k], max)
  {
    FileBlocksAre(n, lo, x, dir);
    VisitShows(n, lo, x, dir, k);
    var block, c := FileBlocks(n, lo, x, dir)[k], CountIn(n / DIRENT_WORDS, EntryCount(x, dir), k);
    forall e | e in BlockEntries(block, c) ensures IsSaneInode(e.ino, max) {
      BlockIsPart(n, lo, x, dir, k, e);
    }
  }

  lemma EntryFits(block: Block, m: nat, count: nat, k: nat, i: nat)
    requires |block| == m * DIRENT_WORDS && i < CountIn(m, count, k)
    ensures i * DIRENT_WORDS + DIRENT_WORDS <= |block|
  {
  }

  lemma MatchEntry(n: nat, lo: nat, x: Snapshot, dir: nat, name: seq<nat>, skip: bool, k: nat, i: nat)
    requires IsDirFile(n, lo, x, dir) && IsFirstMatch(n, lo, x, dir, name, skip, k, i)
    ensures var b, es := Leaves(n, x, dir)[k], DirEntries(n, lo, x, dir);
            && b < |x.blocks| && i * DIRENT_WORDS + DIRENT_WORDS <= |x.blocks[b]|
            && es[IndexOf(es, name, skip)] == EntryIn(x.blocks[b], i)
  {
    var blocks, m, count := FileBlocks(n, lo, x, dir), n / DIRENT_WORDS, EntryCount(x, dir);
    var es := DirEntries(n, lo, x, dir);
    FileBlocksAre(n, lo, x, dir);
    LeafInUse(n, lo, x, dir, k);
    EntryAt(blocks, m, count, k, i, IndexOf(es, name, skip), |blocks|);
    EntryFits(blocks[k], m, count, k, i);
  }

  /** The inode number bound to a name in a directory. */
  method LookupByName(v: Vdisk, dir: nat, name: seq<nat>) returns (error: Status, ino: nat)
    requires v.Valid() && IsDirFile(v.disk.words, v.disk.datablockStart, v.Now(), dir)
    ensures var es := DirEntries(v.disk.words, v.disk.datablockStart, v.Now(), dir);
            var at := IndexOf(es, name, true);
            if !IsDir(v.minodes[dir]) then error == ENOTDIR
            else if at == |es| then error == ENOENT
            else error == Ok && ino == es[at].ino
  {
    ino := 0;
    if !IsDir(v.minodes[dir]) {
      return ENOTDIR, 0;
    }
    ghost var x := v.Now();
    var ret, blk, i;
    ghost var k;
    ret, blk, i, k := Find(v, dir, name, true);
    if ret != ITERATOR_BREAK {
      return ENOENT, 0;
    }
    MatchEntry(v.disk.words, v.disk.datablockStart, x, dir, name, true, k, i);
    return Ok, EntryIn(v.disk.blocks[blk], i).ino;
  }

  /** No number of another block is stored in a leaf. */
  lemma LeafHasNoLinks(n: nat, lo: nat, x: Snapshot, ino: nat, k: nat, block: Block)
    requires IsFileSystem(n, lo, x) && ino in x.minodes && k < Nblk(n, x, ino) && |block| == n
    ensures var b := Leaves(n, x, ino)[k];
            && lo <= b < |x.blocks| && b !in x.free
            && SameLinks(x.blocks, x.blocks[b := block], n, x.forest)
  {
    LeafInUse(n, lo, x, ino, k);
    var b := Leaves(n, x, ino)[k];
    forall s | s in x.forest.at && s.height < s.addr.level && Parent(s) in x.forest.at
      ensures x.forest.at[Parent(s)] != b
    {
      ParentIsSlot(n, s);
    }
  }

  /** Writes a block of a file. */
  method WriteLeaf(v: Vdisk, blk: nat, block: Block, ghost ino: nat, ghost k: nat)
    requires v.Valid() && ino in v.minodes && |block| == v.disk.words
    requires k < Nblk(v.disk.words, v.Now(), ino) && blk == Leaves(v.disk.words, v.Now(), ino)[k]
    modifies v.disk`blocks
    ensures v.Valid() && blk < |v.disk.blocks| && v.disk.blocks == old(v.disk.blocks)[blk := block]
    ensures OthersKept(v.disk.words, v.disk.datablockStart, old(v.Now()), v.Now(), ino)
    ensures ListKept(v.disk.datablockStart, old(v.Now()), v.Now())
    ensures FileBlocks(v.disk.words, v.disk.datablockStart, v.Now(), ino)
            == FileBlocks(v.disk.words, v.disk.datablockStart, old(v.Now()), ino)[k := block]
  {
    ghost var x := v.Now();
    ValidIsFileSystem(v);
    LeafHasNoLinks(v.disk.words, v.disk.datablockStart, x, ino, k, block);
    v.disk.Write(blk, block);
    LinkedFrame(v.disk.words, v.disk.datablockStart, x.blocks, v.disk.blocks, v.minodes, v.forest, x.free, v.disk.free);
    ValidIsFileSystem(v);
    LeafWritten(v.disk.words, v.disk.datablockStart, x, v.Now(), ino, k, block);
  }

  /** Stores entry i of block k of a directory. */
  method WriteEntry(v: Vdisk, dir: nat, blk: nat, i: nat, e: Dirent, ghost k: nat)
    requires v.Valid() && IsDirFile(v.disk.words, v.disk.datablockStart, v.Now(), dir) && |e.name| == NAME_WORDS
    requires k < Nblk(v.disk.words, v.Now(), dir) && blk == Leaves(v.disk.words, v.Now(), dir)[k]
    requires i < CountIn(v.disk.words / DIRENT_WORDS, EntryCount(v.Now(), dir), k)
    modifies v.disk`blocks
    ensures v.Valid() && OthersKept(v.disk.words, v.disk.datablockStart, old(v.Now()), v.Now(), dir)
    ensures ListKept(v.disk.datablockStart, old(v.Now()), v.Now())
    ensures i * DIRENT_WORDS + DIRENT_WORDS <= |FileBlocks(v.disk.words, v.disk.datablockStart, old(v.Now()), dir)[k]|
    ensures FileBlocks(v.disk.words, v.disk.datablockStart, v.Now(), dir)
            == var bs := FileBlocks(v.disk.words, v.disk.datablockStart, old(v.Now()), dir);
               bs[k := SetEntry(bs[k], i, e)]
  {
    ghost var x := v.Now();
    FileBlocksAre(v.disk.words, v.disk.datablockStart, x, dir);
    LeafInUse(v.disk.words, v.disk.datablockStart, x, dir, k);
    WriteLeaf(v, blk, SetEntry(v.disk.blocks[blk], i, e), dir, k);
  }

  /** Sets the link count of an inode and writes the inode. */
  method SetNlink(v: Vdisk, ino: nat, nlink: nat)
    requires v.Valid() && ino in v.minodes && nlink < 0x1_0000
    modifies v`minodes, v.disk`blocks
    ensures v.Valid() && OthersKept(v.disk.words, v.disk.datablockStart, old(v.Now()), v.Now(), ino)
    ensures v.minodes[ino] == old(v.minodes)[ino].(nlink := nlink)
    ensures IsSaved(v.disk.words, v.disk.datablockStart, v.Now(), ino)
    ensures FileBlocks(v.disk.words, v.disk.datablockStart, v.Now(), ino)
            == FileBlocks(v.disk.words, v.disk.datablockStart, old(v.Now()), ino)
  {
    ghost var x := v.Now();
    ValidIsFileSystem(v);
    var d := v.minodes[ino].(nlink := nlink);
    NlinkOnly(v, ino, d, v.minodes[ino := d]);
    v.minodes := v.minodes[ino := d];
    StoreInode(v, ino, x);
    ValidIsFileSystem(v);
    FilesKept(v.disk.words, v.disk.datablockStart, x, v.Now());
  }

  /** Writes an inode to its place in the inode list. */
  method StoreInode(v: Vdisk, ino: nat, ghost x: Snapshot)
    requires v.Valid() && ino in v.minodes && x.blocks == v.disk.blocks && x.ilist == v.disk.ilistSector
    modifies v.disk`blocks
    ensures v.Valid() && IsSaved(v.disk.words, v.disk.datablockStart, v.Now(), ino)
    ensures SlotsKept(v.disk.words, v.disk.datablockStart, x, v.Now(), ino)
    ensures |v.disk.blocks| == |x.blocks|
    ensures forall b :: v.disk.datablockStart <= b < |x.blocks| ==> v.disk.blocks[b] == x.blocks[b]
  {
    assert IsDinode(v.minodes[ino]);
    var error := v.InodeWriteback(ino);
    SlotsAfterSave(v.disk.words, v.disk.datablockStart, x, v.Now(), ino);
  }

  lemma NlinkOnly(v: Vdisk, dir: nat, d: Dinode, minodes: map<nat, Dinode>)
    requires v.Valid() && dir in v.minodes && minodes == v.minodes[dir := d]
    requires d == v.minodes[dir].(nlink := d.nlink) && d.nlink < 0x1_0000
    ensures Linked(v.disk.words, v.disk.datablockStart, v.disk.blocks, minodes, v.forest, v.disk.free)
    ensures Counts(v.Blksize(), minodes) == Counts(v.Blksize(), v.minodes)
    ensures forall i :: i in minodes ==> IsDinode(minodes[i]) && v.IsSize(minodes[i].filesize)
  {
    LinkedMinodes(v.disk.words, v.disk.datablockStart, v.disk.blocks, v.minodes, minodes, v.forest, v.disk.free);
  }

  /** The bytes in the last block of a file that is not empty. */
  function Residue(blksize: nat, size: nat): nat
    requires blksize > 0 && size > 0
  {
    QuotientBounds(size - 1, blksize);
    size - Quotient(size - 1, blksize) * blksize
  }

  lemma ResidueIsLast(blksize: nat, size: nat)
    requires blksize > 0 && size > 0
    ensures BlockCount(blksize, size) > 0
    ensures Residue(blksize, size) == BytesIn(blksize, size, BlockCount(blksize, size) - 1) > 0
  {
    var q := Quotient(size - 1, blksize);
    assert BlockCount(blksize, size) == q + 1;
    QuotientBounds(size - 1, blksize);
    TimesIsProduct(q, blksize);
  }

  /** The place of the last entry of a directory. */
  lemma LastEntryAt(n: nat, lo: nat, x: Snapshot, dir: nat) returns (k: nat)
    requires IsDirFile(n, lo, x, dir) && x.minodes[dir].filesize > 0
    ensures k + 1 == Nblk(n, x, dir)
    ensures Residue(4 * n, x.minodes[dir].filesize) / DIRENT_SIZE
            == CountIn(n / DIRENT_WORDS, EntryCount(x, dir), k) > 0
  {
    var m, count := n / DIRENT_WORDS, EntryCount(x, dir);
    ResidueIsLast(4 * n, x.minodes[dir].filesize);
    k := Nblk(n, x, dir) - 1;
    EntryBytes(m, count, k);
    assert 4 * n == DIRENT_SIZE * m && x.minodes[dir].filesize == DIRENT_SIZE * count;
  }

  lemma ExpandKeepsOthers(n: nat, lo: nat, x: Snapshot, y: Snapshot, dir: nat, size: nat)
    requires IsFileSystem(n, lo, x) && IsFileSystem(n, lo, y)
    requires Resized(x.minodes, y.minodes, dir, size)
    requires Expanded(0, n, x, y, dir, Nblk(n, x, dir), Nblk(n, y, dir))
    requires IsBlksize(4 * n) && y.ilist == x.ilist
    requires InodeSaved(4 * n, x.ilist, lo, x.blocks, y.blocks, dir, y.minodes[dir])
    ensures OthersKept(n, lo, x, y, dir) && IsSaved(n, lo, y, dir)
    ensures FileBlocks(n, lo, y, dir)
            == FileBlocks(n, lo, x, dir) + seq(Nblk(n, y, dir) - Nblk(n, x, dir), _ => ZeroBlock(n))
  {
    SlotsAfterSave(n, lo, x, y, dir);
    forall j | j in x.minodes && j != dir ensures FileBlocks(n, lo, y, j) == FileBlocks(n, lo, x, j) {
      ExpandAppends(n, lo, x, y, dir, j, size);
    }
    ExpandAppends(n, lo, x, y, dir, dir, size);
  }

  lemma ContractKeepsOthers(n: nat, lo: nat, x: Snapshot, y: Snapshot, dir: nat, size: nat)
    requires IsFileSystem(n, lo, x) && IsFileSystem(n, lo, y)
    requires Resized(x.minodes, y.minodes, dir, size)
    requires Contracted(0, n, x, y, dir, Nblk(n, x, dir), Nblk(n, y, dir))
    requires IsBlksize(4 * n) && y.ilist == x.ilist
    requires InodeSaved(4 * n, x.ilist, lo, x.blocks, y.blocks, dir, y.minodes[dir])
    ensures OthersKept(n, lo, x, y, dir) && IsSaved(n, lo, y, dir)
    ensures Nblk(n, y, dir) <= Nblk(n, x, dir)
    ensures FileBlocks(n, lo, y, dir) == FileBlocks(n, lo, x, dir)[..Nblk(n, y, dir)]
  {
    SlotsAfterSave(n, lo, x, y, dir);
    forall j | j in x.minodes && j != dir ensures FileBlocks(n, lo, y, j) == FileBlocks(n, lo, x, j) {
      ContractKeepsPrefix(n, lo, x, y, dir, j, size);
    }
    ContractKeepsPrefix(n, lo, x, y, dir, dir, size);
  }

  /** From x, room was made for one more entry (y), which was then written (z). */
  lemma EntryAdded(n: nat, lo: nat, x: Snapshot, y: Snapshot, z: Snapshot, dir: nat, k: nat, i: nat, e: Dirent)
    requires IsDirFile(n, lo, x, dir) && IsDirFile(n, lo, y, dir) && IsDirFile(n, lo, z, dir) && |e.name| == NAME_WORDS
    requires EntryCount(y, dir) == EntryCount(z, dir) == EntryCount(x, dir) + 1
    requires k + 1 == Nblk(n, y, dir) && i + 1 == CountIn(n / DIRENT_WORDS, EntryCount(y, dir), k)
    requires Nblk(n, x, dir) <= Nblk(n, y, dir)
    requires FileBlocks(n, lo, y, dir)
             == FileBlocks(n, lo, x, dir) + seq(Nblk(n, y, dir) - Nblk(n, x, dir), _ => ZeroBlock(n))
    requires var bs := FileBlocks(n, lo, y, dir);
             i * DIRENT_WORDS + DIRENT_WORDS <= |bs[k]| && FileBlocks(n, lo, z, dir) == bs[k := SetEntry(bs[k], i, e)]
    ensures DirEntries(n, lo, z, dir) == DirEntries(n, lo, x, dir) + [e]
  {
    FileBlocksAre(n, lo, x, dir);
    FileBlocksAre(n, lo, y, dir);
    FileBlocksAre(n, lo, z, dir);
    EntriesAdded(FileBlocks(n, lo, x, dir), FileBlocks(n, lo, z, dir), n / DIRENT_WORDS, EntryCount(x, dir), k, i,
                 FileBlocks(n, lo, y, dir)[k], e);
  }

  /** From x, the first entry with a name was overwritten (y). */
  lemma EntryReplaced(n: nat, lo: nat, x: Snapshot, y: Snapshot, dir: nat, name: seq<nat>, k: nat, i: nat, e: Dirent)
    requires IsDirFile(n, lo, x, dir) && IsDirFile(n, lo, y, dir) && |e.name| == NAME_WORDS
    requires IsFirstMatch(n, lo, x, dir, name, false, k, i) && EntryCount(y, dir) == EntryCount(x, dir)
    requires var bs := FileBlocks(n, lo, x, dir);
             i * DIRENT_WORDS + DIRENT_WORDS <= |bs[k]| && FileBlocks(n, lo, y, dir) == bs[k := SetEntry(bs[k], i, e)]
    ensures var es := DirEntries(n, lo, x, dir);
            IndexOf(es, name, false) < |es| && DirEntries(n, lo, y, dir) == es[IndexOf(es, name, false) := e]
  {
    FileBlocksAre(n, lo, x, dir);
    FileBlocksAre(n, lo, y, dir);
    EntriesSet(FileBlocks(n, lo, x, dir), n / DIRENT_WORDS, EntryCount(x, dir), k, i, e, Nblk(n, x, dir));
  }

  /** From y, the directory was made one entry smaller (z). */
  lemma EntryDropped(n: nat, lo: nat, y: Snapshot, z: Snapshot, dir: nat)
    requires IsDirFile(n, lo, y, dir) && IsDirFile(n, lo, z, dir) && EntryCount(y, dir) == EntryCount(z, dir) + 1
    requires Nblk(n, z, dir) <= Nblk(n, y, dir)
    requires FileBlocks(n, lo, z, dir) == FileBlocks(n, lo, y, dir)[..Nblk(n, z, dir)]
    ensures var es := DirEntries(n, lo, y, dir); |es| > 0 && DirEntries(n, lo, z, dir) == es[..|es| - 1]
  {
    FileBlocksAre(n, lo, y, dir);
    FileBlocksAre(n, lo, z, dir);
    EntriesDropped(FileBlocks(n, lo, y, dir), n / DIRENT_WORDS, EntryCount(z, dir));
  }

  /** The last entry of a directory is the last one in its last block. */
  lemma LastEntryIs(n: nat, lo: nat, x: Snapshot, dir: nat, k: nat, i: nat)
    requires IsDirFile(n, lo, x, dir) && x.minodes[dir].filesize > 0
    requires k + 1 == Nblk(n, x, dir) && i + 1 == CountIn(n / DIRENT_WORDS, EntryCount(x, dir), k)
    ensures var b, es := Leaves(n, x, dir)[k], DirEntries(n, lo, x, dir);
            && b < |x.blocks| && i * DIRENT_WORDS + DIRENT_WORDS <= |x.blocks[b]|
            && |es| > 0 && es[|es| - 1] == EntryIn(x.blocks[b], i)
  {
    var bs := FileBlocks(n, lo, x, dir);
    FileBlocksAre(n, lo, x, dir);
    LeafInUse(n, lo, x, dir, k);
    LastInBlock(bs, n / DIRENT_WORDS, EntryCount(x, dir), k, i);
    assert bs[k] == x.blocks[Leaves(n, x, dir)[k]];
  }

  predicate EndsWith(es: seq<Dirent>, e: Dirent)
  {
    |es| > 0 && es[|es| - 1] == e
  }

  lemma LastEntryFound(n: nat, lo: nat, x: Snapshot, dir: nat, size: nat, k: nat, b: nat, i: int)
    requires IsDirFile(n, lo, x, dir) && x.minodes[dir].filesize == size > 0 && k + 1 == Nblk(n, x, dir)
    requires b == Leaves(n, x, dir)[k] && i == Residue(4 * n, size) / DIRENT_SIZE - 1
    ensures var es := DirEntries(n, lo, x, dir);
            && b < |x.blocks| && 0 <= i && i * DIRENT_WORDS + DIRENT_WORDS <= |x.blocks[b]|
            && EndsWith(es, EntryIn(x.blocks[b], i))
  {
    var k' := LastEntryAt(n, lo, x, dir);
    LastEntryIs(n, lo, x, dir, k, i);
  }

  lemma LastInBlock(blocks: seq<Block>, m: nat, count: nat, k: nat, i: nat)
    requires AreBlocks(blocks, m) && |blocks| == k + 1 && i + 1 == CountIn(m, count, k)
    ensures var es := Entries(blocks, m, count);
            i * DIRENT_WORDS + DIRENT_WORDS <= |blocks[k]| && |es| > 0 && es[|es| - 1] == EntryIn(blocks[k], i)
  {
    assert Entries(blocks, m, count) == EntriesUpTo(blocks, m, count, k) + BlockEntries(blocks[k], i + 1);
  }

  /** What an operation on directory `dir` leaves: the entries `es`, and every other
      file as it was. */
  ghost predicate DirChanged(n: nat, lo: nat, x: Snapshot, y: Snapshot, dir: nat, es: seq<Dirent>)
  {
    && IsDirFile(n, lo, y, dir) && OthersKept(n, lo, x, y, dir) && DirEntries(n, lo, y, dir) == es
    && dir in x.minodes && y.minodes[dir].mode == x.minodes[dir].mode
  }

  /** Every file has the contents it had. */
  ghost predicate AllKept(n: nat, lo: nat, x: Snapshot, y: Snapshot)
  {
    && IsFileSystem(n, lo, x) && IsFileSystem(n, lo, y)
    && y.minodes.Keys == x.minodes.Keys
    && forall j :: j in x.minodes ==>
         y.minodes[j] == x.minodes[j].(addr := y.minodes[j].addr) && FileBlocks(n, lo, y, j) == FileBlocks(n, lo, x, j)
  }

  lemma FailureKeepsAll(n: nat, lo: nat, x: Snapshot, y: Snapshot, ino: nat)
    requires IsFileSystem(n, lo, x) && IsFileSystem(n, lo, y)
    requires OnlyAddrDiffers(x.minodes, y.minodes, ino) && y.forest == x.forest
    requires SameElsewhere(x.blocks, y.blocks, x.forest, ino, lo) && y.ilist == x.ilist
    ensures AllKept(n, lo, x, y) && ListKept(lo, x, y)
  {
    forall j | j in x.minodes ensures FileBlocks(n, lo, y, j) == FileBlocks(n, lo, x, j) {
      FailureKeepsFiles(n, lo, x, y, ino, j);
    }
  }

  /** What adding an entry achieves if there are enough free blocks, and what it
      leaves alone otherwise. */
  ghost predicate AddOutcome(n: nat, lo: nat, x: Snapshot, y: Snapshot, dir: nat, ino: nat, name: seq<nat>, newsz: nat,
                             error: Status)
    requires IsDirFile(n, lo, x, dir) && ino in x.minodes
  {
    if Budget(n, x, dir) >= Need(n, newsz)
    then
      && error == Ok && DirChanged(n, lo, x, y, dir, DirEntries(n, lo, x, dir) + [Dirent(ino, name)])
      && y.minodes[dir].nlink == Counted(x.minodes[dir].nlink, IsDir(x.minodes[ino]), 1) && IsSaved(n, lo, y, dir)
    else
      error == ENOSPC && AllKept(n, lo, x, y) && ListKept(lo, x, y)
  }

  /** Appends an entry; a directory counts its sub-directories. */
  method AddEntry(v: Vdisk, dir: nat, ino: nat, name: seq<nat>, ghost newsz: nat) returns (error: Status)
    requires v.Valid() && IsDirFile(v.disk.words, v.disk.datablockStart, v.Now(), dir) && |name| == NAME_WORDS
    requires newsz == v.minodes[dir].filesize + DIRENT_SIZE && v.IsSize(newsz)
    modifies v`forest, v`minodes, v.disk, v.disk.freeblock
    ensures v.Valid()
    ensures ino !in old(v.minodes) ==> error == ENOENT && v.Now() == old(v.Now())
    ensures ino in old(v.minodes) ==>
              AddOutcome(v.disk.words, v.disk.datablockStart, old(v.Now()), v.Now(), dir, ino, name, newsz, error)
  {
    if ino !in v.minodes {
      return ENOENT;
    }
    ghost var x := v.Now();
    error := ExpandDir(v, dir, newsz);
    if error == Ok {
      EnterEntry(v, dir, ino, name, x);
    }
  }

  /** Writes the new entry of a directory that has been made larger, and counts it. */
  method EnterEntry(v: Vdisk, dir: nat, ino: nat, name: seq<nat>, ghost x: Snapshot)
    requires v.Valid() && |name| == NAME_WORDS && ino in x.minodes
    requires IsDirFile(v.disk.words, v.disk.datablockStart, x, dir)
    requires OthersKept(v.disk.words, v.disk.datablockStart, x, v.Now(), dir)
    requires Resized(x.minodes, v.minodes, dir, x.minodes[dir].filesize + DIRENT_SIZE)
    requires IsSaved(v.disk.words, v.disk.datablockStart, v.Now(), dir)
    requires Nblk(v.disk.words, x, dir) <= Nblk(v.disk.words, v.Now(), dir)
    requires FileBlocks(v.disk.words, v.disk.datablockStart, v.Now(), dir)
             == FileBlocks(v.disk.words, v.disk.datablockStart, x, dir)
                + seq(Nblk(v.disk.words, v.Now(), dir) - Nblk(v.disk.words, x, dir), _ => ZeroBlock(v.disk.words))
    modifies v`minodes, v.disk`blocks
    ensures v.Valid()
    ensures DirChanged(v.disk.words, v.disk.datablockStart, x, v.Now(), dir,
                       DirEntries(v.disk.words, v.disk.datablockStart, x, dir) + [Dirent(ino, name)])
    ensures v.minodes[dir].nlink == Counted(x.minodes[dir].nlink, IsDir(x.minodes[ino]), 1)
    ensures IsSaved(v.disk.words, v.disk.datablockStart, v.Now(), dir)
  {
    assert IsDir(v.minodes[ino]) == IsDir(x.minodes[ino]) && v.minodes[dir].nlink == x.minodes[dir].nlink;
    ghost var es := DirEntries(v.disk.words, v.disk.datablockStart, x, dir) + [Dirent(ino, name)];
    ghost var y := v.Now();
    AppendEntry(v, dir, Dirent(ino, name), x);
    ListKeepsSlots(v.disk.words, v.disk.datablockStart, y, v.Now(), dir);
    CountTarget(v, dir, ino, 1, x, es);
  }

  /** Makes room for one more entry. */
  method ExpandDir(v: Vdisk, dir: nat, ghost newsz: nat) returns (error: Status)
    requires v.Valid() && IsDirFile(v.disk.words, v.disk.datablockStart, v.Now(), dir)
    requires newsz == v.minodes[dir].filesize + DIRENT_SIZE && v.IsSize(newsz)
    modifies v`forest, v`minodes, v.disk, v.disk.freeblock
    ensures v.Valid()
    ensures var n, low := v.disk.words, old(Nblk(v.disk.words, v.Now(), dir));
            if old(Budget(v.disk.words, v.Now(), dir)) >= Need(n, newsz)
            then
              && error == Ok && OthersKept(n, v.disk.datablockStart, old(v.Now()), v.Now(), dir)
              && IsSaved(n, v.disk.datablockStart, v.Now(), dir)
              && Resized(old(v.minodes), v.minodes, dir, newsz)
              && low <= Nblk(n, v.Now(), dir) && Budget(n, v.Now(), dir) == old(Budget(v.disk.words, v.Now(), dir))
              && FileBlocks(n, v.disk.datablockStart, v.Now(), dir)
                 == FileBlocks(n, v.disk.datablockStart, old(v.Now()), dir)
                    + seq(Nblk(n, v.Now(), dir) - low, _ => ZeroBlock(n))
            else
              && error == ENOSPC && AllKept(n, v.disk.datablockStart, old(v.Now()), v.Now())
              && ListKept(v.disk.datablockStart, old(v.Now()), v.Now())
  {
    ghost var x := v.Now();
    error := v.Expand(dir, DIRENT_SIZE, newsz);
    ValidIsFileSystem(v);
    if error == Ok {
      ExpandKeepsOthers(v.disk.words, v.disk.datablockStart, x, v.Now(), dir, newsz);
    } else {
      FailureKeepsAll(v.disk.words, v.disk.datablockStart, x, v.Now(), dir);
    }
  }

  /** A link count after one more or one less entry; only those of directories count. */
  function Counted(nlink: nat, isDir: bool, delta: int): nat
  {
    if isDir then (nlink + delta) % 0x1_0000 else nlink
  }

  /** Counts the entry just added or removed if it is a directory's. */
  method CountTarget(v: Vdisk, dir: nat, ino: nat, delta: int, ghost x: Snapshot, ghost es: seq<Dirent>)
    requires v.Valid() && DirChanged(v.disk.words, v.disk.datablockStart, x, v.Now(), dir, es)
    requires dir in x.minodes && ino in v.minodes && IsSaved(v.disk.words, v.disk.datablockStart, v.Now(), dir)
    modifies v`minodes, v.disk`blocks
    ensures v.Valid() && DirChanged(v.disk.words, v.disk.datablockStart, x, v.Now(), dir, es)
    ensures IsSaved(v.disk.words, v.disk.datablockStart, v.Now(), dir)
    ensures v.minodes[dir].nlink == Counted(old(v.minodes)[dir].nlink, IsDir(old(v.minodes)[ino]), delta)
    ensures v.minodes[dir].filesize == old(v.minodes)[dir].filesize
  {
    if IsDir(v.minodes[ino]) {
      ghost var y := v.Now();
      SetNlink(v, dir, Counted(v.minodes[dir].nlink, true, delta));
      OthersKeptTwice(v.disk.words, v.disk.datablockStart, x, y, v.Now(), dir);
    }
  }

  /** Writes the last entry of a directory that has been made larger by one entry. */
  method AppendEntry(v: Vdisk, dir: nat, e: Dirent, ghost x: Snapshot)
    requires v.Valid() && |e.name| == NAME_WORDS
    requires IsDirFile(v.disk.words, v.disk.datablockStart, x, dir)
    requires OthersKept(v.disk.words, v.disk.datablockStart, x, v.Now(), dir)
    requires dir in v.minodes && v.minodes[dir].filesize == x.minodes[dir].filesize + DIRENT_SIZE
    requires v.minodes[dir].mode == x.minodes[dir].mode
    requires Nblk(v.disk.words, x, dir) <= Nblk(v.disk.words, v.Now(), dir)
    requires FileBlocks(v.disk.words, v.disk.datablockStart, v.Now(), dir)
             == FileBlocks(v.disk.words, v.disk.datablockStart, x, dir)
                + seq(Nblk(v.disk.words, v.Now(), dir) - Nblk(v.disk.words, x, dir), _ => ZeroBlock(v.disk.words))
    modifies v.disk`blocks
    ensures v.Valid() && ListKept(v.disk.datablockStart, old(v.Now()), v.Now())
    ensures DirChanged(v.disk.words, v.disk.datablockStart, x, v.Now(), dir,
                       DirEntries(v.disk.words, v.disk.datablockStart, x, dir) + [e])
  {
    ghost var y := v.Now();
    var size := v.minodes[dir].filesize;
    assert IsDirFile(v.disk.words, v.disk.datablockStart, y, dir);
    var blk := Last(v, dir, size);
    var sz := Residue(v.Blksize(), size);
    ghost var k := LastEntryAt(v.disk.words, v.disk.datablockStart, y, dir);
    var i := sz / DIRENT_SIZE - 1;
    AppendAt(v, dir, blk, i, e, k, x, y);
  }

  /** Writes the last entry of a directory, entry i of its last block. */
  method AppendAt(v: Vdisk, dir: nat, blk: nat, i: nat, e: Dirent, ghost k: nat, ghost x: Snapshot, ghost y: Snapshot)
    requires v.Valid() && v.Now() == y && |e.name| == NAME_WORDS
    requires IsDirFile(v.disk.words, v.disk.datablockStart, x, dir)
    requires IsDirFile(v.disk.words, v.disk.datablockStart, y, dir)
    requires OthersKept(v.disk.words, v.disk.datablockStart, x, y, dir) && y.minodes[dir].mode == x.minodes[dir].mode
    requires EntryCount(y, dir) == EntryCount(x, dir) + 1 && Nblk(v.disk.words, x, dir) <= Nblk(v.disk.words, y, dir)
    requires FileBlocks(v.disk.words, v.disk.datablockStart, y, dir)
             == FileBlocks(v.disk.words, v.disk.datablockStart, x, dir)
                + seq(Nblk(v.disk.words, y, dir) - Nblk(v.disk.words, x, dir), _ => ZeroBlock(v.disk.words))
    requires k + 1 == Nblk(v.disk.words, y, dir) && blk == Leaves(v.disk.words, y, dir)[k]
    requires i + 1 == CountIn(v.disk.words / DIRENT_WORDS, EntryCount(y, dir), k)
    modifies v.disk`blocks
    ensures v.Valid() && ListKept(v.disk.datablockStart, y, v.Now())
    ensures DirChanged(v.disk.words, v.disk.datablockStart, x, v.Now(), dir,
                       DirEntries(v.disk.words, v.disk.datablockStart, x, dir) + [e])
  {
    WriteEntry(v, dir, blk, i, e, k);
    EntryAdded(v.disk.words, v.disk.datablockStart, x, y, v.Now(), dir, k, i, e);
    OthersKeptTwice(v.disk.words, v.disk.datablockStart, x, y, v.Now(), dir);
  }

  /** Removes the entry with a name: the last entry takes its place.  If the inode of
      the removed entry cannot be had, the entry is gone but not counted. */
  method RemoveEntry(v: Vdisk, dir: nat, name: seq<nat>) returns (error: Status)
    requires v.Valid() && IsDirFile(v.disk.words, v.disk.datablockStart, v.Now(), dir)
    modifies v`forest, v`minodes, v.disk, v.disk.freeblock
    ensures v.Valid()
    ensures RemoveOutcome(v.disk.words, v.disk.datablockStart, old(v.Now()), v.Now(), dir, name, error)
    ensures dir in v.minodes && Budget(v.disk.words, v.Now(), dir) == old(Budget(v.disk.words, v.Now(), dir))
  {
    ghost var x := v.Now();
    var last := LastEntry(v, dir, x);
    var ret, blk, i;
    ghost var k;
    ret, blk, i, k := Find(v, dir, name, false);
    if ret != ITERATOR_BREAK {
      return ENOENT;
    }
    MatchEntry(v.disk.words, v.disk.datablockStart, x, dir, name, false, k, i);
    SizeOfEntries(v.disk.words, v.disk.datablockStart, x, dir);
    error := RemoveFound(v, dir, blk, i, EntryIn(v.disk.blocks[blk], i).ino, last, k, name, x);
  }

  /** Removes entry i of block k, which has the name. */
  method RemoveFound(v: Vdisk, dir: nat, blk: nat, i: nat, ino: nat, last: Dirent, ghost k: nat, ghost name: seq<nat>,
                     ghost x: Snapshot)
    returns (error: Status)
    requires v.Valid() && v.Now() == x && IsDirFile(v.disk.words, v.disk.datablockStart, x, dir)
    requires |last.name| == NAME_WORDS
    requires IsFirstMatch(v.disk.words, v.disk.datablockStart, x, dir, name, false, k, i)
    requires blk == Leaves(v.disk.words, x, dir)[k]
    requires EndsWith(DirEntries(v.disk.words, v.disk.datablockStart, x, dir), last)
    requires var es := DirEntries(v.disk.words, v.disk.datablockStart, x, dir); es[IndexOf(es, name, false)].ino == ino
    modifies v`forest, v`minodes, v.disk, v.disk.freeblock
    ensures v.Valid()
    ensures RemoveOutcome(v.disk.words, v.disk.datablockStart, x, v.Now(), dir, name, error)
    ensures dir in v.minodes && Budget(v.disk.words, v.Now(), dir) == Budget(v.disk.words, x, dir)
  {
    ghost var es := DirEntries(v.disk.words, v.disk.datablockStart, x, dir);
    ghost var at := IndexOf(es, name, false);
    DropEntry(v, dir, blk, i, last, k, name, x);
    error := CountRemoved(v, dir, ino, x, Removed(es, at));
  }

  /** Counts the removed entry, if its inode can be had. */
  method CountRemoved(v: Vdisk, dir: nat, ino: nat, ghost x: Snapshot, ghost es: seq<Dirent>) returns (error: Status)
    requires v.Valid() && DirChanged(v.disk.words, v.disk.datablockStart, x, v.Now(), dir, es)
    requires v.minodes[dir].nlink == x.minodes[dir].nlink
    requires IsSaved(v.disk.words, v.disk.datablockStart, v.Now(), dir)
    modifies v`minodes, v.disk`blocks
    ensures v.Valid() && DirChanged(v.disk.words, v.disk.datablockStart, x, v.Now(), dir, es)
    ensures error == if ino in x.minodes then Ok else ENOENT
    ensures IsSaved(v.disk.words, v.disk.datablockStart, v.Now(), dir)
    ensures v.minodes[dir].nlink == Counted(x.minodes[dir].nlink, ino in x.minodes && IsDir(x.minodes[ino]), -1)
    ensures v.minodes[dir].filesize == old(v.minodes)[dir].filesize
  {
    if ino !in v.minodes {
      return ENOENT;
    }
    assert IsDir(v.minodes[ino]) == IsDir(x.minodes[ino]);
    CountTarget(v, dir, ino, -1, x, es);
    error := Ok;
  }

  /** What removing an entry achieves. */
  ghost predicate RemoveOutcome(n: nat, lo: nat, x: Snapshot, y: Snapshot, dir: nat, name: seq<nat>, error: Status)
    requires IsDirFile(n, lo, x, dir)
  {
    var es := DirEntries(n, lo, x, dir);
    var at := IndexOf(es, name, false);
    if at == |es| then error == ENOENT && y == x
    else
      && DirChanged(n, lo, x, y, dir, Removed(es, at)) && IsSaved(n, lo, y, dir)
      && error == (if es[at].ino in x.minodes then Ok else ENOENT)
      && y.minodes[dir].nlink
         == Counted(x.minodes[dir].nlink, es[at].ino in x.minodes && IsDir(x.minodes[es[at].ino]), -1)
  }

  /** The last entry of a directory; what stands in the block it had first if it has none. */
  method LastEntry(v: Vdisk, dir: nat, ghost x: Snapshot) returns (last: Dirent)
    requires v.Valid() && v.Now() == x && IsDirFile(v.disk.words, v.disk.datablockStart, x, dir)
    ensures x.minodes[dir].filesize > 0 ==> EndsWith(DirEntries(v.disk.words, v.disk.datablockStart, x, dir), last)
    ensures |last.name| == NAME_WORDS
  {
    if v.minodes[dir].filesize == 0 {
      last := StaleEntry(v, v.minodes[dir].addr[0]);
      return;
    }
    var lastblk;
    ghost var k;
    lastblk, k := LastBlock(v, dir, x);
    last := EntryOfLast(v.disk.blocks, lastblk, v.Blksize(), v.minodes[dir].filesize, v.disk.words,
                        v.disk.datablockStart, x, dir, k);
  }

  /** The last entry of a block, if there is such a block. */
  method StaleEntry(v: Vdisk, blk: nat) returns (e: Dirent)
    requires v.Valid() && v.disk.words >= DIRENT_WORDS
    ensures |e.name| == NAME_WORDS
  {
    if blk < |v.disk.blocks| {
      e := EntryIn(v.disk.blocks[blk], v.disk.words / DIRENT_WORDS - 1);
    } else {
      e := Dirent(0, ZeroBlock(NAME_WORDS));
    }
  }

  /** The last entry in the last block. */
  method EntryOfLast(blocks: seq<Block>, lastblk: nat, blksize: nat, size: nat,
                     ghost n: nat, ghost lo: nat, ghost x: Snapshot, ghost dir: nat, ghost k: nat)
    returns (last: Dirent)
    requires IsDirFile(n, lo, x, dir) && x.blocks == blocks && blksize == 4 * n && x.minodes[dir].filesize == size > 0
    requires k + 1 == Nblk(n, x, dir) && lastblk == Leaves(n, x, dir)[k]
    ensures EndsWith(DirEntries(n, lo, x, dir), last) && |last.name| == NAME_WORDS
  {
    var i := Residue(blksize, size) / DIRENT_SIZE - 1;
    LastEntryFound(n, lo, x, dir, size, k, lastblk, i);
    last := EntryIn(blocks[lastblk], i);
  }

  method LastBlock(v: Vdisk, dir: nat, ghost x: Snapshot) returns (lastblk: nat, ghost k: nat)
    requires v.Valid() && v.Now() == x && dir in x.minodes && x.minodes[dir].filesize > 0
    ensures k + 1 == Nblk(v.disk.words, x, dir) && lastblk == Leaves(v.disk.words, x, dir)[k]
  {
    var size := v.minodes[dir].filesize;
    lastblk := Last(v, dir, size);
    k := BlockCount(v.Blksize(), size) - 1;
  }

  /** Overwrites entry i of block k with the last entry and makes the directory one
      entry smaller. */
  method DropEntry(v: Vdisk, dir: nat, blk: nat, i: nat, last: Dirent, ghost k: nat, ghost name: seq<nat>,
                   ghost x: Snapshot)
    requires v.Valid() && v.Now() == x && IsDirFile(v.disk.words, v.disk.datablockStart, x, dir)
    requires IsFirstMatch(v.disk.words, v.disk.datablockStart, x, dir, name, false, k, i)
    requires blk == Leaves(v.disk.words, x, dir)[k] && |last.name| == NAME_WORDS
    requires EndsWith(DirEntries(v.disk.words, v.disk.datablockStart, x, dir), last)
    modifies v`forest, v`minodes, v.disk, v.disk.freeblock
    ensures v.Valid()
    ensures var es := DirEntries(v.disk.words, v.disk.datablockStart, x, dir);
            && IndexOf(es, name, false) < |es|
            && DirChanged(v.disk.words, v.disk.datablockStart, x, v.Now(), dir, Removed(es, IndexOf(es, name, false)))
    ensures v.minodes[dir].mode == x.minodes[dir].mode && v.minodes[dir].nlink == x.minodes[dir].nlink
    ensures Budget(v.disk.words, v.Now(), dir) == Budget(v.disk.words, x, dir)
    ensures IsSaved(v.disk.words, v.disk.datablockStart, v.Now(), dir)
  {
    ghost var n, lo := v.disk.words, v.disk.datablockStart;
    ghost var at := IndexOf(DirEntries(n, lo, x, dir), name, false);
    OverwriteEntry(v, dir, blk, i, last, k, name, x);
    ghost var y := v.Now();
    ContractDir(v, dir, y);
    EntryRemoved(n, lo, x, y, v.Now(), dir, at, last);
  }

  /** The directory has lost its last entry. */
  ghost predicate LastDropped(n: nat, lo: nat, y: Snapshot, z: Snapshot, dir: nat)
  {
    && OthersKept(n, lo, y, z, dir) && IsDirFile(n, lo, y, dir) && IsDirFile(n, lo, z, dir) && IsSaved(n, lo, z, dir)
    && z.minodes[dir].mode == y.minodes[dir].mode && z.minodes[dir].nlink == y.minodes[dir].nlink
    && Budget(n, z, dir) == Budget(n, y, dir)
    && var es := DirEntries(n, lo, y, dir);
       |es| > 0 && DirEntries(n, lo, z, dir) == es[..|es| - 1]
  }

  /** First the last entry is copied over the removed one, then it is dropped. */
  lemma EntryRemoved(n: nat, lo: nat, x: Snapshot, y: Snapshot, z: Snapshot, dir: nat, at: nat, last: Dirent)
    requires IsDirFile(n, lo, x, dir) && y.minodes == x.minodes && y.free == x.free
    requires var es := DirEntries(n, lo, x, dir);
             at < |es| && EndsWith(es, last) && DirChanged(n, lo, x, y, dir, es[at := last])
    requires LastDropped(n, lo, y, z, dir)
    ensures DirChanged(n, lo, x, z, dir, Removed(DirEntries(n, lo, x, dir), at))
    ensures z.minodes[dir].nlink == x.minodes[dir].nlink && Budget(n, z, dir) == Budget(n, x, dir)
    ensures IsSaved(n, lo, z, dir)
  {
    OthersKeptTwice(n, lo, x, y, z, dir);
  }

  /** Overwrites the entry with a name. */
  method OverwriteEntry(v: Vdisk, dir: nat, blk: nat, i: nat, e: Dirent, ghost k: nat, ghost name: seq<nat>,
                        ghost x: Snapshot)
    requires v.Valid() && v.Now() == x && IsDirFile(v.disk.words, v.disk.datablockStart, x, dir)
    requires |e.name| == NAME_WORDS
    requires IsFirstMatch(v.disk.words, v.disk.datablockStart, x, dir, name, false, k, i)
    requires blk == Leaves(v.disk.words, x, dir)[k]
    modifies v.disk`blocks
    ensures v.Valid() && ListKept(v.disk.datablockStart, x, v.Now())
    ensures var es := DirEntries(v.disk.words, v.disk.datablockStart, x, dir);
            && IndexOf(es, name, false) < |es|
            && DirChanged(v.disk.words, v.disk.datablockStart, x, v.Now(), dir, es[IndexOf(es, name, false) := e])
    ensures v.minodes[dir].filesize > 0
  {
    SizeOfEntries(v.disk.words, v.disk.datablockStart, x, dir);
    WriteEntry(v, dir, blk, i, e, k);
    EntryReplaced(v.disk.words, v.disk.datablockStart, x, v.Now(), dir, name, k, i, e);
  }

  lemma LessOneEntry(size: nat, newsz: nat)
    requires size % DIRENT_SIZE == 0 && newsz == size - DIRENT_SIZE
    ensures newsz % DIRENT_SIZE == 0 && size / DIRENT_SIZE == newsz / DIRENT_SIZE + 1
  {
  }

  /** Makes a directory one entry smaller. */
  method ContractDir(v: Vdisk, dir: nat, ghost x: Snapshot)
    requires v.Valid() && v.Now() == x && IsDirFile(v.disk.words, v.disk.datablockStart, x, dir)
    requires x.minodes[dir].filesize > 0
    modifies v`forest, v`minodes, v.disk, v.disk.freeblock
    ensures v.Valid() && LastDropped(v.disk.words, v.disk.datablockStart, x, v.Now(), dir)
  {
    ghost var newsz := v.minodes[dir].filesize - DIRENT_SIZE;
    LessOneEntry(v.minodes[dir].filesize, newsz);
    var error := v.Contract(dir, DIRENT_SIZE, newsz);
    ValidIsFileSystem(v);
    ContractKeepsOthers(v.disk.words, v.disk.datablockStart, x, v.Now(), dir, newsz);
    EntryDropped(v.disk.words, v.disk.datablockStart, x, v.Now(), dir);
  }

  lemma SizeOfEntries(n: nat, lo: nat, x: Snapshot, dir: nat)
    requires IsDirFile(n, lo, x, dir)
    ensures x.minodes[dir].filesize == DIRENT_SIZE * |DirEntries(n, lo, x, dir)|
  {
    FileBlocksAre(n, lo, x, dir);
    EntriesLength(FileBlocks(n, lo, x, dir), n / DIRENT_WORDS, EntryCount(x, dir), Nblk(n, x, dir));
  }

  /** Gives the entry with a name another inode number. */
  method ReplaceEntry(v: Vdisk, dir: nat, name: seq<nat>, ino: nat) returns (error: Status)
    requires v.Valid() && IsDirFile(v.disk.words, v.disk.datablockStart, v.Now(), dir) && |name| == NAME_WORDS
    modifies v.disk`blocks
    ensures v.Valid() && ListKept(v.disk.datablockStart, old(v.Now()), v.Now())
    ensures var n, lo, x := v.disk.words, v.disk.datablockStart, old(v.Now());
            var es := DirEntries(n, lo, x, dir);
            var at := IndexOf(es, name, false);
            if at == |es| then error == ENOENT && v.Now() == x
            else error == Ok && DirChanged(n, lo, x, v.Now(), dir, es[at := Dirent(ino, name)])
  {
    ghost var x := v.Now();
    var ret, blk, i;
    ghost var k;
    ret, blk, i, k := Find(v, dir, name, false);
    if ret != ITERATOR_BREAK {
      return ENOENT;
    }
    MatchEntry(v.disk.words, v.disk.datablockStart, x, dir, name, false, k, i);
    var e := EntryIn(v.disk.blocks[blk], i).(ino := ino);
    OverwriteEntry(v, dir, blk, i, e, k, name, x);
    error := Ok;
  }
}

/** Growing and shrinking a file one block at a time. */
module InodeTree {
  import opened Blocks
  import opened FreeChain
  import opened Addressing
  import opened Forests
  import opened DatablockAddr
  import opened InodeDisk
  import opened SizeChanges

  /** A virtual disk: the disk and the inodes in memory. */
  class Vdisk {
    const disk: Disk
    var minodes: map<nat, Dinode>
    ghost var forest: Forest

    constructor (disk: Disk, minodes: map<nat, Dinode>, ghost forest: Forest)
      requires disk.Valid()
      requires Linked(disk.words, disk.datablockStart, disk.blocks, minodes, forest, disk.free)
      ensures this.disk == disk && this.minodes == minodes && this.forest == forest
      ensures Consistent()
    {
      this.disk, this.minodes, this.forest := disk, minodes, forest;
    }

    ghost predicate Consistent()
      reads this, disk, disk.freeblock
    {
      && disk.Valid()
      && Linked(disk.words, disk.datablockStart, disk.blocks, minodes, forest, disk.free)
    }

    /** The block number in word `i` of an index block, 0 if either is no data block. */
    function Link(listblk: nat, i: nat): nat
      requires disk.Valid() && i < disk.words
      reads this, disk, disk.freeblock
    {
      Forests.Link(disk.blocks, disk.datablockStart, listblk, i)
    }

    /** A block of position `s` may be attached at word `i` of block `up`. */
    ghost predicate CanAttach(s: Slot, up: nat, i: nat)
      reads this, disk
    {
      && IsSlot(disk.words, s) && s !in forest.at && s.ino in minodes
      && s.height < s.addr.level
      && Parent(s) in forest.at && forest.at[Parent(s)] == up && WordIndex(s) == i
    }

    /** Allocates a block and stores its number in word `i` of index block `up`. */
    method AddLeaf(up: nat, i: nat, ghost s: Slot) returns (newblk: nat)
      requires Consistent()
      requires i < disk.words
      requires up != 0 && disk.Sane(up) && disk.free != [] ==> CanAttach(s, up, i)
      modifies this`forest, disk, disk.freeblock
      ensures Consistent()
      ensures up == 0 || !disk.Sane(up) || old(disk.free) == [] ==>
                newblk == 0 && Now() == old(Now())
      ensures up != 0 && disk.Sane(up) && old(disk.free) != [] ==>
                Attached(disk.words, disk.datablockStart, old(Now()), Now(), s, up, i, newblk)
    {
      if up == 0 || !disk.Sane(up) {
        return 0;
      }
      ghost var blocks0, rest, b := disk.blocks, disk.free, 0;
      if disk.free != [] {
        rest, b := disk.TopOfFree();
        LinkedAttach(disk.words, disk.datablockStart, disk.blocks, minodes, forest, disk.free, rest, s, b);
      }
      var error;
      error, newblk := disk.Allocate();
      if error != Ok {
        return 0;
      }
      disk.Write(up, Put(disk.blocks[up], i, newblk));
      assert disk.blocks == blocks0[b := ZeroBlock(disk.words)][up := Put(blocks0[up], i, b)];
      forest := forest.Insert(s, newblk);
    }

    /** Allocates a block and stores its number in entry `i` of the inode. */
    method AllocateRoot(ino: nat, i: nat, ghost s: Slot) returns (error: Status, blk: nat)
      requires Consistent()
      requires ino in minodes && i < NADDR
      requires IsSlot(disk.words, s) && s !in forest.at && s.ino == ino && s.height == s.addr.level
      requires RootIndex(s.addr) == i
      modifies this`forest, this`minodes, disk, disk.freeblock
      ensures Consistent()
      ensures old(disk.free) == [] ==> error == ENOSPC && blk == 0 && Now() == old(Now())
      ensures old(disk.free) != [] ==>
                error == Ok && disk.Sane(blk) && Rooted(disk.words, disk.datablockStart, old(Now()), Now(), s, blk)
    {
      if disk.free != [] {
        ghost var rest, b := disk.TopOfFree();
        LinkedRoot(disk.words, disk.datablockStart, disk.blocks, minodes, forest, disk.free, rest, s, b);
      }
      error, blk := disk.Allocate();
      if error != Ok {
        return;
      }
      minodes := minodes[ino := SetAddr(minodes[ino], i, blk)];
      forest := forest.Insert(s, blk);
    }

    /** The number of a block in use is found in the index block above it. */
    lemma LinkReaches(s: Slot)
      requires Consistent()
      requires s in forest.at
      requires s.height < s.addr.level
      ensures Parent(s) in forest.at && WordIndex(s) < disk.words
      ensures Link(forest.at[Parent(s)], WordIndex(s)) == forest.at[s]
    {
      assert IsReached(disk.words, disk.blocks, minodes, forest, s);
    }

    lemma RootReaches(s: Slot)
      requires Consistent()
      requires s in forest.at
      requires s.height == s.addr.level
      ensures minodes[s.ino].addr[RootIndex(s.addr)] == forest.at[s]
    {
      assert IsReached(disk.words, disk.blocks, minodes, forest, s);
    }

    /** The next leaf of inode `ino` may be added at address `a`: none of the
        blocks it is the first to need is in use, and those above are. */
    ghost predicate CanGrow(ino: nat, a: Addr)
      reads this, disk
    {
      && ino in minodes && IsAddr(disk.words, a)
      && (forall s :: s in forest.at ==> s.ino != ino || s.addr != a)
      && (NewIndexBlocks(a) < a.level ==> Parent(Slot(ino, a, NewIndexBlocks(a))) in forest.at)
    }

    ghost function Now(): Snapshot
      reads this, disk
    {
      Snapshot(disk.blocks, minodes, forest, disk.free, disk.ilistSector)
    }

    /** Since state `from`, the blocks of heights h and up of the leaf at `a` were added. */
    ghost predicate GrownSince(from: Snapshot, ino: nat, a: Addr, h: nat)
      reads this, disk
    {
      && Grown(disk.datablockStart, from, Now(), ino, a, h)
      && (NewIndexBlocks(a) < a.level ==> Parent(Slot(ino, a, NewIndexBlocks(a))) in from.forest.at)
    }

    /** AddLeaf for the block of height h of the leaf at `a`, the higher ones being in place. */
    method AddBelow(ino: nat, a: Addr, ghost above: nat, ghost h: nat, up: nat, i: nat, ghost from: Snapshot)
      returns (newblk: nat)
      requires Consistent()
      requires h <= NewIndexBlocks(a) && i < disk.words
      requires disk.free != [] ==>
                 above == h + 1 && GrownSince(from, ino, a, above) && CanAttach(Slot(ino, a, h), up, i)
      modifies this`forest, disk, disk.freeblock
      ensures Consistent()
      ensures old(disk.free) == [] ==> newblk == 0 && Now() == old(Now())
      ensures old(disk.free) != [] ==>
                && newblk != 0 && GrownSince(from, ino, a, h) && Extends(old(forest), forest)
                && Slot(ino, a, h) in forest.at && forest.at[Slot(ino, a, h)] == newblk
                && newblk < |disk.blocks| && disk.blocks[newblk] == ZeroBlock(disk.words)
    {
      ghost var before := Now();
      if disk.free != [] {
        assert forest.owner[up] == Parent(Slot(ino, a, h));
      }
      newblk := AddLeaf(up, i, Slot(ino, a, h));
      if newblk != 0 {
        GrownAttach(disk.datablockStart, disk.words, from, before, Now(), ino, a, above, h, up, newblk, i);
      }
    }

    /** When space runs out, the blocks added so far belong to nobody. */
    ghost method Forget(from: Snapshot, ino: nat, a: Addr, h: nat)
      requires Consistent() && GrownSince(from, ino, a, h)
      requires h > 0 && disk.free == []
      requires Linked(disk.words, disk.datablockStart, from.blocks, from.minodes, from.forest, from.free)
      modifies this`forest
      ensures Consistent()
      ensures forest == from.forest && |from.free| <= NewIndexBlocks(a)
      ensures SameElsewhere(from.blocks, disk.blocks, forest, ino, disk.datablockStart)
    {
      LinkedRestrict(disk.words, disk.datablockStart, from.blocks, disk.blocks, from.minodes, minodes, from.forest,
                     forest, from.free, disk.free);
      forest := from.forest;
    }

    lemma NothingGrown(ino: nat, a: Addr)
      requires CanGrow(ino, a)
      ensures GrownSince(Now(), ino, a, NewIndexBlocks(a) + 1)
    {
      GrownNone(disk.datablockStart, Now(), ino, a);
    }

    /** All index blocks above the last block added are in use. */
    lemma IndexInUse(ino: nat, a: Addr, h: nat, low: nat, from: Snapshot)
      requires Consistent() && IsAddr(disk.words, a)
      requires GrownSince(from, ino, a, low)
      requires low <= h <= a.level && 0 < h
      ensures Parent(Slot(ino, a, h - 1)) in forest.at
      decreases h
    {
      var p := Parent(Slot(ino, a, h - 1));
      if h <= NewIndexBlocks(a) {
        assert p == Slot(ino, a, h);
      } else if h > NewIndexBlocks(a) + 1 {
        IndexInUse(ino, a, h - 1, low, from);
        ParentOfParent(disk.words, ino, a, h - 1);
        assert IsReached(disk.words, disk.blocks, minodes, forest, Parent(Slot(ino, a, h - 2)));
      } else {
        assert h - 1 == NewIndexBlocks(a);
      }
    }

    lemma NextIndex(ino: nat, a: Addr, h: nat, low: nat, up: nat, from: Snapshot)
      requires Consistent() && IsAddr(disk.words, a)
      requires GrownSince(from, ino, a, low) && low <= h
      requires 0 < h < a.level && StandsAbove(forest, ino, a, h + 1, up)
      ensures WordIndex(Slot(ino, a, h)) < disk.words
      ensures StandsAbove(forest, ino, a, h, Link(up, WordIndex(Slot(ino, a, h))))
    {
      IndexInUse(ino, a, h, low, from);
      ParentOfParent(disk.words, ino, a, h);
      LinkReaches(Parent(Slot(ino, a, h - 1)));
    }

    /** The next block may be attached right below the one `h` + 1 levels up. */
    lemma CanAttachNext(ino: nat, a: Addr, above: nat, h: nat, up: nat, from: Snapshot)
      requires disk.Valid() && IsAddr(disk.words, a) && ino in minodes
      requires h <= NewIndexBlocks(a) && h < a.level && above == h + 1
      requires GrownSince(from, ino, a, above) && StandsAbove(forest, ino, a, above, up)
      ensures CanAttach(Slot(ino, a, h), up, WordIndex(Slot(ino, a, h)))
    {
      assert Slot(ino, a, above - 1) == Slot(ino, a, h);
      ParentIsSlot(disk.words, Slot(ino, a, h));
    }

    /** The index block `h` levels above the new leaf, added first if it is new.
        From heights `low0` and `low` on, the new blocks are in place before and after. */
    method EnsureIndex(ino: nat, a: Addr, h: nat, isNew: bool, up: nat, i: nat, ghost from: Snapshot, ghost low0: nat)
      returns (ghost low: nat)
      requires Consistent()
      requires IsAddr(disk.words, a) && ino in minodes && 0 < h < a.level
      requires isNew <==> h <= NewIndexBlocks(a)
      requires i == WordIndex(Slot(ino, a, h)) && i < disk.words
      requires GrownSince(from, ino, a, low0) && low0 > 0
      requires disk.free != [] ==>
                 low0 == (if isNew then h + 1 else NewIndexBlocks(a) + 1) && StandsAbove(forest, ino, a, h + 1, up)
      modifies this`forest, disk, disk.freeblock
      ensures Consistent()
      ensures GrownSince(from, ino, a, low) && low > 0
      ensures disk.free != [] ==>
                low == (if isNew then h else NewIndexBlocks(a) + 1) && StandsAbove(forest, ino, a, h, Link(up, i))
      ensures old(disk.free) == [] ==> disk.free == []
    {
      low := low0;
      if isNew {
        if disk.free != [] {
          CanAttachNext(ino, a, low0, h, up, from);
          low := h;
        }
        var blk := AddBelow(ino, a, low0, h, up, i, from);
      }
      if disk.free != [] {
        NextIndex(ino, a, h, low, up, from);
      }
    }

    /** Nothing is added yet, and the index block named by the inode is in use. */
    lemma StartGrow(ino: nat, a: Addr)
      requires Consistent() && CanGrow(ino, a)
      requires a.level > 0 && (a.i0 > 0 || a.i1 > 0 || a.i2 > 0)
      ensures GrownSince(Now(), ino, a, NewIndexBlocks(a) + 1)
      ensures RootIndex(a) == DIRECT + a.level - 1
      ensures StandsAbove(forest, ino, a, a.level, minodes[ino].addr[RootIndex(a)])
    {
      NothingGrown(ino, a);
      IndexInUse(ino, a, a.level, NewIndexBlocks(a) + 1, Now());
      RootReaches(Slot(ino, Addr(a.level, 0, 0, 0), a.level));
    }

    /** Adds the leaf itself, below index block `up`. */
    method AddLast(ino: nat, a: Addr, up: nat, i: nat, ghost from: Snapshot, ghost low: nat) returns (blk: nat)
      requires Consistent()
      requires Linked(disk.words, disk.datablockStart, from.blocks, from.minodes, from.forest, from.free)
      requires IsAddr(disk.words, a) && ino in minodes && a.level > 0
      requires i == WordIndex(Slot(ino, a, 0)) && i < disk.words
      requires GrownSince(from, ino, a, low) && low > 0
      requires disk.free != [] ==> low == 1 && StandsAbove(forest, ino, a, 1, up)
      modifies this`forest, disk, disk.freeblock
      ensures Consistent()
      ensures Outcome(disk.datablockStart, disk.words, from, Now(), ino, a, blk)
    {
      if disk.free != [] {
        CanAttachNext(ino, a, low, 0, up, from);
      }
      blk := AddBelow(ino, a, low, 0, up, i, from);
      if blk == 0 {
        Forget(from, ino, a, low);
      }
    }

    method GrowLevel1(ino: nat, newmap: Addr) returns (blk: nat)
      requires Consistent()
      requires newmap.level == 1 && newmap.i0 > 0
      requires CanGrow(ino, newmap)
      modifies this`forest, disk, disk.freeblock
      ensures Consistent()
      ensures Outcome(disk.datablockStart, disk.words, old(Now()), Now(), ino, newmap, blk)
    {
      StartGrow(ino, newmap);
      var idxblk := minodes[ino].addr[DIRECT];
      blk := AddLast(ino, newmap, idxblk, newmap.i0, Now(), 1);
    }

    method GrowLevel2(ino: nat, oldmap: Addr, newmap: Addr) returns (blk: nat)
      requires Consistent()
      requires newmap.level == 2 && (newmap.i0 > 0 || newmap.i1 > 0)
      requires oldmap.i0 != newmap.i0 <==> newmap.i1 == 0
      requires CanGrow(ino, newmap)
      modifies this`forest, disk, disk.freeblock
      ensures Consistent()
      ensures Outcome(disk.datablockStart, disk.words, old(Now()), Now(), ino, newmap, blk)
    {
      ghost var from, low := Now(), NewIndexBlocks(newmap) + 1;
      StartGrow(ino, newmap);
      var idxblk := minodes[ino].addr[DIRECT + 1];
      low := EnsureIndex(ino, newmap, 1, oldmap.i0 != newmap.i0, idxblk, newmap.i0, from, low);
      blk := AddLast(ino, newmap, Link(idxblk, newmap.i0), newmap.i1, from, low);
    }

    method GrowLevel3(ino: nat, oldmap: Addr, newmap: Addr) returns (blk: nat)
      requires Consistent()
      requires newmap.level == 3 && (newmap.i0 > 0 || newmap.i1 > 0 || newmap.i2 > 0)
      requires oldmap.i0 != newmap.i0 <==> newmap.i1 == 0 && newmap.i2 == 0
      requires oldmap.i1 != newmap.i1 <==> newmap.i2 == 0
      requires CanGrow(ino, newmap)
      modifies this`forest, disk, disk.freeblock
      ensures Consistent()
      ensures Outcome(disk.datablockStart, disk.words, old(Now()), Now(), ino, newmap, blk)
    {
      ghost var from, low := Now(), NewIndexBlocks(newmap) + 1;
      StartGrow(ino, newmap);
      var idxblk := minodes[ino].addr[DIRECT + 2];
      low := EnsureIndex(ino, newmap, 2, oldmap.i0 != newmap.i0, idxblk, newmap.i0, from, low);
      var up := Link(idxblk, newmap.i0);
      low := EnsureIndex(ino, newmap, 1, oldmap.i1 != newmap.i1, up, newmap.i1, from, low);
      blk := AddLast(ino, newmap, Link(up, newmap.i1), newmap.i2, from, low);
    }

    /** A new index block `h` levels above the first leaf of a level. */
    method AddFirst(ino: nat, a: Addr, ghost h: nat, up: nat, ghost from: Snapshot, ghost low0: nat)
      returns (blk: nat, ghost low: nat)
      requires Consistent()
      requires 0 < h < a.level && a == Addr(a.level, 0, 0, 0) && IsAddr(disk.words, a) && ino in minodes
      requires GrownSince(from, ino, a, low0) && low0 > 0
      requires disk.free != [] ==> low0 == h + 1 && StandsAbove(forest, ino, a, h + 1, up)
      modifies this`forest, disk, disk.freeblock
      ensures Consistent()
      ensures GrownSince(from, ino, a, low) && low > 0
      ensures disk.free != [] ==> low == h && StandsAbove(forest, ino, a, h, blk)
    {
      low := low0;
      FirstParent(ino, a, h);
      if disk.free != [] {
        CanAttachNext(ino, a, low0, h, up, from);
        low := h;
      }
      blk := AddBelow(ino, a, low0, h, up, 0, from);
    }

    /** AllocateRoot for the block that starts the growth towards the leaf at `a`. */
    method GrowRoot(ino: nat, a: Addr, i: nat) returns (error: Status, blk: nat)
      requires Consistent() && CanGrow(ino, a)
      requires NewIndexBlocks(a) == a.level && i == RootIndex(a) < NADDR
      modifies this`forest, this`minodes, disk, disk.freeblock
      ensures Consistent()
      ensures OnlyAddrDiffers(old(minodes), minodes, ino)
      ensures old(disk.free) == [] ==> error == ENOSPC && blk == 0 && Now() == old(Now())
      ensures old(disk.free) != [] ==>
                && error == Ok && blk != 0 && GrownSince(old(Now()), ino, a, a.level)
                && Slot(ino, a, a.level) in forest.at && forest.at[Slot(ino, a, a.level)] == blk
                && (a.level > 0 ==> StandsAbove(forest, ino, a, a.level, blk))
                && 0 <= blk < |disk.blocks| && disk.blocks[blk] == ZeroBlock(disk.words)
    {
      ghost var from := Now();
      if a.level > 0 {
        FirstParent(ino, a, a.level);
      }
      error, blk := AllocateRoot(ino, i, Slot(ino, a, a.level));
      if error == Ok {
        GrownRoot(disk.datablockStart, disk.words, from, Now(), ino, a, blk);
      }
    }

    /** The first leaf of level 1, 2 or 3, with the index blocks above it. */
    method GrowNewLevel(ino: nat, newmap: Addr) returns (error: Status, blk: nat)
      requires Consistent()
      requires 1 <= newmap.level <= 3 && newmap == Addr(newmap.level, 0, 0, 0)
      requires CanGrow(ino, newmap)
      modifies this`forest, this`minodes, disk, disk.freeblock
      ensures Consistent()
      ensures Outcome(disk.datablockStart, disk.words, old(Now()), Now(), ino, newmap, blk)
      ensures error == (if old(disk.free) == [] then ENOSPC else Ok) && (error != Ok ==> blk == 0)
      ensures OnlyAddrDiffers(old(minodes), minodes, ino)
    {
      ghost var from := Now();
      var idxblk;
      assert NewIndexBlocks(newmap) == newmap.level && DIRECT + newmap.level - 1 == RootIndex(newmap);
      error, idxblk := GrowRoot(ino, newmap, DIRECT + newmap.level - 1);
      blk := 0;
      if error == Ok {
        blk := GrowBelowRoot(ino, newmap, idxblk, from);
      }
    }

    method GrowBelowRoot(ino: nat, newmap: Addr, idxblk: nat, ghost from: Snapshot) returns (blk: nat)
      requires Consistent()
      requires Linked(disk.words, disk.datablockStart, from.blocks, from.minodes, from.forest, from.free)
      requires 1 <= newmap.level <= 3 && newmap == Addr(newmap.level, 0, 0, 0)
      requires IsAddr(disk.words, newmap) && ino in minodes
      requires GrownSince(from, ino, newmap, newmap.level)
      requires StandsAbove(forest, ino, newmap, newmap.level, idxblk)
      modifies this`forest, disk, disk.freeblock
      ensures Consistent()
      ensures Outcome(disk.datablockStart, disk.words, from, Now(), ino, newmap, blk)
    {
      var up := idxblk;
      ghost var low := newmap.level;
      if newmap.level == 3 {
        up, low := AddFirst(ino, newmap, 2, up, from, low);
      }
      if newmap.level >= 2 {
        up, low := AddFirst(ino, newmap, 1, up, from, low);
      }
      blk := AddLast(ino, newmap, up, 0, from, low);
    }

    method GrowDirect(ino: nat, newmap: Addr) returns (error: Status, blk: nat)
      requires Consistent()
      requires newmap.level == 0 && CanGrow(ino, newmap)
      modifies this`forest, this`minodes, disk, disk.freeblock
      ensures Consistent()
      ensures Outcome(disk.datablockStart, disk.words, old(Now()), Now(), ino, newmap, blk)
      ensures error == (if old(disk.free) == [] then ENOSPC else Ok) && (error != Ok ==> blk == 0)
      ensures OnlyAddrDiffers(old(minodes), minodes, ino)
    {
      error, blk := GrowRoot(ino, newmap, newmap.i0);
    }

    /** The inode names the first new block exactly where the level changes or is 0. */
    static lemma NeedsRoot(n: nat, oldmap: Addr, newmap: Addr)
      requires IsAddr(n, oldmap) && IsAddr(n, newmap)
      requires newmap == Succ(n, oldmap) || newmap == oldmap == Addr(0, 0, 0, 0)
      ensures NewIndexBlocks(newmap) == newmap.level <==> oldmap.level != newmap.level || newmap.level == 0
    {
    }

    /** Adds the block at address `newmap`, the successor of `oldmap`, and the
        index blocks it is the first to need. */
    method Grow(ino: nat, oldmap: Addr, newmap: Addr) returns (error: Status, blk: nat)
      requires Consistent()
      requires IsAddr(disk.words, oldmap)
      requires newmap == Succ(disk.words, oldmap) || newmap == oldmap == Addr(0, 0, 0, 0)
      requires CanGrow(ino, newmap)
      modifies this`forest, this`minodes, disk, disk.freeblock
      ensures Consistent()
      ensures Outcome(disk.datablockStart, disk.words, old(Now()), Now(), ino, newmap, blk)
      ensures error == if old(disk.free) == [] && (oldmap.level != newmap.level || newmap.level == 0)
                       then ENOSPC else Ok
      ensures error != Ok ==> blk == 0
      ensures OnlyAddrDiffers(old(minodes), minodes, ino)
    {
      if oldmap.level != newmap.level {
        error, blk := GrowNewLevel(ino, newmap);
      } else if newmap.level == 0 {
        error, blk := GrowDirect(ino, newmap);
      } else {
        error := Ok;
        blk := GrowIndexed(ino, oldmap, newmap);
      }
    }

    method GrowIndexed(ino: nat, oldmap: Addr, newmap: Addr) returns (blk: nat)
      requires Consistent()
      requires IsAddr(disk.words, oldmap) && newmap == Succ(disk.words, oldmap)
      requires 0 < oldmap.level == newmap.level && CanGrow(ino, newmap)
      modifies this`forest, disk, disk.freeblock
      ensures Consistent()
      ensures Outcome(disk.datablockStart, disk.words, old(Now()), Now(), ino, newmap, blk)
    {
      match newmap.level
      case 1 => blk := GrowLevel1(ino, newmap);
      case 2 => blk := GrowLevel2(ino, oldmap, newmap);
      case _ => blk := GrowLevel3(ino, oldmap, newmap);
    }

    /** Reads word `i` of a block and clears it. */
    method Unlink(idxblk: nat, i: nat) returns (blk: nat)
      requires disk.Valid()
      requires idxblk < |disk.blocks| && idxblk !in disk.free && i < disk.words
      modifies disk`blocks
      ensures disk.Valid()
      ensures blk == old(disk.blocks[idxblk][i])
      ensures disk.blocks == old(disk.blocks)[idxblk := Put(old(disk.blocks[idxblk]), i, 0)]
    {
      var buf := disk.blocks[idxblk];
      blk := buf[i];
      disk.Write(idxblk, Put(buf, i, 0));
    }

    /** Detaches the block of position `s`, word `i` of index block `up`, and frees it. */
    method RemoveLeaf(up: nat, i: nat, ghost s: Slot) returns (down: nat)
      requires Consistent()
      requires disk.Sane(up) ==>
                 CanDetach(s) && Parent(s) in forest.at && up == forest.at[Parent(s)] && i == WordIndex(s) < disk.words
      modifies this`forest, disk, disk.freeblock
      ensures Consistent()
      ensures !disk.Sane(up) ==> down == 0 && Now() == old(Now())
      ensures disk.Sane(up) ==>
                && down == old(forest).at[s] && forest == old(forest).Remove(s)
                && disk.free == old(disk.free) + [down]
                && |disk.blocks| == old(|disk.blocks|)
                && forall c :: 0 <= c < |disk.blocks| && c != up && c != down ==> disk.blocks[c] == old(disk.blocks)[c]
    {
      if !disk.Sane(up) {
        return 0;
      }
      LinkReaches(s);
      assert forest.owner[up] == Parent(s);
      ghost var x := Now();
      down := UnlinkAndFree(up, i, x);
      LinkedDetach(disk.words, disk.datablockStart, x, disk.blocks, s);
      forest := forest.Remove(s);
    }

    /** Takes a number out of an index block, and frees its block. */
    method UnlinkAndFree(up: nat, i: nat, ghost x: Snapshot) returns (down: nat)
      requires Consistent() && Now() == x && i < disk.words && disk.Sane(up) && up !in disk.free
      requires var b := disk.blocks[up][i]; disk.Sane(b) && b !in disk.free && b != up
      modifies disk, disk.freeblock
      ensures disk.Valid() && Uniform(disk.blocks, disk.words) && down == x.blocks[up][i]
      ensures disk.free == x.free + [down] && |disk.blocks| == |x.blocks|
      ensures disk.blocks[up] == Put(x.blocks[up], i, 0)
      ensures forall c :: 0 <= c < |disk.blocks| && c != up && c != down ==> disk.blocks[c] == x.blocks[c]
    {
      down := Unlink(up, i);
      var error := disk.Deallocate(down);
    }

    /** Position `s` is in use below an index block, with nothing below it. */
    ghost predicate CanDetach(s: Slot)
      reads this
    {
      && s in forest.at && s.height < s.addr.level
      && forall t :: t in forest.at && t.height < t.addr.level ==> Parent(t) != s
    }

    /** Since state `from`, the blocks of the last leaf below height h were freed. */
    ghost predicate ShrunkSince(from: Snapshot, ino: nat, a: Addr, h: nat)
      reads this, disk
    {
      && Linked(disk.words, disk.datablockStart, from.blocks, from.minodes, from.forest, from.free)
      && IsLast(disk.words, from.forest, ino, a)
      && Shrunk(disk.datablockStart, from, Now(), ino, a, h)
    }

    /** Index blocks not yet freed are still found from the inode. */
    lemma StillAbove(ino: nat, a: Addr, h: nat, up: nat, from: Snapshot, freed: nat)
      requires Consistent() && ShrunkSince(from, ino, a, freed) && freed <= h
      requires 0 < h < a.level && StandsAbove(forest, ino, a, h + 1, up)
      ensures WordIndex(Slot(ino, a, h)) < disk.words
      ensures StandsAbove(forest, ino, a, h, Link(up, WordIndex(Slot(ino, a, h))))
    {
      LastIsReached(disk.words, disk.datablockStart, from, ino, a, h);
      ParentOfParent(disk.words, ino, a, h);
      LinkReaches(Parent(Slot(ino, a, h - 1)));
    }

    /** Nothing is freed yet, and the index block named by the inode is in use. */
    lemma StartShrink(ino: nat, a: Addr)
      requires Consistent() && IsLast(disk.words, forest, ino, a)
      ensures ShrunkSince(Now(), ino, a, 0)
      ensures a.level > 0 ==>
                && ino in minodes && |minodes[ino].addr| == NADDR
                && RootIndex(a) == DIRECT + a.level - 1
                && StandsAbove(forest, ino, a, a.level, minodes[ino].addr[RootIndex(a)])
    {
      ShrunkNone(disk.datablockStart, Now(), ino, a);
      if a.level > 0 {
        LastIsReached(disk.words, disk.datablockStart, Now(), ino, a, a.level);
        RootReaches(Slot(ino, Addr(a.level, 0, 0, 0), a.level));
      }
    }

    /** RemoveLeaf for the block of height h of the last leaf, the lower ones being freed. */
    method RemoveBelow(ino: nat, a: Addr, ghost h: nat, ghost next: nat, up: nat, i: nat, ghost from: Snapshot)
      requires Consistent() && ShrunkSince(from, ino, a, h) && next == h + 1
      requires h <= NewIndexBlocks(a) && h < a.level
      requires StandsAbove(forest, ino, a, h + 1, up) && i == WordIndex(Slot(ino, a, h))
      modifies this`forest, disk, disk.freeblock
      ensures Consistent()
      ensures ShrunkSince(from, ino, a, next)
    {
      ghost var s, before := Slot(ino, a, h), Now();
      NothingBelow(disk.words, disk.datablockStart, from, before, ino, a, h);
      ParentIsSlot(disk.words, s);
      assert s in forest.at && forest.owner[up] == Parent(s);
      var down := RemoveLeaf(up, i, s);
      ShrunkStep(disk.datablockStart, from, before, Now(), ino, a, h, up);
    }

    /** An index block above the last leaf stays where it was until it is freed. */
    lemma AboveAsBefore(ino: nat, a: Addr, h: nat, up: nat, from: Snapshot, freed: nat)
      requires ShrunkSince(from, ino, a, freed)
      requires freed <= h && 0 < h <= a.level
      requires Parent(Slot(ino, a, h - 1)) in from.forest.at && from.forest.at[Parent(Slot(ino, a, h - 1))] == up
      ensures StandsAbove(forest, ino, a, h, up)
    {
      ParentIsSlot(disk.words, Slot(ino, a, 0));
      assert Parent(Slot(ino, a, h - 1)).height >= h;
    }

    method ShrinkLevel1(ino: nat, oldmap: Addr)
      requires Consistent() && IsLast(disk.words, forest, ino, oldmap)
      requires oldmap.level == 1 && oldmap.i0 > 0
      modifies this`forest, disk, disk.freeblock
      ensures Consistent()
      ensures Shrunk(disk.datablockStart, old(Now()), Now(), ino, oldmap, NewIndexBlocks(oldmap) + 1)
    {
      StartShrink(ino, oldmap);
      var idxblk := minodes[ino].addr[DIRECT];
      RemoveBelow(ino, oldmap, 0, 1, idxblk, oldmap.i0, Now());
    }

    method ShrinkLevel2(ino: nat, oldmap: Addr, newmap: Addr)
      requires Consistent() && IsLast(disk.words, forest, ino, oldmap)
      requires oldmap.level == 2 && (oldmap.i0 > 0 || oldmap.i1 > 0)
      requires oldmap.i0 != newmap.i0 <==> oldmap.i1 == 0
      modifies this`forest, disk, disk.freeblock
      ensures Consistent()
      ensures Shrunk(disk.datablockStart, old(Now()), Now(), ino, oldmap, NewIndexBlocks(oldmap) + 1)
    {
      ghost var from := Now();
      StartShrink(ino, oldmap);
      var idxblk := minodes[ino].addr[DIRECT + 1];
      StillAbove(ino, oldmap, 1, idxblk, from, 0);
      RemoveBelow(ino, oldmap, 0, 1, Link(idxblk, oldmap.i0), oldmap.i1, from);
      if oldmap.i0 != newmap.i0 {
        AboveAsBefore(ino, oldmap, 2, idxblk, from, 1);
        RemoveBelow(ino, oldmap, 1, 2, idxblk, oldmap.i0, from);
      }
    }

    /** Frees the last leaf of level 3. */
    method RemoveThird(ino: nat, a: Addr, idxblk: nat, ghost from: Snapshot)
      requires Consistent() && ShrunkSince(from, ino, a, 0)
      requires a.level == 3 && StandsAbove(from.forest, ino, a, 3, idxblk)
      modifies this`forest, disk, disk.freeblock
      ensures Consistent() && ShrunkSince(from, ino, a, 1)
    {
      AboveAsBefore(ino, a, 3, idxblk, from, 0);
      StillAbove(ino, a, 2, idxblk, from, 0);
      var up := Link(idxblk, a.i0);
      StillAbove(ino, a, 1, up, from, 0);
      assert WordIndex(Slot(ino, a, 1)) == a.i1 && WordIndex(Slot(ino, a, 0)) == a.i2;
      RemoveBelow(ino, a, 0, 1, Link(up, a.i1), a.i2, from);
    }

    /** Frees the index block right above the last leaf of level 3. */
    method RemoveSecond(ino: nat, a: Addr, idxblk: nat, ghost from: Snapshot)
      requires Consistent() && ShrunkSince(from, ino, a, 1)
      requires a.level == 3 && NewIndexBlocks(a) >= 1 && StandsAbove(from.forest, ino, a, 3, idxblk)
      modifies this`forest, disk, disk.freeblock
      ensures Consistent() && ShrunkSince(from, ino, a, 2)
    {
      AboveAsBefore(ino, a, 3, idxblk, from, 1);
      StillAbove(ino, a, 2, idxblk, from, 1);
      RemoveBelow(ino, a, 1, 2, Link(idxblk, a.i0), a.i1, from);
    }

    method ShrinkLevel3(ino: nat, oldmap: Addr, newmap: Addr)
      requires Consistent() && IsLast(disk.words, forest, ino, oldmap)
      requires oldmap.level == 3 && (oldmap.i0 > 0 || oldmap.i1 > 0 || oldmap.i2 > 0)
      requires oldmap.i0 != newmap.i0 <==> oldmap.i1 == 0 && oldmap.i2 == 0
      requires oldmap.i1 != newmap.i1 <==> oldmap.i2 == 0
      modifies this`forest, disk, disk.freeblock
      ensures Consistent()
      ensures Shrunk(disk.datablockStart, old(Now()), Now(), ino, oldmap, NewIndexBlocks(oldmap) + 1)
    {
      ghost var from := Now();
      StartShrink(ino, oldmap);
      var idxblk := minodes[ino].addr[DIRECT + 2];
      assert StandsAbove(from.forest, ino, oldmap, 3, idxblk);
      RemoveThird(ino, oldmap, idxblk, from);
      if oldmap.i1 != newmap.i1 {
        RemoveSecond(ino, oldmap, idxblk, from);
      }
      if oldmap.i0 != newmap.i0 {
        AboveAsBefore(ino, oldmap, 3, idxblk, from, 2);
        RemoveBelow(ino, oldmap, 2, 3, idxblk, oldmap.i0, from);
      }
    }

    /** Detaches the first child of an index block that is no longer in use, and
        frees the index block itself. */
    method RemoveSelf(up: nat) returns (down: nat)
      requires Consistent()
      requires disk.Sane(up) ==> up !in forest.owner && up !in disk.free && disk.words > 0
      modifies disk, disk.freeblock
      ensures Consistent()
      ensures !disk.Sane(up) ==> down == 0 && Now() == old(Now())
      ensures disk.Sane(up) ==>
                && |disk.blocks| == old(|disk.blocks|) && down == old(disk.blocks)[up][0]
                && disk.free == old(disk.free) + [up]
                && forall c :: 0 <= c < |disk.blocks| && c != up ==> disk.blocks[c] == old(disk.blocks)[c]
    {
      if !disk.Sane(up) {
        return 0;
      }
      ghost var x := Now();
      down := Unlink(up, 0);
      var error := disk.Deallocate(up);
      LinkedFrame(disk.words, disk.datablockStart, x.blocks, disk.blocks, minodes, forest, x.free, disk.free);
    }

    /** Frees a block that is not in use. */
    method FreeUnused(blk: nat) returns (error: Status)
      requires Consistent()
      requires blk !in forest.owner && blk !in disk.free
      modifies disk, disk.freeblock
      ensures Consistent()
      ensures !disk.Sane(blk) ==> error == EIO && Now() == old(Now())
      ensures disk.Sane(blk) ==>
                && error == Ok && |disk.blocks| == old(|disk.blocks|)
                && disk.free == old(disk.free) + [blk]
                && forall c :: 0 <= c < |disk.blocks| && c != blk ==> disk.blocks[c] == old(disk.blocks)[c]
    {
      ghost var x := Now();
      error := disk.Deallocate(blk);
      LinkedFrame(disk.words, disk.datablockStart, x.blocks, disk.blocks, minodes, forest, x.free, disk.free);
    }

    /** Frees the first leaf of level 1, 2 or 3 and the index blocks above it, from
        the top down. */
    method ShrinkNewLevel(ino: nat, oldmap: Addr) returns (error: Status)
      requires Consistent() && IsLast(disk.words, forest, ino, oldmap)
      requires 1 <= oldmap.level <= 3 && oldmap == Addr(oldmap.level, 0, 0, 0)
      modifies this`forest, this`minodes, disk, disk.freeblock
      ensures Consistent() && error == Ok
      ensures Shrunk(disk.datablockStart, old(Now()), Now(), ino, oldmap, NewIndexBlocks(oldmap) + 1)
      ensures OnlyAddrDiffers(old(minodes), minodes, ino)
    {
      ghost var from := Now();
      var idxblk := DropRoot(ino, oldmap);
      error := ChopBelowRoot(ino, oldmap, idxblk, from);
    }

    method ChopBelowRoot(ino: nat, a: Addr, idxblk: nat, ghost from: Snapshot) returns (error: Status)
      requires 1 <= a.level <= 3 && ChoppedTo(from, ino, a, a.level + 1, a.level, idxblk)
      modifies disk, disk.freeblock
      ensures Consistent() && error == Ok
      ensures Shrunk(disk.datablockStart, from, Now(), ino, a, NewIndexBlocks(a) + 1)
    {
      ghost var h, below := a.level, a.level - 1;
      var down := ChopTop(ino, a, a.level + 1, h, below, idxblk, from);
      if a.level >= 2 {
        ghost var next := below - 1;
        down := ChopTop(ino, a, h, below, next, down, from);
        h, below := below, next;
      }
      if a.level == 3 {
        down := ChopTop(ino, a, h, below, 0, down, from);
        h, below := below, 0;
      }
      error := ChopLeaf(ino, a, h, below, down, from);
    }

    /** The index blocks of the last leaf from height `above` on were freed, and `blk` is
        the block right below, of height h. */
    ghost predicate ChoppedTo(from: Snapshot, ino: nat, a: Addr, above: nat, h: nat, blk: nat)
      reads this, disk, disk.freeblock
    {
      && Consistent() && h <= a.level && above == h + 1
      && Chopped(disk.words, disk.datablockStart, from, Now(), ino, a, above)
      && blk == from.forest.at[Slot(ino, a, h)]
    }

    /** Takes the number of the topmost index block out of the inode. */
    method DropRoot(ino: nat, a: Addr) returns (idxblk: nat)
      requires Consistent() && IsLast(disk.words, forest, ino, a)
      requires 0 < NewIndexBlocks(a) == a.level
      modifies this`forest, this`minodes
      ensures ChoppedTo(old(Now()), ino, a, a.level + 1, a.level, idxblk)
      ensures OnlyAddrDiffers(old(minodes), minodes, ino)
    {
      StartChop(disk.words, disk.datablockStart, Now(), ino, a);
      var i := DIRECT + a.level - 1;
      idxblk := minodes[ino].addr[i];
      SetAddrOnly(minodes, ino, i, 0);
      forest := Without(forest, ino, a, a.level + 1);
      minodes := minodes[ino := SetAddr(minodes[ino], i, 0)];
    }

    /** Frees the leaf, all index blocks above it being freed. */
    method ChopLeaf(ino: nat, a: Addr, ghost above: nat, ghost h: nat, leaf: nat, ghost from: Snapshot)
      returns (error: Status)
      requires h == 0 && ChoppedTo(from, ino, a, above, h, leaf)
      modifies disk, disk.freeblock
      ensures Consistent() && error == Ok
      ensures Shrunk(disk.datablockStart, from, Now(), ino, a, NewIndexBlocks(a) + 1)
    {
      ghost var before := Now();
      error := FreeUnused(leaf);
      ChopStep(disk.words, disk.datablockStart, from, before, Now(), ino, a, above, h);
      ChopDone(disk.words, disk.datablockStart, from, Now(), ino, a);
    }

    /** RemoveSelf for the index block of height h >= 1, those above it being freed. */
    method ChopTop(ino: nat, a: Addr, ghost above: nat, ghost h: nat, ghost below: nat, up: nat, ghost from: Snapshot)
      returns (down: nat)
      requires ChoppedTo(from, ino, a, above, h, up) && h == below + 1
      modifies disk, disk.freeblock
      ensures ChoppedTo(from, ino, a, h, below, down)
    {
      ghost var before := Now();
      ghost var next := FirstChildIs(disk.words, disk.datablockStart, from, before, ino, a, above, h, below, up);
      down := RemoveSelf(up);
      ChopStep(disk.words, disk.datablockStart, from, before, Now(), ino, a, above, h);
    }

    method ShrinkDirect(ino: nat, oldmap: Addr) returns (error: Status)
      requires Consistent() && IsLast(disk.words, forest, ino, oldmap)
      requires oldmap.level == 0
      modifies this`forest, disk, disk.freeblock
      ensures Consistent() && error == Ok
      ensures Shrunk(disk.datablockStart, old(Now()), Now(), ino, oldmap, 1)
    {
      ghost var from := Now();
      RootReaches(Slot(ino, oldmap, 0));
      LinkedWithout(disk.words, disk.datablockStart, from, ino, oldmap, 1);
      var blk := minodes[ino].addr[oldmap.i0];
      forest := Without(forest, ino, oldmap, 1);
      error := FreeUnused(blk);
      ShrunkDirect(disk.words, disk.datablockStart, from, Now(), ino, oldmap);
    }

    /** Frees the last block, at address `oldmap`, and the index blocks that no
        remaining block needs; `newmap` is the address before it. */
    method Shrink(ino: nat, oldmap: Addr, newmap: Addr) returns (error: Status)
      requires Consistent() && IsLast(disk.words, forest, ino, oldmap)
      requires if oldmap == Addr(0, 0, 0, 0) then newmap.level == 0
               else IsAddr(disk.words, newmap) && oldmap == Succ(disk.words, newmap)
      modifies this`forest, this`minodes, disk, disk.freeblock
      ensures Consistent() && error == Ok
      ensures Shrunk(disk.datablockStart, old(Now()), Now(), ino, oldmap, NewIndexBlocks(oldmap) + 1)
      ensures OnlyAddrDiffers(old(minodes), minodes, ino)
    {
      error := Ok;
      assert ino in minodes by { assert Slot(ino, oldmap, 0) in forest.at; }
      if oldmap.level != newmap.level {
        error := ShrinkNewLevel(ino, oldmap);
      } else {
        match newmap.level
        case 0 => error := ShrinkDirect(ino, oldmap);
        case 1 => ShrinkLevel1(ino, oldmap);
        case 2 => ShrinkLevel2(ino, oldmap, newmap);
        case _ => ShrinkLevel3(ino, oldmap, newmap);
      }
    }

    // ---------- whole files ----------

    function Blksize(): nat
    {
      4 * disk.words
    }

    /** The trees are well formed and belong to the file sizes in the inodes. */
    ghost predicate Valid()
      reads this, disk, disk.freeblock
    {
      && Consistent()
      && IsBlksize(Blksize())
      && Exact(disk.words, forest, Counts(Blksize(), minodes))
      && (forall i :: i in minodes ==> IsDinode(minodes[i]) && IsSize(minodes[i].filesize))
    }

    /** A size whose last block the program can find. */
    predicate IsSize(size: nat)
    {
      Blksize() > 0 && size + Blksize() <= TWO_TO_32 && Addressable(Blksize(), BlockCount(Blksize(), size))
    }

    /** Writes an inode to its place in the inode list. */
    method InodeWriteback(ino: nat) returns (error: Status)
      requires Valid() && ino in minodes
      modifies disk`blocks
      ensures Valid()
      ensures var block := IlistBlock(Blksize(), ino) + disk.ilistSector;
              if block < disk.datablockStart then
                && error == Ok
                && IlistSlot(Blksize(), ino) * INODE_WORDS + INODE_WORDS <= |old(disk.blocks)[block]|
                && var image := SetInode(old(disk.blocks)[block], IlistSlot(Blksize(), ino), minodes[ino]);
                   disk.blocks == old(disk.blocks)[block := image]
              else error == ENOENT && disk.blocks == old(disk.blocks)
      ensures InodeSaved(Blksize(), disk.ilistSector, disk.datablockStart, old(disk.blocks), disk.blocks, ino,
                         minodes[ino])
    {
      var block := IlistBlock(Blksize(), ino) + disk.ilistSector;
      if block >= disk.datablockStart {
        return ENOENT;
      }
      SlotInBlock(Blksize(), ino);
      var buf := disk.blocks[block];
      var buf' := SetInode(buf, IlistSlot(Blksize(), ino), minodes[ino]);
      ghost var blocks0 := disk.blocks;
      disk.Write(block, buf');
      LinkedFrame(disk.words, disk.datablockStart, blocks0, disk.blocks, minodes, forest, disk.free, disk.free);
      error := Ok;
    }

    /** The address the program computes for the last of `count` blocks; 0 blocks
        have the address of the first one. */
    function LastOf(count: nat): Addr
    {
      if count == 0 then Addr(0, 0, 0, 0) else AddrOf(disk.words, count - 1)
    }

    lemma LastOfNext(cur: nat, next: nat)
      requires next == cur + 1
      ensures LastOf(next) == AddrOf(disk.words, cur)
    {
    }

    method AddrOfSize(size: nat) returns (map_: Addr)
      requires IsBlksize(Blksize()) && IsSize(size)
      ensures map_ == LastOf(BlockCount(Blksize(), size))
    {
      if size == 0 {
        BlockCountZero(Blksize());
      }
      var r := LastAddr(Blksize(), size);
      map_ := r.value;
    }

    /** The address of the i-th block added to a file of `oldSize` bytes and `low` blocks. */
    method NextAddr(oldSize: nat, i: nat, ghost low: nat, ghost required: nat, ghost cur: nat, ghost next: nat)
      returns (map_: Addr)
      requires IsBlksize(Blksize()) && i < required && low == BlockCount(Blksize(), oldSize)
      requires IsSize(oldSize + Times(required, Blksize())) && cur == low + i && next == cur + 1
      ensures map_ == AddrOf(disk.words, cur) && InReach(disk.words, next)
    {
      SizeInRange(Blksize(), oldSize, i + 1, required);
      TimesIsProduct(i + 1, Blksize());
      map_ := AddrOfSize(oldSize + (i + 1) * Blksize());
    }

    /** Adds blocks number `low` to `high` - 1 of inode `ino`. */
    method ExpandBlocks(ino: nat, oldSize: nat, oldmap0: Addr, ghost low: nat, ghost high: nat, required: nat,
                        ghost from: Snapshot, ghost counts: map<nat, nat>)
      returns (error: Status)
      requires disk.Valid() && IsBlksize(Blksize()) && from == Now()
      requires ExpandState(disk.datablockStart, disk.words, counts, from, Now(), ino, low, low)
      requires low == BlockCount(Blksize(), oldSize) && high == low + required
      requires IsSize(oldSize + Times(required, Blksize())) && oldmap0 == LastOf(low)
      modifies this`forest, this`minodes, disk, disk.freeblock
      ensures disk.Valid()
      ensures error == Ok ==> ExpandState(disk.datablockStart, disk.words, counts, from, Now(), ino, low, high)
      ensures error != Ok ==>
                && error == ENOSPC && forest == from.forest && IsRestored(disk.words, from, minodes, low, high)
                && ExpandFailed(disk.datablockStart, disk.words, from, Now(), ino, low, high)
    {
      var backup, oldmap, i := minodes, oldmap0, 0;
      ghost var cur := low;
      while i < required
        invariant 0 <= i <= required && cur == low + i && oldmap == LastOf(cur)
        invariant disk.Valid() && ExpandState(disk.datablockStart, disk.words, counts, from, Now(), ino, low, cur)
      {
        ghost var next := cur + 1;
        error, oldmap := ExpandIteration(ino, oldSize, oldmap, i, required, backup, from, counts, low, cur, next, high);
        if error != Ok {
          return;
        }
        LastOfNext(cur, next);
        i := i + 1;
        cur := next;
      }
      assert cur == high;
      error := Ok;
    }

    /** One pass of the loop: block number `cur`, or giving up. */
    method ExpandIteration(ino: nat, oldSize: nat, oldmap: Addr, i: nat, required: nat, backup: map<nat, Dinode>,
                           ghost from: Snapshot, ghost counts: map<nat, nat>, ghost low: nat, ghost cur: nat,
                           ghost next: nat, ghost high: nat)
      returns (error: Status, newmap: Addr)
      requires disk.Valid() && IsBlksize(Blksize()) && backup == from.minodes
      requires ExpandState(disk.datablockStart, disk.words, counts, from, Now(), ino, low, cur)
      requires low == BlockCount(Blksize(), oldSize) && IsSize(oldSize + Times(required, Blksize()))
      requires cur == low + i && next == cur + 1 && i < required && high == low + required
      requires oldmap == LastOf(cur)
      modifies this`forest, this`minodes, disk, disk.freeblock
      ensures disk.Valid()
      ensures error == Ok ==>
                && ExpandState(disk.datablockStart, disk.words, counts, from, Now(), ino, low, next)
                && newmap == AddrOf(disk.words, cur)
      ensures error != Ok ==>
                && error == ENOSPC && forest == from.forest && IsRestored(disk.words, from, minodes, low, high)
                && ExpandFailed(disk.datablockStart, disk.words, from, Now(), ino, low, high)
    {
      newmap := NextAddr(oldSize, i, low, required, cur, next);
      error := ExpandOrGiveUp(ino, oldmap, newmap, backup, counts, from, low, cur, next, high);
    }

    /** Adds block number `cur`, or gives up. */
    method ExpandOrGiveUp(ino: nat, oldmap: Addr, newmap: Addr, backup: map<nat, Dinode>, ghost counts: map<nat, nat>,
                          ghost from: Snapshot, ghost low: nat, ghost cur: nat, ghost next: nat, ghost high: nat)
      returns (error: Status)
      requires disk.Valid() && backup == from.minodes
      requires ExpandState(disk.datablockStart, disk.words, counts, from, Now(), ino, low, cur)
      requires next == cur + 1 && low <= cur < high && InReach(disk.words, next)
      requires oldmap == LastOf(cur) && newmap == AddrOf(disk.words, cur)
      modifies this`forest, this`minodes, disk, disk.freeblock
      ensures disk.Valid()
      ensures error == Ok ==> ExpandState(disk.datablockStart, disk.words, counts, from, Now(), ino, low, next)
      ensures error != Ok ==>
                && error == ENOSPC && forest == from.forest && IsRestored(disk.words, from, minodes, low, high)
                && ExpandFailed(disk.datablockStart, disk.words, from, Now(), ino, low, high)
    {
      var blk;
      error, blk := ExpandOne(ino, oldmap, newmap, counts, from, low, cur, next, high);
      if blk == 0 {
        error := GiveUp(ino, error, backup, from, low, cur, high);
      }
    }

    /** Reports that space ran out; the inode gets its old contents back unless the
        failing allocation was that of a direct or topmost block. */
    method GiveUp(ino: nat, error0: Status, backup: map<nat, Dinode>, ghost from: Snapshot, ghost low: nat,
                  ghost cur: nat, ghost goal: nat)
      returns (error: Status)
      requires disk.Valid() && backup == from.minodes && low <= cur < goal
      requires RunsOutAt(disk.words, |from.free|, low, cur)
      requires error0 == Ok <==> !LacksRoot(disk.words, |from.free|, low, cur)
      requires ExpandFailed(disk.datablockStart, disk.words, from, Now(), ino, low, goal)
      modifies this`forest, this`minodes
      ensures disk.Valid() && error == ENOSPC && forest == from.forest
      ensures ExpandFailed(disk.datablockStart, disk.words, from, Now(), ino, low, goal)
      ensures IsRestored(disk.words, from, minodes, low, goal)
    {
      ghost var before := Now();
      forest := from.forest;
      if error0 == Ok {
        minodes := backup;
      }
      error := ENOSPC;
      ExpandFailedRestored(disk.datablockStart, disk.words, from, before, Now(), ino, low, goal);
    }

    /** Adds block number `cur` on the way from `low` to `goal`. */
    method ExpandOne(ino: nat, oldmap: Addr, newmap: Addr, ghost counts: map<nat, nat>, ghost from: Snapshot,
                     ghost low: nat, ghost cur: nat, ghost next: nat, ghost goal: nat)
      returns (error: Status, blk: nat)
      requires disk.Valid()
      requires ExpandState(disk.datablockStart, disk.words, counts, from, Now(), ino, low, cur)
      requires next == cur + 1 && cur < goal && InReach(disk.words, next)
      requires oldmap == LastOf(cur) && newmap == AddrOf(disk.words, cur)
      modifies this`forest, this`minodes, disk, disk.freeblock
      ensures disk.Valid()
      ensures error == Ok || (error == ENOSPC && blk == 0)
      ensures blk == 0 ==> RunsOutAt(disk.words, |from.free|, low, cur)
      ensures blk == 0 ==> (error == Ok <==> !LacksRoot(disk.words, |from.free|, low, cur))
      ensures blk != 0 ==> ExpandState(disk.datablockStart, disk.words, counts, from, Now(), ino, low, next)
      ensures blk == 0 ==> ExpandFailed(disk.datablockStart, disk.words, from, Now(), ino, low, goal)
    {
      ghost var before := Now();
      error, blk := GrowNext(ino, oldmap, newmap, cur, SetCount(counts, ino, cur));
      if blk != 0 {
        ExpandStateStep(disk.datablockStart, disk.words, counts, from, before, Now(), ino, low, cur, next, blk);
      } else {
        ExpandStateFailed(disk.datablockStart, disk.words, counts, from, before, Now(), ino, low, cur, goal);
      }
    }

    /** Grow for block number `k`. */
    method GrowNext(ino: nat, oldmap: Addr, newmap: Addr, ghost k: nat, ghost counts: map<nat, nat>)
      returns (error: Status, blk: nat)
      requires Consistent() && ino in minodes && ino in counts
      requires Exact(disk.words, forest, counts) && counts[ino] == k && InReach(disk.words, k + 1)
      requires oldmap == LastOf(k) && newmap == AddrOf(disk.words, k)
      modifies this`forest, this`minodes, disk, disk.freeblock
      ensures Consistent()
      ensures Outcome(disk.datablockStart, disk.words, old(Now()), Now(), ino, AddrOf(disk.words, k), blk)
      ensures error == if old(disk.free) == [] && NewIndexBlocks(newmap) == newmap.level then ENOSPC else Ok
      ensures error != Ok ==> blk == 0
      ensures OnlyAddrDiffers(old(minodes), minodes, ino)
    {
      InReachSmaller(disk.words, k, k + 1);
      ExactCanGrow(disk.words, forest, counts, ino, newmap);
      NeedsRoot(disk.words, oldmap, newmap);
      error, blk := Grow(ino, oldmap, newmap);
    }

    /** The files whose sizes count are those of the disk: all but inode `ino`, which
        has blocks for `size` bytes. */
    ghost predicate ReadyToSave(ino: nat, size: nat)
      reads this, disk, disk.freeblock
    {
      && Consistent() && IsBlksize(Blksize()) && ino in minodes && IsSize(size)
      && Exact(disk.words, forest, SetCount(Counts(Blksize(), minodes), ino, BlockCount(Blksize(), size)))
      && (forall i :: i in minodes ==> IsDinode(minodes[i]) && IsSize(minodes[i].filesize))
    }

    /** Sets the size of a file that has the blocks for it, and writes the inode. */
    method SaveSize(ino: nat, size: nat) returns (ghost block: nat)
      requires ReadyToSave(ino, size)
      modifies this`minodes, disk`blocks
      ensures Valid()
      ensures minodes == SetSize(old(minodes), ino, size)
      ensures InodeSaved(Blksize(), disk.ilistSector, disk.datablockStart, old(disk.blocks), disk.blocks, ino,
                         minodes[ino])
      ensures block < disk.datablockStart && |disk.blocks| == |old(disk.blocks)|
      ensures forall b :: 0 <= b < |disk.blocks| && b != block ==> disk.blocks[b] == old(disk.blocks)[b]
    {
      ghost var minodes0 := minodes;
      CountsOfSetSize(Blksize(), minodes, ino, size);
      minodes := SetSize(minodes, ino, size);
      LinkedMinodes(disk.words, disk.datablockStart, disk.blocks, minodes0, minodes, forest, disk.free);
      block := IlistBlock(Blksize(), ino) + disk.ilistSector;
      if block >= disk.datablockStart {
        block := 0;
      }
      var error := InodeWriteback(ino);
    }

    /** The number of blocks of a file of `size` bytes. */
    method NumBlocks(size: nat) returns (count: nat)
      requires IsBlksize(Blksize()) && IsSize(size)
      ensures count == BlockCount(Blksize(), size)
    {
      RoundIsCeil(size, Blksize());
      count := Quotient(Round(size, Blksize()), Blksize());
    }

    /** The trees and the free list after a file grew from `low` to `high` blocks, and
        nothing else in use changed but the inode. */
    ghost predicate FileExpanded(from: Snapshot, ino: nat, low: nat, high: nat, size: nat)
      requires disk.words > 0
      reads this, disk
    {
      && Expanded(0, disk.words, from, Now(), ino, low, high)
      && Resized(from.minodes, minodes, ino, size)
      && InodeSaved(Blksize(), disk.ilistSector, disk.datablockStart, from.blocks, disk.blocks, ino, minodes[ino])
    }

    /** Saves the size of a file that has grown from `low` to `high` blocks. */
    method FinishExpand(ino: nat, size: nat, ghost from: Snapshot, ghost low: nat, ghost high: nat)
      requires ReadyToSave(ino, size)
      requires OnlyAddrDiffers(from.minodes, minodes, ino)
      requires Linked(disk.words, disk.datablockStart, from.blocks, from.minodes, from.forest, from.free)
      requires Expanded(disk.datablockStart, disk.words, from, Now(), ino, low, high)
      modifies this`minodes, disk`blocks
      ensures Valid()
      ensures FileExpanded(from, ino, low, high, size)
    {
      ghost var y := Now();
      SetSizeResizes(from.minodes, minodes, ino, size);
      ghost var block := SaveSize(ino, size);
      SaveIsElsewhere(disk.datablockStart, disk.words, from, y, Now(), ino, low, high, block);
    }

    /** After space ran out, every file has its old size and blocks. */
    lemma ValidAfterFailure(from: Snapshot, ino: nat, low: nat, high: nat)
      requires disk.Valid() && IsBlksize(Blksize()) && forest == from.forest
      requires ExpandFailed(disk.datablockStart, disk.words, from, Now(), ino, low, high)
      requires Exact(disk.words, from.forest, Counts(Blksize(), from.minodes))
      requires forall i :: i in from.minodes ==> IsDinode(from.minodes[i]) && IsSize(from.minodes[i].filesize)
      ensures Valid()
    {
      CountsOfOnlyAddr(Blksize(), from.minodes, minodes, ino);
      forall i | i in minodes ensures IsDinode(minodes[i]) && IsSize(minodes[i].filesize) {
        assert IsDinode(from.minodes[i]) && IsSize(from.minodes[i].filesize);
      }
    }

    /** After all blocks were added, the size may be saved. */
    lemma ReadyAfterExpand(from: Snapshot, ino: nat, low: nat, high: nat, size: nat)
      requires disk.Valid() && IsBlksize(Blksize()) && IsSize(size) && high == BlockCount(Blksize(), size)
      requires ExpandState(disk.datablockStart, disk.words, Counts(Blksize(), from.minodes), from, Now(), ino, low,
                           high)
      requires forall i :: i in from.minodes ==> IsDinode(from.minodes[i]) && IsSize(from.minodes[i].filesize)
      ensures ReadyToSave(ino, size)
    {
      CountsOfOnlyAddr(Blksize(), from.minodes, minodes, ino);
      forall i | i in minodes ensures IsDinode(minodes[i]) && IsSize(minodes[i].filesize) {
        assert IsDinode(from.minodes[i]) && IsSize(from.minodes[i].filesize);
      }
    }

    lemma LastIsSize(size: nat, sz: nat, required: nat)
      requires IsBlksize(Blksize()) && IsSize(size) && IsSize(size + sz)
      requires BlockCount(Blksize(), size + sz) == BlockCount(Blksize(), size) + required
      ensures IsSize(size + Times(required, Blksize()))
    {
      SizeOfLast(Blksize(), size, sz, required);
    }

    /** Growing a file to a larger size succeeds exactly if there are enough free
        blocks; otherwise none remains free, and no file has changed. */
    ghost predicate ExpandOutcome(from: Snapshot, ino: nat, size: nat, newsz: nat, error: Status)
      requires disk.words > 0
      reads this, disk
    {
      var low, high := BlockCount(Blksize(), size), BlockCount(Blksize(), newsz);
      && low <= high && TotalBlocks(disk.words, low) <= TotalBlocks(disk.words, high)
      && if |from.free| >= TotalBlocks(disk.words, high) - TotalBlocks(disk.words, low)
         then error == Ok && FileExpanded(from, ino, low, high, newsz)
         else
           && error == ENOSPC && disk.free == [] && forest == from.forest
           && OnlyAddrDiffers(from.minodes, minodes, ino) && IsRestored(disk.words, from, minodes, low, high)
           && SameElsewhere(from.blocks, disk.blocks, forest, ino, disk.datablockStart)
    }

    /** Makes a file `sz` bytes larger. */
    method Expand(ino: nat, sz: nat, ghost newsz: nat) returns (error: Status)
      requires Valid() && ino in minodes && IsSize(newsz) && newsz == minodes[ino].filesize + sz
      modifies this`forest, this`minodes, disk, disk.freeblock
      ensures Valid()
      ensures ExpandOutcome(old(Now()), ino, old(minodes[ino].filesize), newsz, error)
    {
      ghost var from, counts := Now(), Counts(Blksize(), minodes);
      var oldSize := minodes[ino].filesize;
      var oldNblk := NumBlocks(oldSize);
      var newNblk := NumBlocks(oldSize + sz);
      BlockCountMonotone(Blksize(), oldSize, newsz);
      TotalBlocksMonotone(disk.words, oldNblk, newNblk);
      ExpandStateStart(disk.datablockStart, disk.words, counts, from, ino);
      if oldNblk == newNblk {
        ReadyAfterExpand(from, ino, oldNblk, newNblk, newsz);
        FinishExpand(ino, oldSize + sz, from, oldNblk, newNblk);
        return Ok;
      }
      var requiredBlk := newNblk - oldNblk;
      LastIsSize(oldSize, sz, requiredBlk);
      var oldmap := AddrOfSize(oldSize);
      error := ExpandBlocks(ino, oldSize, oldmap, oldNblk, newNblk, requiredBlk, from, counts);
      if error != Ok {
        ValidAfterFailure(from, ino, oldNblk, newNblk);
        return;
      }
      ReadyAfterExpand(from, ino, oldNblk, newNblk, newsz);
      FinishExpand(ino, oldSize + sz, from, oldNblk, newNblk);
    }

    /** The address of the block before the i-th block removed from a file of `oldSize`
        bytes, if there is one; some address of level 0 otherwise. */
    method PrevAddr(oldSize: nat, i: nat, ghost left: nat) returns (map_: Addr)
      requires IsBlksize(Blksize()) && IsSize(oldSize) && i + 1 + left == BlockCount(Blksize(), oldSize)
      ensures if left == 0 then map_.level == 0 else map_ == AddrOf(disk.words, left - 1)
    {
      SizeLess(Blksize(), oldSize, i + 1);
      TimesIsProduct(i + 1, Blksize());
      if (i + 1) * Blksize() <= oldSize {
        AddressableSmaller(Blksize(), left, BlockCount(Blksize(), oldSize));
      }
      var size := Wrap(oldSize - (i + 1) * Blksize());
      if size == 0 {
        BlockCountZero(Blksize());
      }
      var r := LastAddr(Blksize(), size);
      map_ := r.value;
    }

    /** Shrink for block number `k`, the last one. */
    method ShrinkNext(ino: nat, oldmap: Addr, newmap: Addr, ghost k: nat, ghost counts: map<nat, nat>)
      returns (error: Status)
      requires Consistent() && ino in minodes && ino in counts
      requires Exact(disk.words, forest, counts) && counts[ino] == k + 1 && InReach(disk.words, k + 1)
      requires oldmap == AddrOf(disk.words, k)
      requires if k == 0 then newmap.level == 0 else newmap == AddrOf(disk.words, k - 1)
      modifies this`forest, this`minodes, disk, disk.freeblock
      ensures Consistent() && error == Ok
      ensures Shrunk(disk.datablockStart, old(Now()), Now(), ino, AddrOf(disk.words, k),
                     NewIndexBlocks(AddrOf(disk.words, k)) + 1)
      ensures OnlyAddrDiffers(old(minodes), minodes, ino)
    {
      ExactIsLast(disk.words, forest, counts, ino);
      if k > 0 {
        InReachSmaller(disk.words, k, k + 1);
        NumberOfAddr(disk.words, k);
        NumberOfAddr(disk.words, 0);
      }
      error := Shrink(ino, oldmap, newmap);
    }

    /** Removes block number `next`, the last of `cur` blocks. */
    method ContractOne(ino: nat, oldmap: Addr, newmap: Addr, ghost counts: map<nat, nat>, ghost from: Snapshot,
                       ghost high: nat, ghost cur: nat, ghost next: nat)
      returns (error: Status)
      requires disk.Valid()
      requires ContractState(disk.datablockStart, disk.words, counts, from, Now(), ino, high, cur)
      requires cur == next + 1 && InReach(disk.words, cur)
      requires oldmap == AddrOf(disk.words, next)
      requires if next == 0 then newmap.level == 0 else newmap == AddrOf(disk.words, next - 1)
      modifies this`forest, this`minodes, disk, disk.freeblock
      ensures disk.Valid() && error == Ok
      ensures ContractState(disk.datablockStart, disk.words, counts, from, Now(), ino, high, next)
    {
      ghost var before := Now();
      error := ShrinkNext(ino, oldmap, newmap, next, SetCount(counts, ino, cur));
      ContractStateStep(disk.datablockStart, disk.words, counts, from, before, Now(), ino, high, cur, next);
    }

    /** An address of the last of `count` blocks, if there is one. */
    predicate IsLastOf(a: Addr, count: nat)
    {
      count > 0 ==> a == AddrOf(disk.words, count - 1)
    }

    /** Removes the last `eraseBlk` of `high` blocks. */
    method ContractBlocks(ino: nat, oldSize: nat, oldmap0: Addr, ghost high: nat, ghost low: nat, eraseBlk: nat,
                          ghost from: Snapshot, ghost counts: map<nat, nat>)
      returns (error: Status)
      requires disk.Valid() && IsBlksize(Blksize()) && from == Now()
      requires ContractState(disk.datablockStart, disk.words, counts, from, Now(), ino, high, high)
      requires high == BlockCount(Blksize(), oldSize) && high == low + eraseBlk
      requires IsSize(oldSize) && oldmap0 == LastOf(high)
      modifies this`forest, this`minodes, disk, disk.freeblock
      ensures disk.Valid() && error == Ok
      ensures ContractState(disk.datablockStart, disk.words, counts, from, Now(), ino, high, low)
    {
      error := Ok;
      var oldmap, i := oldmap0, 0;
      ghost var cur := high;
      while i < eraseBlk
        invariant 0 <= i <= eraseBlk && cur + i == high && IsLastOf(oldmap, cur)
        invariant disk.Valid() && ContractState(disk.datablockStart, disk.words, counts, from, Now(), ino, high, cur)
        invariant error == Ok
      {
        ghost var next := cur - 1;
        error, oldmap := ContractIteration(ino, oldSize, oldmap, i, from, counts, high, cur, next);
        i := i + 1;
        cur := next;
      }
      assert cur == low;
    }

    /** One pass of the loop: block number `next`, the last of `cur`. */
    method ContractIteration(ino: nat, oldSize: nat, oldmap: Addr, i: nat, ghost from: Snapshot,
                             ghost counts: map<nat, nat>,
                             ghost high: nat, ghost cur: nat, ghost next: nat)
      returns (error: Status, newmap: Addr)
      requires disk.Valid() && IsBlksize(Blksize()) && IsSize(oldSize)
      requires ContractState(disk.datablockStart, disk.words, counts, from, Now(), ino, high, cur)
      requires high == BlockCount(Blksize(), oldSize) && cur + i == high && cur == next + 1 && IsLastOf(oldmap, cur)
      modifies this`forest, this`minodes, disk, disk.freeblock
      ensures disk.Valid() && error == Ok
      ensures ContractState(disk.datablockStart, disk.words, counts, from, Now(), ino, high, next)
      ensures IsLastOf(newmap, next)
    {
      SizeInReach(oldSize, high, cur);
      newmap := PrevAddr(oldSize, i, next);
      error := ContractOne(ino, oldmap, newmap, counts, from, high, cur, next);
    }

    lemma SizeInReach(size: nat, high: nat, cur: nat)
      requires IsSize(size) && high == BlockCount(Blksize(), size) && cur <= high
      ensures disk.words > 0 && InReach(disk.words, cur)
    {
      assert Blksize() / 4 == disk.words;
      InReachSmaller(disk.words, cur, high);
    }

    /** The trees and the free list after a file shrank from `high` to `low` blocks, and
        nothing else in use changed but the inode. */
    ghost predicate FileContracted(from: Snapshot, ino: nat, high: nat, low: nat, size: nat)
      requires disk.words > 0
      reads this, disk
    {
      && Contracted(0, disk.words, from, Now(), ino, high, low)
      && Resized(from.minodes, minodes, ino, size)
      && InodeSaved(Blksize(), disk.ilistSector, disk.datablockStart, from.blocks, disk.blocks, ino, minodes[ino])
    }

    /** Saves the size of a file that has shrunk from `high` to `low` blocks. */
    method FinishContract(ino: nat, size: nat, ghost from: Snapshot, ghost high: nat, ghost low: nat)
      requires ReadyToSave(ino, size)
      requires OnlyAddrDiffers(from.minodes, minodes, ino)
      requires Contracted(disk.datablockStart, disk.words, from, Now(), ino, high, low)
      modifies this`minodes, disk`blocks
      ensures Valid()
      ensures FileContracted(from, ino, high, low, size)
    {
      ghost var y := Now();
      SetSizeResizes(from.minodes, minodes, ino, size);
      ghost var block := SaveSize(ino, size);
      SaveIsElsewhere'(disk.datablockStart, disk.words, from, y, Now(), ino, high, low, block);
    }

    /** After the blocks were removed, the size may be saved. */
    lemma ReadyAfterContract(from: Snapshot, ino: nat, high: nat, low: nat, size: nat)
      requires disk.Valid() && IsBlksize(Blksize()) && IsSize(size) && low == BlockCount(Blksize(), size)
      requires ContractState(disk.datablockStart, disk.words, Counts(Blksize(), from.minodes), from, Now(), ino, high,
                             low)
      requires forall i :: i in from.minodes ==> IsDinode(from.minodes[i]) && IsSize(from.minodes[i].filesize)
      ensures ReadyToSave(ino, size)
    {
      CountsOfOnlyAddr(Blksize(), from.minodes, minodes, ino);
      forall i | i in minodes ensures IsDinode(minodes[i]) && IsSize(minodes[i].filesize) {
        assert IsDinode(from.minodes[i]) && IsSize(from.minodes[i].filesize);
      }
    }

    lemma SmallerIsSize(size: nat, sz: nat)
      requires IsBlksize(Blksize()) && sz <= size && IsSize(size)
      ensures IsSize(size - sz) && BlockCount(Blksize(), size - sz) <= BlockCount(Blksize(), size)
    {
      BlockCountMonotone(Blksize(), size - sz, size);
      AddressableSmaller(Blksize(), BlockCount(Blksize(), size - sz), BlockCount(Blksize(), size));
    }

    /** Makes a file `sz` bytes smaller. */
    method Contract(ino: nat, sz: nat, ghost newsz: nat) returns (error: Status)
      requires Valid() && ino in minodes && newsz == minodes[ino].filesize - sz
      modifies this`forest, this`minodes, disk, disk.freeblock
      ensures Valid() && error == Ok
      ensures FileContracted(old(Now()), ino, BlockCount(Blksize(), old(minodes[ino].filesize)),
                             BlockCount(Blksize(), newsz), newsz)
    {
      ghost var from, counts := Now(), Counts(Blksize(), minodes);
      var oldSize := minodes[ino].filesize;
      var newSize := oldSize - sz;
      SmallerIsSize(oldSize, sz);
      var oldNblk := NumBlocks(oldSize);
      var newNblk := NumBlocks(newSize);
      ContractStateStart(disk.datablockStart, disk.words, counts, from, ino);
      error := Ok;
      if oldNblk != newNblk {
        var eraseBlk := oldNblk - newNblk;
        var oldmap := AddrOfSize(oldSize);
        error := ContractBlocks(ino, oldSize, oldmap, oldNblk, newNblk, eraseBlk, from, counts);
      }
      ReadyAfterContract(from, ino, oldNblk, newNblk, newSize);
      FinishContract(ino, newSize, from, oldNblk, newNblk);
    }

    /** Sets the size of a file.  The difference of the sizes is taken in 32-bit two's
        complement. */
    method SizeChange(newsz: nat, ino: nat) returns (error: Status)
      requires Valid() && ino in minodes && IsSize(newsz)
      requires -TWO_TO_31 < newsz - minodes[ino].filesize < TWO_TO_31
      modifies this`forest, this`minodes, disk, disk.freeblock
      ensures Valid()
      ensures var size := old(minodes[ino].filesize);
              && (newsz == size ==> error == Ok && Now() == old(Now()))
              && (newsz < size ==>
                    && error == Ok
                    && FileContracted(old(Now()), ino, BlockCount(Blksize(), size),
                                      BlockCount(Blksize(), newsz), newsz))
              && (newsz > size ==> ExpandOutcome(old(Now()), ino, size, newsz, error))
    {
      var size := minodes[ino].filesize;
      SignedExactly(newsz, size);
      var diff := Signed(newsz - size);
      error := Ok;
      if diff > 0 {
        error := Expand(ino, diff, newsz);
      } else if diff < 0 {
        error := Contract(ino, -diff, newsz);
      }
    }
  }
}

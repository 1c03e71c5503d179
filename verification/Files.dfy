/** What the trees mean: which block of the disk holds which block of which file. */
module Files {
  import opened Blocks
  import opened Addressing
  import opened DatablockAddr
  import opened Forests
  import opened SizeChanges

  /** A disk, its inodes and its free list as every operation leaves them. */
  ghost predicate IsFileSystem(n: nat, lo: nat, x: Snapshot)
  {
    && n > 0
    && Linked(n, lo, x.blocks, x.minodes, x.forest, x.free)
    && Exact(n, x.forest, Counts(4 * n, x.minodes))
    && NoDuplicates(x.free)
    && forall i :: i in x.minodes ==> InReach(n, BlockCount(4 * n, x.minodes[i].filesize))
  }

  /** The number of blocks of a file. */
  function Nblk(n: nat, x: Snapshot, ino: nat): nat
    requires n > 0 && ino in x.minodes
  {
    BlockCount(4 * n, x.minodes[ino].filesize)
  }

  /** Word w of a block, 0 if there is none. */
  function WordOf(blocks: seq<Block>, b: nat, w: nat): nat
  {
    if b < |blocks| && w < |blocks[b]| then blocks[b][w] else 0
  }

  /** The block at a position, found by following the numbers in the inode and the
      index blocks; 0 if there is none. */
  function Walk(blocks: seq<Block>, minodes: map<nat, Dinode>, s: Slot): nat
    decreases s.addr.level - s.height
  {
    if s.ino !in minodes then 0
    else if s.height < s.addr.level && Parent(s).addr.level == s.addr.level && s.height < Parent(s).height then
      WordOf(blocks, Walk(blocks, minodes, Parent(s)), WordIndex(s))
    else if RootIndex(s.addr) < |minodes[s.ino].addr| then minodes[s.ino].addr[RootIndex(s.addr)]
    else 0
  }

  lemma WalkStep(n: nat, blocks: seq<Block>, minodes: map<nat, Dinode>, s: Slot)
    requires IsSlot(n, s) && s.ino in minodes
    ensures if s.height < s.addr.level then
              Walk(blocks, minodes, s) == WordOf(blocks, Walk(blocks, minodes, Parent(s)), WordIndex(s))
            else RootIndex(s.addr) < |minodes[s.ino].addr| ==>
              Walk(blocks, minodes, s) == minodes[s.ino].addr[RootIndex(s.addr)]
  {
    if s.height < s.addr.level {
      ParentIsSlot(n, s);
    }
  }

  /** One step of the walk finds the right block if the step before does. */
  lemma WalkReaches(n: nat, lo: nat, x: Snapshot, s: Slot)
    requires Linked(n, lo, x.blocks, x.minodes, x.forest, x.free) && s in x.forest.at
    requires s.height < s.addr.level ==>
               Parent(s) in x.forest.at && Walk(x.blocks, x.minodes, Parent(s)) == x.forest.at[Parent(s)]
    ensures Walk(x.blocks, x.minodes, s) == x.forest.at[s]
  {
    assert IsReached(n, x.blocks, x.minodes, x.forest, s);
    WalkStep(n, x.blocks, x.minodes, s);
  }

  lemma {:induction false} WalkFinds(n: nat, lo: nat, x: Snapshot, s: Slot)
    requires Linked(n, lo, x.blocks, x.minodes, x.forest, x.free) && s in x.forest.at
    ensures Walk(x.blocks, x.minodes, s) == x.forest.at[s]
    decreases s.addr.level - s.height
  {
    assert IsReached(n, x.blocks, x.minodes, x.forest, s);
    if s.height < s.addr.level {
      ParentIsSlot(n, s);
      WalkFinds(n, lo, x, Parent(s));
    }
    WalkReaches(n, lo, x, s);
  }

  /** The position is that of a leaf within the file size of its inode, or of an
      index block above one. */
  ghost predicate InUse(n: nat, x: Snapshot, s: Slot)
    requires n > 0
  {
    s.ino in x.minodes && Owns(n, s, Nblk(n, x, s.ino))
  }

  lemma InUseIsOwned(n: nat, lo: nat, x: Snapshot, s: Slot)
    requires IsFileSystem(n, lo, x)
    ensures InUse(n, x, s) <==> s in x.forest.at
  {
  }

  /** No block is used twice: not at two positions of the same or different files,
      and not in a file and on the free list. */
  lemma SingleOwner(n: nat, lo: nat, x: Snapshot, s: Slot, t: Slot)
    requires IsFileSystem(n, lo, x) && InUse(n, x, s) && InUse(n, x, t)
    ensures lo <= Walk(x.blocks, x.minodes, s) < |x.blocks| && Walk(x.blocks, x.minodes, s) !in x.free
    ensures Walk(x.blocks, x.minodes, s) == Walk(x.blocks, x.minodes, t) ==> s == t
  {
    InUseIsOwned(n, lo, x, s);
    InUseIsOwned(n, lo, x, t);
    WalkFinds(n, lo, x, s);
    WalkFinds(n, lo, x, t);
    assert x.forest.owner[x.forest.at[s]] == s && x.forest.owner[x.forest.at[t]] == t;
  }

  /** The leaves of a file, in order. */
  function Leaves(n: nat, x: Snapshot, ino: nat): seq<nat>
    requires n > 0 && ino in x.minodes
  {
    seq(Nblk(n, x, ino), k requires 0 <= k < Nblk(n, x, ino) => Walk(x.blocks, x.minodes, Leaf(n, ino, k)))
  }

  lemma LeafInUse(n: nat, lo: nat, x: Snapshot, ino: nat, k: nat)
    requires IsFileSystem(n, lo, x) && ino in x.minodes && k < Nblk(n, x, ino)
    ensures var s := Leaf(n, ino, k);
            && s in x.forest.at && x.forest.at[s] < |x.blocks| && Leaves(n, x, ino)[k] == x.forest.at[s]
            && x.forest.at[s] in x.forest.owner && x.forest.owner[x.forest.at[s]] == s
  {
    LeafIsOwned(n, ino, k, Nblk(n, x, ino));
    WalkFinds(n, lo, x, Leaf(n, ino, k));
  }

  /** The first leaf of a file is the first number in its inode. */
  lemma FirstLeaf(n: nat, x: Snapshot, ino: nat)
    requires n > 0 && ino in x.minodes && Nblk(n, x, ino) > 0 && |x.minodes[ino].addr| == NADDR
    ensures Leaves(n, x, ino)[0] == x.minodes[ino].addr[0]
  {
  }

  /** The contents of a file, block by block. */
  ghost function FileBlocks(n: nat, lo: nat, x: Snapshot, ino: nat): seq<Block>
    requires IsFileSystem(n, lo, x) && ino in x.minodes
  {
    seq(Nblk(n, x, ino), k requires 0 <= k < Nblk(n, x, ino) =>
      LeafInUse(n, lo, x, ino, k);
      x.blocks[Leaves(n, x, ino)[k]])
  }

  /** Leaf number k stays in place with its contents. */
  lemma LeafStays(n: nat, lo: nat, x: Snapshot, y: Snapshot, f: Forest, ino: nat, j: nat, k: nat)
    requires IsFileSystem(n, lo, x) && IsFileSystem(n, lo, y)
    requires j in x.minodes && j in y.minodes && k < Nblk(n, x, j) && k < Nblk(n, y, j)
    requires Extends(f, x.forest) && Extends(f, y.forest) && Leaf(n, j, k) in f.at && f.at[Leaf(n, j, k)] in f.owner
    requires SameElsewhere(x.blocks, y.blocks, f, ino, 0)
    ensures Leaves(n, y, j)[k] == Leaves(n, x, j)[k]
    ensures FileBlocks(n, lo, y, j)[k] == FileBlocks(n, lo, x, j)[k]
  {
    LeafInUse(n, lo, x, j, k);
    LeafInUse(n, lo, y, j, k);
  }

  /** Growing a file appends clear blocks, taken from the free list, and changes
      neither the blocks it had nor those of any other file. */
  lemma ExpandAppends(n: nat, lo: nat, x: Snapshot, y: Snapshot, ino: nat, j: nat, size: nat)
    requires IsFileSystem(n, lo, x) && IsFileSystem(n, lo, y) && j in x.minodes
    requires Resized(x.minodes, y.minodes, ino, size)
    requires Expanded(0, n, x, y, ino, Nblk(n, x, ino), Nblk(n, y, ino))
    ensures j != ino ==> Leaves(n, y, j) == Leaves(n, x, j) && FileBlocks(n, lo, y, j) == FileBlocks(n, lo, x, j)
    ensures var added := Nblk(n, y, ino) - Nblk(n, x, ino);
            FileBlocks(n, lo, y, ino) == FileBlocks(n, lo, x, ino) + seq(added, _ => ZeroBlock(n))
    ensures Leaves(n, x, ino) == Leaves(n, y, ino)[..Nblk(n, x, ino)]
    ensures forall k :: Nblk(n, x, ino) <= k < Nblk(n, y, ino) ==> Leaves(n, y, ino)[k] in x.free
  {
    forall i, k | i in x.minodes && 0 <= k < Nblk(n, x, i)
      ensures Leaves(n, y, i)[k] == Leaves(n, x, i)[k] && FileBlocks(n, lo, y, i)[k] == FileBlocks(n, lo, x, i)[k]
    {
      LeafInUse(n, lo, x, i, k);
      LeafStays(n, lo, x, y, x.forest, ino, i, k);
    }
    forall k | Nblk(n, x, ino) <= k < Nblk(n, y, ino)
      ensures Leaves(n, y, ino)[k] in x.free && FileBlocks(n, lo, y, ino)[k] == ZeroBlock(n)
    {
      LeafInUse(n, lo, y, ino, k);
      assert IsClearLeaf(n, y, ino, k);
      NotOwnedBeyond(n, ino, k, Nblk(n, x, ino));
    }
    assert Leaves(n, x, ino) == Leaves(n, y, ino)[..Nblk(n, x, ino)];
  }

  lemma NotOwnedBeyond(n: nat, ino: nat, k: nat, count: nat)
    requires n > 0 && count <= k
    ensures !Owns(n, Leaf(n, ino, k), count)
  {
    if count > 0 {
      AddrOrder(n, k, count - 1);
    }
  }

  /** Shrinking a file keeps a prefix of its blocks, in place, and changes no other file. */
  lemma ContractKeepsPrefix(n: nat, lo: nat, x: Snapshot, y: Snapshot, ino: nat, j: nat, size: nat)
    requires IsFileSystem(n, lo, x) && IsFileSystem(n, lo, y) && j in x.minodes
    requires Resized(x.minodes, y.minodes, ino, size)
    requires Contracted(0, n, x, y, ino, Nblk(n, x, ino), Nblk(n, y, ino))
    ensures j != ino ==> Leaves(n, y, j) == Leaves(n, x, j) && FileBlocks(n, lo, y, j) == FileBlocks(n, lo, x, j)
    ensures Leaves(n, y, ino) == Leaves(n, x, ino)[..Nblk(n, y, ino)]
    ensures FileBlocks(n, lo, y, ino) == FileBlocks(n, lo, x, ino)[..Nblk(n, y, ino)]
  {
    forall i, k | i in x.minodes && 0 <= k < Nblk(n, y, i)
      ensures Leaves(n, y, i)[k] == Leaves(n, x, i)[k] && FileBlocks(n, lo, y, i)[k] == FileBlocks(n, lo, x, i)[k]
    {
      LeafInUse(n, lo, y, i, k);
      LeafStays(n, lo, x, y, y.forest, ino, i, k);
    }
  }

  /** What shrinking frees is exactly what was in use and no longer is. */
  lemma ContractFrees(n: nat, lo: nat, x: Snapshot, y: Snapshot, ino: nat, b: nat)
    requires IsFileSystem(n, lo, x) && IsFileSystem(n, lo, y) && ino in x.minodes && ino in y.minodes
    requires Contracted(0, n, x, y, ino, Nblk(n, x, ino), Nblk(n, y, ino))
    ensures b in y.free <==> b in x.free || (b in x.forest.owner && b !in y.forest.owner)
  {
    if b in x.free {
      assert b in y.free[..|x.free|];
    }
    if b in x.forest.owner && b !in y.forest.owner {
      var s := x.forest.owner[b];
      assert s in x.forest.at && x.forest.at[s] == b;
    }
  }

  /** What growing takes off the free list is exactly what comes into use. */
  lemma ExpandTakes(n: nat, lo: nat, x: Snapshot, y: Snapshot, ino: nat, b: nat)
    requires IsFileSystem(n, lo, x) && IsFileSystem(n, lo, y) && ino in x.minodes && ino in y.minodes
    requires Expanded(0, n, x, y, ino, Nblk(n, x, ino), Nblk(n, y, ino))
    ensures b in x.free <==> b in y.free || (b in y.forest.owner && b !in x.forest.owner)
  {
    if b in y.free {
      assert b in x.free[..|y.free|];
    }
    if b in y.forest.owner && b !in x.forest.owner {
      var s := y.forest.owner[b];
      assert s in y.forest.at && y.forest.at[s] == b;
    }
  }

  /** Growing a file and shrinking it to its former size restores the set of free
      blocks, the trees, and all contents. */
  lemma ExpandContractRestores(n: nat, lo: nat, x: Snapshot, y: Snapshot, z: Snapshot, ino: nat, size: nat)
    requires IsFileSystem(n, lo, x) && IsFileSystem(n, lo, y) && IsFileSystem(n, lo, z) && ino in x.minodes
    requires Resized(x.minodes, y.minodes, ino, size) && Resized(y.minodes, z.minodes, ino, x.minodes[ino].filesize)
    requires Expanded(0, n, x, y, ino, Nblk(n, x, ino), Nblk(n, y, ino))
    requires Contracted(0, n, y, z, ino, Nblk(n, y, ino), Nblk(n, z, ino))
    ensures z.forest.at == x.forest.at
    ensures |z.free| == |x.free| && forall b :: b in z.free <==> b in x.free
    ensures forall j :: j in x.minodes ==> FileBlocks(n, lo, z, j) == FileBlocks(n, lo, x, j)
  {
    SameTrees(n, lo, x, y, z, ino, size);
    forall b ensures b in z.free <==> b in x.free {
      ExpandTakes(n, lo, x, y, ino, b);
      ContractFrees(n, lo, y, z, ino, b);
      SameOwner(n, lo, x, z, b);
    }
    forall j | j in x.minodes ensures FileBlocks(n, lo, z, j) == FileBlocks(n, lo, x, j) {
      ExpandAppends(n, lo, x, y, ino, j, size);
      ContractKeepsPrefix(n, lo, y, z, ino, j, x.minodes[ino].filesize);
    }
  }

  lemma SameTrees(n: nat, lo: nat, x: Snapshot, y: Snapshot, z: Snapshot, ino: nat, size: nat)
    requires IsFileSystem(n, lo, x) && IsFileSystem(n, lo, z) && ino in x.minodes
    requires Resized(x.minodes, y.minodes, ino, size) && Resized(y.minodes, z.minodes, ino, x.minodes[ino].filesize)
    requires Extends(x.forest, y.forest) && Extends(z.forest, y.forest)
    ensures z.forest.at == x.forest.at
  {
    SameCounts(n, x, z);
    forall s ensures s in z.forest.at <==> s in x.forest.at {
      InUseIsOwned(n, lo, x, s);
      InUseIsOwned(n, lo, z, s);
    }
    assert forall s :: s in x.forest.at ==> z.forest.at[s] == x.forest.at[s];
  }

  lemma SameCounts(n: nat, x: Snapshot, z: Snapshot)
    requires n > 0 && z.minodes.Keys == x.minodes.Keys
    requires forall i :: i in x.minodes ==> z.minodes[i].filesize == x.minodes[i].filesize
    ensures Counts(4 * n, z.minodes) == Counts(4 * n, x.minodes)
  {
  }

  lemma SameOwner(n: nat, lo: nat, x: Snapshot, z: Snapshot, b: nat)
    requires IsFileSystem(n, lo, x) && IsFileSystem(n, lo, z) && z.forest.at == x.forest.at
    ensures b in z.forest.owner <==> b in x.forest.owner
  {
    if b in z.forest.owner {
      assert x.forest.at[z.forest.owner[b]] == b;
    }
    if b in x.forest.owner {
      assert z.forest.at[x.forest.owner[b]] == b;
    }
  }

  /** When growing failed, every file has the blocks and contents it had. */
  lemma FailureKeepsFiles(n: nat, lo: nat, x: Snapshot, y: Snapshot, ino: nat, j: nat)
    requires IsFileSystem(n, lo, x) && IsFileSystem(n, lo, y) && j in x.minodes
    requires OnlyAddrDiffers(x.minodes, y.minodes, ino) && y.forest == x.forest
    requires SameElsewhere(x.blocks, y.blocks, x.forest, ino, lo)
    ensures j in y.minodes && Leaves(n, y, j) == Leaves(n, x, j) && FileBlocks(n, lo, y, j) == FileBlocks(n, lo, x, j)
  {
    assert y.minodes[j].filesize == x.minodes[j].filesize;
    forall k | 0 <= k < Nblk(n, x, j)
      ensures Leaves(n, y, j)[k] == Leaves(n, x, j)[k] && FileBlocks(n, lo, y, j)[k] == FileBlocks(n, lo, x, j)[k]
    {
      LeafInUse(n, lo, x, j, k);
      LeafInUse(n, lo, y, j, k);
    }
  }

  /** When growing failed, every block that was free is lost: it is in no file, and no
      longer on the free list. */
  lemma FailureLosesFree(n: nat, lo: nat, x: Snapshot, y: Snapshot, b: nat)
    requires IsFileSystem(n, lo, x) && IsFileSystem(n, lo, y) && y.free == [] && y.forest == x.forest && b in x.free
    ensures b !in y.free && forall s :: InUse(n, y, s) ==> Walk(y.blocks, y.minodes, s) != b
  {
    forall s | InUse(n, y, s) ensures Walk(y.blocks, y.minodes, s) != b {
      InUseIsOwned(n, lo, y, s);
      WalkFinds(n, lo, y, s);
      assert y.forest.at[s] in x.forest.owner;
    }
  }

  /** The blocks a change of size takes or gives, in closed form. */
  lemma Conservation(n: nat, x: Snapshot, y: Snapshot, ino: nat, low: nat, high: nat)
    requires n > 0 && low <= high
    ensures Expanded(0, n, x, y, ino, low, high) ==>
              |x.free| - |y.free| == (high - low) + (IndexBlocks(n, high) - IndexBlocks(n, low))
    ensures Contracted(0, n, x, y, ino, high, low) ==>
              |y.free| - |x.free| == (high - low) + (IndexBlocks(n, high) - IndexBlocks(n, low))
  {
    TotalBlocksClosed(n, low);
    TotalBlocksClosed(n, high);
  }

  lemma SlotFromDisk(n: nat, lo: nat, x: Snapshot, y: Snapshot, s: Slot)
    requires IsFileSystem(n, lo, x) && IsFileSystem(n, lo, y)
    requires x.blocks == y.blocks && x.minodes == y.minodes
    ensures s in x.forest.at <==> s in y.forest.at
    ensures s in x.forest.at ==> x.forest.at[s] == y.forest.at[s]
  {
    InUseIsOwned(n, lo, x, s);
    InUseIsOwned(n, lo, y, s);
    if s in x.forest.at {
      WalkFinds(n, lo, x, s);
      WalkFinds(n, lo, y, s);
    }
  }

  /** The trees can be told from the disk and the inodes alone. */
  lemma TreesFromDisk(n: nat, lo: nat, x: Snapshot, y: Snapshot)
    requires IsFileSystem(n, lo, x) && IsFileSystem(n, lo, y)
    requires x.blocks == y.blocks && x.minodes == y.minodes
    ensures x.forest.at == y.forest.at
  {
    forall s: Slot
      ensures s in x.forest.at <==> s in y.forest.at
      ensures s in x.forest.at ==> x.forest.at[s] == y.forest.at[s]
    {
      SlotFromDisk(n, lo, x, y, s);
    }
  }

  // ---------- free blocks ----------

  /** The number of blocks a file of `size` bytes uses. */
  function Need(n: nat, size: nat): nat
    requires n > 0
  {
    TotalBlocks(n, BlockCount(4 * n, size))
  }

  lemma NeedMonotone(n: nat, size: nat, size': nat)
    requires n > 0 && size <= size'
    ensures Need(n, size) <= Need(n, size')
  {
    BlockCountMonotone(4 * n, size, size');
    TotalBlocksMonotone(n, BlockCount(4 * n, size), BlockCount(4 * n, size'));
  }

  /** The number of free blocks and of those a file uses. */
  ghost function Budget(n: nat, x: Snapshot, ino: nat): nat
    requires n > 0 && ino in x.minodes
  {
    |x.free| + Need(n, x.minodes[ino].filesize)
  }

  /** There are enough free blocks to make a file at least `size` bytes large. */
  ghost predicate HasRoom(n: nat, x: Snapshot, ino: nat, size: nat)
    requires n > 0 && ino in x.minodes
  {
    size > x.minodes[ino].filesize ==> Budget(n, x, ino) >= Need(n, size)
  }
}

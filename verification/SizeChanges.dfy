/** What changing the size of a file by several blocks does to the forest. */
module SizeChanges {
  import opened Blocks
  import opened Addressing
  import opened DatablockAddr
  import opened Forests
  import opened InodeDisk

  /** The position of block number k of inode `ino`. */
  function Leaf(n: nat, ino: nat, k: nat): Slot
  {
    Slot(ino, AddrOf(n, k), 0)
  }

  lemma LeafIsOwned(n: nat, ino: nat, k: nat, count: nat)
    requires n > 0 && k < count && InReach(n, count)
    ensures Owns(n, Leaf(n, ino, k), count)
  {
    InReachSmaller(n, k + 1, count);
    AddrOrder(n, k, count - 1);
  }

  /** Block counts of all inodes. */
  function Counts(blksize: nat, minodes: map<nat, Dinode>): map<nat, nat>
    requires blksize > 0
  {
    map i | i in minodes :: BlockCount(blksize, minodes[i].filesize)
  }

  /** From x to y, inode `ino` grew from `low` to `high` blocks: blocks in use
      keep their places, the new blocks are those popped off the free list, one
      for each leaf and index block, the new leaves are clear, and no other
      block in use changed, except index blocks of `ino`. */
  ghost predicate Expanded(lo: nat, n: nat, x: Snapshot, y: Snapshot, ino: nat, low: nat, high: nat)
    requires n > 0
  {
    && low <= high
    && |x.free| == |y.free| + TotalBlocks(n, high) - TotalBlocks(n, low) && |y.free| <= |x.free|
    && y.free == x.free[..|y.free|]
    && Extends(x.forest, y.forest)
    && (forall s :: s in y.forest.at && s !in x.forest.at ==> s.ino == ino && y.forest.at[s] in x.free)
    && (forall b :: b in x.free ==> b in y.free || b in y.forest.owner)
    && SameElsewhere(x.blocks, y.blocks, x.forest, ino, lo)
    && (forall k :: low <= k < high ==> IsClearLeaf(n, y, ino, k))
  }

  ghost predicate IsClearLeaf(n: nat, y: Snapshot, ino: nat, k: nat)
  {
    && Leaf(n, ino, k) in y.forest.at
    && y.forest.at[Leaf(n, ino, k)] < |y.blocks|
    && y.blocks[y.forest.at[Leaf(n, ino, k)]] == ZeroBlock(n)
  }

  lemma ExpandedNone(lo: nat, n: nat, x: Snapshot, ino: nat, low: nat)
    requires n > 0
    ensures Expanded(lo, n, x, x, ino, low, low)
  {
    assert x.free[..|x.free|] == x.free;
  }

  lemma ClearLeafStays(lo: nat, n: nat, y: Snapshot, z: Snapshot, ino: nat, k: nat)
    requires IsClearLeaf(n, y, ino, k)
    requires y.forest.at[Leaf(n, ino, k)] in y.forest.owner && y.forest.owner[y.forest.at[Leaf(n, ino, k)]].height == 0
    requires SameElsewhere(y.blocks, z.blocks, y.forest, ino, lo) && Extends(y.forest, z.forest)
    ensures IsClearLeaf(n, z, ino, k)
  {
  }

  lemma ClearLeavesStay(lo: nat, n: nat, y: Snapshot, z: Snapshot, ino: nat, low: nat, high: nat, next: nat)
    requires forall k :: low <= k < high ==> IsClearLeaf(n, y, ino, k)
    requires forall s :: s in y.forest.at ==> y.forest.at[s] in y.forest.owner && y.forest.owner[y.forest.at[s]] == s
    requires SameElsewhere(y.blocks, z.blocks, y.forest, ino, lo) && Extends(y.forest, z.forest)
    requires next == high + 1 && IsClearLeaf(n, z, ino, high)
    ensures forall k :: low <= k < next ==> IsClearLeaf(n, z, ino, k)
  {
    forall k | low <= k < next ensures IsClearLeaf(n, z, ino, k) {
      if k < high {
        ClearLeafStays(lo, n, y, z, ino, k);
      } else {
        assert k == high;
      }
    }
  }

  lemma ExpandedStep(lo: nat, n: nat, x: Snapshot, y: Snapshot, z: Snapshot, ino: nat, low: nat, high: nat, next: nat,
                     blk: nat)
    requires n > 0 && Expanded(lo, n, x, y, ino, low, high) && next == high + 1
    requires forall s :: s in y.forest.at ==> y.forest.at[s] in y.forest.owner && y.forest.owner[y.forest.at[s]] == s
    requires Grown(lo, y, z, ino, AddrOf(n, high), 0)
    requires z.forest.at[Leaf(n, ino, high)] == blk < |z.blocks| && z.blocks[blk] == ZeroBlock(n)
    ensures Expanded(lo, n, x, z, ino, low, next)
  {
    PrefixTwice(z.free, y.free, x.free);
    assert |y.free| == |z.free| + TotalBlocks(n, next) - TotalBlocks(n, high);
    assert |x.free| == |y.free| + TotalBlocks(n, high) - TotalBlocks(n, low);
    assert Extends(x.forest, z.forest);
    forall s | s in z.forest.at && s !in x.forest.at ensures s.ino == ino && z.forest.at[s] in x.free {
      if s in y.forest.at {
        assert y.forest.at[s] in x.free;
      } else {
        assert z.forest.at[s] in y.free;
      }
    }
    forall b | b in x.free ensures b in z.free || b in z.forest.owner {
      assert b in y.free || b in y.forest.owner;
    }
    assert IsClearLeaf(n, z, ino, high);
    ClearLeavesStay(lo, n, y, z, ino, low, high, next);
    ElsewhereTwice(x.blocks, y.blocks, z.blocks, x.forest, y.forest, x.forest, ino, lo);
  }

  /** From x to y, inode `ino` shrank from `high` to `low` blocks: the kept
      blocks keep their places, every other block of it is pushed on the free
      list, and no other block in use changed, except index blocks of `ino`. */
  ghost predicate Contracted(lo: nat, n: nat, x: Snapshot, y: Snapshot, ino: nat, high: nat, low: nat)
    requires n > 0
  {
    && low <= high
    && |y.free| == |x.free| + TotalBlocks(n, high) - TotalBlocks(n, low) && |x.free| <= |y.free|
    && x.free == y.free[..|x.free|]
    && Extends(y.forest, x.forest)
    && (forall s :: s in x.forest.at && s !in y.forest.at ==> s.ino == ino && x.forest.at[s] in y.free)
    && (forall b :: b in y.free ==> b in x.free || b in x.forest.owner)
    && SameElsewhere(x.blocks, y.blocks, y.forest, ino, lo)
  }

  lemma ContractedNone(lo: nat, n: nat, x: Snapshot, ino: nat, high: nat)
    requires n > 0
    ensures Contracted(lo, n, x, x, ino, high, high)
  {
    assert x.free[..|x.free|] == x.free;
  }

  lemma ContractedStep(lo: nat, n: nat, x: Snapshot, y: Snapshot, z: Snapshot, ino: nat, high: nat, low: nat, next: nat)
    requires n > 0 && low == next + 1 && Contracted(lo, n, x, y, ino, high, low)
    requires Shrunk(lo, y, z, ino, AddrOf(n, next), NewIndexBlocks(AddrOf(n, next)) + 1)
    ensures Contracted(lo, n, x, z, ino, high, next)
  {
    var a := AddrOf(n, next);
    PrefixTwice(x.free, y.free, z.free);
    forall s | s in x.forest.at && s !in z.forest.at ensures s.ino == ino && x.forest.at[s] in z.free {
      if s in y.forest.at {
        assert s == Slot(ino, a, s.height);
      }
    }
    ElsewhereTwice(x.blocks, y.blocks, z.blocks, y.forest, z.forest, z.forest, ino, lo);
  }

  lemma PrefixTwice(s: seq<nat>, t: seq<nat>, u: seq<nat>)
    requires |s| <= |t| <= |u| && s == t[..|s|] && t == u[..|t|]
    ensures s == u[..|s|]
    ensures forall b :: b in s ==> b in t
    ensures forall b :: b in t ==> b in u
  {
    assert forall b :: b in u[..|t|] ==> b in u;
    assert forall b :: b in t[..|s|] ==> b in t;
  }

  lemma {:induction false} TotalBlocksMonotone(n: nat, j: nat, k: nat)
    requires n > 0 && j <= k
    ensures TotalBlocks(n, j) <= TotalBlocks(n, k)
    decreases k
  {
    if j < k {
      TotalBlocksMonotone(n, j, k - 1);
    }
  }

  /** Adding whole blocks to a size adds them to the block count. */
  lemma BlockCountAdd(blksize: nat, size: nat, j: nat)
    requires blksize > 0
    ensures BlockCount(blksize, size + Times(j, blksize)) == BlockCount(blksize, size) + j
  {
    TimesIsProduct(j, blksize);
    var q := BlockCount(blksize, size);
    QuotientBounds(size + blksize - 1, blksize);
    QuotientUnique(size + j * blksize + blksize - 1, blksize, q + j, size + blksize - 1 - q * blksize);
  }

  lemma BlockCountMonotone(blksize: nat, s: nat, t: nat)
    requires blksize > 0 && s <= t
    ensures BlockCount(blksize, s) <= BlockCount(blksize, t)
  {
    QuotientBounds(s + blksize - 1, blksize);
    QuotientBounds(t + blksize - 1, blksize);
    var p, q := BlockCount(blksize, s), BlockCount(blksize, t);
    if p > q {
      MulMonotone(q + 1, p, blksize);
    }
  }

  lemma SevenFits(blksize: nat, k: nat)
    requires IsOneOfSeven(blksize) && k * blksize < TWO_TO_32
    ensures k * blksize + blksize <= TWO_TO_32
  {
    if blksize == 512 {
    } else if blksize == 1024 {
    } else if blksize == 2048 {
    } else if blksize == 4096 {
    } else if blksize == 8192 {
    } else if blksize == 16384 {
    } else {
    }
  }

  /** A size that can be rounded up leaves room for its last block. */
  lemma LastBlockFits(blksize: nat, size: nat)
    requires IsBlksize(blksize) && size + blksize <= TWO_TO_32
    ensures BlockCount(blksize, size) * blksize + blksize <= TWO_TO_32
    ensures size <= BlockCount(blksize, size) * blksize < size + blksize
  {
    QuotientBounds(size + blksize - 1, blksize);
    BlksizeCases(blksize);
    SevenFits(blksize, BlockCount(blksize, size));
  }

  /** Running out of space part of the way means that less was free than needed. */
  lemma TooFew(lo: nat, n: nat, x: Snapshot, y: Snapshot, ino: nat, low: nat, high: nat, goal: nat)
    requires n > 0 && high < goal && Expanded(lo, n, x, y, ino, low, high)
    requires |y.free| <= NewIndexBlocks(AddrOf(n, high))
    ensures |x.free| < TotalBlocks(n, goal) - TotalBlocks(n, low)
  {
    TotalBlocksMonotone(n, high + 1, goal);
  }

  /** The state after `cur` - `low` of the blocks are added: from x to y. */
  ghost predicate ExpandState(lo: nat, n: nat, counts: map<nat, nat>, x: Snapshot, y: Snapshot, ino: nat, low: nat,
                              cur: nat)
  {
    && n > 0 && ino in counts && ino in y.minodes
    && Linked(n, lo, x.blocks, x.minodes, x.forest, x.free)
    && Linked(n, lo, y.blocks, y.minodes, y.forest, y.free)
    && OnlyAddrDiffers(x.minodes, y.minodes, ino)
    && Expanded(lo, n, x, y, ino, low, cur)
    && Exact(n, y.forest, SetCount(counts, ino, cur))
  }

  lemma ExpandStateStart(lo: nat, n: nat, counts: map<nat, nat>, x: Snapshot, ino: nat)
    requires n > 0 && ino in counts && ino in x.minodes
    requires Linked(n, lo, x.blocks, x.minodes, x.forest, x.free) && Exact(n, x.forest, counts)
    ensures ExpandState(lo, n, counts, x, x, ino, counts[ino], counts[ino])
  {
    ExpandedNone(lo, n, x, ino, counts[ino]);
    assert SetCount(counts, ino, counts[ino]) == counts;
  }

  lemma OnlyAddrTwice(m: map<nat, Dinode>, m': map<nat, Dinode>, m'': map<nat, Dinode>, ino: nat)
    requires OnlyAddrDiffers(m, m', ino) && OnlyAddrDiffers(m', m'', ino)
    ensures OnlyAddrDiffers(m, m'', ino)
  {
  }

  lemma ExpandStateStep(lo: nat, n: nat, counts: map<nat, nat>, x: Snapshot, y: Snapshot, z: Snapshot, ino: nat,
                        low: nat, cur: nat, next: nat, blk: nat)
    requires ExpandState(lo, n, counts, x, y, ino, low, cur) && next == cur + 1 && InReach(n, next)
    requires Linked(n, lo, z.blocks, z.minodes, z.forest, z.free)
    requires OnlyAddrDiffers(y.minodes, z.minodes, ino)
    requires Outcome(lo, n, y, z, ino, AddrOf(n, cur), blk) && blk != 0
    ensures ExpandState(lo, n, counts, x, z, ino, low, next)
  {
    OnlyAddrTwice(x.minodes, y.minodes, z.minodes, ino);
    ExpandedStep(lo, n, x, y, z, ino, low, cur, next, blk);
    ExactGrown(n, lo, y, z, counts, ino, cur, next);
  }

  /** Space ran out: all free blocks are gone, and what was in use before is
      still well formed, with or without the new numbers in the inode. */
  ghost predicate ExpandFailed(lo: nat, n: nat, x: Snapshot, z: Snapshot, ino: nat, low: nat, goal: nat)
  {
    && |x.free| < TotalBlocks(n, goal) - TotalBlocks(n, low)
    && z.free == [] && SameElsewhere(x.blocks, z.blocks, x.forest, ino, lo)
    && OnlyAddrDiffers(x.minodes, z.minodes, ino)
    && Linked(n, lo, z.blocks, z.minodes, x.forest, z.free)
    && Linked(n, lo, z.blocks, x.minodes, x.forest, z.free)
  }

  /** The free blocks suffice for the blocks from `low` to `cur`, but not for `cur` itself. */
  ghost predicate RunsOutAt(n: nat, free: nat, low: nat, cur: nat)
  {
    var needed := TotalBlocks(n, cur) - TotalBlocks(n, low);
    needed <= free <= needed + NewIndexBlocks(AddrOf(n, cur))
  }

  /** No block is left for number `cur`, and the first one it needs is named by the inode. */
  ghost predicate LacksRoot(n: nat, free: nat, low: nat, cur: nat)
  {
    free == TotalBlocks(n, cur) - TotalBlocks(n, low) && NewIndexBlocks(AddrOf(n, cur)) == AddrOf(n, cur).level
  }

  /** When space ran out, the inode got its old contents back, unless it lacked a block
      that the inode was to name. */
  ghost predicate IsRestored(n: nat, x: Snapshot, minodes: map<nat, Dinode>, low: nat, goal: nat)
  {
    exists cur :: low <= cur < goal && RunsOutAt(n, |x.free|, low, cur) &&
                  (minodes == x.minodes || LacksRoot(n, |x.free|, low, cur))
  }

  /** That remains so when the inode gets its old numbers back. */
  lemma ExpandFailedRestored(lo: nat, n: nat, x: Snapshot, y: Snapshot, z: Snapshot, ino: nat, low: nat, goal: nat)
    requires ExpandFailed(lo, n, x, y, ino, low, goal)
    requires z.minodes == y.minodes || z.minodes == x.minodes
    requires z.blocks == y.blocks && z.free == y.free
    ensures ExpandFailed(lo, n, x, z, ino, low, goal)
  {
  }

  /** When space runs out, what was in use before is still well formed. */
  lemma ExpandStateFailed(lo: nat, n: nat, counts: map<nat, nat>, x: Snapshot, y: Snapshot, z: Snapshot, ino: nat,
                          low: nat, cur: nat, goal: nat)
    requires ExpandState(lo, n, counts, x, y, ino, low, cur) && cur < goal
    requires Linked(n, lo, z.blocks, z.minodes, z.forest, z.free)
    requires OnlyAddrDiffers(y.minodes, z.minodes, ino)
    requires Outcome(lo, n, y, z, ino, AddrOf(n, cur), 0)
    ensures ExpandFailed(lo, n, x, z, ino, low, goal)
    ensures RunsOutAt(n, |x.free|, low, cur) && |x.free| == |y.free| + TotalBlocks(n, cur) - TotalBlocks(n, low)
  {
    TooFew(lo, n, x, y, ino, low, cur, goal);
    OnlyAddrTwice(x.minodes, y.minodes, z.minodes, ino);
    LinkedRestrict(n, lo, x.blocks, z.blocks, x.minodes, z.minodes, x.forest, z.forest, x.free, z.free);
  }

  lemma BlockCountZero(blksize: nat)
    requires blksize > 0
    ensures BlockCount(blksize, 0) == 0
    ensures forall size: nat :: size > 0 ==> BlockCount(blksize, size) > 0
  {
    forall size: nat | size > 0 ensures BlockCount(blksize, size) > 0 {
      QuotientBounds(size + blksize - 1, blksize);
    }
  }

  /** The sizes reached on the way to a larger size. */
  lemma SizeInRange(blksize: nat, size: nat, j: nat, k: nat)
    requires blksize >= 4 && j <= k && size + Times(k, blksize) + blksize <= TWO_TO_32
    requires Addressable(blksize, BlockCount(blksize, size + Times(k, blksize)))
    ensures size + Times(j, blksize) + blksize <= TWO_TO_32
    ensures BlockCount(blksize, size + Times(j, blksize)) == BlockCount(blksize, size) + j
    ensures Addressable(blksize, BlockCount(blksize, size) + j)
  {
    TimesIsProduct(j, blksize);
    TimesIsProduct(k, blksize);
    MulMonotone(j, k, blksize);
    BlockCountAdd(blksize, size, j);
    BlockCountAdd(blksize, size, k);
    AddressableSmaller(blksize, BlockCount(blksize, size) + j, BlockCount(blksize, size) + k);
  }

  lemma AddressableSmaller(blksize: nat, j: nat, k: nat)
    requires blksize >= 4 && Addressable(blksize, k) && j <= k
    ensures Addressable(blksize, j)
  {
    InReachSmaller(blksize / 4, j, k);
  }

  function SetSize(minodes: map<nat, Dinode>, ino: nat, size: nat): map<nat, Dinode>
    requires ino in minodes
  {
    minodes[ino := minodes[ino].(filesize := size)]
  }

  lemma CountsOfSetSize(blksize: nat, minodes: map<nat, Dinode>, ino: nat, size: nat)
    requires blksize > 0 && ino in minodes
    ensures Counts(blksize, SetSize(minodes, ino, size))
            == SetCount(Counts(blksize, minodes), ino, BlockCount(blksize, size))
  {
  }

  lemma CountsOfOnlyAddr(blksize: nat, m: map<nat, Dinode>, m': map<nat, Dinode>, ino: nat)
    requires blksize > 0 && OnlyAddrDiffers(m, m', ino)
    ensures Counts(blksize, m') == Counts(blksize, m)
  {
    var c, c' := Counts(blksize, m), Counts(blksize, m');
    forall i | i in m ensures c'[i] == c[i] {
      assert m'[i].filesize == m[i].filesize;
    }
  }

  /** The inode list outside the place of inode `ino` is as before, and its place
      holds `d`. */
  ghost predicate InodeSaved(blksize: nat, ilist: nat, lo: nat, blocks: seq<Block>, blocks': seq<Block>, ino: nat,
                             d: Dinode)
    requires blksize > 0
  {
    var block, slot := IlistBlock(blksize, ino) + ilist, IlistSlot(blksize, ino);
    && |blocks| == |blocks'|
    && (forall b :: 0 <= b < lo && b < |blocks| && b != block ==> blocks'[b] == blocks[b])
    && (block < lo && block < |blocks| ==>
         && IsDinode(d) && slot * INODE_WORDS + INODE_WORDS <= |blocks[block]|
         && blocks'[block] == SetInode(blocks[block], slot, d))
  }

  lemma SaveIsElsewhere(lo: nat, n: nat, x: Snapshot, y: Snapshot, z: Snapshot, ino: nat, low: nat, high: nat,
                        block: nat)
    requires n > 0 && Expanded(lo, n, x, y, ino, low, high)
    requires Linked(n, lo, x.blocks, x.minodes, x.forest, x.free)
    requires Linked(n, lo, y.blocks, y.minodes, y.forest, y.free)
    requires block < lo && z.forest == y.forest && z.free == y.free && |z.blocks| == |y.blocks|
    requires forall b :: 0 <= b < |y.blocks| && b != block ==> z.blocks[b] == y.blocks[b]
    ensures Expanded(0, n, x, z, ino, low, high)
  {
    forall k | low <= k < high ensures IsClearLeaf(n, z, ino, k) {
      assert IsClearLeaf(n, y, ino, k);
    }
  }

  lemma SaveIsElsewhere'(lo: nat, n: nat, x: Snapshot, y: Snapshot, z: Snapshot, ino: nat, high: nat, low: nat,
                         block: nat)
    requires n > 0 && Contracted(lo, n, x, y, ino, high, low)
    requires Linked(n, lo, y.blocks, y.minodes, y.forest, y.free)
    requires block < lo && z.forest == y.forest && z.free == y.free && |z.blocks| == |y.blocks|
    requires forall b :: 0 <= b < |y.blocks| && b != block ==> z.blocks[b] == y.blocks[b]
    ensures Contracted(0, n, x, z, ino, high, low)
  {
  }

  /** Inode `ino` got a new size, and possibly other block numbers. */
  ghost predicate Resized(m: map<nat, Dinode>, m': map<nat, Dinode>, ino: nat, size: nat)
  {
    && ino in m && m'.Keys == m.Keys
    && (forall i :: i in m && i != ino ==> m'[i] == m[i])
    && m'[ino] == m[ino].(filesize := size, addr := m'[ino].addr)
  }

  lemma SetSizeResizes(m: map<nat, Dinode>, m': map<nat, Dinode>, ino: nat, size: nat)
    requires OnlyAddrDiffers(m, m', ino)
    ensures Resized(m, SetSize(m', ino, size), ino, size)
  {
  }

  /** The sizes at which a file is after the last of the added blocks. */
  lemma SizeOfLast(blksize: nat, size: nat, sz: nat, required: nat)
    requires IsBlksize(blksize) && size + sz + blksize <= TWO_TO_32
    requires BlockCount(blksize, size + sz) == BlockCount(blksize, size) + required
    ensures size + Times(required, blksize) + blksize <= TWO_TO_32
    ensures BlockCount(blksize, size + Times(required, blksize)) == BlockCount(blksize, size + sz)
  {
    BlockCountAdd(blksize, size, required);
    TimesIsProduct(required, blksize);
    LastBlockFits(blksize, size + sz);
    LastBlockFits(blksize, size);
    var q := BlockCount(blksize, size);
    assert (q + required) * blksize == q * blksize + required * blksize;
  }

  /** The state after the file has shrunk from `high` to `cur` blocks: from x to y. */
  ghost predicate ContractState(lo: nat, n: nat, counts: map<nat, nat>, x: Snapshot, y: Snapshot, ino: nat, high: nat,
                                cur: nat)
  {
    && n > 0 && ino in counts && ino in y.minodes
    && Linked(n, lo, y.blocks, y.minodes, y.forest, y.free)
    && OnlyAddrDiffers(x.minodes, y.minodes, ino)
    && Contracted(lo, n, x, y, ino, high, cur)
    && Exact(n, y.forest, SetCount(counts, ino, cur))
  }

  lemma ContractStateStart(lo: nat, n: nat, counts: map<nat, nat>, x: Snapshot, ino: nat)
    requires n > 0 && ino in counts && ino in x.minodes
    requires Linked(n, lo, x.blocks, x.minodes, x.forest, x.free) && Exact(n, x.forest, counts)
    ensures ContractState(lo, n, counts, x, x, ino, counts[ino], counts[ino])
  {
    ContractedNone(lo, n, x, ino, counts[ino]);
    assert SetCount(counts, ino, counts[ino]) == counts;
  }

  lemma ContractStateStep(lo: nat, n: nat, counts: map<nat, nat>, x: Snapshot, y: Snapshot, z: Snapshot, ino: nat,
                          high: nat, cur: nat, next: nat)
    requires ContractState(lo, n, counts, x, y, ino, high, cur) && cur == next + 1
    requires Linked(n, lo, z.blocks, z.minodes, z.forest, z.free)
    requires OnlyAddrDiffers(y.minodes, z.minodes, ino)
    requires Shrunk(lo, y, z, ino, AddrOf(n, next), NewIndexBlocks(AddrOf(n, next)) + 1)
    ensures ContractState(lo, n, counts, x, z, ino, high, next)
  {
    OnlyAddrTwice(x.minodes, y.minodes, z.minodes, ino);
    ContractedStep(lo, n, x, y, z, ino, high, cur, next);
    ExactShrunk(n, lo, y, z, counts, ino, cur, next);
  }

  /** The size that is j blocks less.  The last block of a file may be shorter, and
      then the size without any block is less than 0. */
  lemma SizeLess(blksize: nat, size: nat, j: nat)
    requires blksize > 0 && j <= BlockCount(blksize, size)
    ensures Times(j, blksize) < size + blksize
    ensures if Times(j, blksize) <= size
            then BlockCount(blksize, size - Times(j, blksize)) == BlockCount(blksize, size) - j
            else j == BlockCount(blksize, size)
  {
    TimesIsProduct(j, blksize);
    var count := BlockCount(blksize, size);
    QuotientBounds(size + blksize - 1, blksize);
    MulMonotone(j, count, blksize);
    if Times(j, blksize) <= size {
      BlockCountAdd(blksize, size - Times(j, blksize), j);
    } else if j < count {
      MulMonotone(j + 1, count, blksize);
      MulNext(j, blksize);
    }
  }
}

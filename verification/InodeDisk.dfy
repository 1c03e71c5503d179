/** Inodes in the inode list on disk. */
module InodeDisk {
  import opened Blocks
  import opened Addressing
  import opened DatablockAddr
  import opened Forests

  const INODE_WORDS: nat := 32
  const STAMP_WORDS: nat := 11

  predicate IsDinode(d: Dinode)
  {
    |d.stamps| == STAMP_WORDS && |d.addr| == NADDR && d.nlink < 0x1_0000
  }

  /** An inode of zeros. */
  function ClearedDinode(): (d: Dinode)
    ensures IsDinode(d)
  {
    Dinode(0, 0, 0, ZeroBlock(STAMP_WORDS), ZeroBlock(NADDR))
  }

  /** The words of an inode: mode and link count share the first one. */
  function Encode(d: Dinode): (words: seq<nat>)
    requires IsDinode(d)
    ensures |words| == INODE_WORDS
  {
    [d.mode * 0x1_0000 + d.nlink, d.filesize] + d.stamps + d.addr
  }

  function Decode(words: seq<nat>): Dinode
    requires |words| == INODE_WORDS
  {
    Dinode(words[0] / 0x1_0000, words[0] % 0x1_0000, words[1], words[2..2 + STAMP_WORDS], words[2 + STAMP_WORDS..])
  }

  lemma DecodeEncode(d: Dinode)
    requires IsDinode(d)
    ensures Decode(Encode(d)) == d
  {
    assert Encode(d)[2..2 + STAMP_WORDS] == d.stamps;
    assert Encode(d)[2 + STAMP_WORDS..] == d.addr;
  }

  /** The block of inode `ino`, counted from the start of the inode list. */
  function IlistBlock(blksize: nat, ino: nat): nat
    requires blksize > 0
  {
    Quotient(Wrap((ino - 1) * 128), blksize)
  }

  /** The slot of inode `ino` in its block. */
  function IlistSlot(blksize: nat, ino: nat): nat
    requires blksize > 0
  {
    QuotientBounds(Wrap((ino - 1) * 128), blksize);
    (Wrap((ino - 1) * 128) - IlistBlock(blksize, ino) * blksize) / 128
  }

  lemma SlotInBlock(blksize: nat, ino: nat)
    requires IsBlksize(blksize)
    ensures IlistSlot(blksize, ino) * INODE_WORDS + INODE_WORDS <= blksize / 4
  {
    QuotientBounds(Wrap((ino - 1) * 128), blksize);
    BlksizeCases(blksize);
    if blksize == 512 {
    } else if blksize == 1024 {
    } else if blksize == 2048 {
    } else if blksize == 4096 {
    } else if blksize == 8192 {
    } else if blksize == 16384 {
    } else {
    }
  }

  /** Different inodes have different places. */
  lemma LocationIsInjective(blksize: nat, i: nat, j: nat)
    requires IsBlksize(blksize)
    requires 1 <= i && 1 <= j && (i - 1) * 128 < TWO_TO_32 && (j - 1) * 128 < TWO_TO_32
    requires IlistBlock(blksize, i) == IlistBlock(blksize, j) && IlistSlot(blksize, i) == IlistSlot(blksize, j)
    ensures i == j
  {
    PlaceOf(blksize, i);
    PlaceOf(blksize, j);
  }

  /** The number of an inode can be told from its place. */
  lemma PlaceOf(blksize: nat, ino: nat)
    requires IsBlksize(blksize) && 1 <= ino && (ino - 1) * 128 < TWO_TO_32
    ensures var start := IlistBlock(blksize, ino) * blksize;
            var slot := IlistSlot(blksize, ino);
            start + slot * 128 <= (ino - 1) * 128 < start + slot * 128 + 128
  {
    var x := (ino - 1) * 128;
    assert Wrap(x) == x;
    QuotientBounds(x, blksize);
    SlotBounds(x - IlistBlock(blksize, ino) * blksize, IlistSlot(blksize, ino));
  }

  lemma SlotBounds(offset: nat, slot: nat)
    requires slot == offset / 128
    ensures slot * 128 <= offset < slot * 128 + 128
  {
  }

  /** The inode in a slot of a block of the inode list. */
  function GetInode(block: Block, slot: nat): Dinode
    requires slot * INODE_WORDS + INODE_WORDS <= |block|
  {
    Decode(block[slot * INODE_WORDS..slot * INODE_WORDS + INODE_WORDS])
  }

  function SetInode(block: Block, slot: nat, d: Dinode): (b: Block)
    requires slot * INODE_WORDS + INODE_WORDS <= |block| && IsDinode(d)
    ensures |b| == |block|
  {
    block[..slot * INODE_WORDS] + Encode(d) + block[slot * INODE_WORDS + INODE_WORDS..]
  }

  /** An inode has 32 words: the mode and the link count share the first one, then come
      the size, eleven words of times, owner, group and code page, and the addresses. */
  lemma InodeLayout(block: Block, slot: nat)
    requires 32 * slot + 32 <= |block|
    ensures var d, w := GetInode(block, slot), block[32 * slot..32 * slot + 32];
            && d.mode == w[0] / 0x1_0000 && d.nlink == w[0] % 0x1_0000 && d.filesize == w[1]
            && d.stamps == w[2..13] && d.addr == w[13..]
  {
  }

  /** Writing one slot changes that inode only. */
  lemma GetSetInode(block: Block, slot: nat, d: Dinode, other: nat)
    requires slot * INODE_WORDS + INODE_WORDS <= |block| && IsDinode(d)
    requires other * INODE_WORDS + INODE_WORDS <= |block|
    ensures GetInode(SetInode(block, slot, d), other) == if other == slot then d else GetInode(block, other)
  {
    var b := SetInode(block, slot, d);
    var lo := other * INODE_WORDS;
    if other == slot {
      assert b[lo..lo + INODE_WORDS] == Encode(d);
      DecodeEncode(d);
    } else {
      assert b[lo..lo + INODE_WORDS] == block[lo..lo + INODE_WORDS];
    }
  }
}

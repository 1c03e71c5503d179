/** What every layer shares: status codes and disk blocks.

    A block is a vector of 32-bit words; the program casts a block buffer to
    an index list, a free-block node, an array of inodes or an array of
    directory entries, all of which are made of whole words. */
module Blocks {

  datatype Status = Ok | EIO | ENOSPC | ENOENT | EEXIST | ENOTEMPTY | EINVAL | ENOTDIR | EROFS | EFBIG | EPERM

  datatype Option<+T> = None | Some(value: T)

  type Block = seq<nat>

  /** The inode number of the root directory. */
  const ROOT_INODE: nat := 2

  function ZeroBlock(words: nat): Block
  {
    seq(words, _ => 0)
  }

  function Put(block: Block, i: nat, w: nat): Block
    requires i < |block|
  {
    block[i := w]
  }

  ghost predicate NoDuplicates<T>(s: seq<T>)
  {
    forall x :: x in s ==> multiset(s)[x] == 1
  }

  /** Every block has the size of the disk. */
  ghost predicate Uniform(blocks: seq<Block>, words: nat)
  {
    forall b :: 0 <= b < |blocks| ==> |blocks[b]| == words
  }
}

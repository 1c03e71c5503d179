/** The entries of a directory, read off the blocks of its file. */
module Dirents {
  import opened Blocks
  import opened Addressing
  import opened DatablockAddr
  import opened SizeChanges
  import opened Traversal

  const DIRENT_WORDS: nat := 16
  const NAME_WORDS: nat := 15

  /** An inode number and a name padded with zeros to 15 words. */
  datatype Dirent = Dirent(ino: nat, name: seq<nat>)

  function EntryIn(block: Block, i: nat): Dirent
    requires i * DIRENT_WORDS + DIRENT_WORDS <= |block|
  {
    var at := i * DIRENT_WORDS;
    Dirent(block[at], block[at + 1..at + DIRENT_WORDS])
  }

  function SetEntry(block: Block, i: nat, e: Dirent): (b: Block)
    requires i * DIRENT_WORDS + DIRENT_WORDS <= |block| && |e.name| == NAME_WORDS
    ensures |b| == |block|
  {
    var at := i * DIRENT_WORDS;
    block[..at] + [e.ino] + e.name + block[at + DIRENT_WORDS..]
  }

  /** An entry has sixteen words: the inode number, then the name. */
  lemma EntryLayout(block: Block, i: nat)
    requires 16 * i + 16 <= |block|
    ensures EntryIn(block, i) == Dirent(block[16 * i], block[16 * i + 1..16 * i + 16])
  {
  }

  /** The words of other entries stay. */
  lemma WordsKept(block: Block, i: nat, e: Dirent, at: nat, j: nat)
    requires i * DIRENT_WORDS + DIRENT_WORDS <= |block| && |e.name| == NAME_WORDS
    requires j != i && at == j * DIRENT_WORDS && at + DIRENT_WORDS <= |block|
    ensures forall k :: at <= k < at + DIRENT_WORDS ==> SetEntry(block, i, e)[k] == block[k]
  {
    var start := i * DIRENT_WORDS;
    assert SetEntry(block, i, e) == block[..start] + ([e.ino] + e.name) + block[start + DIRENT_WORDS..];
  }

  lemma EntryInSetEntry(block: Block, i: nat, e: Dirent, j: nat)
    requires i * DIRENT_WORDS + DIRENT_WORDS <= |block| && |e.name| == NAME_WORDS
    requires j * DIRENT_WORDS + DIRENT_WORDS <= |block|
    ensures EntryIn(SetEntry(block, i, e), j) == if j == i then e else EntryIn(block, j)
  {
    var b, at := SetEntry(block, i, e), j * DIRENT_WORDS;
    if j == i {
      assert b[at + 1..at + DIRENT_WORDS] == e.name;
    } else {
      WordsKept(block, i, e, at, j);
      assert b[at + 1..at + DIRENT_WORDS] == block[at + 1..at + DIRENT_WORDS];
    }
  }

  /** The first `count` entries of a block. */
  function BlockEntries(block: Block, count: nat): (s: seq<Dirent>)
    requires count * DIRENT_WORDS <= |block|
    ensures |s| == count
  {
    seq(count, i requires 0 <= i < count => EntryIn(block, i))
  }

  lemma BlockEntriesSet(block: Block, count: nat, i: nat, e: Dirent)
    requires count * DIRENT_WORDS <= |block| && i < count && |e.name| == NAME_WORDS
    ensures BlockEntries(SetEntry(block, i, e), count) == BlockEntries(block, count)[i := e]
  {
    forall j | 0 <= j < count
      ensures BlockEntries(SetEntry(block, i, e), count)[j] == BlockEntries(block, count)[i := e][j]
    {
      EntryInSetEntry(block, i, e, j);
    }
  }

  /** Blocks of `m` entries each. */
  ghost predicate AreBlocks(blocks: seq<Block>, m: nat)
  {
    forall k :: 0 <= k < |blocks| ==> |blocks[k]| == m * DIRENT_WORDS
  }

  /** How many of `count` entries block number k holds. */
  function CountIn(m: nat, count: nat, k: nat): (c: nat)
    ensures c <= m
  {
    BytesIn(m, count, k)
  }

  /** The entries in the first k blocks of a directory of `count` entries. */
  ghost function EntriesUpTo(blocks: seq<Block>, m: nat, count: nat, k: nat): seq<Dirent>
    requires AreBlocks(blocks, m) && k <= |blocks|
  {
    if k == 0 then [] else EntriesUpTo(blocks, m, count, k - 1) + BlockEntries(blocks[k - 1], CountIn(m, count, k - 1))
  }

  ghost function Entries(blocks: seq<Block>, m: nat, count: nat): seq<Dirent>
    requires AreBlocks(blocks, m)
  {
    EntriesUpTo(blocks, m, count, |blocks|)
  }

  /** Only the blocks and how many entries each of them holds matter. */
  lemma {:induction false} EntriesFrame(blocks: seq<Block>, blocks': seq<Block>, m: nat, count: nat, count': nat,
                                        k: nat)
    requires AreBlocks(blocks, m) && AreBlocks(blocks', m) && k <= |blocks| && k <= |blocks'|
    requires forall j :: 0 <= j < k ==> blocks[j] == blocks'[j] && CountIn(m, count, j) == CountIn(m, count', j)
    ensures EntriesUpTo(blocks, m, count, k) == EntriesUpTo(blocks', m, count', k)
  {
    if k > 0 {
      EntriesFrame(blocks, blocks', m, count, count', k - 1);
    }
  }

  /** Every block but the last is full, and the last is not empty. */
  lemma CountsIn(m: nat, count: nat, k: nat)
    requires m > 0
    ensures k + 1 < BlockCount(m, count) ==> CountIn(m, count, k) == m
    ensures k + 1 == BlockCount(m, count) ==> CountIn(m, count, k) == count - Times(k, m) && 0 < CountIn(m, count, k)
  {
    if k < BlockCount(m, count) {
      BytesLeft(m, count, k);
    }
  }

  /** The place of entry i of block k, and of the entries after it. */
  lemma {:induction false} EntryAt(blocks: seq<Block>, m: nat, count: nat, k: nat, i: nat, pos: nat, n: nat)
    requires AreBlocks(blocks, m) && k < n <= |blocks| && i < CountIn(m, count, k)
    requires pos == |EntriesUpTo(blocks, m, count, k)| + i
    ensures pos < |EntriesUpTo(blocks, m, count, n)| && EntriesUpTo(blocks, m, count, n)[pos] == EntryIn(blocks[k], i)
    decreases n
  {
    if k + 1 < n {
      EntryAt(blocks, m, count, k, i, pos, n - 1);
    }
  }

  /** Writing entry i of block k replaces one entry. */
  lemma {:induction false} EntriesSet(blocks: seq<Block>, m: nat, count: nat, k: nat, i: nat, e: Dirent, n: nat)
    requires AreBlocks(blocks, m) && k < n <= |blocks| && i < CountIn(m, count, k) && |e.name| == NAME_WORDS
    requires i * DIRENT_WORDS + DIRENT_WORDS <= |blocks[k]|
    ensures AreBlocks(blocks[k := SetEntry(blocks[k], i, e)], m)
    ensures var pos := |EntriesUpTo(blocks, m, count, k)| + i;
            && pos < |EntriesUpTo(blocks, m, count, n)|
            && EntriesUpTo(blocks[k := SetEntry(blocks[k], i, e)], m, count, n)
               == EntriesUpTo(blocks, m, count, n)[pos := e]
    decreases n
  {
    var blocks' := blocks[k := SetEntry(blocks[k], i, e)];
    var front, back := EntriesUpTo(blocks, m, count, n - 1), BlockEntries(blocks[n - 1], CountIn(m, count, n - 1));
    assert EntriesUpTo(blocks, m, count, n) == front + back;
    if k + 1 < n {
      EntriesSet(blocks, m, count, k, i, e, n - 1);
      var pos := |EntriesUpTo(blocks, m, count, k)| + i;
      assert blocks'[n - 1] == blocks[n - 1];
      assert (front + back)[pos := e] == front[pos := e] + back;
    } else {
      EntriesFrame(blocks, blocks', m, count, count, k);
      BlockEntriesSet(blocks[k], CountIn(m, count, k), i, e);
      assert (front + back)[|front| + i := e] == front + back[i := e];
    }
  }

  /** A new block is needed exactly if all blocks are full. */
  lemma WhenFull(m: nat, count: nat, k: nat)
    requires m > 0 && BlockCount(m, count) == k && BlockCount(m, count + 1) == k + 1
    ensures count == Times(k, m)
    ensures forall j :: 0 <= j < k ==> CountIn(m, count, j) == m
  {
    TimesIsProduct(k, m);
    QuotientBounds(count + m - 1, m);
    QuotientBounds(count + m, m);
    MulNext(k, m);
    forall j | 0 <= j < k ensures CountIn(m, count, j) == m {
      CountsIn(m, count, j);
      if j + 1 == k {
        TimesNext(j, k, m);
      }
    }
  }

  lemma AtMostOneMore(m: nat, count: nat)
    requires m > 0
    ensures BlockCount(m, count) <= BlockCount(m, count + 1) <= BlockCount(m, count) + 1
  {
    BlockCountMonotone(m, count, count + 1);
    BlockCountMonotone(m, count + 1, count + m);
    assert Times(1, m) == m;
    BlockCountAdd(m, count, 1);
  }

  /** The counts of the blocks before the one that holds one more entry. */
  lemma CountsKept(m: nat, count: nat, k: nat)
    requires m > 0 && BlockCount(m, count + 1) == k + 1
    ensures k <= BlockCount(m, count) <= k + 1
    ensures forall j :: 0 <= j < k ==> CountIn(m, count, j) == CountIn(m, count + 1, j)
    ensures if BlockCount(m, count) == k then CountIn(m, count + 1, k) == 1
            else CountIn(m, count + 1, k) == CountIn(m, count, k) + 1
  {
    AtMostOneMore(m, count);
    CountsIn(m, count + 1, k);
    if BlockCount(m, count) == k {
      WhenFull(m, count, k);
    } else {
      CountsIn(m, count, k);
    }
    forall j | 0 <= j < k ensures CountIn(m, count, j) == CountIn(m, count + 1, j) {
      CountsIn(m, count, j);
      CountsIn(m, count + 1, j);
    }
  }

  lemma BlockEntriesAdded(b: Block, i: nat, next: nat, e: Dirent)
    requires next * DIRENT_WORDS <= |b| && next == i + 1 && |e.name| == NAME_WORDS
    ensures BlockEntries(SetEntry(b, i, e), next) == BlockEntries(b, i) + [e]
  {
    forall j | 0 <= j < next ensures BlockEntries(SetEntry(b, i, e), next)[j] == (if j == i then e else EntryIn(b, j)) {
      EntryInSetEntry(b, i, e, j);
    }
  }

  /** A directory one entry larger, whose last entry is `e`; `b` is the last block
      before it was written. */
  lemma EntriesAdded(blocks: seq<Block>, blocks': seq<Block>, m: nat, count: nat, k: nat, i: nat, b: Block, e: Dirent)
    requires m > 0 && AreBlocks(blocks, m) && AreBlocks(blocks', m)
    requires |blocks| == BlockCount(m, count) && |blocks'| == BlockCount(m, count + 1) == k + 1
    requires i + 1 == CountIn(m, count + 1, k) && |e.name| == NAME_WORDS
    requires forall j :: 0 <= j < k && j < |blocks| ==> blocks'[j] == blocks[j]
    requires |b| == m * DIRENT_WORDS && i * DIRENT_WORDS + DIRENT_WORDS <= |b|
    requires blocks'[k] == SetEntry(b, i, e) && (k < |blocks| ==> b == blocks[k])
    ensures Entries(blocks', m, count + 1) == Entries(blocks, m, count) + [e]
  {
    CountsKept(m, count, k);
    BlockEntriesAdded(b, i, i + 1, e);
    EntriesFrame(blocks, blocks', m, count, count + 1, k);
    if k == |blocks| {
      assert BlockEntries(b, i) == [];
    }
  }

  /** A directory one entry smaller. */
  lemma EntriesDropped(blocks: seq<Block>, m: nat, count: nat)
    requires m > 0 && AreBlocks(blocks, m) && |blocks| == BlockCount(m, count + 1)
    ensures BlockCount(m, count) <= |blocks| && AreBlocks(blocks[..BlockCount(m, count)], m)
    ensures var es := Entries(blocks, m, count + 1);
            |es| > 0 && Entries(blocks[..BlockCount(m, count)], m, count) == es[..|es| - 1]
  {
    QuotientBounds(count + m, m);
    var k := |blocks| - 1;
    CountsKept(m, count, k);
    var kept := blocks[..BlockCount(m, count)];
    EntriesFrame(blocks, kept, m, count + 1, count, k);
    if k < |kept| {
      assert BlockEntries(blocks[k], CountIn(m, count + 1, k))[..CountIn(m, count, k)]
             == BlockEntries(blocks[k], CountIn(m, count, k));
    }
  }

  /** There are as many entries as the size says. */
  lemma {:induction false} EntriesLength(blocks: seq<Block>, m: nat, count: nat, k: nat)
    requires m > 0 && AreBlocks(blocks, m) && k <= |blocks| == BlockCount(m, count)
    ensures |EntriesUpTo(blocks, m, count, k)| == if k == |blocks| then count else Times(k, m)
  {
    if k > 0 {
      EntriesLength(blocks, m, count, k - 1);
      CountsIn(m, count, k - 1);
    } else if |blocks| == 0 {
      BlockCountZero(m);
    }
  }

  /** A directory of `count` entries has entry number k * m + i in place i of block k. */
  lemma EntryPlace(blocks: seq<Block>, m: nat, count: nat, k: nat, i: nat)
    requires m > 0 && AreBlocks(blocks, m) && |blocks| == BlockCount(m, count) && i < m && k * m + i < count
    ensures |Entries(blocks, m, count)| == count && k < |blocks| && 16 * i + 16 <= |blocks[k]|
    ensures Entries(blocks, m, count)[k * m + i] == Dirent(blocks[k][16 * i], blocks[k][16 * i + 1..16 * i + 16])
  {
    TimesIsProduct(k, m);
    QuotientBounds(count + m - 1, m);
    if k >= |blocks| {
      MulMonotone(|blocks|, k, m);
    }
    EntriesLength(blocks, m, count, k);
    EntriesLength(blocks, m, count, |blocks|);
    CountsIn(m, count, k);
    EntryAt(blocks, m, count, k, i, k * m + i, |blocks|);
  }
}

/** The free-block list: a cache of up to 51 numbers in the superblock, spilled
    into a free block when it is full and reloaded from one when it is empty. */
module FreeChain {
  import opened Blocks

  const MAX_FREEBLOCK: nat := 51

  /** A free block that stores a spilled cache: word 0 counts the entries that follow. */
  ghost predicate IsNode(block: Block)
  {
    MAX_FREEBLOCK < |block| && 1 <= block[0] <= MAX_FREEBLOCK
  }

  ghost function NodeEntries(block: Block): seq<nat>
    requires IsNode(block)
  {
    block[1..block[0] + 1]
  }

  /** The words of a block after a full cache has been spilled into it. */
  function SpillNode(cache: seq<nat>, words: nat): Block
    requires |cache| == MAX_FREEBLOCK < words
  {
    [MAX_FREEBLOCK] + cache + ZeroBlock(words - MAX_FREEBLOCK - 1)
  }

  /** The entries of a cache or node that are free blocks: all of them, except
      that a 0 in entry 0 only marks the end of the chain. */
  ghost function FreeEntries(entries: seq<nat>): seq<nat>
    requires |entries| > 0
  {
    if entries[0] == 0 then entries[1..] else entries
  }

  /** `stack` lists all free blocks, the next one to be handed out last, when
      `entries` is the cache.  A non-zero entry 0 is a free block like the others
      and also stores the next node. */
  ghost predicate IsChain(entries: seq<nat>, blocks: seq<Block>, stack: seq<nat>)
    decreases |stack|, 1
  {
    && 1 <= |entries| <= MAX_FREEBLOCK
    && var top := FreeEntries(entries);
       && |top| <= |stack|
       && stack == stack[..|stack| - |top|] + top
       && IsRest(entries[0], blocks, stack[..|stack| - |top|])
  }

  ghost predicate IsRest(link: nat, blocks: seq<Block>, rest: seq<nat>)
    decreases |rest|, if link == 0 then 0 else 2
  {
    if link == 0 then rest == []
    else link < |blocks| && IsNode(blocks[link]) && IsChain(NodeEntries(blocks[link]), blocks, rest)
  }

  /** The stack is a function of the cache and the disk. */
  lemma {:induction false} ChainDeterminesStack(entries: seq<nat>, blocks: seq<Block>, s: seq<nat>, t: seq<nat>)
    requires IsChain(entries, blocks, s) && IsChain(entries, blocks, t)
    ensures s == t
    decreases |s|
  {
    if entries[0] != 0 {
      var m := |entries|;
      ChainDeterminesStack(NodeEntries(blocks[entries[0]]), blocks, s[..|s| - m], t[..|t| - m]);
    }
  }

  /** Only the contents of free blocks matter to the chain. */
  lemma {:induction false} ChainFrame(entries: seq<nat>, blocks: seq<Block>, blocks': seq<Block>, stack: seq<nat>)
    requires IsChain(entries, blocks, stack)
    requires |blocks| == |blocks'|
    requires forall b :: b in stack && b < |blocks| ==> blocks[b] == blocks'[b]
    ensures IsChain(entries, blocks', stack)
    decreases |stack|
  {
    if entries[0] != 0 {
      var rest := stack[..|stack| - |entries|];
      assert stack[|stack| - |entries|] == entries[0];
      ChainFrame(NodeEntries(blocks[entries[0]]), blocks, blocks', rest);
    }
  }

  /** The top of the stack is the last entry of the cache. */
  lemma ChainTop(entries: seq<nat>, blocks: seq<Block>, stack: seq<nat>)
    requires IsChain(entries, blocks, stack) && stack != []
    ensures entries[|entries| - 1] == stack[|stack| - 1]
    ensures |entries| == 1 ==> entries[0] != 0
  {
    var top := FreeEntries(entries);
    assert top != [];
    assert stack[|stack| - 1] == (stack[..|stack| - |top|] + top)[|stack| - 1];
  }

  /** Taking an entry other than entry 0 pops the stack. */
  lemma ChainPop(entries: seq<nat>, blocks: seq<Block>, stack: seq<nat>)
    requires IsChain(entries, blocks, stack) && |entries| > 1
    ensures stack != [] && IsChain(entries[..|entries| - 1], blocks, stack[..|stack| - 1])
  {
    var top, n := FreeEntries(entries), |stack|;
    assert FreeEntries(entries[..|entries| - 1]) == top[..|top| - 1];
    assert stack[..n - 1][..n - |top|] == stack[..n - |top|];
    assert stack[..n - 1] == stack[..n - |top|] + top[..|top| - 1];
  }

  /** Taking the link, entry 0, uncovers the node stored in the block it names. */
  lemma ChainFollow(entries: seq<nat>, blocks: seq<Block>, stack: seq<nat>)
    requires IsChain(entries, blocks, stack) && |entries| == 1 && stack != []
    ensures entries[0] < |blocks| && IsNode(blocks[entries[0]])
    ensures IsChain(NodeEntries(blocks[entries[0]]), blocks, stack[..|stack| - 1])
  {
    ChainTop(entries, blocks, stack);
  }

  /** Adding an entry at the top pushes on the stack. */
  lemma ChainPush(entries: seq<nat>, blocks: seq<Block>, stack: seq<nat>, b: nat)
    requires IsChain(entries, blocks, stack)
    requires |entries| < MAX_FREEBLOCK
    ensures IsChain(entries + [b], blocks, stack + [b])
  {
    var top, n := FreeEntries(entries), |stack|;
    assert FreeEntries(entries + [b]) == top + [b];
    assert (stack + [b])[..n - |top|] == stack[..n - |top|];
    assert stack + [b] == stack[..n - |top|] + (top + [b]);
  }

  /** Spilling a full cache into the freed block pushes that block. */
  lemma ChainSpill(entries: seq<nat>, blocks: seq<Block>, stack: seq<nat>, b: nat, words: nat)
    requires IsChain(entries, blocks, stack)
    requires |entries| == MAX_FREEBLOCK < words
    requires 0 < b < |blocks| && b !in stack
    ensures IsChain([b], blocks[b := SpillNode(entries, words)], stack + [b])
  {
    var blocks' := blocks[b := SpillNode(entries, words)];
    ChainFrame(entries, blocks, blocks', stack);
    assert NodeEntries(blocks'[b]) == entries;
    assert (stack + [b])[..|stack|] == stack;
  }

  /** Distinct data blocks. */
  ghost predicate AreDistinctData(stack: seq<nat>, start: nat, size: nat)
  {
    && NoDuplicates(stack)
    && forall b :: b in stack ==> start <= b < size
  }

  lemma DistinctTake(rest: seq<nat>, b: nat, start: nat, size: nat)
    requires AreDistinctData(rest + [b], start, size)
    ensures AreDistinctData(rest, start, size)
    ensures start <= b < size && b !in rest
  {
    assert b in rest + [b];
    forall x | x in rest ensures x in rest + [b] && multiset(rest)[x] == 1 && x != b {
      assert x in rest + [b];
      assert multiset(rest + [b]) == multiset(rest) + multiset{b};
    }
  }

  lemma DistinctPush(stack: seq<nat>, b: nat, start: nat, size: nat)
    requires AreDistinctData(stack, start, size)
    requires start <= b < size && b !in stack
    ensures AreDistinctData(stack + [b], start, size)
  {
    assert multiset(stack + [b]) == multiset(stack) + multiset{b};
  }

  /** Taking the last entry of the cache pops the stack; entry 0 is replaced by
      the node it stores. */
  lemma ListTake(entries: seq<nat>, blocks: seq<Block>, stack: seq<nat>, start: nat)
    returns (next: seq<nat>, rest: seq<nat>, b: nat)
    requires IsChain(entries, blocks, stack) && stack != []
    requires AreDistinctData(stack, start, |blocks|)
    ensures b == entries[|entries| - 1] && stack == rest + [b]
    ensures start <= b < |blocks| && b !in rest
    ensures if |entries| > 1 then next == entries[..|entries| - 1]
            else IsNode(blocks[b]) && next == NodeEntries(blocks[b])
    ensures IsChain(next, blocks, rest)
    ensures AreDistinctData(rest, start, |blocks|)
  {
    rest, b := stack[..|stack| - 1], stack[|stack| - 1];
    assert stack == rest + [b];
    ChainTop(entries, blocks, stack);
    DistinctTake(rest, b, start, |blocks|);
    if |entries| == 1 {
      ChainFollow(entries, blocks, stack);
      next := NodeEntries(blocks[b]);
    } else {
      ChainPop(entries, blocks, stack);
      next := entries[..|entries| - 1];
    }
  }

  /** The disk handle: the blocks, and the superblock fields of the free list. */
  class Disk {
    const words: nat               // 32-bit words in a block, blksize / 4
    const ilistSector: nat
    const datablockStart: nat
    const volumeSize: nat
    var blocks: seq<Block>
    const freeblock: array<nat>
    var nfreeblock: nat
    var totalFreeblock: nat
    var modified: bool
    ghost var cache: seq<nat>      // the entries of freeblock in use
    ghost var free: seq<nat>       // every free block, next to be allocated last

    predicate Sane(b: nat)
    {
      datablockStart <= b < volumeSize
    }

    ghost predicate Valid()
      reads this, freeblock
    {
      && MAX_FREEBLOCK < words
      && 0 < ilistSector <= datablockStart <= volumeSize == |blocks|
      && Uniform(blocks, words)
      && freeblock.Length == MAX_FREEBLOCK
      && nfreeblock <= MAX_FREEBLOCK && freeblock[..nfreeblock] == cache
      && totalFreeblock == |free|
      && IsChain(cache, blocks, free)
      && AreDistinctData(free, datablockStart, volumeSize)
    }

    /** Opens a disk whose superblock and blocks hold a well-formed free list. */
    constructor (words: nat, ilistSector: nat, datablockStart: nat, blocks: seq<Block>, cache: seq<nat>, total: nat,
                 ghost stack: seq<nat>)
      requires MAX_FREEBLOCK < words && 0 < ilistSector <= datablockStart <= |blocks|
      requires Uniform(blocks, words)
      requires IsChain(cache, blocks, stack) && AreDistinctData(stack, datablockStart, |blocks|)
      requires total == |stack|
      ensures Valid() && fresh(freeblock)
      ensures this.words == words && this.ilistSector == ilistSector && this.datablockStart == datablockStart
      ensures this.blocks == blocks && free == stack
    {
      this.words, this.ilistSector, this.datablockStart := words, ilistSector, datablockStart;
      this.volumeSize := |blocks|;
      this.blocks := blocks;
      freeblock := new nat[MAX_FREEBLOCK](i => if 0 <= i < |cache| then cache[i] else 0);
      nfreeblock := |cache|;
      totalFreeblock := total;
      modified := false;
      this.cache := cache;
      free := stack;
    }

    /** Writes a block that is not on the free list. */
    method Write(b: nat, block: Block)
      requires Valid()
      requires b < |blocks| && |block| == words && b !in free
      modifies this`blocks
      ensures Valid()
      ensures blocks == old(blocks)[b := block]
    {
      ChainFrame(cache, blocks, blocks[b := block], free);
      blocks := blocks[b := block];
    }

    /** Reloads the cache from the node stored in block `b`. */
    method FreeblockUpdate(b: nat) returns (error: Status)
      requires freeblock.Length == MAX_FREEBLOCK && volumeSize == |blocks|
      requires Sane(b) ==> IsNode(blocks[b])
      modifies this`nfreeblock, this`modified, freeblock
      ensures Sane(b) ==>
                error == Ok && nfreeblock <= MAX_FREEBLOCK && freeblock[..nfreeblock] == NodeEntries(blocks[b])
      ensures !Sane(b) ==> error == EIO && nfreeblock == old(nfreeblock) && freeblock[..] == old(freeblock[..])
    {
      if !Sane(b) {
        return EIO;
      }
      var fb := blocks[b];
      var n := 0;
      while n < fb[0]
        invariant 0 <= n <= fb[0]
        invariant freeblock[..n] == fb[1..n + 1]
        modifies freeblock
      {
        freeblock[n] := fb[n + 1];
        n := n + 1;
      }
      nfreeblock := fb[0];
      modified := true;
      error := Ok;
    }

    /** Takes the last entry of the cache; entry 0 is replaced by the node it stores. */
    method TakeEntry() returns (error: Status, blk: nat)
      requires Valid() && totalFreeblock > 0
      modifies this`nfreeblock, this`totalFreeblock, this`modified, this`cache, this`free, freeblock
      ensures Valid()
      ensures error == Ok && old(free) == free + [blk]
      ensures Sane(blk) && blk !in free
    {
      ghost var next, rest, b := ListTake(cache, blocks, free, datablockStart);
      nfreeblock := nfreeblock - 1;
      blk := freeblock[nfreeblock];
      totalFreeblock := totalFreeblock - 1;
      modified := true;
      error := Ok;
      if nfreeblock == 0 {
        error := FreeblockUpdate(blk);
      } else {
        assert freeblock[..nfreeblock] == cache[..nfreeblock];
      }
      cache, free := next, rest;
    }

    /** The block that will be allocated next. */
    lemma TopOfFree() returns (rest: seq<nat>, b: nat)
      requires Valid() && free != []
      ensures rest == free[..|free| - 1] && b == free[|free| - 1]
      ensures free == rest + [b] && Sane(b) && b !in rest
    {
      rest, b := free[..|free| - 1], free[|free| - 1];
      assert free == rest + [b];
      DistinctTake(rest, b, datablockStart, volumeSize);
    }

    /** Pops the most recently freed block and clears it. */
    method Allocate() returns (error: Status, block: nat)
      requires Valid()
      modifies this, freeblock
      ensures Valid()
      ensures old(free) == [] ==> error == ENOSPC && block == 0 && free == [] && blocks == old(blocks)
      ensures old(free) != [] ==>
                && error == Ok && Sane(block) && block !in free
                && old(free) == free + [block]
                && free == old(free)[..|old(free)| - 1] && block == old(free)[|old(free)| - 1]
                && blocks == old(blocks)[block := ZeroBlock(words)]
    {
      if totalFreeblock == 0 {
        return ENOSPC, 0;
      }
      // Every entry of the list passes the sanity check, so the first one is taken.
      error, block := TakeEntry();
      ChainFrame(cache, blocks, blocks[block := ZeroBlock(words)], free);
      blocks := blocks[block := ZeroBlock(words)];
    }

    /** Pushes a block; a full cache is first stored in that block. */
    method Deallocate(b: nat) returns (error: Status)
      requires Valid()
      requires b !in free
      modifies this, freeblock
      ensures Valid()
      ensures !Sane(b) ==> error == EIO && free == old(free) && blocks == old(blocks)
      ensures Sane(b) ==>
                && error == Ok
                && free == old(free) + [b]
                && |blocks| == |old(blocks)|
                && (forall c :: 0 <= c < |blocks| && c != b ==> blocks[c] == old(blocks[c]))
    {
      if !Sane(b) {
        return EIO;
      }
      if nfreeblock < MAX_FREEBLOCK {
        PushEntry(b);
      } else {
        SpillInto(b);
      }
      error := Ok;
    }

    /** Appends block `b` to a cache that is not full. */
    method PushEntry(b: nat)
      requires Valid() && nfreeblock < MAX_FREEBLOCK
      requires Sane(b) && b !in free
      modifies this`nfreeblock, this`totalFreeblock, this`modified, this`cache, this`free, freeblock
      ensures Valid()
      ensures free == old(free) + [b]
    {
      ChainPush(cache, blocks, free, b);
      DistinctPush(free, b, datablockStart, volumeSize);
      freeblock[nfreeblock] := b;
      nfreeblock := nfreeblock + 1;
      totalFreeblock := totalFreeblock + 1;
      modified := true;
      cache, free := cache + [b], free + [b];
    }

    /** Stores the full cache in block `b` and starts a new cache with `b` alone. */
    method SpillInto(b: nat)
      requires Valid() && nfreeblock == MAX_FREEBLOCK
      requires Sane(b) && b !in free
      modifies this, freeblock
      ensures Valid()
      ensures free == old(free) + [b]
      ensures blocks == old(blocks)[b := SpillNode(old(freeblock[..]), words)]
    {
      ChainSpill(cache, blocks, free, b, words);
      DistinctPush(free, b, datablockStart, volumeSize);
      assert freeblock[..] == cache;
      var fb := SpilledCache();
      blocks := blocks[b := fb];
      ClearCache();
      freeblock[0] := b;
      nfreeblock := 1;
      modified := true;
      totalFreeblock := totalFreeblock + 1;
      cache, free := [b], free + [b];
    }

    /** The node that holds a copy of the whole cache. */
    method SpilledCache() returns (fb: Block)
      requires freeblock.Length == MAX_FREEBLOCK < words
      ensures fb == SpillNode(freeblock[..], words)
    {
      fb := ZeroBlock(words)[0 := MAX_FREEBLOCK];
      var i := 0;
      while i < MAX_FREEBLOCK
        invariant 0 <= i <= MAX_FREEBLOCK && |fb| == words && fb[0] == MAX_FREEBLOCK
        invariant forall k :: 0 <= k < i ==> fb[k + 1] == freeblock[k]
        invariant forall k :: i < k < words ==> fb[k] == 0
      {
        fb := fb[i + 1 := freeblock[i]];
        i := i + 1;
      }
    }

    /** Clears as many bytes of the cache as it has entries: the first twelve
        entries, and three of the four bytes of the next. */
    method ClearCache()
      requires freeblock.Length == MAX_FREEBLOCK
      modifies freeblock
      ensures forall i :: 0 <= i < MAX_FREEBLOCK / 4 ==> freeblock[i] == 0
      ensures freeblock[MAX_FREEBLOCK / 4] == old(freeblock[MAX_FREEBLOCK / 4]) % 256
      ensures forall i :: MAX_FREEBLOCK / 4 < i < MAX_FREEBLOCK ==> freeblock[i] == old(freeblock[i])
    {
      forall i | 0 <= i < MAX_FREEBLOCK / 4 {
        freeblock[i] := 0;
      }
      freeblock[MAX_FREEBLOCK / 4] := freeblock[MAX_FREEBLOCK / 4] % 256;
    }
  }
}

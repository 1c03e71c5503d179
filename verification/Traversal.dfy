/** Visiting the blocks of a file in order, and finding the block at an offset. */
module Traversal {
  import opened Blocks
  import opened Addressing
  import opened DatablockAddr
  import opened Forests
  import opened SizeChanges
  import opened InodeTree
  import opened Files

  const ITERATOR_END: int := -2

  /** What the callback is given: a block and how many bytes of it belong to the file. */
  datatype Visit = Visit(blk: nat, size: nat)

  /** The bytes of a file of `size` bytes that block number k holds. */
  function BytesIn(blksize: nat, size: nat, k: nat): nat
  {
    if size <= Times(k, blksize) then 0
    else if size - Times(k, blksize) <= blksize then size - Times(k, blksize)
    else blksize
  }

  /** All blocks of a file, in order. */
  ghost function AllVisits(n: nat, x: Snapshot, ino: nat): seq<Visit>
    requires n > 0 && ino in x.minodes
  {
    seq(Nblk(n, x, ino), k requires 0 <= k < Nblk(n, x, ino) =>
      Visit(Leaves(n, x, ino)[k], BytesIn(4 * n, x.minodes[ino].filesize, k)))
  }

  predicate GoesOn(all: seq<Visit>, func: seq<Visit> -> int, i: nat)
    requires i < |all|
  {
    func(all[..i + 1]) == 0
  }

  /** The callback has returned 0 for the first k blocks, and there are more. */
  ghost predicate Pending(all: seq<Visit>, func: seq<Visit> -> int, visits: seq<Visit>, k: nat)
  {
    k < |all| && visits == all[..k] && forall i :: 0 <= i < k ==> GoesOn(all, func, i)
  }

  /** The visits ended after the first block for which the callback did not return
      0, with what it returned, or after the last block. */
  ghost predicate Finished(all: seq<Visit>, func: seq<Visit> -> int, visits: seq<Visit>, ret: int)
  {
    || (ret == ITERATOR_END && visits == all && forall i :: 0 <= i < |all| ==> GoesOn(all, func, i))
    || (&& 0 < |visits| && Pending(all, func, visits[..|visits| - 1], |visits| - 1)
        && visits == all[..|visits|] && ret == func(visits) != 0)
  }

  /** The address whose last index is `k`. */
  function WithLast(a: Addr, k: nat): Addr
  {
    match a.level
    case 1 => a.(i0 := k)
    case 2 => a.(i1 := k)
    case _ => a.(i2 := k)
  }

  /** The first address below child `j` of an index block two levels above the leaves. */
  function WithMiddle(a: Addr, j: nat): Addr
  {
    if a.level == 2 then Addr(2, j, 0, 0) else Addr(3, a.i0, j, 0)
  }

  /** The first address below an index block `height` levels above the leaves. */
  predicate IsFirst(n: nat, a: Addr, height: nat)
  {
    IsAddr(n, a) && 1 <= height <= NewIndexBlocks(a)
  }

  lemma LastNumber(n: nat, a: Addr, k: nat)
    requires IsFirst(n, a, 1)
    ensures Number(n, WithLast(a, k)) == Number(n, a) + k
    ensures WithLast(a, k).level == a.level > 0
    ensures k < n ==> IsAddr(n, WithLast(a, k)) && AddrOf(n, Number(n, a) + k) == WithLast(a, k)
  {
    if k < n {
      AddrOfNumber(n, WithLast(a, k));
    }
  }

  /** The number of the first leaf below child `j` of an index block two levels above the leaves. */
  lemma MiddleNumber(n: nat, a: Addr, j: nat)
    requires IsFirst(n, a, 2)
    ensures Number(n, WithMiddle(a, j)) == Number(n, a) + Times(j, n)
    ensures j < n ==> IsFirst(n, WithMiddle(a, j), 1)
  {
    TimesIsProduct(j, n);
  }

  /** The number of the first leaf below child `i` of the triple-indirect block. */
  lemma TopNumber(n: nat, i: nat)
    requires n > 0
    ensures Number(n, Addr(3, i, 0, 0)) == Number(n, Addr(3, 0, 0, 0)) + Times(i, Times(n, n))
    ensures Number(n, Addr(2, 0, 0, 0)) + Times(n, n) == Number(n, Addr(3, 0, 0, 0))
  {
    TimesIsProduct(n, n);
    TimesIsProduct(i, n * n);
    assert i * (n * n) == i * n * n;
  }

  lemma LeafBelow(n: nat, ino: nat, a: Addr, k: nat, cur: nat)
    requires IsFirst(n, a, 1) && k < n && cur == Number(n, a) + k
    ensures var s := Leaf(n, ino, cur);
            s.height < s.addr.level && Parent(s) == Parent(Slot(ino, a, 0)) && WordIndex(s) == k
  {
    LastNumber(n, a, k);
  }

  lemma SameGrandparent(n: nat, ino: nat, a: Addr, j: nat)
    requires IsFirst(n, a, 2)
    ensures Parent(Slot(ino, WithMiddle(a, j), 1)) == Parent(Slot(ino, a, 1))
    ensures WordIndex(Slot(ino, WithMiddle(a, j), 1)) == j
    ensures Parent(Slot(ino, WithMiddle(a, j), 0)) == Slot(ino, WithMiddle(a, j), 1)
  {
  }

  /** A file with more than k blocks has bytes left after the first k. */
  lemma BytesLeft(blksize: nat, size: nat, k: nat)
    requires blksize > 0 && k < BlockCount(blksize, size)
    ensures Times(k, blksize) < size
    ensures size - Times(k, blksize) <= blksize <==> k + 1 == BlockCount(blksize, size)
  {
    TimesIsProduct(k, blksize);
    QuotientBounds(size + blksize - 1, blksize);
    var count := BlockCount(blksize, size);
    MulNext(k, blksize);
    MulMonotone(k + 1, count, blksize);
    if k + 1 < count {
      MulNext(k + 1, blksize);
      MulMonotone(k + 2, count, blksize);
    }
  }

  /** The bytes a callback has been given. */
  function TotalOf(visits: seq<Visit>): nat
  {
    if visits == [] then 0 else TotalOf(visits[..|visits| - 1]) + visits[|visits| - 1].size
  }

  /** The first k blocks have k times the bytes of a block, all blocks those of the file. */
  lemma {:induction false} BytesOfVisits(n: nat, x: Snapshot, ino: nat, k: nat)
    requires n > 0 && ino in x.minodes && k <= Nblk(n, x, ino)
    ensures TotalOf(AllVisits(n, x, ino)[..k])
            == if k < Nblk(n, x, ino) then Times(k, 4 * n) else x.minodes[ino].filesize
    decreases k
  {
    var all, size := AllVisits(n, x, ino), x.minodes[ino].filesize;
    if k > 0 {
      var before := k - 1;
      BytesOfVisits(n, x, ino, before);
      BytesLeft(4 * n, size, before);
      assert all[..k][..before] == all[..before];
    } else {
      BlockCountZero(4 * n);
      if size > 0 {
        QuotientBounds(size + 4 * n - 1, 4 * n);
      }
    }
  }

  /** Visiting all blocks gives each byte of the file once, and no empty or oversized block. */
  lemma VisitsCoverFile(n: nat, x: Snapshot, ino: nat)
    requires n > 0 && ino in x.minodes
    ensures TotalOf(AllVisits(n, x, ino)) == x.minodes[ino].filesize
    ensures forall k :: 0 <= k < |AllVisits(n, x, ino)| ==> 0 < AllVisits(n, x, ino)[k].size <= 4 * n
  {
    var all := AllVisits(n, x, ino);
    BytesOfVisits(n, x, ino, |all|);
    assert all[..|all|] == all;
    forall k | 0 <= k < |all| ensures 0 < all[k].size <= 4 * n {
      BytesLeft(4 * n, x.minodes[ino].filesize, k);
    }
  }

  /** The bytes left after k blocks; the callback has returned 0 for those. */
  ghost predicate InProgress(all: seq<Visit>, func: seq<Visit> -> int, blksize: nat, size: nat, visits: seq<Visit>,
                             filesize: nat, k: nat)
  {
    && Pending(all, func, visits, k) && blksize > 0 && |all| == BlockCount(blksize, size)
    && Times(k, blksize) + filesize == size
  }

  /** Calls the callback for block number k; `ret` is 0 if there is more to do. */
  method VisitBlock(func: seq<Visit> -> int, blksize: nat, blk: nat, filesize0: nat, visits0: seq<Visit>,
                    ghost all: seq<Visit>, ghost size: nat, ghost k: nat, ghost next: nat)
    returns (ret: int, filesize: nat, visits: seq<Visit>)
    requires InProgress(all, func, blksize, size, visits0, filesize0, k) && next == k + 1
    requires all[k] == Visit(blk, BytesIn(blksize, size, k))
    ensures ret == 0 ==> InProgress(all, func, blksize, size, visits, filesize, next)
    ensures ret != 0 ==> Finished(all, func, visits, ret)
  {
    BytesLeft(blksize, size, k);
    var last := filesize0 <= blksize;
    filesize := filesize0;
    visits := visits0 + [Visit(blk, if last then filesize else blksize)];
    assert visits == all[..k + 1];
    ret := func(visits);
    if ret != 0 {
      assert visits[..|visits| - 1] == visits0;
      return;
    }
    assert GoesOn(all, func, k);
    if last {
      assert visits == all;
      return ITERATOR_END, filesize, visits;
    }
    filesize := filesize - blksize;
  }

  /** The block at a position is named by the inode, or by a word of the block above. */
  lemma SlotIsNamed(n: nat, lo: nat, x: Snapshot, s: Slot)
    requires IsFileSystem(n, lo, x) && InUse(n, x, s)
    ensures s in x.forest.at && |x.minodes[s.ino].addr| == NADDR
    ensures if s.height < s.addr.level
            then Parent(s) in x.forest.at && Link(x.blocks, lo, x.forest.at[Parent(s)], WordIndex(s)) == x.forest.at[s]
            else RootIndex(s.addr) < NADDR && x.minodes[s.ino].addr[RootIndex(s.addr)] == x.forest.at[s]
  {
    InUseIsOwned(n, lo, x, s);
    assert IsReached(n, x.blocks, x.minodes, x.forest, s);
  }

  /** Block number k of a file that has more blocks than that. */
  lemma NextVisit(n: nat, lo: nat, x: Snapshot, ino: nat, k: nat)
    requires IsFileSystem(n, lo, x) && ino in x.minodes && k < Nblk(n, x, ino)
    ensures var s := Leaf(n, ino, k);
            && s in x.forest.at && InUse(n, x, s)
            && AllVisits(n, x, ino)[k] == Visit(x.forest.at[s], BytesIn(4 * n, x.minodes[ino].filesize, k))
  {
    LeafInUse(n, lo, x, ino, k);
    InUseIsOwned(n, lo, x, Leaf(n, ino, k));
  }

  /** The leaves below an index block are found there in order. */
  lemma NextLeaf(n: nat, lo: nat, x: Snapshot, ino: nat, listblk: nat, a: Addr, k: nat, k0: nat, cur: nat)
    requires IsFileSystem(n, lo, x) && ino in x.minodes && cur < Nblk(n, x, ino)
    requires IsFirst(n, a, 1) && StandsAbove(x.forest, ino, a, 1, listblk)
    requires k < n && a == AddrOf(n, k0) && cur == k0 + k
    ensures AllVisits(n, x, ino)[cur]
            == Visit(Link(x.blocks, lo, listblk, k), BytesIn(4 * n, x.minodes[ino].filesize, cur))
  {
    NextVisit(n, lo, x, ino, cur);
    NumberOfAddr(n, k0);
    LeafBelow(n, ino, a, k, cur);
    SlotIsNamed(n, lo, x, Leaf(n, ino, cur));
  }

  lemma FirstInUse(n: nat, x: Snapshot, ino: nat, a: Addr, h: nat, cur: nat)
    requires n > 0 && ino in x.minodes && cur < Nblk(n, x, ino)
    requires IsFirst(n, a, h) && cur == Number(n, a)
    ensures InUse(n, x, Slot(ino, a, h))
  {
    AddrOfNumber(n, a);
    AddrOrder(n, cur, Nblk(n, x, ino) - 1);
  }

  /** The index blocks right above the leaves are found in order in the block above. */
  lemma NextMiddle(n: nat, lo: nat, x: Snapshot, ino: nat, listblk: nat, a: Addr, j: nat, k0: nat, cur: nat)
    requires IsFileSystem(n, lo, x) && ino in x.minodes && cur < Nblk(n, x, ino)
    requires IsFirst(n, a, 2) && StandsAbove(x.forest, ino, a, 2, listblk)
    requires j < n && a == AddrOf(n, k0) && cur == k0 + Times(j, n)
    ensures var b := WithMiddle(a, j);
            IsFirst(n, b, 1) && b == AddrOf(n, cur) && StandsAbove(x.forest, ino, b, 1, Link(x.blocks, lo, listblk, j))
  {
    var b := WithMiddle(a, j);
    NumberOfAddr(n, k0);
    MiddleNumber(n, a, j);
    AddrOfNumber(n, b);
    FirstInUse(n, x, ino, b, 1, cur);
    SameGrandparent(n, ino, a, j);
    SlotIsNamed(n, lo, x, Slot(ino, b, 1));
  }

  /** So are the blocks below the triple-indirect one. */
  lemma NextTop(n: nat, lo: nat, x: Snapshot, ino: nat, listblk: nat, i: nat, k0: nat, cur: nat)
    requires IsFileSystem(n, lo, x) && ino in x.minodes && cur < Nblk(n, x, ino)
    requires StandsAbove(x.forest, ino, Addr(3, 0, 0, 0), 3, listblk)
    requires i < n && AddrOf(n, k0) == Addr(3, 0, 0, 0) && cur == k0 + Times(i, Times(n, n))
    ensures var a := Addr(3, i, 0, 0);
            IsFirst(n, a, 2) && a == AddrOf(n, cur) && StandsAbove(x.forest, ino, a, 2, Link(x.blocks, lo, listblk, i))
  {
    var a := Addr(3, i, 0, 0);
    var s := Slot(ino, a, 2);
    NumberOfAddr(n, k0);
    TopNumber(n, i);
    AddrOfNumber(n, a);
    FirstInUse(n, x, ino, a, 2, cur);
    assert Parent(s) == Slot(ino, Addr(3, 0, 0, 0), 3) && Parent(Slot(ino, a, 1)) == s;
    SlotIsNamed(n, lo, x, s);
  }

  /** The topmost index blocks are named by the inode. */
  lemma NextRoot(n: nat, lo: nat, x: Snapshot, ino: nat, level: nat, cur: nat)
    requires IsFileSystem(n, lo, x) && ino in x.minodes && cur < Nblk(n, x, ino)
    requires 1 <= level <= 3 && cur == FirstOf(n, level)
    ensures |x.minodes[ino].addr| == NADDR && IsFirst(n, Addr(level, 0, 0, 0), level)
    ensures AddrOf(n, cur) == Addr(level, 0, 0, 0)
    ensures StandsAbove(x.forest, ino, Addr(level, 0, 0, 0), level, x.minodes[ino].addr[DIRECT + level - 1])
  {
    var a := Addr(level, 0, 0, 0);
    TimesIsProduct(n, n);
    AddrOfNumber(n, a);
    FirstInUse(n, x, ino, a, level, cur);
    FirstParent(ino, a, level);
    SlotIsNamed(n, lo, x, Slot(ino, a, level));
  }

  /** Direct blocks are named by the inode. */
  lemma NextDirect(n: nat, lo: nat, x: Snapshot, ino: nat, k: nat)
    requires IsFileSystem(n, lo, x) && ino in x.minodes && k < Nblk(n, x, ino) && k < DIRECT
    ensures |x.minodes[ino].addr| == NADDR
    ensures AllVisits(n, x, ino)[k] == Visit(x.minodes[ino].addr[k], BytesIn(4 * n, x.minodes[ino].filesize, k))
  {
    NextVisit(n, lo, x, ino, k);
    AddrOfNumber(n, Addr(0, k, 0, 0));
    SlotIsNamed(n, lo, x, Leaf(n, ino, k));
  }

  /** The number of the first block of level 1, 2 or 3. */
  function FirstOf(n: nat, level: nat): nat
  {
    match level
    case 1 => DIRECT
    case 2 => DIRECT + n
    case _ => DIRECT + n + Times(n, n)
  }

  lemma TimesNext(j: nat, next: nat, b: nat)
    requires next == j + 1
    ensures Times(next, b) == Times(j, b) + b
  {
  }

  lemma NothingBeyond(n: nat, lo: nat, x: Snapshot, ino: nat, k0: nat, cur: nat)
    requires IsFileSystem(n, lo, x) && ino in x.minodes && cur < Nblk(n, x, ino)
    requires AddrOf(n, k0) == Addr(3, 0, 0, 0)
    ensures cur != k0 + Times(n, Times(n, n))
  {
    NumberOfAddr(n, k0);
    TopNumber(n, n);
    InReachSmaller(n, cur + 1, Nblk(n, x, ino));
    NumberOfAddr(n, cur);
    NumberBound(n, AddrOf(n, cur));
  }

  /** `all` are the blocks of file `ino`, which has `size` bytes. */
  ghost predicate IsFile(n: nat, lo: nat, x: Snapshot, ino: nat, size: nat, all: seq<Visit>)
  {
    IsFileSystem(n, lo, x) && ino in x.minodes && size == x.minodes[ino].filesize && all == AllVisits(n, x, ino)
  }

  /** Visits the direct blocks. */
  method LoopDirect(n: nat, dinode: Dinode, func: seq<Visit> -> int, ghost lo: nat, ghost x: Snapshot, ghost ino: nat,
                    ghost size: nat, ghost all: seq<Visit>)
    returns (ret: int, filesize: nat, visits: seq<Visit>)
    requires IsFile(n, lo, x, ino, size, all) && InProgress(all, func, 4 * n, size, [], size, 0)
    requires dinode == x.minodes[ino]
    ensures ret == 0 ==> InProgress(all, func, 4 * n, size, visits, filesize, DIRECT)
    ensures ret != 0 ==> Finished(all, func, visits, ret)
  {
    filesize, visits, ret := dinode.filesize, [], 0;
    var i := 0;
    while i < DIRECT
      invariant i <= DIRECT && InProgress(all, func, 4 * n, size, visits, filesize, i)
    {
      var next := i + 1;
      NextDirect(n, lo, x, ino, i);
      // Every leaf passes the sanity check.
      ret, filesize, visits := VisitBlock(func, 4 * n, dinode.addr[i], filesize, visits, all, size, i, next);
      if ret != 0 {
        return;
      }
      i := next;
    }
    ret := 0;
  }

  /** Visits the leaves below index block `listblk`, whose first leaf is number `k0` at `a`. */
  method Loop1(n: nat, lo: nat, blocks: seq<Block>, listblk: nat, filesize0: nat, func: seq<Visit> -> int,
               visits0: seq<Visit>,
               ghost x: Snapshot, ghost ino: nat, ghost size: nat, ghost all: seq<Visit>, ghost a: Addr, ghost k0: nat)
    returns (ret: int, filesize: nat, visits: seq<Visit>, ghost cur: nat)
    requires blocks == x.blocks && IsFile(n, lo, x, ino, size, all)
    requires InProgress(all, func, 4 * n, size, visits0, filesize0, k0)
    requires IsFirst(n, a, 1) && a == AddrOf(n, k0) && StandsAbove(x.forest, ino, a, 1, listblk)
    ensures ret == 0 ==> InProgress(all, func, 4 * n, size, visits, filesize, cur) && cur == k0 + n
    ensures ret != 0 ==> Finished(all, func, visits, ret)
  {
    filesize, visits, ret, cur := filesize0, visits0, 0, k0;
    var k := 0;
    while k < n
      invariant k <= n && cur == k0 + k
      invariant InProgress(all, func, 4 * n, size, visits, filesize, cur)
    {
      ghost var next := cur + 1;
      NextLeaf(n, lo, x, ino, listblk, a, k, k0, cur);
      var blk := Link(blocks, lo, listblk, k);
      ret, filesize, visits := VisitBlock(func, 4 * n, blk, filesize, visits, all, size, cur, next);
      if ret != 0 {
        return;
      }
      k := k + 1;
      cur := next;
    }
    ret := 0;
  }

  /** Loop1 for the index block named by word `j` of index block `listblk`. */
  method LinkLoop1(n: nat, lo: nat, blocks: seq<Block>, listblk: nat, j: nat, filesize0: nat, func: seq<Visit> -> int,
                   visits0: seq<Visit>,
                   ghost x: Snapshot, ghost ino: nat, ghost size: nat, ghost all: seq<Visit>, ghost a: Addr,
                   ghost k0: nat, ghost k: nat)
    returns (ret: int, filesize: nat, visits: seq<Visit>, ghost cur: nat)
    requires blocks == x.blocks && IsFile(n, lo, x, ino, size, all)
    requires InProgress(all, func, 4 * n, size, visits0, filesize0, k)
    requires IsFirst(n, a, 2) && a == AddrOf(n, k0) && StandsAbove(x.forest, ino, a, 2, listblk)
    requires j < n && k == k0 + Times(j, n)
    ensures ret == 0 ==> InProgress(all, func, 4 * n, size, visits, filesize, cur) && cur == k + n
    ensures ret != 0 ==> Finished(all, func, visits, ret)
  {
    NextMiddle(n, lo, x, ino, listblk, a, j, k0, k);
    var blk := Link(blocks, lo, listblk, j);
    ret, filesize, visits, cur := Loop1(n, lo, blocks, blk, filesize0, func, visits0, x, ino, size, all,
                                        WithMiddle(a, j), k);
  }

  /** Visits the leaves two levels below index block `listblk`. */
  method Loop2(n: nat, lo: nat, blocks: seq<Block>, listblk: nat, filesize0: nat, func: seq<Visit> -> int,
               visits0: seq<Visit>,
               ghost x: Snapshot, ghost ino: nat, ghost size: nat, ghost all: seq<Visit>, ghost a: Addr, ghost k0: nat)
    returns (ret: int, filesize: nat, visits: seq<Visit>, ghost cur: nat)
    requires blocks == x.blocks && IsFile(n, lo, x, ino, size, all)
    requires InProgress(all, func, 4 * n, size, visits0, filesize0, k0)
    requires IsFirst(n, a, 2) && a == AddrOf(n, k0) && StandsAbove(x.forest, ino, a, 2, listblk)
    ensures ret == 0 ==> InProgress(all, func, 4 * n, size, visits, filesize, cur) && cur == k0 + Times(n, n)
    ensures ret != 0 ==> Finished(all, func, visits, ret)
  {
    filesize, visits, ret, cur := filesize0, visits0, 0, k0;
    var j := 0;
    while j < n
      invariant j <= n && cur == k0 + Times(j, n)
      invariant InProgress(all, func, 4 * n, size, visits, filesize, cur)
    {
      ret, filesize, visits, cur := LinkLoop1(n, lo, blocks, listblk, j, filesize, func, visits, x, ino, size, all, a,
                                              k0, cur);
      if ret != 0 {
        return;
      }
      var next := j + 1;
      TimesNext(j, next, n);
      j := next;
    }
    ret := 0;
  }

  /** Loop2 for the index block named by word `i` of the triple-indirect block. */
  method LinkLoop2(n: nat, lo: nat, blocks: seq<Block>, listblk: nat, i: nat, filesize0: nat, func: seq<Visit> -> int,
                   visits0: seq<Visit>,
                   ghost x: Snapshot, ghost ino: nat, ghost size: nat, ghost all: seq<Visit>,
                   ghost k0: nat, ghost k: nat)
    returns (ret: int, filesize: nat, visits: seq<Visit>, ghost cur: nat)
    requires blocks == x.blocks && IsFile(n, lo, x, ino, size, all)
    requires InProgress(all, func, 4 * n, size, visits0, filesize0, k)
    requires AddrOf(n, k0) == Addr(3, 0, 0, 0) && StandsAbove(x.forest, ino, Addr(3, 0, 0, 0), 3, listblk)
    requires i < n && k == k0 + Times(i, Times(n, n))
    ensures ret == 0 ==> InProgress(all, func, 4 * n, size, visits, filesize, cur) && cur == k + Times(n, n)
    ensures ret != 0 ==> Finished(all, func, visits, ret)
  {
    NextTop(n, lo, x, ino, listblk, i, k0, k);
    var blk := Link(blocks, lo, listblk, i);
    ret, filesize, visits, cur := Loop2(n, lo, blocks, blk, filesize0, func, visits0, x, ino, size, all,
                                        Addr(3, i, 0, 0), k);
  }

  /** Visits the leaves three levels below the inode. */
  method Loop3(n: nat, lo: nat, blocks: seq<Block>, listblk: nat, filesize0: nat, func: seq<Visit> -> int,
               visits0: seq<Visit>,
               ghost x: Snapshot, ghost ino: nat, ghost size: nat, ghost all: seq<Visit>, ghost k0: nat)
    returns (ret: int, visits: seq<Visit>)
    requires blocks == x.blocks && IsFile(n, lo, x, ino, size, all)
    requires InProgress(all, func, 4 * n, size, visits0, filesize0, k0)
    requires AddrOf(n, k0) == Addr(3, 0, 0, 0) && StandsAbove(x.forest, ino, Addr(3, 0, 0, 0), 3, listblk)
    ensures Finished(all, func, visits, ret)
  {
    var filesize := filesize0;
    visits, ret := visits0, 0;
    ghost var cur := k0;
    var i := 0;
    while i < n
      invariant i <= n && cur == k0 + Times(i, Times(n, n))
      invariant InProgress(all, func, 4 * n, size, visits, filesize, cur)
    {
      ret, filesize, visits, cur := LinkLoop2(n, lo, blocks, listblk, i, filesize, func, visits, x, ino, size, all, k0,
                                              cur);
      if ret != 0 {
        return;
      }
      var next := i + 1;
      TimesNext(i, next, Times(n, n));
      i := next;
    }
    // No file is larger than the trees.
    NothingBeyond(n, lo, x, ino, k0, cur);
    assert false;
  }

  /** Visits the blocks after the direct ones. */
  method LoopIndirect(n: nat, lo: nat, blocks: seq<Block>, dinode: Dinode, filesize0: nat, func: seq<Visit> -> int,
                      visits0: seq<Visit>,
                      ghost x: Snapshot, ghost ino: nat, ghost size: nat, ghost all: seq<Visit>)
    returns (ret: int, visits: seq<Visit>)
    requires blocks == x.blocks && IsFile(n, lo, x, ino, size, all)
    requires InProgress(all, func, 4 * n, size, visits0, filesize0, DIRECT) && dinode == x.minodes[ino]
    ensures Finished(all, func, visits, ret)
  {
    ghost var cur := DIRECT;
    var filesize;
    NextRoot(n, lo, x, ino, 1, cur);
    ret, filesize, visits, cur := Loop1(n, lo, blocks, dinode.addr[DIRECT], filesize0, func, visits0, x, ino, size,
                                        all, Addr(1, 0, 0, 0), cur);
    if ret != 0 {
      return;
    }
    NextRoot(n, lo, x, ino, 2, cur);
    ret, filesize, visits, cur := Loop2(n, lo, blocks, dinode.addr[DIRECT + 1], filesize, func, visits, x, ino, size,
                                        all, Addr(2, 0, 0, 0), cur);
    if ret != 0 {
      return;
    }
    NextRoot(n, lo, x, ino, 3, cur);
    ret, visits := Loop3(n, lo, blocks, dinode.addr[DIRECT + 2], filesize, func, visits, x, ino, size, all, cur);
  }

  /** Every virtual disk is a file system in the sense of the theorems about files. */
  lemma ValidIsFileSystem(v: Vdisk)
    requires v.Valid()
    ensures IsFileSystem(v.disk.words, v.disk.datablockStart, v.Now())
  {
  }

  /** Calls the callback for each block of a file until it does not return 0. */
  method Foreach(v: Vdisk, ino: nat, func: seq<Visit> -> int) returns (ret: int, visits: seq<Visit>)
    requires v.Valid() && ino in v.minodes
    ensures Finished(AllVisits(v.disk.words, v.Now(), ino), func, visits, ret)
  {
    ghost var x := v.Now();
    ghost var all := AllVisits(v.disk.words, x, ino);
    var n, blocks, dinode := v.disk.words, v.disk.blocks, v.minodes[ino];
    BlockCountZero(v.Blksize());
    if dinode.filesize == 0 {
      return ITERATOR_END, [];
    }
    var filesize;
    ghost var size := dinode.filesize;
    ret, filesize, visits := LoopDirect(n, dinode, func, v.disk.datablockStart, x, ino, size, all);
    if ret != 0 {
      return;
    }
    ret, visits := LoopIndirect(n, v.disk.datablockStart, blocks, dinode, filesize, func, visits, x, ino, size, all);
  }

  /** The block that holds the byte before `offset`. */
  method Last(v: Vdisk, ino: nat, offset: nat) returns (blk: nat)
    requires v.Valid() && ino in v.minodes && 0 < offset <= v.minodes[ino].filesize
    ensures 0 < BlockCount(v.Blksize(), offset) <= Nblk(v.disk.words, v.Now(), ino)
    ensures blk == Leaves(v.disk.words, v.Now(), ino)[BlockCount(v.Blksize(), offset) - 1]
  {
    ghost var k := LastIsLeaf(v, ino, offset);
    var map_ := v.AddrOfSize(offset);
    assert map_ == AddrOf(v.disk.words, k);
    blk := LinkPath(v.disk.datablockStart, v.disk.blocks, v.minodes[ino].addr, map_, v.disk.words, v.Now(), ino, k);
  }

  lemma LastIsLeaf(v: Vdisk, ino: nat, offset: nat) returns (k: nat)
    requires v.Valid() && ino in v.minodes && 0 < offset <= v.minodes[ino].filesize
    ensures IsFileSystem(v.disk.words, v.disk.datablockStart, v.Now()) && v.IsSize(offset)
    ensures k + 1 == BlockCount(v.Blksize(), offset) <= Nblk(v.disk.words, v.Now(), ino)
  {
    BlockCountZero(v.Blksize());
    v.SmallerIsSize(v.minodes[ino].filesize, v.minodes[ino].filesize - offset);
    k := BlockCount(v.Blksize(), offset) - 1;
  }

  /** Follows the index blocks to the leaf at an address. */
  method LinkPath(lo: nat, blocks: seq<Block>, addr: seq<nat>, a: Addr, ghost n: nat, ghost x: Snapshot,
                  ghost ino: nat, ghost k: nat)
    returns (blk: nat)
    requires IsFileSystem(n, lo, x) && ino in x.minodes && k < Nblk(n, x, ino)
    requires blocks == x.blocks && addr == x.minodes[ino].addr && a == AddrOf(n, k)
    ensures blk == Leaves(n, x, ino)[k]
  {
    LeafInUse(n, lo, x, ino, k);
    PathIsNamed(n, lo, x, ino, a, k);
    match a.level
    case 0 => blk := addr[a.i0];
    case 1 => blk := Link(blocks, lo, addr[DIRECT], a.i0);
    case 2 => blk := Link(blocks, lo, Link(blocks, lo, addr[DIRECT + 1], a.i0), a.i1);
    case _ => blk := Link(blocks, lo, Link(blocks, lo, Link(blocks, lo, addr[DIRECT + 2], a.i0), a.i1), a.i2);
  }

  lemma PathIsNamed(n: nat, lo: nat, x: Snapshot, ino: nat, a: Addr, k: nat)
    requires IsFileSystem(n, lo, x) && ino in x.minodes && k < Nblk(n, x, ino) && a == AddrOf(n, k)
    requires Leaf(n, ino, k) in x.forest.at
    ensures |x.minodes[ino].addr| == NADDR && a.level <= 3
    ensures var addr, b, at := x.minodes[ino].addr, x.blocks, x.forest.at[Leaf(n, ino, k)];
            match a.level
            case 0 => a.i0 < NADDR && at == addr[a.i0]
            case 1 => at == Link(b, lo, addr[DIRECT], a.i0)
            case 2 => at == Link(b, lo, Link(b, lo, addr[DIRECT + 1], a.i0), a.i1)
            case _ => at == Link(b, lo, Link(b, lo, Link(b, lo, addr[DIRECT + 2], a.i0), a.i1), a.i2)
  {
    var s := Leaf(n, ino, k);
    InUseIsOwned(n, lo, x, s);
    SlotIsNamed(n, lo, x, s);
    if a.level >= 1 {
      var p := Parent(s);
      InUseIsOwned(n, lo, x, p);
      SlotIsNamed(n, lo, x, p);
      if a.level >= 2 {
        var q := Parent(p);
        InUseIsOwned(n, lo, x, q);
        SlotIsNamed(n, lo, x, q);
        if a.level == 3 {
          InUseIsOwned(n, lo, x, Parent(q));
          SlotIsNamed(n, lo, x, Parent(q));
        }
      }
    }
  }
}

/** Which block of the disk stands at which position of which inode's tree. */
module Forests {
  import opened Blocks
  import opened Addressing

  const NADDR: nat := 19

  /** An inode as stored on disk: 32 words.  `stamps` are the words of the time
      stamps, owner, group and code page. */
  datatype Dinode = Dinode(mode: nat, nlink: nat, filesize: nat, stamps: seq<nat>, addr: seq<nat>)

  /** A block of a file: the leaf at `addr` (height 0), or the index block
      `height` levels above the leaves whose first leaf is at `addr`. */
  datatype Slot = Slot(ino: nat, addr: Addr, height: nat)

  ghost predicate IsSlot(n: nat, s: Slot)
  {
    IsAddr(n, s.addr) && s.height <= NewIndexBlocks(s.addr)
  }

  /** Where the inode holds the number of a block that has no block above it. */
  function RootIndex(a: Addr): nat
  {
    if a.level == 0 then a.i0 else DIRECT + a.level - 1
  }

  /** All nineteen words of the address list of an inode name blocks. */
  lemma RootsAreAllWords(n: nat, w: nat)
    requires n > 0
    ensures w < 19 <==> exists a :: IsAddr(n, a) && RootIndex(a) == w
  {
    if w < 16 {
      assert IsAddr(n, Addr(0, w, 0, 0)) && RootIndex(Addr(0, w, 0, 0)) == w;
    } else if w < 19 {
      var a := Addr(w - 15, 0, 0, 0);
      assert IsAddr(n, a) && RootIndex(a) == w;
    }
  }

  /** The index block right above a block. */
  function Parent(s: Slot): Slot
  {
    var a := s.addr;
    if s.height + 1 >= a.level then Slot(s.ino, Addr(a.level, 0, 0, 0), a.level)
    else if s.height + 2 == a.level then Slot(s.ino, Addr(a.level, a.i0, 0, 0), s.height + 1)
    else Slot(s.ino, Addr(a.level, a.i0, a.i1, 0), s.height + 1)
  }

  /** Which word of the index block above holds the number of a block. */
  function WordIndex(s: Slot): nat
  {
    if s.height + 1 >= s.addr.level then s.addr.i0
    else if s.height + 2 == s.addr.level then s.addr.i1
    else s.addr.i2
  }

  lemma ParentIsSlot(n: nat, s: Slot)
    requires IsSlot(n, s) && s.height < s.addr.level
    ensures IsSlot(n, Parent(s)) && Parent(s).height == s.height + 1
    ensures WordIndex(s) < n && Le(Parent(s).addr, s.addr)
    ensures Parent(s).addr == s.addr <==> s.height < NewIndexBlocks(s.addr)
    ensures s.height < NewIndexBlocks(s.addr) ==> WordIndex(s) == 0
  {
  }

  /** The index block `h` levels above a leaf stands where the block of height h
      that starts with that leaf would stand. */
  lemma ParentOfParent(n: nat, ino: nat, a: Addr, h: nat)
    requires IsAddr(n, a) && 0 < h < a.level
    ensures var p := Parent(Slot(ino, a, h - 1));
            && IsSlot(n, p) && p.height == h
            && Parent(p) == Parent(Slot(ino, a, h)) && WordIndex(p) == WordIndex(Slot(ino, a, h))
  {
  }

  lemma FirstParent(ino: nat, a: Addr, h: nat)
    requires a == Addr(a.level, 0, 0, 0) && 0 < h <= a.level
    ensures Parent(Slot(ino, a, h - 1)) == Slot(ino, a, h)
  {
  }

  lemma SlotFromParent(n: nat, s: Slot, t: Slot)
    requires IsSlot(n, s) && s.height < s.addr.level
    requires IsSlot(n, t) && t.height < t.addr.level
    requires Parent(s) == Parent(t) && WordIndex(s) == WordIndex(t)
    ensures s == t
  {
  }

  /** The block at each position, and the position of each block in use. */
  datatype Forest = Forest(at: map<Slot, nat>, owner: map<nat, Slot>)
  {
    function Insert(s: Slot, b: nat): Forest
    {
      Forest(at[s := b], owner[b := s])
    }

    function Remove(s: Slot): Forest
      requires s in at
    {
      Forest(at - {s}, owner - {at[s]})
    }
  }

  /** `f` describes the trees reached from the inodes: every block has one
      position and is reached from the block or inode above it, and no block
      in use is free. */
  ghost predicate Linked(n: nat, lo: nat, blocks: seq<Block>, minodes: map<nat, Dinode>, f: Forest, free: seq<nat>)
  {
    && Uniform(blocks, n)
    && (forall i :: i in minodes ==> |minodes[i].addr| == NADDR)
    && (forall s :: s in f.at ==> lo <= f.at[s] < |blocks| && f.at[s] in f.owner && f.owner[f.at[s]] == s)
    && (forall b :: b in f.owner ==> f.owner[b] in f.at && f.at[f.owner[b]] == b)
    && (forall b :: b in free ==> b !in f.owner)
    && (forall s :: s in f.at ==> IsSlot(n, s) && s.ino in minodes)
    && (forall s :: s in f.at ==> IsReached(n, blocks, minodes, f, s))
  }

  ghost predicate IsReached(n: nat, blocks: seq<Block>, minodes: map<nat, Dinode>, f: Forest, s: Slot)
    requires Uniform(blocks, n)
    requires forall i :: i in minodes ==> |minodes[i].addr| == NADDR
    requires forall t :: t in f.at ==> f.at[t] < |blocks|
    requires s in f.at && IsSlot(n, s) && s.ino in minodes
  {
    if s.height == s.addr.level then
      minodes[s.ino].addr[RootIndex(s.addr)] == f.at[s]
    else
      Parent(s) in f.at && WordIndex(s) < n && blocks[f.at[Parent(s)]][WordIndex(s)] == f.at[s]
  }

  /** The block number in word `i` of an index block, 0 if either is no data block. */
  function Link(blocks: seq<Block>, lo: nat, listblk: nat, i: nat): nat
  {
    if lo <= listblk < |blocks| && i < |blocks[listblk]| && lo <= blocks[listblk][i] < |blocks|
    then blocks[listblk][i]
    else 0
  }

  /** Index block `up` stands `h` levels above the leaf at `a`. */
  ghost predicate StandsAbove(f: Forest, ino: nat, a: Addr, h: nat, up: nat)
  {
    0 < h <= a.level && var p := Parent(Slot(ino, a, h - 1)); p in f.at && f.at[p] == up
  }

  /** Nothing that `f` depends on differs between the two disks. */
  ghost predicate SameLinks(blocks: seq<Block>, blocks': seq<Block>, n: nat, f: Forest)
  {
    && |blocks| == |blocks'| && Uniform(blocks, n) && Uniform(blocks', n)
    && forall s ::
         && s in f.at && IsSlot(n, s) && s.height < s.addr.level && Parent(s) in f.at
         && f.at[Parent(s)] < |blocks| && WordIndex(s) < n ==>
         blocks[f.at[Parent(s)]][WordIndex(s)] == blocks'[f.at[Parent(s)]][WordIndex(s)]
  }

  lemma LinkedFrame(n: nat, lo: nat, blocks: seq<Block>, blocks': seq<Block>, minodes: map<nat, Dinode>, f: Forest,
                    free: seq<nat>, free': seq<nat>)
    requires Linked(n, lo, blocks, minodes, f, free)
    requires SameLinks(blocks, blocks', n, f)
    requires forall b :: b in free' ==> b !in f.owner
    ensures Linked(n, lo, blocks', minodes, f, free')
  {
  }

  /** A word that no position uses may change. */
  lemma DeadWord(n: nat, lo: nat, blocks: seq<Block>, minodes: map<nat, Dinode>, f: Forest, free: seq<nat>, s: Slot,
                 w: nat)
    requires Linked(n, lo, blocks, minodes, f, free)
    requires IsSlot(n, s) && s.height < s.addr.level && s !in f.at && Parent(s) in f.at
    ensures WordIndex(s) < n
    ensures var up := f.at[Parent(s)];
            SameLinks(blocks, blocks[up := Put(blocks[up], WordIndex(s), w)], n, f)
  {
    var up := f.at[Parent(s)];
    ParentIsSlot(n, s);
    forall t | t in f.at && t.height < t.addr.level && f.at[Parent(t)] == up && WordIndex(t) == WordIndex(s)
      ensures false
    {
      SlotFromParent(n, s, t);
    }
  }

  function SetAddr(d: Dinode, i: nat, b: nat): Dinode
    requires i < |d.addr|
  {
    d.(addr := d.addr[i := b])
  }

  /** Only the block numbers held by the inodes matter to the trees. */
  lemma LinkedMinodes(n: nat, lo: nat, blocks: seq<Block>, minodes: map<nat, Dinode>, minodes': map<nat, Dinode>,
                      f: Forest, free: seq<nat>)
    requires Linked(n, lo, blocks, minodes, f, free)
    requires minodes'.Keys == minodes.Keys
    requires forall i :: i in minodes ==> minodes'[i].addr == minodes[i].addr
    ensures Linked(n, lo, blocks, minodes', f, free)
  {
    forall s | s in f.at ensures IsReached(n, blocks, minodes', f, s) {
      assert IsReached(n, blocks, minodes, f, s);
    }
  }

  /** At most the block numbers of inode `ino` differ. */
  ghost predicate OnlyAddrDiffers(m: map<nat, Dinode>, m': map<nat, Dinode>, ino: nat)
  {
    && ino in m && m'.Keys == m.Keys
    && (forall i :: i in m && i != ino ==> m'[i] == m[i])
    && m'[ino] == m[ino].(addr := m'[ino].addr)
  }

  lemma SetAddrOnly(m: map<nat, Dinode>, ino: nat, i: nat, b: nat)
    requires ino in m && i < |m[ino].addr|
    ensures OnlyAddrDiffers(m, m[ino := SetAddr(m[ino], i, b)], ino)
  {
  }

  /** An entry of the inode that no position uses may change. */
  lemma DeadRoot(n: nat, lo: nat, blocks: seq<Block>, minodes: map<nat, Dinode>, f: Forest, free: seq<nat>, s: Slot,
                 b: nat)
    requires Linked(n, lo, blocks, minodes, f, free)
    requires IsSlot(n, s) && s.height == s.addr.level && s !in f.at && s.ino in minodes
    ensures RootIndex(s.addr) < NADDR
    ensures Linked(n, lo, blocks, minodes[s.ino := SetAddr(minodes[s.ino], RootIndex(s.addr), b)], f, free)
  {
    var minodes' := minodes[s.ino := SetAddr(minodes[s.ino], RootIndex(s.addr), b)];
    forall t | t in f.at ensures IsReached(n, blocks, minodes', f, t) {
      assert IsReached(n, blocks, minodes, f, t);
    }
  }

  lemma LinkedInsert(n: nat, lo: nat, blocks: seq<Block>, minodes: map<nat, Dinode>, f: Forest, free: seq<nat>,
                     s: Slot, b: nat)
    requires Linked(n, lo, blocks, minodes, f, free)
    requires IsSlot(n, s) && s !in f.at && s.ino in minodes
    requires lo <= b < |blocks| && b !in f.owner && b !in free
    requires if s.height == s.addr.level then minodes[s.ino].addr[RootIndex(s.addr)] == b
             else Parent(s) in f.at && WordIndex(s) < n && blocks[f.at[Parent(s)]][WordIndex(s)] == b
    ensures Linked(n, lo, blocks, minodes, f.Insert(s, b), free)
  {
    var g := f.Insert(s, b);
    forall t | t in g.at ensures IsReached(n, blocks, minodes, g, t) {
      if t != s {
        assert IsReached(n, blocks, minodes, f, t);
      }
    }
  }

  lemma LinkedRemove(n: nat, lo: nat, blocks: seq<Block>, minodes: map<nat, Dinode>, f: Forest, free: seq<nat>, s: Slot)
    requires Linked(n, lo, blocks, minodes, f, free)
    requires s in f.at
    requires forall t :: t in f.at && t.height < t.addr.level ==> Parent(t) != s
    ensures Linked(n, lo, blocks, minodes, f.Remove(s), free)
  {
    var g := f.Remove(s);
    forall t | t in g.at ensures IsReached(n, blocks, minodes, g, t) {
      assert IsReached(n, blocks, minodes, f, t);
    }
  }

  /** Takes free block b, clears it, and attaches it at position s below a block in use. */
  lemma LinkedAttach(n: nat, lo: nat, blocks: seq<Block>, minodes: map<nat, Dinode>, f: Forest, free: seq<nat>,
                     rest: seq<nat>, s: Slot, b: nat)
    requires Linked(n, lo, blocks, minodes, f, free) && free == rest + [b]
    requires lo <= b < |blocks| && b !in rest
    requires IsSlot(n, s) && s.height < s.addr.level && s !in f.at && s.ino in minodes && Parent(s) in f.at
    ensures f.at[Parent(s)] != b && WordIndex(s) < n && b !in f.owner
    ensures var up := f.at[Parent(s)];
            Linked(n, lo, blocks[b := ZeroBlock(n)][up := Put(blocks[up], WordIndex(s), b)], minodes, f.Insert(s, b),
                   rest)
  {
    var up := f.at[Parent(s)];
    assert b in free;
    assert forall c :: c in rest ==> c in free;
    var blocks1 := blocks[b := ZeroBlock(n)];
    LinkedFrame(n, lo, blocks, blocks1, minodes, f, free, rest);
    DeadWord(n, lo, blocks1, minodes, f, rest, s, b);
    var blocks2 := blocks1[up := Put(blocks[up], WordIndex(s), b)];
    LinkedFrame(n, lo, blocks1, blocks2, minodes, f, rest, rest);
    LinkedInsert(n, lo, blocks2, minodes, f, rest, s, b);
  }

  /** Takes free block b, clears it, and stores it at position s in the inode. */
  lemma LinkedRoot(n: nat, lo: nat, blocks: seq<Block>, minodes: map<nat, Dinode>, f: Forest, free: seq<nat>,
                   rest: seq<nat>, s: Slot, b: nat)
    requires Linked(n, lo, blocks, minodes, f, free) && free == rest + [b]
    requires lo <= b < |blocks| && b !in rest
    requires IsSlot(n, s) && s.height == s.addr.level && s !in f.at && s.ino in minodes
    ensures RootIndex(s.addr) < NADDR && b !in f.owner
    ensures Linked(n, lo, blocks[b := ZeroBlock(n)],
                   minodes[s.ino := SetAddr(minodes[s.ino], RootIndex(s.addr), b)], f.Insert(s, b), rest)
  {
    assert b in free;
    assert forall c :: c in rest ==> c in free;
    var blocks1 := blocks[b := ZeroBlock(n)];
    LinkedFrame(n, lo, blocks, blocks1, minodes, f, free, rest);
    DeadRoot(n, lo, blocks1, minodes, f, rest, s, b);
    LinkedInsert(n, lo, blocks1, minodes[s.ino := SetAddr(minodes[s.ino], RootIndex(s.addr), b)], f, rest, s, b);
  }

  ghost predicate Extends(f: Forest, g: Forest)
  {
    && (forall s :: s in f.at ==> s in g.at && g.at[s] == f.at[s])
    && (forall b :: b in f.owner ==> b in g.owner && g.owner[b] == f.owner[b])
  }

  /** Forgetting positions added on top of a well-formed forest. */
  lemma LinkedRestrict(n: nat, lo: nat, blocks: seq<Block>, blocks': seq<Block>, minodes: map<nat, Dinode>,
                       minodes': map<nat, Dinode>,
                       f: Forest, g: Forest, free: seq<nat>, free': seq<nat>)
    requires Linked(n, lo, blocks, minodes, f, free)
    requires Linked(n, lo, blocks', minodes', g, free')
    requires Extends(f, g)
    ensures Linked(n, lo, blocks', minodes', f, free')
    ensures Linked(n, lo, blocks', minodes, f, free')
  {
    forall s | s in f.at ensures IsReached(n, blocks', minodes', f, s) && IsReached(n, blocks', minodes, f, s) {
      assert IsReached(n, blocks, minodes, f, s);
      assert IsReached(n, blocks', minodes', g, s);
    }
  }

  /** Below `lo`, and outside the index blocks of inode `ino`, no block in use differs. */
  ghost predicate SameElsewhere(blocks: seq<Block>, blocks': seq<Block>, f: Forest, ino: nat, lo: nat)
  {
    && |blocks| == |blocks'|
    && forall b ::
         0 <= b < |blocks| && (b < lo || (b in f.owner && !(f.owner[b].ino == ino && f.owner[b].height > 0))) ==>
         blocks'[b] == blocks[b]
  }

  lemma ElsewhereTwice(blocks: seq<Block>, blocks': seq<Block>, blocks'': seq<Block>, f: Forest, g: Forest,
                       f': Forest, ino: nat, lo: nat)
    requires SameElsewhere(blocks, blocks', f, ino, lo) && SameElsewhere(blocks', blocks'', g, ino, lo)
    requires Extends(f', f) && Extends(f', g)
    ensures SameElsewhere(blocks, blocks'', f', ino, lo)
  {
  }

  /** A state of the disk and the inodes; the inode list starts at block `ilist`. */
  datatype Snapshot =
    Snapshot(blocks: seq<Block>, minodes: map<nat, Dinode>, forest: Forest, free: seq<nat>, ilist: nat)

  /** From x to y, the blocks first needed by the leaf of inode `ino` at address
      `a` were added, except those below height `h`, and nothing else changed. */
  ghost predicate Grown(lo: nat, x: Snapshot, y: Snapshot, ino: nat, a: Addr, h: nat)
  {
    && h <= NewIndexBlocks(a) + 1
    && (forall s :: s in x.forest.at ==> s.ino != ino || s.addr != a)
    && |x.free| == |y.free| + (NewIndexBlocks(a) + 1 - h) && y.free == x.free[..|y.free|]
    && (forall s :: s in y.forest.at <==>
          s in x.forest.at || (s.ino == ino && s.addr == a && h <= s.height <= NewIndexBlocks(a)))
    && Extends(x.forest, y.forest)
    && (forall s :: s in y.forest.at && s !in x.forest.at ==> y.forest.at[s] in x.free)
    && (forall b :: b in x.free ==> b in y.free || b in y.forest.owner)
    && SameElsewhere(x.blocks, y.blocks, x.forest, ino, lo)
  }

  /** What adding the leaf at `a` achieves when enough blocks are free, and what
      it leaves alone when not. */
  ghost predicate Outcome(lo: nat, n: nat, x: Snapshot, y: Snapshot, ino: nat, a: Addr, blk: nat)
  {
    if |x.free| > NewIndexBlocks(a) then
      && Grown(lo, x, y, ino, a, 0)
      && blk != 0 && y.forest.at[Slot(ino, a, 0)] == blk
      && 0 <= blk < |y.blocks| && y.blocks[blk] == ZeroBlock(n)
    else
      && blk == 0 && y.free == [] && y.forest == x.forest
      && SameElsewhere(x.blocks, y.blocks, x.forest, ino, lo)
  }

  lemma GrownNone(lo: nat, x: Snapshot, ino: nat, a: Addr)
    requires forall s :: s in x.forest.at ==> s.ino != ino || s.addr != a
    ensures Grown(lo, x, x, ino, a, NewIndexBlocks(a) + 1)
  {
    assert x.free[..|x.free|] == x.free;
  }

  lemma GrownStep(lo: nat, x: Snapshot, y: Snapshot, z: Snapshot, ino: nat, a: Addr, above: nat, h: nat, up: nat,
                  b: nat)
    requires Grown(lo, x, y, ino, a, above) && above == h + 1
    requires b !in y.forest.owner && lo <= b
    requires y.free == z.free + [b]
    requires z.forest == y.forest.Insert(Slot(ino, a, h), b)
    requires |z.blocks| == |y.blocks|
    requires forall c :: 0 <= c < |y.blocks| && c != b && c != up ==> z.blocks[c] == y.blocks[c]
    requires || up == b
             || (up >= lo && up in y.forest.owner && y.forest.owner[up].ino == ino && y.forest.owner[up].height > 0)
    ensures Grown(lo, x, z, ino, a, h) && Extends(y.forest, z.forest)
  {
    GrownPopped(lo, x, y, z, ino, a, above, h, b);
  }

  /** The block taken is the last one that was free. */
  lemma GrownPopped(lo: nat, x: Snapshot, y: Snapshot, z: Snapshot, ino: nat, a: Addr, above: nat, h: nat, b: nat)
    requires Grown(lo, x, y, ino, a, above) && above == h + 1 && y.free == z.free + [b]
    ensures |x.free| == |z.free| + (NewIndexBlocks(a) + 1 - h) && z.free == x.free[..|z.free|] && b in x.free
    ensures forall c :: c in y.free ==> c in z.free || c == b
  {
    assert y.free[|z.free|] == b && b in y.free;
    assert forall c :: c in y.free ==> c in x.free;
  }

  /** From y to z, free block `b` was cleared and attached as position `s`, its number
      stored in word `w` of block `up`. */
  ghost predicate Attached(n: nat, lo: nat, y: Snapshot, z: Snapshot, s: Slot, up: nat, w: nat, b: nat)
  {
    && lo <= b < |y.blocks| && b !in y.forest.owner && y.free == z.free + [b]
    && b != up < |y.blocks| && w < |y.blocks[up]|
    && z.blocks == y.blocks[b := ZeroBlock(n)][up := Put(y.blocks[up], w, b)]
    && z.forest == y.forest.Insert(s, b)
  }

  /** That takes growth one height further down. */
  lemma GrownAttach(lo: nat, n: nat, x: Snapshot, y: Snapshot, z: Snapshot, ino: nat, a: Addr, above: nat, h: nat,
                    up: nat, b: nat, w: nat)
    requires Grown(lo, x, y, ino, a, above) && above == h + 1 && h < a.level
    requires Attached(n, lo, y, z, Slot(ino, a, h), up, w, b)
    requires lo <= up && up in y.forest.owner && y.forest.owner[up] == Parent(Slot(ino, a, h))
    ensures Grown(lo, x, z, ino, a, h) && Extends(y.forest, z.forest)
    ensures Slot(ino, a, h) in z.forest.at && z.forest.at[Slot(ino, a, h)] == b
    ensures b < |z.blocks| && z.blocks[b] == ZeroBlock(n)
  {
    GrownStep(lo, x, y, z, ino, a, above, h, up, b);
  }

  /** From x to y, free block `b` was cleared and stored in the inode as position `s`. */
  ghost predicate Rooted(n: nat, lo: nat, x: Snapshot, y: Snapshot, s: Slot, b: nat)
  {
    && lo <= b < |x.blocks| && b !in x.forest.owner && x.free == y.free + [b]
    && y.blocks == x.blocks[b := ZeroBlock(n)]
    && y.forest == x.forest.Insert(s, b)
    && s.ino in x.minodes && RootIndex(s.addr) < |x.minodes[s.ino].addr|
    && y.minodes == x.minodes[s.ino := SetAddr(x.minodes[s.ino], RootIndex(s.addr), b)]
  }

  /** That starts the growth. */
  lemma GrownRoot(lo: nat, n: nat, x: Snapshot, y: Snapshot, ino: nat, a: Addr, b: nat)
    requires forall s :: s in x.forest.at ==> s.ino != ino || s.addr != a
    requires NewIndexBlocks(a) == a.level
    requires Rooted(n, lo, x, y, Slot(ino, a, a.level), b)
    ensures Grown(lo, x, y, ino, a, a.level) && OnlyAddrDiffers(x.minodes, y.minodes, ino)
    ensures Slot(ino, a, a.level) in y.forest.at && y.forest.at[Slot(ino, a, a.level)] == b
    ensures b < |y.blocks| && y.blocks[b] == ZeroBlock(n)
  {
    GrownNone(lo, x, ino, a);
    GrownStep(lo, x, x, y, ino, a, a.level + 1, a.level, b, b);
    SetAddrOnly(x.minodes, ino, RootIndex(a), b);
  }

  /** Detaches a block from the index block above it and frees it; freeing may
      overwrite that block. */
  lemma LinkedDetach(n: nat, lo: nat, x: Snapshot, blocks': seq<Block>, s: Slot)
    requires Linked(n, lo, x.blocks, x.minodes, x.forest, x.free)
    requires s in x.forest.at && s.height < s.addr.level && Parent(s) in x.forest.at
    requires forall t :: t in x.forest.at && t.height < t.addr.level ==> Parent(t) != s
    requires |blocks'| == |x.blocks| && Uniform(blocks', n)
    requires WordIndex(s) < n
    requires var up := x.forest.at[Parent(s)];
             && blocks'[up] == Put(x.blocks[up], WordIndex(s), 0)
             && forall c :: 0 <= c < |blocks'| && c != up && c != x.forest.at[s] ==> blocks'[c] == x.blocks[c]
    ensures Linked(n, lo, blocks', x.minodes, x.forest.Remove(s), x.free + [x.forest.at[s]])
  {
    var g := x.forest.Remove(s);
    LinkedRemove(n, lo, x.blocks, x.minodes, x.forest, x.free, s);
    var up, down := x.forest.at[Parent(s)], x.forest.at[s];
    assert x.forest.owner[down] == s;
    forall t | t in g.at && t.height < t.addr.level && Parent(t) in g.at && WordIndex(t) < n
      ensures x.blocks[g.at[Parent(t)]][WordIndex(t)] == blocks'[g.at[Parent(t)]][WordIndex(t)]
    {
      var p := g.at[Parent(t)];
      assert p != down;
      if p == up && WordIndex(t) == WordIndex(s) {
        SlotFromParent(n, s, t);
      }
    }
    assert SameLinks(x.blocks, blocks', n, g);
    LinkedFrame(n, lo, x.blocks, blocks', x.minodes, g, x.free, x.free + [x.forest.at[s]]);
  }

  /** From x to y, the blocks first needed by the last leaf of inode `ino`, at
      address `a`, were detached and freed, up to those of height `h` and more,
      and nothing else changed. */
  ghost predicate Shrunk(lo: nat, x: Snapshot, y: Snapshot, ino: nat, a: Addr, h: nat)
  {
    && h <= NewIndexBlocks(a) + 1
    && (forall j :: 0 <= j <= NewIndexBlocks(a) ==> Slot(ino, a, j) in x.forest.at)
    && |y.free| == |x.free| + h && x.free == y.free[..|x.free|]
    && (forall j :: 0 <= j < h ==> x.forest.at[Slot(ino, a, j)] in y.free)
    && (forall b :: b in y.free ==> b in x.free || b in x.forest.owner)
    && (forall s :: s in y.forest.at <==> s in x.forest.at && !(s.ino == ino && s.addr == a && s.height < h))
    && Extends(y.forest, x.forest)
    && SameElsewhere(x.blocks, y.blocks, y.forest, ino, lo)
  }

  lemma ShrunkNone(lo: nat, x: Snapshot, ino: nat, a: Addr)
    requires forall j :: 0 <= j <= NewIndexBlocks(a) ==> Slot(ino, a, j) in x.forest.at
    ensures Shrunk(lo, x, x, ino, a, 0)
  {
  }

  lemma ShrunkStep(lo: nat, x: Snapshot, y: Snapshot, z: Snapshot, ino: nat, a: Addr, h: nat, up: nat)
    requires Shrunk(lo, x, y, ino, a, h) && h <= NewIndexBlocks(a)
    requires Slot(ino, a, h) in y.forest.at
    requires var down := y.forest.at[Slot(ino, a, h)];
             && z.free == y.free + [down]
             && z.forest == y.forest.Remove(Slot(ino, a, h)) && down in y.forest.owner
             && |z.blocks| == |y.blocks| && lo <= down
             && (forall c :: 0 <= c < |y.blocks| && c != down && c != up ==> z.blocks[c] == y.blocks[c])
    requires lo <= up && up in y.forest.owner && y.forest.owner[up].ino == ino && y.forest.owner[up].height > 0
    ensures Shrunk(lo, x, z, ino, a, h + 1)
  {
    ShrunkPushed(lo, x, y, z, ino, a, h);
    assert forall b :: b in z.forest.owner ==> b in y.forest.owner;
  }

  /** The free list has one more block, which was in use. */
  lemma ShrunkPushed(lo: nat, x: Snapshot, y: Snapshot, z: Snapshot, ino: nat, a: Addr, h: nat)
    requires Shrunk(lo, x, y, ino, a, h) && h <= NewIndexBlocks(a)
    requires Slot(ino, a, h) in y.forest.at && y.forest.at[Slot(ino, a, h)] in y.forest.owner
    requires z.free == y.free + [y.forest.at[Slot(ino, a, h)]]
    ensures |z.free| == |x.free| + (h + 1) && x.free == z.free[..|x.free|]
    ensures forall j :: 0 <= j <= h ==> x.forest.at[Slot(ino, a, j)] in z.free
    ensures forall b :: b in z.free ==> b in x.free || b in x.forest.owner
  {
    assert z.free[|y.free|] == y.forest.at[Slot(ino, a, h)];
    forall j | 0 <= j < h ensures x.forest.at[Slot(ino, a, j)] in z.free {
      assert x.forest.at[Slot(ino, a, j)] in y.free;
    }
  }

  /** Nothing stands below the lowest block left of the last leaf. */
  lemma NothingBelow(n: nat, lo: nat, x: Snapshot, y: Snapshot, ino: nat, a: Addr, h: nat)
    requires Linked(n, lo, y.blocks, y.minodes, y.forest, y.free)
    requires Shrunk(lo, x, y, ino, a, h) && h <= NewIndexBlocks(a)
    requires forall s :: s in x.forest.at && s.ino == ino ==> Le(s.addr, a)
    ensures forall t :: t in y.forest.at && t.height < t.addr.level ==> Parent(t) != Slot(ino, a, h)
  {
    forall t | t in y.forest.at && t.height < t.addr.level && Parent(t) == Slot(ino, a, h) ensures false {
      ParentIsSlot(n, t);
    }
  }

  /** The positions of the last leaf and of the index blocks it alone needs. */
  ghost predicate IsLast(n: nat, f: Forest, ino: nat, a: Addr)
  {
    && IsAddr(n, a)
    && (forall j :: 0 <= j <= NewIndexBlocks(a) ==> Slot(ino, a, j) in f.at)
    && (forall s :: s in f.at && s.ino == ino ==> Le(s.addr, a))
  }

  /** The forest without the last leaf and the lowest index blocks it alone needs. */
  ghost function Without(f: Forest, ino: nat, a: Addr, h: nat): (g: Forest)
    requires h <= NewIndexBlocks(a) + 1
    requires forall j :: 0 <= j < h ==> Slot(ino, a, j) in f.at
    ensures forall s :: s in g.at <==> s in f.at && !(s.ino == ino && s.addr == a && s.height < h)
    ensures forall s :: s in g.at ==> g.at[s] == f.at[s]
  {
    if h == 0 then f else Without(f, ino, a, h - 1).Remove(Slot(ino, a, h - 1))
  }

  lemma {:induction false} LinkedWithout(n: nat, lo: nat, x: Snapshot, ino: nat, a: Addr, h: nat)
    requires Linked(n, lo, x.blocks, x.minodes, x.forest, x.free)
    requires IsLast(n, x.forest, ino, a) && h <= NewIndexBlocks(a) + 1
    ensures Linked(n, lo, x.blocks, x.minodes, Without(x.forest, ino, a, h), x.free)
    ensures Extends(Without(x.forest, ino, a, h), x.forest)
    ensures forall j :: 0 <= j < h ==> x.forest.at[Slot(ino, a, j)] !in Without(x.forest, ino, a, h).owner
  {
    if h > 0 {
      LinkedWithout(n, lo, x, ino, a, h - 1);
      var g, s := Without(x.forest, ino, a, h - 1), Slot(ino, a, h - 1);
      forall t | t in g.at && t.height < t.addr.level && Parent(t) == s ensures false {
        ParentIsSlot(n, t);
      }
      LinkedRemove(n, lo, x.blocks, x.minodes, g, x.free, s);
      assert g.at[s] == x.forest.at[s];
    }
  }

  lemma {:induction false} LastIsReached(n: nat, lo: nat, x: Snapshot, ino: nat, a: Addr, h: nat)
    requires Linked(n, lo, x.blocks, x.minodes, x.forest, x.free)
    requires IsLast(n, x.forest, ino, a) && 0 < h <= a.level
    ensures Parent(Slot(ino, a, h - 1)) in x.forest.at
  {
    if h == 1 {
      assert IsReached(n, x.blocks, x.minodes, x.forest, Slot(ino, a, 0));
    } else {
      LastIsReached(n, lo, x, ino, a, h - 1);
      ParentOfParent(n, ino, a, h - 1);
      assert IsReached(n, x.blocks, x.minodes, x.forest, Parent(Slot(ino, a, h - 2)));
    }
  }

  /** From x to y, the index blocks above the last leaf, at the first address of
      its level, were freed from the top down to height h; the others are no
      longer in use, and each still holds the number of the next one. */
  ghost predicate Chopped(n: nat, lo: nat, x: Snapshot, y: Snapshot, ino: nat, a: Addr, h: nat)
  {
    && IsLast(n, x.forest, ino, a) && NewIndexBlocks(a) == a.level && h <= a.level + 1
    && y.forest == Without(x.forest, ino, a, a.level + 1) && Extends(y.forest, x.forest)
    && |y.free| == |x.free| + (a.level + 1 - h) && x.free == y.free[..|x.free|]
    && (forall j :: 0 <= j <= a.level ==> lo <= x.forest.at[Slot(ino, a, j)] < |y.blocks|)
    && (forall j :: 0 <= j <= a.level ==> x.forest.at[Slot(ino, a, j)] !in y.forest.owner)
    && (forall j :: 0 <= j <= a.level ==>
          var b := x.forest.at[Slot(ino, a, j)]; b in x.forest.owner && x.forest.owner[b].height == j)
    && (forall j :: h <= j <= a.level ==> x.forest.at[Slot(ino, a, j)] in y.free)
    && (forall b :: b in y.free ==> b in x.free || b in x.forest.owner)
    && (forall j :: 0 <= j < h ==> x.forest.at[Slot(ino, a, j)] !in y.free)
    && (forall j :: 0 < j < h ==> IsFirstChild(n, x, y, ino, a, j))
    && SameElsewhere(x.blocks, y.blocks, y.forest, ino, lo)
  }

  ghost predicate IsFirstChild(n: nat, x: Snapshot, y: Snapshot, ino: nat, a: Addr, j: nat)
    requires forall i :: 0 <= i <= a.level ==>
               Slot(ino, a, i) in x.forest.at && x.forest.at[Slot(ino, a, i)] < |y.blocks|
    requires 0 < j <= a.level
  {
    var block := y.blocks[x.forest.at[Slot(ino, a, j)]];
    0 < n == |block| && block[0] == x.forest.at[Slot(ino, a, j - 1)]
  }

  /** Writing a block that is not in use. */
  lemma UnusedElsewhere(blocks: seq<Block>, blocks': seq<Block>, blocks'': seq<Block>, f: Forest, ino: nat, lo: nat,
                        b: nat)
    requires SameElsewhere(blocks, blocks', f, ino, lo)
    requires lo <= b && b !in f.owner && |blocks''| == |blocks'|
    requires forall c :: 0 <= c < |blocks'| && c != b ==> blocks''[c] == blocks'[c]
    ensures SameElsewhere(blocks, blocks'', f, ino, lo)
  {
  }

  lemma FirstChildIs(n: nat, lo: nat, x: Snapshot, y: Snapshot, ino: nat, a: Addr, above: nat, h: nat, below: nat,
                     up: nat)
    returns (next: nat)
    requires Chopped(n, lo, x, y, ino, a, above) && above == h + 1 && h == below + 1
    requires up == x.forest.at[Slot(ino, a, h)]
    ensures next == x.forest.at[Slot(ino, a, below)]
    ensures up < |y.blocks| && |y.blocks[up]| > 0 && y.blocks[up][0] == next
  {
    assert IsFirstChild(n, x, y, ino, a, h);
    next := x.forest.at[Slot(ino, a, below)];
  }

  lemma ChopStep(n: nat, lo: nat, x: Snapshot, y: Snapshot, z: Snapshot, ino: nat, a: Addr, above: nat, h: nat)
    requires Chopped(n, lo, x, y, ino, a, above) && above == h + 1
    requires var b := x.forest.at[Slot(ino, a, h)];
             && z.free == y.free + [b] && z.forest == y.forest
             && |z.blocks| == |y.blocks|
             && forall c :: 0 <= c < |y.blocks| && c != b ==> z.blocks[c] == y.blocks[c]
    ensures Chopped(n, lo, x, z, ino, a, h)
  {
    var b := x.forest.at[Slot(ino, a, h)];
    ChopStepPushed(n, lo, x, y, z, ino, a, above, h, b);
    ChopStepFree(n, lo, x, y, z, ino, a, above, h, b);
    ChopStepChildren(n, lo, x, y, z, ino, a, above, h, b);
    UnusedElsewhere(x.blocks, y.blocks, z.blocks, y.forest, ino, lo, b);
  }

  lemma ChopStepPushed(n: nat, lo: nat, x: Snapshot, y: Snapshot, z: Snapshot, ino: nat, a: Addr, above: nat, h: nat,
                       b: nat)
    requires Chopped(n, lo, x, y, ino, a, above) && above == h + 1 && b == x.forest.at[Slot(ino, a, h)]
    requires z.free == y.free + [b]
    ensures |z.free| == |x.free| + (a.level + 1 - h) && x.free == z.free[..|x.free|]
    ensures forall c :: c in z.free ==> c in x.free || c in x.forest.owner
  {
  }

  /** The freed block is that of height h and no other. */
  lemma ChopStepFree(n: nat, lo: nat, x: Snapshot, y: Snapshot, z: Snapshot, ino: nat, a: Addr, above: nat, h: nat,
                     b: nat)
    requires Chopped(n, lo, x, y, ino, a, above) && above == h + 1 && b == x.forest.at[Slot(ino, a, h)]
    requires z.free == y.free + [b]
    ensures forall j :: 0 <= j <= a.level && j != h ==> x.forest.at[Slot(ino, a, j)] != b
    ensures forall j :: h <= j <= a.level ==> x.forest.at[Slot(ino, a, j)] in z.free
    ensures forall j :: 0 <= j < h ==> x.forest.at[Slot(ino, a, j)] !in z.free
  {
    forall j | 0 <= j <= a.level && j != h ensures x.forest.at[Slot(ino, a, j)] != b {
      assert x.forest.owner[x.forest.at[Slot(ino, a, j)]].height == j;
    }
    forall j | h <= j <= a.level ensures x.forest.at[Slot(ino, a, j)] in z.free {
      assert j == h || x.forest.at[Slot(ino, a, j)] in y.free;
    }
    forall j | 0 <= j < h ensures x.forest.at[Slot(ino, a, j)] !in z.free {
      assert x.forest.at[Slot(ino, a, j)] !in y.free;
    }
  }

  /** The index blocks below still name their first children. */
  lemma ChopStepChildren(n: nat, lo: nat, x: Snapshot, y: Snapshot, z: Snapshot, ino: nat, a: Addr, above: nat,
                         h: nat, b: nat)
    requires Chopped(n, lo, x, y, ino, a, above) && above == h + 1 && |z.blocks| == |y.blocks|
    requires forall j :: 0 <= j <= a.level && j != h ==> x.forest.at[Slot(ino, a, j)] != b
    requires forall c :: 0 <= c < |y.blocks| && c != b ==> z.blocks[c] == y.blocks[c]
    ensures forall j :: 0 < j < h ==> IsFirstChild(n, x, z, ino, a, j)
  {
    forall j | 0 < j < h ensures IsFirstChild(n, x, z, ino, a, j) {
      assert IsFirstChild(n, x, y, ino, a, j);
    }
  }

  lemma ChopDone(n: nat, lo: nat, x: Snapshot, y: Snapshot, ino: nat, a: Addr)
    requires Chopped(n, lo, x, y, ino, a, 0)
    ensures Shrunk(lo, x, y, ino, a, NewIndexBlocks(a) + 1)
  {
  }

  lemma StartChop(n: nat, lo: nat, x: Snapshot, ino: nat, a: Addr)
    requires Linked(n, lo, x.blocks, x.minodes, x.forest, x.free)
    requires IsLast(n, x.forest, ino, a) && 0 < NewIndexBlocks(a) == a.level
    ensures RootIndex(a) == DIRECT + a.level - 1 < NADDR && ino in x.minodes && |x.minodes[ino].addr| == NADDR
    ensures x.minodes[ino].addr[RootIndex(a)] == x.forest.at[Slot(ino, a, a.level)]
    ensures var g := Without(x.forest, ino, a, a.level + 1);
            var m := x.minodes[ino := SetAddr(x.minodes[ino], RootIndex(a), 0)];
            && Linked(n, lo, x.blocks, m, g, x.free)
            && Chopped(n, lo, x, Snapshot(x.blocks, m, g, x.free, x.ilist), ino, a, a.level + 1)
  {
    var g := Without(x.forest, ino, a, a.level + 1);
    LinkedWithout(n, lo, x, ino, a, a.level + 1);
    var root := Slot(ino, a, a.level);
    assert IsReached(n, x.blocks, x.minodes, x.forest, root);
    DeadRoot(n, lo, x.blocks, x.minodes, g, x.free, root, 0);
    var y := Snapshot(x.blocks, x.minodes[ino := SetAddr(x.minodes[ino], RootIndex(a), 0)], g, x.free, x.ilist);
    FirstChildren(n, lo, x, y, ino, a);
  }

  /** The index blocks above a leaf that needs them all name their first children. */
  lemma FirstChildren(n: nat, lo: nat, x: Snapshot, y: Snapshot, ino: nat, a: Addr)
    requires Linked(n, lo, x.blocks, x.minodes, x.forest, x.free) && y.blocks == x.blocks
    requires IsLast(n, x.forest, ino, a) && NewIndexBlocks(a) == a.level
    ensures forall j :: 0 <= j <= a.level ==> x.forest.at[Slot(ino, a, j)] < |y.blocks|
    ensures forall j :: 0 < j <= a.level ==> IsFirstChild(n, x, y, ino, a, j)
  {
    forall j | 0 < j <= a.level ensures IsFirstChild(n, x, y, ino, a, j) {
      ParentIsSlot(n, Slot(ino, a, j - 1));
      assert IsReached(n, x.blocks, x.minodes, x.forest, Slot(ino, a, j - 1));
    }
  }

  /** Freeing a direct block. */
  lemma ShrunkDirect(n: nat, lo: nat, x: Snapshot, y: Snapshot, ino: nat, a: Addr)
    requires Linked(n, lo, x.blocks, x.minodes, x.forest, x.free)
    requires IsLast(n, x.forest, ino, a) && a.level == 0
    requires var b := x.forest.at[Slot(ino, a, 0)];
             && y.forest == Without(x.forest, ino, a, 1)
             && y.free == x.free + [b] && |y.blocks| == |x.blocks|
             && forall c :: 0 <= c < |x.blocks| && c != b ==> y.blocks[c] == x.blocks[c]
    ensures Shrunk(lo, x, y, ino, a, 1)
  {
    LinkedWithout(n, lo, x, ino, a, 1);
    assert y.free[|x.free|] == x.forest.at[Slot(ino, a, 0)];
  }

  /** Inode by inode, the positions in use are exactly those of the first
      `counts[i]` leaves and of the index blocks above them. */
  ghost predicate Exact(n: nat, f: Forest, counts: map<nat, nat>)
  {
    forall s :: s in f.at <==> s.ino in counts && Owns(n, s, counts[s.ino])
  }

  /** A file of `count` blocks uses the position. */
  ghost predicate Owns(n: nat, s: Slot, count: nat)
  {
    IsSlot(n, s) && count > 0 && Le(s.addr, AddrOf(n, count - 1))
  }

  lemma NothingBetween(n: nat, b: Addr, a: Addr)
    requires n > 0 && IsAddr(n, b) && IsDigits(n, a)
    ensures Le(b, Succ(n, a)) <==> Le(b, a) || b == Succ(n, a)
    ensures !Le(Succ(n, a), a)
  {
  }

  /** One more block is one more address. */
  lemma OwnsNext(n: nat, s: Slot, k: nat, next: nat)
    requires n > 0 && next == k + 1
    ensures Owns(n, s, next) <==> Owns(n, s, k) || (IsSlot(n, s) && s.addr == AddrOf(n, k))
    ensures Owns(n, s, k) ==> s.addr != AddrOf(n, k)
  {
    if k > 0 && IsSlot(n, s) {
      NumberOfAddr(n, k - 1);
      NothingBetween(n, s.addr, AddrOf(n, k - 1));
    }
  }

  /** What growth by one block needs. */
  lemma ExactCanGrow(n: nat, f: Forest, counts: map<nat, nat>, ino: nat, a: Addr)
    requires n > 0 && Exact(n, f, counts) && ino in counts
    requires a == AddrOf(n, counts[ino]) && IsAddr(n, a)
    ensures forall s :: s in f.at ==> s.ino != ino || s.addr != a
    ensures NewIndexBlocks(a) < a.level ==> Parent(Slot(ino, a, NewIndexBlocks(a))) in f.at
  {
    forall s | s in f.at && s.ino == ino ensures s.addr != a {
      OwnsNext(n, s, counts[ino], counts[ino] + 1);
    }
    if NewIndexBlocks(a) < a.level {
      var s := Slot(ino, a, NewIndexBlocks(a));
      ParentIsSlot(n, s);
      OwnsNext(n, Parent(s), counts[ino], counts[ino] + 1);
    }
  }

  function SetCount(counts: map<nat, nat>, ino: nat, k: nat): map<nat, nat>
  {
    counts[ino := k]
  }

  lemma ExactGrown(n: nat, lo: nat, x: Snapshot, y: Snapshot, counts: map<nat, nat>, ino: nat, k: nat, next: nat)
    requires n > 0 && Exact(n, x.forest, SetCount(counts, ino, k)) && IsAddr(n, AddrOf(n, k)) && next == k + 1
    requires Grown(lo, x, y, ino, AddrOf(n, k), 0)
    ensures Exact(n, y.forest, SetCount(counts, ino, next))
  {
    var c := SetCount(counts, ino, k);
    forall s: Slot
      ensures s in y.forest.at
              <==> s.ino in SetCount(counts, ino, next) && Owns(n, s, SetCount(counts, ino, next)[s.ino])
    {
      assert s in x.forest.at <==> s.ino in c && Owns(n, s, c[s.ino]);
      if s.ino == ino {
        OwnsNext(n, s, k, next);
      }
    }
  }

  lemma ExactIsLast(n: nat, f: Forest, counts: map<nat, nat>, ino: nat)
    requires n > 0 && Exact(n, f, counts) && ino in counts && 0 < counts[ino] && InReach(n, counts[ino])
    ensures IsLast(n, f, ino, AddrOf(n, counts[ino] - 1))
  {
    var a := AddrOf(n, counts[ino] - 1);
    forall j | 0 <= j <= NewIndexBlocks(a) ensures Slot(ino, a, j) in f.at {
      assert Owns(n, Slot(ino, a, j), counts[ino]);
    }
  }

  lemma ExactShrunk(n: nat, lo: nat, x: Snapshot, y: Snapshot, counts: map<nat, nat>, ino: nat, count: nat, k: nat)
    requires n > 0 && Exact(n, x.forest, SetCount(counts, ino, count)) && count == k + 1
    requires Shrunk(lo, x, y, ino, AddrOf(n, k), NewIndexBlocks(AddrOf(n, k)) + 1)
    ensures Exact(n, y.forest, SetCount(counts, ino, k))
  {
    var c := SetCount(counts, ino, count);
    forall s: Slot
      ensures s in y.forest.at <==> s.ino in SetCount(counts, ino, k) && Owns(n, s, SetCount(counts, ino, k)[s.ino])
    {
      assert s in x.forest.at <==> s.ino in c && Owns(n, s, c[s.ino]);
      if s.ino == ino {
        OwnsNext(n, s, k, count);
      }
    }
  }
}

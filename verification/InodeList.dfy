/** Free inodes: a cache of up to 64 numbers in the superblock, filled by scanning the
    inode list for inodes whose mode is 0. */
module InodeList {
  import opened Blocks
  import opened Addressing
  import opened Forests
  import opened InodeDisk

  const MAX_FREEINODE: nat := 64

  /** Whether the inode in a slot is free: its mode, in the first word, is 0. */
  predicate IsFreeSlot(block: Block, j: nat)
    requires j * INODE_WORDS + INODE_WORDS <= |block|
  {
    GetInode(block, j).mode == 0
  }

  /** Blocks of `ipb` inodes each. */
  ghost predicate AreInodeBlocks(ilist: seq<Block>, ipb: nat)
  {
    ipb > 0 && forall b :: 0 <= b < |ilist| ==> |ilist[b]| == ipb * INODE_WORDS
  }

  /** The numbers of the free inodes in the first j slots of a block; `first` is the
      number of the inode in slot 0. */
  function FreeInBlock(block: Block, first: nat, j: nat): seq<nat>
    requires j * INODE_WORDS <= |block|
  {
    if j == 0 then []
    else if IsFreeSlot(block, j - 1) then FreeInBlock(block, first, j - 1) + [first + j - 1]
    else FreeInBlock(block, first, j - 1)
  }

  /** The number of the first inode of a block. */
  function FirstOfBlock(ipb: nat, b: nat): nat
  {
    Times(b, ipb) + 1
  }

  /** The numbers of all free inodes in the first b blocks, in ascending order. */
  ghost function FreeInBlocks(ilist: seq<Block>, ipb: nat, b: nat): seq<nat>
    requires AreInodeBlocks(ilist, ipb) && b <= |ilist|
  {
    if b == 0 then [] else FreeInBlocks(ilist, ipb, b - 1) + FreeInBlock(ilist[b - 1], FirstOfBlock(ipb, b - 1), ipb)
  }

  /** Inode `ino` stands in slot j of block b. */
  ghost predicate StandsAt(ipb: nat, ino: nat, b: nat, j: nat)
  {
    j < ipb && ino == FirstOfBlock(ipb, b) + j
  }

  /** The inode is free on disk, and stands in one of the first b blocks. */
  ghost predicate IsFreeBelow(ilist: seq<Block>, ipb: nat, b: nat, ino: nat)
    requires AreInodeBlocks(ilist, ipb) && b <= |ilist|
  {
    exists c: nat, j: nat :: c < b && StandsAt(ipb, ino, c, j) && IsFreeSlot(ilist[c], j)
  }

  ghost predicate IsFree(ilist: seq<Block>, ipb: nat, ino: nat)
    requires AreInodeBlocks(ilist, ipb)
  {
    IsFreeBelow(ilist, ipb, |ilist|, ino)
  }

  lemma {:induction false} FirstGrows(ipb: nat, a: nat, b: nat)
    requires a <= b
    ensures FirstOfBlock(ipb, a) + Times(b - a, ipb) == FirstOfBlock(ipb, b)
    ensures a < b ==> FirstOfBlock(ipb, a) + ipb <= FirstOfBlock(ipb, b)
    decreases b
  {
    if a < b {
      FirstGrows(ipb, a, b - 1);
    }
  }

  lemma OnePlace(ipb: nat, ino: nat, b: nat, j: nat, b': nat, j': nat)
    requires StandsAt(ipb, ino, b, j) && StandsAt(ipb, ino, b', j')
    ensures b == b' && j == j'
  {
    if b < b' {
      FirstGrows(ipb, b, b');
    } else if b' < b {
      FirstGrows(ipb, b', b);
    }
  }

  lemma {:induction false} FreeInBlockIs(block: Block, first: nat, j: nat, ino: nat)
    requires j * INODE_WORDS <= |block|
    ensures ino in FreeInBlock(block, first, j) <==> first <= ino < first + j && IsFreeSlot(block, ino - first)
  {
    if j > 0 {
      FreeInBlockIs(block, first, j - 1, ino);
    }
  }

  /** All numbers of a list lie between two bounds, in ascending order. */
  ghost predicate Ascends(s: seq<nat>, lo: nat, hi: nat)
  {
    && (forall k :: 0 <= k < |s| ==> lo <= s[k] < hi)
    && (forall k, l :: 0 <= k < l < |s| ==> s[k] < s[l])
  }

  lemma AscendTwice(s: seq<nat>, t: seq<nat>, lo: nat, mid: nat, hi: nat)
    requires Ascends(s, lo, mid) && Ascends(t, mid, hi) && lo <= mid <= hi
    ensures Ascends(s + t, lo, hi)
  {
  }

  lemma {:induction false} FreeInBlockAscends(block: Block, first: nat, j: nat)
    requires j * INODE_WORDS <= |block|
    ensures Ascends(FreeInBlock(block, first, j), first, first + j)
  {
    if j > 0 {
      FreeInBlockAscends(block, first, j - 1);
    }
  }

  lemma NextFirst(ipb: nat, b: nat, next: nat)
    requires next == b + 1
    ensures FirstOfBlock(ipb, next) == FirstOfBlock(ipb, b) + ipb
  {
  }

  lemma MoreBlocks(want: seq<nat>, ilist: seq<Block>, ipb: nat, i: nat, next: nat)
    requires AreInodeBlocks(ilist, ipb) && next == i + 1 <= |ilist|
    ensures want + FreeInBlocks(ilist, ipb, i) + FreeInBlock(ilist[i], FirstOfBlock(ipb, i), ipb)
            == want + FreeInBlocks(ilist, ipb, next)
    ensures FirstOfBlock(ipb, next) == FirstOfBlock(ipb, i) + ipb
  {
    var a, b := FreeInBlocks(ilist, ipb, i), FreeInBlock(ilist[i], FirstOfBlock(ipb, i), ipb);
    assert FreeInBlocks(ilist, ipb, next) == a + b;
    assert (want + a) + b == want + (a + b);
    NextFirst(ipb, i, next);
  }

  /** The list is ascending. */
  lemma {:induction false} FreeInBlocksAscend(ilist: seq<Block>, ipb: nat, b: nat)
    requires AreInodeBlocks(ilist, ipb) && b <= |ilist|
    ensures Ascends(FreeInBlocks(ilist, ipb, b), 1, FirstOfBlock(ipb, b))
  {
    if b > 0 {
      var last := b - 1;
      FreeInBlocksAscend(ilist, ipb, last);
      FreeInBlockAscends(ilist[last], FirstOfBlock(ipb, last), ipb);
      NextFirst(ipb, last, b);
      AscendTwice(FreeInBlocks(ilist, ipb, last), FreeInBlock(ilist[last], FirstOfBlock(ipb, last), ipb),
                  1, FirstOfBlock(ipb, last), FirstOfBlock(ipb, b));
    }
  }

  /** The list has exactly the free inodes of those blocks. */
  lemma {:induction false} FreeInBlocksIs(ilist: seq<Block>, ipb: nat, b: nat, ino: nat)
    requires AreInodeBlocks(ilist, ipb) && b <= |ilist|
    ensures ino in FreeInBlocks(ilist, ipb, b) <==> IsFreeBelow(ilist, ipb, b, ino)
  {
    if b > 0 {
      var last := b - 1;
      FreeInBlocksIs(ilist, ipb, last, ino);
      FreeInBlockIs(ilist[last], FirstOfBlock(ipb, last), ipb, ino);
      BelowNext(ilist, ipb, last, b, ino);
    }
  }

  lemma BelowNext(ilist: seq<Block>, ipb: nat, last: nat, b: nat, ino: nat)
    requires AreInodeBlocks(ilist, ipb) && b == last + 1 <= |ilist|
    ensures var first := FirstOfBlock(ipb, last);
            IsFreeBelow(ilist, ipb, b, ino)
            <==> IsFreeBelow(ilist, ipb, last, ino)
                 || (first <= ino < first + ipb && IsFreeSlot(ilist[last], ino - first))
  {
    var first := FirstOfBlock(ipb, last);
    if first <= ino < first + ipb && IsFreeSlot(ilist[last], ino - first) {
      var j: nat := ino - first;
      assert StandsAt(ipb, ino, last, j);
    }
  }

  /** Whether an inode is free can be looked up in its slot. */
  lemma SlotTells(ilist: seq<Block>, ipb: nat, b: nat, j: nat, ino: nat)
    requires AreInodeBlocks(ilist, ipb) && b < |ilist| && StandsAt(ipb, ino, b, j)
    ensures ino in FreeInBlocks(ilist, ipb, |ilist|) <==> IsFreeSlot(ilist[b], j)
  {
    FreeInBlocksIs(ilist, ipb, |ilist|, ino);
    if IsFree(ilist, ipb, ino) {
      var c: nat, i: nat :| c < |ilist| && StandsAt(ipb, ino, c, i) && IsFreeSlot(ilist[c], i);
      OnePlace(ipb, ino, b, j, c, i);
    }
  }

  /** Inode number b * ipb + j + 1 has slot j of block b, which has 32 words for each
      inode; it is free exactly if the upper half of the first one is 0. */
  lemma FreeAtPlace(ilist: seq<Block>, ipb: nat, b: nat, j: nat)
    requires AreInodeBlocks(ilist, ipb) && b < |ilist| && j < ipb
    ensures |ilist[b]| == 32 * ipb
    ensures b * ipb + j + 1 in FreeInBlocks(ilist, ipb, |ilist|) <==> ilist[b][32 * j] < 0x1_0000
  {
    TimesIsProduct(b, ipb);
    SlotTells(ilist, ipb, b, j, b * ipb + j + 1);
  }

  /** The first `n` elements, or all of a shorter list. */
  function First(s: seq<nat>, n: nat): seq<nat>
  {
    if |s| <= n then s else s[..n]
  }

  ghost function AllFree(ilist: seq<Block>, ipb: nat): seq<nat>
    requires AreInodeBlocks(ilist, ipb)
  {
    FreeInBlocks(ilist, ipb, |ilist|)
  }

  /** The free-inode part of the superblock, and the inode list. */
  class FreeInodes {
    const readonly: bool
    const ipb: nat                 // inodes per block
    const nblocks: nat             // blocks of the inode list
    var ilist: seq<Block>
    const freeinode: array<nat>
    var nfreeinode: nat
    var totalFreeinode: nat
    var modified: bool
    ghost var pending: set<nat>    // handed out, but not yet written with a mode

    ghost predicate IsShaped()
      reads this, freeinode
    {
      && AreInodeBlocks(ilist, ipb) && |ilist| == nblocks
      && freeinode.Length == MAX_FREEINODE && nfreeinode <= MAX_FREEINODE
    }

    ghost function Cache(): seq<nat>
      requires IsShaped()
      reads this, freeinode
    {
      freeinode[..nfreeinode]
    }

    /** The cached numbers are different free inodes, and none has been handed out. */
    ghost predicate Valid()
      reads this, freeinode
    {
      && IsShaped()
      && NoDuplicates(Cache())
      && (forall ino :: ino in Cache() ==> ino in AllFree(ilist, ipb) && ino !in pending)
      && (forall ino :: ino in pending ==> ino in AllFree(ilist, ipb))
      && totalFreeinode + |pending| <= |AllFree(ilist, ipb)|
    }

    constructor (readonly: bool, ipb: nat, ilist: seq<Block>, cache: seq<nat>, total: nat)
      requires AreInodeBlocks(ilist, ipb) && |cache| <= MAX_FREEINODE && NoDuplicates(cache)
      requires forall ino :: ino in cache ==> ino in AllFree(ilist, ipb)
      requires total <= |AllFree(ilist, ipb)|
      ensures Valid() && fresh(freeinode) && Cache() == cache && pending == {}
      ensures this.ilist == ilist && this.ipb == ipb && this.nblocks == |ilist|
    {
      this.readonly, this.ipb, this.nblocks, this.ilist := readonly, ipb, |ilist|, ilist;
      freeinode := new nat[MAX_FREEINODE](i => if 0 <= i < |cache| then cache[i] else 0);
      nfreeinode, totalFreeinode, modified, pending := |cache|, total, false, {};
      new;
      assert freeinode[..nfreeinode] == cache;
    }

    /** Appends the numbers of free inodes, in ascending order, until the cache is full. */
    method FreeinodeUpdate() returns (rc: Status)
      requires IsShaped()
      modifies this`nfreeinode, this`modified, freeinode
      ensures IsShaped()
      ensures readonly ==> rc == EROFS && Cache() == old(Cache())
      ensures !readonly ==> rc == Ok && Cache() == First(old(Cache()) + AllFree(ilist, ipb), MAX_FREEINODE)
    {
      if readonly {
        return EROFS;
      }
      var k: nat, inode: nat, i: nat := nfreeinode, 1, 0;
      ghost var want := Cache();
      assert want == want + FreeInBlocks(ilist, ipb, 0);
      while i < |ilist|
        invariant i <= |ilist| && k <= MAX_FREEINODE
        invariant freeinode[..k] == First(want + FreeInBlocks(ilist, ipb, i), MAX_FREEINODE)
        invariant k < MAX_FREEINODE ==> inode == FirstOfBlock(ipb, i)
        modifies this`modified, freeinode
      {
        ghost var next := i + 1;
        k, inode := ScanBlock(i, k, inode, want + FreeInBlocks(ilist, ipb, i));
        MoreBlocks(want, ilist, ipb, i, next);
        i := i + 1;
      }
      nfreeinode := k;
      modified := false;
      rc := Ok;
    }

    /** Appends the numbers of the free inodes of block i. */
    method ScanBlock(i: nat, k0: nat, inode0: nat, ghost want: seq<nat>) returns (k: nat, inode: nat)
      requires AreInodeBlocks(ilist, ipb) && freeinode.Length == MAX_FREEINODE && i < |ilist| && k0 <= MAX_FREEINODE
      requires freeinode[..k0] == First(want, MAX_FREEINODE)
      requires k0 < MAX_FREEINODE ==> inode0 == FirstOfBlock(ipb, i)
      modifies this`modified, freeinode
      ensures k <= MAX_FREEINODE
      ensures freeinode[..k] == First(want + FreeInBlock(ilist[i], FirstOfBlock(ipb, i), ipb), MAX_FREEINODE)
      ensures k < MAX_FREEINODE ==> inode == FirstOfBlock(ipb, i) + ipb
    {
      ghost var first := FirstOfBlock(ipb, i);
      k, inode := k0, inode0;
      var j := 0;
      assert want + FreeInBlock(ilist[i], first, 0) == want;
      while j < ipb && k < MAX_FREEINODE
        invariant j <= ipb && k <= MAX_FREEINODE
        invariant freeinode[..k] == First(want + FreeInBlock(ilist[i], first, j), MAX_FREEINODE)
        invariant k < MAX_FREEINODE ==> inode == first + j
      {
        ghost var found := want + FreeInBlock(ilist[i], first, j);
        if IsFreeSlot(ilist[i], j) {
          freeinode[k] := inode;
          k := k + 1;
          modified := true;
          assert want + FreeInBlock(ilist[i], first, j + 1) == found + [inode];
        }
        j, inode := j + 1, inode + 1;
      }
      if j < ipb {
        MoreFound(ilist[i], first, j, ipb);
        FirstOfMore(want, FreeInBlock(ilist[i], first, j), FreeInBlock(ilist[i], first, ipb));
      }
    }

    /** The number that the next allocation takes from the cache. */
    ghost function Next(): Option<nat>
      requires IsShaped()
      reads this, freeinode
    {
      var cache := if nfreeinode > 0 then Cache() else First(AllFree(ilist, ipb), MAX_FREEINODE);
      if cache == [] then None else Some(cache[|cache| - 1])
    }

    /** The number of inodes, as the program computes it. */
    function MaxInode(): nat
    {
      nblocks * ipb
    }

    /** Fills an empty cache with the first 64 free inodes. */
    method Refill()
      requires Valid() && pending == {} && !readonly && nfreeinode == 0
      modifies this`nfreeinode, this`modified, freeinode
      ensures Valid() && Cache() == First(AllFree(ilist, ipb), MAX_FREEINODE)
    {
      assert Cache() + AllFree(ilist, ipb) == AllFree(ilist, ipb);
      var error := FreeinodeUpdate();
      FirstIsDistinct(ilist, ipb);
    }

    /** Whether the next allocation succeeds, and the number it hands out. */
    ghost function Offer(): (Status, nat)
      requires IsShaped()
      reads this, freeinode
    {
      if readonly then (EROFS, 0)
      else if totalFreeinode == 0 || Next().None? then (ENOSPC, 0)
      else if ROOT_INODE <= Next().value < MaxInode() then (Ok, Next().value)
      else (ENOSPC, 0)
    }

    /** Takes the last number of the cache, filling an empty cache first.  The numbers 1
        and MaxInode, and any beyond, are refused, but gone from the cache and the total.
        A scan finds numbers again that were handed out and not yet written, so there
        must be none when the cache is empty. */
    method Allocate() returns (error: Status, ino: nat)
      requires Valid() && (pending == {} || nfreeinode > 0)
      modifies this`nfreeinode, this`totalFreeinode, this`modified, this`pending, freeinode
      ensures Valid() && (error, ino) == old(Offer())
      ensures readonly ==> error == EROFS && ino == 0 && totalFreeinode == old(totalFreeinode)
      ensures readonly ==> pending == old(pending) && Cache() == old(Cache())
      ensures !readonly && old(totalFreeinode) == 0 ==>
                error == ENOSPC && ino == 0 && pending == old(pending) && Cache() == old(Cache()) && totalFreeinode == 0
      ensures !readonly && old(totalFreeinode) > 0 ==>
                && old(Next()).Some? && totalFreeinode == old(totalFreeinode) - 1
                && var n := old(Next()).value;
                   && IsFree(ilist, ipb, n) && n !in old(pending)
                   && if ROOT_INODE <= n < MaxInode() then error == Ok && ino == n && pending == old(pending) + {n}
                      else error == ENOSPC && ino == 0 && pending == old(pending)
    {
      if readonly {
        return EROFS, 0;
      }
      if totalFreeinode == 0 {
        return ENOSPC, 0;
      }
      ghost var next := Next();
      if nfreeinode <= 0 {
        Refill();
      }
      FreeInBlocksIs(ilist, ipb, |ilist|, Cache()[|Cache()| - 1]);
      error, ino := TakeNumber();
    }

    /** Takes the last number of the cache. */
    method TakeNumber() returns (error: Status, ino: nat)
      requires Valid() && nfreeinode > 0 && totalFreeinode > 0
      modifies this`nfreeinode, this`totalFreeinode, this`modified, this`pending
      ensures Valid() && totalFreeinode == old(totalFreeinode) - 1
      ensures var n := old(Cache())[old(nfreeinode) - 1];
              && n !in old(pending)
              && if ROOT_INODE <= n < MaxInode() then error == Ok && ino == n && pending == old(pending) + {n}
                 else error == ENOSPC && ino == 0 && pending == old(pending)
    {
      ghost var cache := Cache();
      nfreeinode := nfreeinode - 1;
      ino := freeinode[nfreeinode];
      totalFreeinode := totalFreeinode - 1;
      modified := true;
      TakeLast(cache, Cache(), ino);
      error := Ok;
      if ino < ROOT_INODE || ino >= MaxInode() {
        return ENOSPC, 0;
      }
      pending := pending + {ino};
    }

    /** Writes an inode to its place in the inode list. */
    method InodeWriteback(ino: nat, d: Dinode)
      requires AreInodeBlocks(ilist, ipb) && |ilist| == nblocks && IsDinode(d) && 1 <= ino <= MaxInode()
      modifies this`ilist
      ensures AreInodeBlocks(ilist, ipb) && |ilist| == nblocks
      ensures forall other :: other in AllFree(ilist, ipb) <==>
                if other == ino then d.mode == 0 else other in AllFree(old(ilist), ipb)
      ensures var was := AllFree(old(ilist), ipb);
              |AllFree(ilist, ipb)| == |was| + (if d.mode == 0 then 1 else 0) - (if ino in was then 1 else 0)
    {
      var b := Quotient(ino - 1, ipb);
      QuotientBounds(ino - 1, ipb);
      TimesIsProduct(b, ipb);
      if b >= |ilist| {
        MulMonotone(|ilist|, b, ipb);
      }
      var j := ino - 1 - b * ipb;
      ghost var ilist0 := ilist;
      ilist := ilist[b := SetInode(ilist[b], j, d)];
      AllFreeAfterWrite(ilist0, ilist, ipb, b, j, d, ino);
    }

    /** Writes an inode that was handed out, with a mode. */
    method Commit(ino: nat, d: Dinode)
      requires Valid() && ino in pending && IsDinode(d) && d.mode != 0 && 1 <= ino <= MaxInode()
      modifies this`ilist, this`pending
      ensures Valid() && pending == old(pending) - {ino} && Cache() == old(Cache())
      ensures forall other :: other in AllFree(ilist, ipb) <==> other != ino && other in AllFree(old(ilist), ipb)
    {
      InodeWriteback(ino, d);
      pending := pending - {ino};
    }

    /** Clears an inode that is in use, or was handed out, and puts its number on the
        cache if there is room. */
    method Deallocate(ino: nat)
      requires Valid() && 1 <= ino <= MaxInode() && (ino in pending || !IsFree(ilist, ipb, ino))
      modifies this`ilist, this`nfreeinode, this`totalFreeinode, this`modified, this`pending, freeinode
      ensures Valid() && totalFreeinode == old(totalFreeinode) + 1 && pending == old(pending) - {ino}
      ensures Cache() == old(Cache()) + if old(nfreeinode) < MAX_FREEINODE then [ino] else []
      ensures forall other :: other in AllFree(ilist, ipb) <==> other == ino || other in AllFree(old(ilist), ipb)
    {
      FreeInBlocksIs(ilist, ipb, |ilist|, ino);
      InodeWriteback(ino, ClearedDinode());
      pending := pending - {ino};
      CacheNumber(ino);
      totalFreeinode := totalFreeinode + 1;
      modified := true;
    }

    /** Puts a number on the cache if there is room. */
    method CacheNumber(ino: nat)
      requires IsShaped() && NoDuplicates(Cache()) && ino !in Cache()
      modifies this`nfreeinode, freeinode
      ensures IsShaped() && NoDuplicates(Cache())
      ensures Cache() == old(Cache()) + if old(nfreeinode) < MAX_FREEINODE then [ino] else []
    {
      ghost var cache := Cache();
      PutLast(cache, ino);
      if nfreeinode < MAX_FREEINODE {
        freeinode[nfreeinode] := ino;
        nfreeinode := nfreeinode + 1;
        assert Cache() == cache + [ino];
      }
    }

    /** The numbers of the inodes in use. */
    ghost function InUse(): set<nat>
      requires IsShaped()
      reads this, freeinode
    {
      set ino: nat | 1 <= ino <= MaxInode() && ino !in AllFree(ilist, ipb)
    }

    /** Looks up whether an inode is in use: whether its mode on disk is not 0. */
    method IsInUse(ino: nat) returns (isUsed: bool)
      requires IsShaped()
      ensures isUsed <==> ino in InUse()
    {
      if ino < 1 || ino > MaxInode() {
        return false;
      }
      var b := Quotient(ino - 1, ipb);
      QuotientBounds(ino - 1, ipb);
      TimesIsProduct(b, ipb);
      if b >= |ilist| {
        MulMonotone(|ilist|, b, ipb);
      }
      var j := ino - 1 - b * ipb;
      SlotTells(ilist, ipb, b, j, ino);
      isUsed := !IsFreeSlot(ilist[b], j);
    }

    /** Serves requests for inodes, and tells which numbers were handed out and given
        back.  No number is handed out that is in use, and none twice unless it was given
        back in between; and what is in use afterwards is what the log says. */
    method Serve(reqs: seq<Request>) returns (log: seq<Event>)
      requires Valid() && pending == {}
      requires forall i :: 0 <= i < |reqs| && reqs[i].Take? ==> IsDinode(reqs[i].d) && reqs[i].d.mode != 0
      modifies this`ilist, this`nfreeinode, this`totalFreeinode, this`modified, this`pending, freeinode
      ensures Valid() && pending == {}
      ensures IsFair(old(InUse()), log) && InUse() == Held(old(InUse()), log)
      ensures HandsOutOnce(log)
    {
      ghost var start := InUse();
      log := [];
      for i := 0 to |reqs|
        invariant Valid() && pending == {} && IsFair(start, log) && InUse() == Held(start, log)
      {
        log := ServeOne(reqs[i], log, start);
      }
      FairHandsOutOnce(start, log);
    }

    /** Serves one request; only numbers in use are given back. */
    method ServeOne(req: Request, log0: seq<Event>, ghost start: set<nat>) returns (log: seq<Event>)
      requires Valid() && pending == {} && IsFair(start, log0) && InUse() == Held(start, log0)
      requires req.Take? ==> IsDinode(req.d) && req.d.mode != 0
      modifies this`ilist, this`nfreeinode, this`totalFreeinode, this`modified, this`pending, freeinode
      ensures Valid() && pending == {} && IsFair(start, log) && InUse() == Held(start, log)
      ensures req.Give? && req.ino in old(InUse()) ==> log == log0 + [Gave(req.ino)]
    {
      log := log0;
      match req
      case Give(ino) =>
        var isUsed := IsInUse(ino);
        if isUsed {
          log := ServeGive(ino, log, start);
        }
      case Take(d) => log := ServeTake(d, log, start);
      case TakeBack => log := ServeTakeBack(log, start);
    }

    method ServeGive(ino: nat, log0: seq<Event>, ghost start: set<nat>) returns (log: seq<Event>)
      requires Valid() && pending == {} && IsFair(start, log0) && InUse() == Held(start, log0) && ino in InUse()
      modifies this`ilist, this`nfreeinode, this`totalFreeinode, this`modified, this`pending, freeinode
      ensures Valid() && pending == {} && IsFair(start, log) && InUse() == Held(start, log)
      ensures log == log0 + [Gave(ino)]
    {
      GiveBack(ino);
      EventAdded(start, log0, Gave(ino));
      log := log0 + [Gave(ino)];
    }

    method GiveBack(ino: nat)
      requires Valid() && pending == {} && ino in InUse()
      modifies this`ilist, this`nfreeinode, this`totalFreeinode, this`modified, this`pending, freeinode
      ensures Valid() && pending == {} && InUse() == old(InUse()) - {ino}
    {
      FreeInBlocksIs(ilist, ipb, |ilist|, ino);
      Deallocate(ino);
    }

    method ServeTake(d: Dinode, log0: seq<Event>, ghost start: set<nat>) returns (log: seq<Event>)
      requires Valid() && pending == {} && IsFair(start, log0) && InUse() == Held(start, log0)
      requires IsDinode(d) && d.mode != 0
      modifies this`ilist, this`nfreeinode, this`totalFreeinode, this`modified, this`pending, freeinode
      ensures Valid() && pending == {} && IsFair(start, log) && InUse() == Held(start, log)
    {
      log := log0;
      var error, ino := Allocate();
      if error == Ok {
        FreeInBlocksIs(ilist, ipb, |ilist|, ino);
        Commit(ino, d);
        EventAdded(start, log, Took(ino));
        log := log + [Took(ino)];
      }
    }

    method ServeTakeBack(log0: seq<Event>, ghost start: set<nat>) returns (log: seq<Event>)
      requires Valid() && pending == {} && IsFair(start, log0) && InUse() == Held(start, log0)
      modifies this`ilist, this`nfreeinode, this`totalFreeinode, this`modified, this`pending, freeinode
      ensures Valid() && pending == {} && IsFair(start, log) && InUse() == Held(start, log)
    {
      log := log0;
      var error, ino := Allocate();
      if error == Ok {
        FreeInBlocksIs(ilist, ipb, |ilist|, ino);
        TookAndGave(start, log, ino);
        Deallocate(ino);
        log := log + [Took(ino)] + [Gave(ino)];
      }
    }
  }

  /** An inode is created, or its creation fails, or it is removed. */
  datatype Request = Take(d: Dinode) | TakeBack | Give(ino: nat)

  datatype Event = Took(ino: nat) | Gave(ino: nat)

  /** The numbers in use after the events of a log. */
  ghost function Held(start: set<nat>, log: seq<Event>): set<nat>
  {
    if log == [] then start
    else
      var before, last := Held(start, log[..|log| - 1]), log[|log| - 1];
      if last.Took? then before + {last.ino} else before - {last.ino}
  }

  /** Every number handed out was not in use, and every number given back was. */
  ghost predicate IsFair(start: set<nat>, log: seq<Event>)
  {
    log != [] ==>
      var before, last := log[..|log| - 1], log[|log| - 1];
      IsFair(start, before) && (last.Gave? <==> last.ino in Held(start, before))
  }

  /** Between two times a number is handed out, it was given back. */
  ghost predicate HandsOutOnce(log: seq<Event>)
  {
    forall i, j :: 0 <= i < j < |log| && log[i].Took? && log[j] == log[i] ==> IsGivenBack(log, log[i].ino, i, j)
  }

  ghost predicate IsGivenBack(log: seq<Event>, ino: nat, i: nat, j: nat)
  {
    exists k :: i < k < j && k < |log| && log[k] == Gave(ino)
  }

  lemma EventAdded(start: set<nat>, log: seq<Event>, e: Event)
    requires IsFair(start, log) && (e.Gave? <==> e.ino in Held(start, log))
    ensures IsFair(start, log + [e])
    ensures Held(start, log + [e]) == if e.Took? then Held(start, log) + {e.ino} else Held(start, log) - {e.ino}
  {
    assert (log + [e])[..|log|] == log;
  }

  lemma TookAndGave(start: set<nat>, log: seq<Event>, ino: nat)
    requires IsFair(start, log) && ino !in Held(start, log)
    ensures IsFair(start, log + [Took(ino)] + [Gave(ino)])
    ensures Held(start, log + [Took(ino)] + [Gave(ino)]) == Held(start, log)
  {
    var log1 := log + [Took(ino)];
    var log2 := log1 + [Gave(ino)];
    assert log1[..|log1| - 1] == log && log2[..|log2| - 1] == log1;
  }

  lemma {:induction false} HeldUntilGiven(start: set<nat>, log: seq<Event>, ino: nat, i: nat, j: nat)
    requires i < j <= |log| && log[i] == Took(ino) && !IsGivenBack(log, ino, i, j)
    ensures ino in Held(start, log[..j])
    decreases j
  {
    var last := j - 1;
    assert log[..j][..last] == log[..last];
    if i < last {
      HeldUntilGiven(start, log, ino, i, last);
      assert log[last] != Gave(ino);
    }
  }

  lemma {:induction false} FairHandsOutOnce(start: set<nat>, log: seq<Event>)
    requires IsFair(start, log)
    ensures HandsOutOnce(log)
  {
    if log != [] {
      var last := |log| - 1;
      var front := log[..last];
      FairHandsOutOnce(start, front);
      forall i, j | 0 <= i < j < |log| && log[i].Took? && log[j] == log[i] ensures IsGivenBack(log, log[i].ino, i, j) {
        if j < last {
          assert front[i] == log[i] && front[j] == log[j];
          assert IsGivenBack(front, log[i].ino, i, j);
          var k :| i < k < j && k < |front| && front[k] == Gave(log[i].ino);
          assert log[k] == Gave(log[i].ino);
        } else if !IsGivenBack(log, log[i].ino, i, j) {
          HeldUntilGiven(start, log, log[i].ino, i, j);
        }
      }
    }
  }

  lemma PutLast(cache: seq<nat>, ino: nat)
    requires NoDuplicates(cache) && ino !in cache
    ensures NoDuplicates(cache + [ino])
  {
    assert multiset(cache + [ino]) == multiset(cache) + multiset{ino};
  }

  lemma TakeLast(cache: seq<nat>, rest: seq<nat>, ino: nat)
    requires NoDuplicates(cache) && cache == rest + [ino]
    ensures NoDuplicates(rest) && ino !in rest && forall i :: i in rest ==> i in cache
  {
    assert multiset(cache) == multiset(rest) + multiset{ino};
    assert ino in cache;
    forall i | i in rest ensures multiset(rest)[i] == 1 && i != ino {
      assert i in cache;
    }
  }

  /** The numbers a scan finds are different. */
  lemma FirstIsDistinct(ilist: seq<Block>, ipb: nat)
    requires AreInodeBlocks(ilist, ipb)
    ensures NoDuplicates(First(AllFree(ilist, ipb), MAX_FREEINODE))
    ensures forall i :: i in First(AllFree(ilist, ipb), MAX_FREEINODE) ==> i in AllFree(ilist, ipb)
  {
    FreeInBlocksAscend(ilist, ipb, |ilist|);
    AscendingIsDistinct(First(AllFree(ilist, ipb), MAX_FREEINODE), 1, FirstOfBlock(ipb, |ilist|));
  }

  function AsSet(s: seq<nat>): set<nat>
  {
    set i | i in s
  }

  lemma AppendDistinct(rest: seq<nat>, last: nat, s: seq<nat>)
    requires s == rest + [last] && last !in rest && NoDuplicates(rest) && |AsSet(rest)| == |rest|
    ensures NoDuplicates(s) && |AsSet(s)| == |s|
  {
    assert multiset(s) == multiset(rest) + multiset{last};
    assert AsSet(s) == AsSet(rest) + {last};
  }

  lemma {:induction false} AscendingIsDistinct(s: seq<nat>, lo: nat, hi: nat)
    requires Ascends(s, lo, hi)
    ensures NoDuplicates(s) && |AsSet(s)| == |s|
  {
    if s != [] {
      var rest, last := s[..|s| - 1], s[|s| - 1];
      AscendingIsDistinct(rest, lo, hi);
      AppendDistinct(rest, last, s);
    } else {
      assert AsSet(s) == {};
    }
  }

  /** Writing an inode frees it or not, and leaves the others as they are. */
  lemma FreeAfterWrite(ilist: seq<Block>, ilist': seq<Block>, ipb: nat, b: nat, j: nat, d: Dinode, ino: nat, other: nat)
    requires AreInodeBlocks(ilist, ipb) && b < |ilist| && StandsAt(ipb, ino, b, j) && IsDinode(d)
    requires ilist' == ilist[b := SetInode(ilist[b], j, d)]
    ensures AreInodeBlocks(ilist', ipb)
    ensures IsFree(ilist', ipb, other) <==> if other == ino then d.mode == 0 else IsFree(ilist, ipb, other)
  {
    forall c: nat, i: nat | c < |ilist| && i < ipb
      ensures IsFreeSlot(ilist'[c], i) <==> if c == b && i == j then d.mode == 0 else IsFreeSlot(ilist[c], i)
    {
      if c == b {
        GetSetInode(ilist[b], j, d, i);
      }
    }
    if other == ino {
      if IsFree(ilist', ipb, ino) {
        var c: nat, i: nat :| c < |ilist| && StandsAt(ipb, ino, c, i) && IsFreeSlot(ilist'[c], i);
        OnePlace(ipb, ino, b, j, c, i);
      }
    } else if IsFree(ilist, ipb, other) {
      var c: nat, i: nat :| c < |ilist| && StandsAt(ipb, other, c, i) && IsFreeSlot(ilist[c], i);
      assert IsFreeSlot(ilist'[c], i);
    }
  }

  /** The list of free inodes gets or loses that inode. */
  lemma AllFreeAfterWrite(ilist: seq<Block>, ilist': seq<Block>, ipb: nat, b: nat, j: nat, d: Dinode, ino: nat)
    requires AreInodeBlocks(ilist, ipb) && b < |ilist| && StandsAt(ipb, ino, b, j) && IsDinode(d)
    requires ilist' == ilist[b := SetInode(ilist[b], j, d)]
    ensures AreInodeBlocks(ilist', ipb)
    ensures forall other :: other in AllFree(ilist', ipb) <==>
              if other == ino then d.mode == 0 else other in AllFree(ilist, ipb)
    ensures |AllFree(ilist', ipb)|
            == |AllFree(ilist, ipb)| + (if d.mode == 0 then 1 else 0) - (if ino in AllFree(ilist, ipb) then 1 else 0)
  {
    FreeAfterWrite(ilist, ilist', ipb, b, j, d, ino, ino);
    var s, s' := AllFree(ilist, ipb), AllFree(ilist', ipb);
    forall other ensures other in s' <==> if other == ino then d.mode == 0 else other in s {
      FreeAfterWrite(ilist, ilist', ipb, b, j, d, ino, other);
      FreeInBlocksIs(ilist, ipb, |ilist|, other);
      FreeInBlocksIs(ilist', ipb, |ilist'|, other);
    }
    FreeInBlocksAscend(ilist, ipb, |ilist|);
    FreeInBlocksAscend(ilist', ipb, |ilist'|);
    CountAfterWrite(s, s', 1, FirstOfBlock(ipb, |ilist|), ino, d.mode == 0);
  }

  lemma CountAfterWrite(s: seq<nat>, s': seq<nat>, lo: nat, hi: nat, ino: nat, isFree: bool)
    requires Ascends(s, lo, hi) && Ascends(s', lo, hi)
    requires forall other :: other in s' <==> if other == ino then isFree else other in s
    ensures |s'| == |s| + (if isFree then 1 else 0) - (if ino in s then 1 else 0)
  {
    AscendingIsDistinct(s, lo, hi);
    AscendingIsDistinct(s', lo, hi);
    assert AsSet(s') - {ino} == AsSet(s) - {ino};
    RemoveOne(AsSet(s), ino);
    RemoveOne(AsSet(s'), ino);
  }

  lemma RemoveOne(s: set<nat>, x: nat)
    ensures |s - {x}| == |s| - if x in s then 1 else 0
  {
    if x !in s {
      assert s - {x} == s;
    }
  }

  lemma {:induction false} MoreFound(block: Block, first: nat, j: nat, n: nat)
    requires j <= n && n * INODE_WORDS <= |block|
    ensures FreeInBlock(block, first, j) <= FreeInBlock(block, first, n)
    decreases n
  {
    if j < n {
      MoreFound(block, first, j, n - 1);
    }
  }

  lemma FirstOfMore(want: seq<nat>, s: seq<nat>, t: seq<nat>)
    requires s <= t && |First(want + s, MAX_FREEINODE)| == MAX_FREEINODE
    ensures First(want + s, MAX_FREEINODE) == First(want + t, MAX_FREEINODE)
  {
  }
}

/** The write-back page cache in front of a disk. */
module Pager {
  import opened Blocks

  /** The block number of a page that holds no block; never requested. */
  const NO_BLOCK: nat := 0xFFFF_FFFF

  class Page {
    var lru: nat
    var dirty: nat
    var used: nat
    var block: nat
    var buf: Block

    constructor (now: nat)
      ensures lru == now && dirty == 0 && used == 0 && block == NO_BLOCK
    {
      lru, dirty, used, block, buf := now, 0, 0, NO_BLOCK, [];
    }

    /** Less used, or as often used and not more recently. */
    predicate Le(p: Page)
      reads this, p
    {
      used < p.used || (used == p.used && lru <= p.lru)
    }

    predicate Lt(p: Page)
      reads this, p
    {
      used < p.used || (used == p.used && lru < p.lru)
    }

    /** Counts a use; a full counter starts again at 1. */
    method IncUsed()
      modifies this`used
      ensures used == if old(used) == 0xFFFF_FFFF then 1 else old(used) + 1
    {
      if used == 0xFFFF_FFFF {
        used := 1;
      } else {
        used := used + 1;
      }
    }

    /** Gives the page new contents that agree with the disk. */
    method Reset(block: nat, buf: Block, now: nat)
      modifies this
      ensures this.block == block && this.buf == buf && lru == now && used == 1 && dirty == 0
    {
      this.lru, this.dirty, this.used, this.block, this.buf := now, 0, 1, block, buf;
    }
  }

  /** How often, and when last, the block of a page was used. */
  datatype Use = Use(block: nat, used: nat, lru: nat)

  /** The first of the least used and, of those, least recently used of the first k pages. */
  ghost function Least(pages: seq<Page>, k: nat): (page: Page)
    requires 0 < k <= |pages|
    reads pages
    ensures page in pages
  {
    if k == 1 then pages[0]
    else if pages[k - 1].Lt(Least(pages, k - 1)) then pages[k - 1] else Least(pages, k - 1)
  }

  /** No page has been used, but there may be a new one. */
  ghost predicate AreKept(us: seq<Use>, us': seq<Use>, now: nat)
  {
    us' == us || us' == us + [Use(NO_BLOCK, 0, now)]
  }

  /** There is at most one page more, the last one. */
  ghost predicate HaveGrown(pages: seq<Page>, pages': seq<Page>)
  {
    pages' == pages || (|pages'| == |pages| + 1 && pages <= pages')
  }

  /** The use of a block: its page has one use more, or has just got the block, and the
      time is that of the last use of this page only.  A full counter starts again at 1. */
  ghost predicate IsUsed(us: seq<Use>, us': seq<Use>, block: nat, now: nat)
  {
    && |us| <= |us'| <= |us| + 1
    && (forall i :: 0 <= i < |us'| && us'[i].block != block ==>
          if i < |us| then us'[i] == us[i] else us'[i].block == NO_BLOCK)
    && (forall i :: 0 <= i < |us'| && us'[i].block == block ==> us'[i].lru == now)
    && (forall i :: 0 <= i < |us| && us[i].block == block ==>
          us'[i].block == block && us'[i].used == if us[i].used == 0xFFFF_FFFF then 1 else us[i].used + 1)
    && (forall i :: 0 <= i < |us'| && us'[i].block == block && (i >= |us| || us[i].block != block) ==> us'[i].used == 1)
    && (forall i, j :: 0 <= i < |us| && 0 <= j < |us'| && us[i].block == us'[j].block == block ==> i == j)
  }

  /** The next block read from the disk, or written through, takes the page of one that
      has to be written first. */
  ghost predicate MustFlush(pages: seq<Page>, maxpages: nat)
    reads pages
  {
    |pages| >= maxpages && pages != [] && Least(pages, |pages|).dirty != 0
  }

  class Pager {
    var disk: map<nat, Block>
    const fails: nat -> bool       // whether the n-th disk operation fails
    var ios: nat                   // disk operations so far
    const maxpages: nat
    var pages: seq<Page>
    ghost var view: map<nat, Block>
    ghost var uses: seq<Use>       // how the pages have been used

    constructor (disk: map<nat, Block>, fails: nat -> bool, maxpages: nat)
      requires NO_BLOCK !in disk
      ensures Valid() && view == disk && this.disk == disk && pages == [] && uses == [] && this.fails == fails
      ensures this.maxpages == maxpages
    {
      this.disk, this.fails, this.ios, this.maxpages, this.pages := disk, fails, 0, maxpages, [];
      this.view, this.uses := disk, [];
    }

    /** `view` is what the pages show, and the disk where there is no page. */
    ghost predicate Valid()
      reads this, pages
    {
      && NO_BLOCK !in disk && view.Keys == disk.Keys && AreDistinct()
      && (forall p :: p in pages ==> IsPage(p))
      && (forall b :: b in disk && view[b] != disk[b] ==> IsCached(b))
    }

    /** No block has two pages, and `uses` tells how the pages have been used. */
    ghost predicate AreDistinct()
      reads this`pages, this`uses, pages`block, pages`used, pages`lru
    {
      && |pages| <= (if maxpages == 0 then 1 else maxpages)
      && (forall i, j :: 0 <= i < j < |pages| ==>
            pages[i] != pages[j] && (pages[i].block == pages[j].block ==> pages[i].block == NO_BLOCK))
      && |uses| == |pages| && (forall i :: 0 <= i < |pages| ==> HasUse(pages[i], uses[i]))
    }

    static ghost predicate HasUse(p: Page, u: Use)
      reads p`block, p`used, p`lru
    {
      p.block == u.block && p.used == u.used && p.lru == u.lru
    }

    ghost predicate IsPage(p: Page)
      reads this`view, this`disk, p`block, p`buf, p`dirty
    {
      if p.block == NO_BLOCK then p.dirty == 0
      else p.block in view && p.block in disk && view[p.block] == p.buf && (p.dirty == 0 ==> disk[p.block] == p.buf)
    }

    /** All pages agree with the disk. */
    ghost predicate Clean()
      reads this, pages
    {
      forall p :: p in pages ==> p.dirty == 0
    }

    method DiskRead(block: nat) returns (rc: int, buf: Block)
      modifies this`ios
      ensures ios == old(ios) + 1 && (rc == 0 <==> !fails(old(ios)) && block in disk)
      ensures rc == 0 ==> buf == disk[block]
    {
      var fault := fails(ios);
      ios := ios + 1;
      if fault || block !in disk {
        return -1, [];
      }
      return 0, disk[block];
    }

    /** A write that fails leaves the disk as it was. */
    method DiskWrite(buf: Block, block: nat) returns (rc: int)
      modifies this`ios, this`disk
      ensures ios == old(ios) + 1 && (rc == 0 <==> !fails(old(ios)) && block in old(disk))
      ensures disk == if rc == 0 then old(disk)[block := buf] else old(disk)
    {
      var fault := fails(ios);
      ios := ios + 1;
      if fault || block !in disk {
        return -1;
      }
      disk := disk[block := buf];
      rc := 0;
    }

    /** A request for a block as an access. */
    ghost function AccessFor(r: Request, now: nat): Access
      reads this, pages
    {
      if r.FlushAll? then Access(NO_BLOCK, false, now) else Access(r.block, IsCached(r.block), now)
    }

    lemma AccessTells(r: Request, now: nat)
      requires Valid()
      ensures !r.FlushAll? ==>
                (AccessFor(r, now).hit <==> exists i :: 0 <= i < |uses| && uses[i].block == r.block)
    {
      if !r.FlushAll? {
        NotUsed(r.block);
      }
    }

    /** A page holds the block. */
    ghost predicate IsCached(block: nat)
      reads this`pages, pages`block
    {
      exists p :: p in pages && p.block == block
    }

    method FindBlock(block: nat) returns (page: Page?, ghost at: nat)
      ensures page != null ==> at < |pages| && page == pages[at] && page.block == block
      ensures page == null ==> forall p :: p in pages ==> p.block != block
    {
      at := 0;
      var n := 0;
      while n < |pages|
        invariant n <= |pages|
        invariant forall i :: 0 <= i < n ==> pages[i].block != block
      {
        if pages[n].block == block {
          return pages[n], n;
        }
        n := n + 1;
      }
      page := null;
    }

    /** The first of the least used and, of those, least recently used pages. */
    method LeastUsed() returns (page: Page, ghost at: nat)
      requires pages != []
      ensures at < |pages| && page == pages[at] == Least(pages, |pages|) && forall p :: p in pages ==> page.Le(p)
    {
      page, at := pages[0], 0;
      var n := 1;
      while n < |pages|
        invariant 1 <= n <= |pages| && at < n && page == pages[at] == Least(pages, n)
        invariant forall i :: 0 <= i < n ==> page.Le(pages[i])
      {
        var p := pages[n];
        if p.used < page.used || (p.used == page.used && p.lru < page.lru) {
          page, at := p, n;
        }
        n := n + 1;
      }
    }

    /** A page to be given new contents: a new one as long as there may be more, then
        the least used one. */
    method LruPage(now: nat) returns (page: Page, ghost at: nat)
      requires Valid()
      modifies this`pages, this`uses
      ensures Valid() && at < |pages| && page == pages[at]
      ensures if |old(pages)| < maxpages || old(pages) == []
              then pages == old(pages) + [page] && fresh(page) && page.dirty == 0
              else pages == old(pages) && page == Least(pages, |pages|) && (forall p :: p in pages ==> page.Le(p))
      ensures HaveGrown(old(pages), pages) && AreKept(old(uses), uses, now)
    {
      if |pages| >= maxpages && pages != [] {
        page, at := LeastUsed();
        return;
      }
      page := new Page(now);
      at := |pages|;
      assert page !in pages;
      pages, uses := pages + [page], uses + [Use(NO_BLOCK, 0, now)];
    }

    /** Writes a page to the disk. */
    method PageFlush(page: Page) returns (rc: int)
      requires Valid() && page in pages && page.block != NO_BLOCK
      modifies this`ios, this`disk, page`dirty
      ensures Valid()
      ensures ios == old(ios) + 1 && (rc == 0 <==> !fails(old(ios)))
      ensures rc == 0 ==> page.dirty == 0 && disk == old(disk)[page.block := page.buf]
      ensures rc != 0 ==> page.dirty == old(page.dirty) && disk == old(disk)
    {
      assert IsPage(page);
      rc := DiskWrite(page.buf, page.block);
      if rc == 0 {
        page.dirty := 0;
      }
    }

    /** A page that agrees with the disk, to be given new contents. */
    method FreePage(now: nat) returns (rc: int, page: Page, ghost at: nat)
      requires Valid()
      modifies this`ios, this`disk, this`pages, this`uses, pages`dirty
      ensures Valid() && at < |pages| && page == pages[at]
      ensures pages == old(pages) || (HaveGrown(old(pages), pages) && page == pages[|pages| - 1] && fresh(page))
      ensures AreKept(old(uses), uses, now)
      ensures rc == 0 ==> page.dirty == 0
      ensures forall b :: b in old(disk) && (forall p :: p in pages ==> p.block != b) ==>
                b in disk && disk[b] == old(disk)[b]
      ensures disk.Keys == old(disk).Keys
      ensures rc == 0 <==> !(old(MustFlush(pages, maxpages)) && fails(old(ios)))
      ensures ios == old(ios) + if old(MustFlush(pages, maxpages)) then 1 else 0
    {
      page, at := LruPage(now);
      rc := 0;
      if page.dirty != 0 {
        assert IsPage(page);
        rc := PageFlush(page);
      }
    }

    /** Lets a page that agrees with the disk hold another block. */
    method SetPage(page: Page, block: nat, buf: Block, now: nat, ghost at: nat)
      requires Valid() && at < |pages| && page == pages[at] && page.dirty == 0 && block != NO_BLOCK
      requires forall p :: p in pages ==> p.block != block
      requires block in disk && disk[block] == buf
      modifies page, this`uses
      ensures Valid() && uses == old(uses)[at := Use(block, 1, now)]
    {
      assert IsPage(page);
      assert view[block] == buf;
      page.Reset(block, buf, now);
      uses := uses[at := Use(block, 1, now)];
    }

    /** Reads a block from the cache, or from the disk into the cache. */
    method Read(block: nat, now: nat) returns (rc: int, buf: Block)
      requires Valid() && block != NO_BLOCK
      modifies this`ios, this`disk, this`pages, this`uses, pages
      ensures Valid() && fresh(set p | p in pages && p !in old(pages))
      ensures rc == 0 <==>
                || old(IsCached(block))
                || old(block in view && !fails(ios) && !(MustFlush(pages, maxpages) && fails(ios + 1)))
      ensures rc == 0 ==> block in view && buf == view[block]
      ensures if rc == 0 then IsUsed(old(uses), uses, block, now) else AreKept(old(uses), uses, now)
    {
      ghost var us := uses;
      NotUsed(block);
      var found;
      ghost var at;
      found, at := FindBlock(block);
      if found != null {
        buf := ReadHit(found, now, at);
        return 0, buf;
      }
      rc, buf := ReadMiss(block, now, us, ios + 1, MustFlush(pages, maxpages));
    }

    /** Reads a block that is not in the cache; `next` is the number of the second disk operation. */
    method ReadMiss(block: nat, now: nat, ghost us: seq<Use>, ghost next: nat, ghost flushes: bool)
      returns (rc: int, buf: Block)
      requires Valid() && block != NO_BLOCK && next == ios + 1 && flushes == MustFlush(pages, maxpages)
      requires us == uses && forall i :: 0 <= i < |us| ==> us[i].block != block
      modifies this`ios, this`disk, this`pages, this`uses, pages
      ensures Valid()
      ensures pages == old(pages) || (HaveGrown(old(pages), pages) && fresh(pages[|pages| - 1]))
      ensures rc == 0 <==> old(block in view && !fails(ios)) && !(flushes && fails(next))
      ensures rc == 0 ==> buf == view[block]
      ensures if rc == 0 then IsUsed(us, uses, block, now) else AreKept(us, uses, now)
    {
      var page;
      ghost var at;
      rc, page, at := FreePage(now);
      if rc != 0 {
        return rc, [];
      }
      assert ios == if flushes then next else old(ios);
      rc, buf := LoadPage(page, block, now, us, at);
    }

    /** Reads a block from the disk into a page. */
    method LoadPage(page: Page, block: nat, now: nat, ghost us: seq<Use>, ghost at: nat) returns (rc: int, buf: Block)
      requires Valid() && at < |pages| && page == pages[at] && page.dirty == 0 && block != NO_BLOCK
      requires AreKept(us, uses, now) && forall i :: 0 <= i < |us| ==> us[i].block != block
      modifies this`ios, this`uses, page
      ensures Valid() && (rc == 0 <==> !fails(old(ios)) && block in view)
      ensures rc == 0 ==> buf == view[block] && IsUsed(us, uses, block, now)
      ensures rc != 0 ==> AreKept(us, uses, now)
    {
      rc, buf := DiskRead(block);
      if rc == 0 {
        StillNotUsed(us, now, block);
        FirstUse(us, uses, block, now, at);
        SetPage(page, block, buf, now, at);
      }
    }

    lemma NotUsed(block: nat)
      requires Valid()
      ensures (forall p :: p in pages ==> p.block != block) <==> forall i :: 0 <= i < |uses| ==> uses[i].block != block
    {
      assert forall i :: 0 <= i < |pages| ==> HasUse(pages[i], uses[i]);
    }

    lemma StillNotUsed(us: seq<Use>, now: nat, block: nat)
      requires Valid() && AreKept(us, uses, now) && block != NO_BLOCK
      requires forall i :: 0 <= i < |us| ==> us[i].block != block
      ensures forall p :: p in pages ==> p.block != block
    {
      NotUsed(block);
    }

    method ReadHit(page: Page, now: nat, ghost at: nat) returns (buf: Block)
      requires Valid() && at < |pages| && page == pages[at] && page.block != NO_BLOCK
      modifies this`uses, page`used, page`lru
      ensures Valid()
      ensures page.block in view && buf == view[page.block] && IsUsed(old(uses), uses, page.block, now)
    {
      assert IsPage(page);
      UsePage(page, now, at);
      buf := page.buf;
    }

    /** Counts a use of a page. */
    method UsePage(page: Page, now: nat, ghost at: nat)
      requires Valid() && at < |pages| && page == pages[at] && page.block != NO_BLOCK
      modifies this`uses, page`used, page`lru
      ensures Valid() && IsUsed(old(uses), uses, page.block, now)
    {
      ghost var us := uses;
      page.IncUsed();
      page.lru := now;
      uses := uses[at := Use(page.block, page.used, now)];
      UsedAgain(us, uses, page.block, now, at);
    }

    /** Writes a block to its page, or to the disk and into the cache.  The block is written
        unless the write to the disk fails; the write-back of the page that has to make way
        can fail after that. */
    method Write(buf: Block, block: nat, now: nat) returns (rc: int)
      requires Valid() && block != NO_BLOCK
      modifies this`ios, this`disk, this`pages, this`view, this`uses, pages
      ensures Valid() && fresh(set p | p in pages && p !in old(pages))
      ensures view
              == if old(IsCached(block) || (!fails(ios) && block in view)) then old(view)[block := buf] else old(view)
      ensures rc == 0 <==>
                || old(IsCached(block))
                || old(!fails(ios) && block in view && !(MustFlush(pages, maxpages) && fails(ios + 1)))
      ensures rc == 0 ==> block in old(view)
      ensures if rc == 0 then IsUsed(old(uses), uses, block, now) else AreKept(old(uses), uses, now)
    {
      ghost var us := uses;
      NotUsed(block);
      var found;
      ghost var at;
      found, at := FindBlock(block);
      if found != null {
        WriteHit(found, buf, now, at);
        return 0;
      }
      rc := WriteMiss(buf, block, now, us, ios + 1, MustFlush(pages, maxpages));
    }

    /** Writes a block that is not in the cache to the disk, and into the cache. */
    method WriteMiss(buf: Block, block: nat, now: nat, ghost us: seq<Use>, ghost next: nat, ghost flushes: bool)
      returns (rc: int)
      requires Valid() && block != NO_BLOCK && next == ios + 1 && flushes == MustFlush(pages, maxpages)
      requires us == uses && forall i :: 0 <= i < |us| ==> us[i].block != block
      modifies this`ios, this`disk, this`pages, this`view, this`uses, pages
      ensures Valid()
      ensures pages == old(pages) || (HaveGrown(old(pages), pages) && fresh(pages[|pages| - 1]))
      ensures view == if old(!fails(ios) && block in view) then old(view)[block := buf] else old(view)
      ensures rc == 0 <==> old(!fails(ios) && block in view) && !(flushes && fails(next))
      ensures if rc == 0 then IsUsed(us, uses, block, now) else AreKept(us, uses, now)
    {
      NotUsed(block);
      rc := WriteThrough(buf, block);
      if rc != 0 {
        return;
      }
      assert ios == next;
      rc := CacheBlock(buf, block, now, us, flushes);
    }

    /** Takes a block into the cache. */
    method CacheBlock(buf: Block, block: nat, now: nat, ghost us: seq<Use>, ghost flushes: bool) returns (rc: int)
      requires Valid() && block != NO_BLOCK && block in disk && disk[block] == buf
      requires flushes == MustFlush(pages, maxpages)
      requires us == uses && forall i :: 0 <= i < |us| ==> us[i].block != block
      modifies this`ios, this`disk, this`pages, this`uses, pages
      ensures Valid()
      ensures pages == old(pages) || (HaveGrown(old(pages), pages) && fresh(pages[|pages| - 1]))
      ensures rc == 0 <==> !(flushes && fails(old(ios)))
      ensures if rc == 0 then IsUsed(us, uses, block, now) else AreKept(us, uses, now)
    {
      var page;
      ghost var at;
      rc, page, at := FreePage(now);
      StillNotUsed(us, now, block);
      if rc == 0 {
        FirstUse(us, uses, block, now, at);
        SetPage(page, block, buf, now, at);
      }
    }

    /** Writes a block that is not in the cache. */
    method WriteThrough(buf: Block, block: nat) returns (rc: int)
      requires Valid() && forall p :: p in pages ==> p.block != block
      modifies this`ios, this`disk, this`view
      ensures Valid()
      ensures ios == old(ios) + 1 && (rc == 0 <==> !fails(old(ios)) && block in old(view))
      ensures rc == 0 ==> block in disk && disk[block] == buf && view == old(view)[block := buf]
      ensures rc != 0 ==> view == old(view) && disk == old(disk)
      ensures MustFlush(pages, maxpages) == old(MustFlush(pages, maxpages))
    {
      rc := DiskWrite(buf, block);
      if rc == 0 {
        view := view[block := buf];
      }
    }

    /** Defers the write to a block that is in the cache. */
    method WriteHit(page: Page, buf: Block, now: nat, ghost at: nat)
      requires Valid() && at < |pages| && page == pages[at] && page.block != NO_BLOCK
      modifies this`view, this`uses, page`used, page`lru, page`buf, page`dirty
      ensures Valid()
      ensures view == old(view)[page.block := buf] && IsUsed(old(uses), uses, page.block, now)
    {
      assert IsPage(page);
      UsePage(page, now, at);
      PutContents(page, buf);
    }

    /** Gives a page contents that differ from the disk. */
    method PutContents(page: Page, buf: Block)
      requires Valid() && page in pages && page.block != NO_BLOCK
      modifies this`view, page`buf, page`dirty
      ensures Valid() && view == old(view)[page.block := buf]
    {
      assert IsPage(page);
      page.buf := buf;
      page.dirty := page.dirty + 1;
      view := view[page.block := buf];
    }

    /** Writes all deferred blocks to the disk. */
    method Flush() returns (rc: int)
      requires Valid()
      modifies this`ios, this`disk, pages`dirty
      ensures Valid()
      ensures rc == 0 ==> Clean() && disk == view
      ensures (forall n :: !fails(n)) ==> rc == 0
    {
      rc := 0;
      var n := 0;
      while n < |pages|
        invariant n <= |pages| && Valid() && rc == 0
        invariant forall i :: 0 <= i < n ==> pages[i].dirty == 0
      {
        if pages[n].dirty != 0 {
          assert IsPage(pages[n]);
          rc := PageFlush(pages[n]);
          if rc != 0 {
            return;
          }
        }
        n := n + 1;
      }
      CleanIsView();
    }

    /** When no page is dirty, the disk is what the pager shows. */
    lemma CleanIsView()
      requires Valid() && Clean()
      ensures disk == view
    {
      forall b | b in disk ensures view[b] == disk[b] {
        if exists p :: p in pages && p.block == b {
          var p :| p in pages && p.block == b;
          assert IsPage(p);
        }
      }
    }
  }

  /** No page holds the block; then page number `at` gets it. */
  lemma FirstUse(us: seq<Use>, us': seq<Use>, block: nat, now: nat, at: nat)
    requires AreKept(us, us', now) && at < |us'| && forall i :: 0 <= i < |us| ==> us[i].block != block
    requires block != NO_BLOCK
    ensures IsUsed(us, us'[at := Use(block, 1, now)], block, now)
  {
  }

  /** Page number `at`, the only one with the block, has one use more. */
  lemma UsedAgain(us: seq<Use>, us': seq<Use>, block: nat, now: nat, at: nat)
    requires |us'| == |us| && at < |us| && us[at].block == block
    requires us'[at] == Use(block, if us[at].used == 0xFFFF_FFFF then 1 else us[at].used + 1, now)
    requires forall i :: 0 <= i < |us| && i != at ==> us'[i] == us[i] && us[i].block != block
    ensures IsUsed(us, us', block, now)
  {
  }

  datatype Request = ReadOf(block: nat) | WriteOf(block: nat, buf: Block) | FlushAll

  /** A plain block map after a request, and what it answers. */
  function Apply(m: map<nat, Block>, r: Request): map<nat, Block>
  {
    if r.WriteOf? then m[r.block := r.buf] else m
  }

  function Answer(m: map<nat, Block>, r: Request): Option<Block>
  {
    if r.ReadOf? && r.block in m then Some(m[r.block]) else None
  }

  function ApplyAll(m: map<nat, Block>, rs: seq<Request>): map<nat, Block>
  {
    if rs == [] then m else Apply(ApplyAll(m, rs[..|rs| - 1]), rs[|rs| - 1])
  }

  /** A request for a block, whether its page was in the cache, and when. */
  datatype Access = Access(block: nat, hit: bool, now: nat)

  /** How many requests there were for a block since it was loaded last. */
  function UsesSince(trace: seq<Access>, block: nat): nat
  {
    if trace == [] then 0
    else
      var before, last := UsesSince(trace[..|trace| - 1], block), trace[|trace| - 1];
      if last.block != block then before else if last.hit then before + 1 else 1
  }

  /** When the last request for a block was. */
  function LastTime(trace: seq<Access>, block: nat): nat
  {
    if trace == [] then 0
    else
      var last := trace[|trace| - 1];
      if last.block == block then last.now else LastTime(trace[..|trace| - 1], block)
  }

  /** Every page with a block counts the requests for it since it was loaded, up to the
      wrap of the counter, and knows the time of the last one. */
  ghost predicate AreCounted(us: seq<Use>, trace: seq<Access>)
  {
    forall i :: 0 <= i < |us| && us[i].block != NO_BLOCK ==>
      var n := UsesSince(trace, us[i].block);
      n >= 1 && us[i].used == (n - 1) % 0xFFFF_FFFF + 1 && us[i].lru == LastTime(trace, us[i].block)
  }

  lemma NextUse(n: nat)
    requires n >= 1
    ensures n % 0xFFFF_FFFF + 1
            == if (n - 1) % 0xFFFF_FFFF + 1 == 0xFFFF_FFFF then 1 else (n - 1) % 0xFFFF_FFFF + 1 + 1
  {
  }

  lemma CountedNext(us: seq<Use>, us': seq<Use>, trace: seq<Access>, a: Access)
    requires AreCounted(us, trace) && IsUsed(us, us', a.block, a.now) && a.block != NO_BLOCK
    requires a.hit <==> exists i :: 0 <= i < |us| && us[i].block == a.block
    ensures AreCounted(us', trace + [a])
  {
    var trace' := trace + [a];
    assert trace'[..|trace|] == trace;
    forall i | 0 <= i < |us'| && us'[i].block != NO_BLOCK
      ensures var n := UsesSince(trace', us'[i].block);
              n >= 1 && us'[i].used == (n - 1) % 0xFFFF_FFFF + 1 && us'[i].lru == LastTime(trace', us'[i].block)
    {
      var b := us'[i].block;
      if b == a.block && i < |us| && us[i].block == b {
        assert a.hit;
        NextUse(UsesSince(trace, b));
      } else if b != a.block {
        assert i < |us| && us'[i] == us[i];
      } else {
        assert !a.hit;
      }
    }
  }

  /** The accesses of a trace are those that the first k requests ask for. */
  ghost predicate IsTraceOf(trace: seq<Access>, rs: seq<Request>, clock: nat -> nat, k: nat)
    requires k <= |rs|
    decreases k
  {
    if k == 0 then trace == []
    else if rs[k - 1].FlushAll? then IsTraceOf(trace, rs, clock, k - 1)
    else
      && trace != [] && trace[|trace| - 1].block == rs[k - 1].block && trace[|trace| - 1].now == clock(k - 1)
      && IsTraceOf(trace[..|trace| - 1], rs, clock, k - 1)
  }

  /** What serving a request does to the uses of the pages. */
  ghost predicate ServesUse(us: seq<Use>, us': seq<Use>, r: Request, now: nat, a: Access)
  {
    if r.FlushAll? then us' == us
    else
      && r.block != NO_BLOCK && IsUsed(us, us', r.block, now) && a == Access(r.block, a.hit, now)
      && (a.hit <==> exists i :: 0 <= i < |us| && us[i].block == r.block)
  }

  /** The trace of the first k requests, and the uses it leads to from no pages. */
  ghost predicate IsRecord(isNew: bool, us: seq<Use>, trace: seq<Access>, rs: seq<Request>, clock: nat -> nat, k: nat)
    requires k <= |rs|
  {
    IsTraceOf(trace, rs, clock, k) && (isNew ==> AreCounted(us, trace))
  }

  lemma RecordNext(isNew: bool, us: seq<Use>, us': seq<Use>, trace: seq<Access>, rs: seq<Request>, clock: nat -> nat,
                   k: nat, next: nat, a: Access)
    requires next == k + 1 <= |rs| && IsRecord(isNew, us, trace, rs, clock, k)
    requires ServesUse(us, us', rs[k], clock(k), a)
    ensures IsRecord(isNew, us', if rs[k].FlushAll? then trace else trace + [a], rs, clock, next)
  {
    assert (trace + [a])[..|trace|] == trace;
    if isNew && !rs[k].FlushAll? {
      CountedNext(us, us', trace, a);
    }
  }

  /** Through any sequence of requests, in any order and whatever the clock says, a
      pager whose disk works answers as the map does, and a new one keeps count. */
  method Serve(pager: Pager, rs: seq<Request>, clock: nat -> nat)
    returns (answers: seq<Option<Block>>, ghost trace: seq<Access>)
    requires pager.Valid() && forall n :: !pager.fails(n)
    requires forall r :: r in rs && !r.FlushAll? ==> r.block in pager.view
    modifies pager, pager.pages
    ensures pager.Valid() && pager.view == ApplyAll(old(pager.view), rs)
    ensures |answers| == |rs| && AreAnswers(old(pager.view), rs, answers)
    ensures IsRecord(old(pager.pages) == [], pager.uses, trace, rs, clock, |rs|)
  {
    answers, trace := [], [];
    ghost var m, isNew := pager.view, pager.pages == [];
    var i := 0;
    while i < |rs|
      invariant |answers| == i <= |rs|
      invariant pager.Valid() && fresh(set p | p in pager.pages && p !in old(pager.pages))
      invariant AreAnswers(m, rs, answers) && pager.view == ApplyAll(m, rs[..i]) && pager.view.Keys == m.Keys
      invariant IsRecord(isNew, pager.uses, trace, rs, clock, i)
    {
      ghost var a, us := pager.AccessFor(rs[i], clock(i)), pager.uses;
      var next := i + 1;
      var answer := ServeOne(pager, rs[i], clock(i), a);
      NextAnswer(m, rs, answers, i, next, answer);
      RecordNext(isNew, us, pager.uses, trace, rs, clock, i, next, a);
      trace := if rs[i].FlushAll? then trace else trace + [a];
      answers := answers + [answer];
      i := next;
    }
    assert rs[..i] == rs;
  }

  /** Every answer so far is that of the map after the requests before it. */
  ghost predicate AreAnswers(m: map<nat, Block>, rs: seq<Request>, answers: seq<Option<Block>>)
  {
    |answers| <= |rs| && forall i :: 0 <= i < |answers| ==> answers[i] == Answer(ApplyAll(m, rs[..i]), rs[i])
  }

  lemma NextAnswer(m: map<nat, Block>, rs: seq<Request>, answers: seq<Option<Block>>, i: nat, next: nat,
                   answer: Option<Block>)
    requires AreAnswers(m, rs, answers) && i == |answers| < |rs| && answer == Answer(ApplyAll(m, rs[..i]), rs[i])
    requires next == i + 1
    ensures AreAnswers(m, rs, answers + [answer])
    ensures ApplyAll(m, rs[..next]) == Apply(ApplyAll(m, rs[..i]), rs[i])
  {
    var before := rs[..next];
    assert before[..|before| - 1] == rs[..i];
  }

  method ServeOne(pager: Pager, r: Request, now: nat, ghost a: Access) returns (answer: Option<Block>)
    requires pager.Valid() && (forall n :: !pager.fails(n)) && a == pager.AccessFor(r, now)
    requires !r.FlushAll? ==> r.block in pager.view
    modifies pager, pager.pages
    ensures pager.Valid() && fresh(set p | p in pager.pages && p !in old(pager.pages))
    ensures pager.view == Apply(old(pager.view), r) && answer == Answer(old(pager.view), r)
    ensures r.FlushAll? ==> pager.disk == pager.view
    ensures ServesUse(old(pager.uses), pager.uses, r, now, a)
  {
    answer := None;
    pager.AccessTells(r, now);
    match r
    case ReadOf(block) =>
      var rc, buf := pager.Read(block, now);
      answer := Some(buf);
    case WriteOf(block, buf) =>
      var rc := pager.Write(buf, block, now);
    case FlushAll =>
      var rc := pager.Flush();
  }
}

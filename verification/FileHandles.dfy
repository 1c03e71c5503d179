/** File handles on a virtual disk: reading and writing through a block buffer. */
module FileHandles {
  import opened Blocks
  import opened Addressing
  import opened DatablockAddr
  import opened Forests
  import opened SizeChanges
  import opened InodeTree
  import opened Files
  import opened Traversal
  import opened Directories
  import opened Streams

  // ---------- words and bytes ----------

  /** Byte i of a word, the most significant one first. */
  function ByteOf(w: nat, i: nat): nat
    requires i < 4
  {
    (if i == 0 then w / 0x100_0000 else if i == 1 then w / 0x1_0000 else if i == 2 then w / 0x100 else w) % 0x100
  }

  function BytesOf(block: Block): (s: seq<nat>)
    ensures |s| == 4 * |block| && AreBytes(s)
  {
    seq(4 * |block|, i requires 0 <= i < 4 * |block| => ByteOf(block[i / 4], i % 4))
  }

  predicate AreBytes(s: seq<nat>)
  {
    forall i :: 0 <= i < |s| ==> s[i] < 0x100
  }

  function WordsOf(bytes: seq<nat>): (b: Block)
    requires |bytes| % 4 == 0
    ensures |b| == |bytes| / 4
  {
    seq(|bytes| / 4, i requires 0 <= i < |bytes| / 4 =>
      bytes[4 * i] * 0x100_0000 + bytes[4 * i + 1] * 0x1_0000 + bytes[4 * i + 2] * 0x100 + bytes[4 * i + 3])
  }

  /** The bytes of a block are those of its words, the most significant one first. */
  lemma BytesLayout(block: Block, k: nat)
    requires k < |block| && block[k] < 0x1_0000_0000
    ensures var s := BytesOf(block);
            block[k] == s[4 * k] * 0x100_0000 + s[4 * k + 1] * 0x1_0000 + s[4 * k + 2] * 0x100 + s[4 * k + 3]
  {
    WordOfBytes(block[k]);
  }

  lemma WordOfBytes(w: nat)
    requires w < 0x1_0000_0000
    ensures w == ByteOf(w, 0) * 0x100_0000 + ByteOf(w, 1) * 0x1_0000 + ByteOf(w, 2) * 0x100 + ByteOf(w, 3)
  {
    var a, b, c := w / 0x100_0000, w / 0x1_0000, w / 0x100;
    assert b == a * 0x100 + b % 0x100 && c == b * 0x100 + c % 0x100 && w == c * 0x100 + w % 0x100;
    assert a < 0x100;
  }

  lemma BytesOfWord(a: nat, b: nat, c: nat, d: nat)
    requires a < 0x100 && b < 0x100 && c < 0x100 && d < 0x100
    ensures var w := a * 0x100_0000 + b * 0x1_0000 + c * 0x100 + d;
            ByteOf(w, 0) == a && ByteOf(w, 1) == b && ByteOf(w, 2) == c && ByteOf(w, 3) == d
  {
  }

  /** Storing bytes as words loses nothing. */
  lemma BytesOfWordsOf(bytes: seq<nat>)
    requires |bytes| % 4 == 0 && AreBytes(bytes)
    ensures BytesOf(WordsOf(bytes)) == bytes
  {
    forall i | 0 <= i < |bytes| ensures BytesOf(WordsOf(bytes))[i] == bytes[i] {
      var k := i / 4;
      BytesOfWord(bytes[4 * k], bytes[4 * k + 1], bytes[4 * k + 2], bytes[4 * k + 3]);
    }
  }

  lemma AreWholeWords(bytes: seq<nat>, n: nat)
    requires |bytes| == 4 * n
    ensures |bytes| % 4 == 0 && |WordsOf(bytes)| == n
  {
  }

  function ToBytes(blocks: seq<Block>): seq<seq<nat>>
  {
    seq(|blocks|, k requires 0 <= k < |blocks| => BytesOf(blocks[k]))
  }

  /** A file of a disk as its handles see it. */
  ghost function ViewOf(n: nat, lo: nat, x: Snapshot, ino: nat, readable: bool): FileView
    requires IsFileSystem(n, lo, x) && ino in x.minodes
  {
    FileView(readable, 4 * n, x.minodes[ino].filesize, Leaves(n, x, ino), ToBytes(FileBlocks(n, lo, x, ino)))
  }

  lemma ViewIsFile(n: nat, lo: nat, x: Snapshot, ino: nat, readable: bool)
    requires IsFileSystem(n, lo, x) && ino in x.minodes
    ensures IsFileView(ViewOf(n, lo, x, ino, readable))
  {
    forall k | 0 <= k < Nblk(n, x, ino) ensures |FileBlocks(n, lo, x, ino)[k]| == n {
      LeafInUse(n, lo, x, ino, k);
    }
  }

  ghost function FileOf(v: Vdisk, ino: nat, readable: bool): (f: FileView)
    requires v.Valid() && ino in v.minodes
    reads v, v.disk, v.disk.freeblock
    ensures IsFileView(f) && f.blksize == v.Blksize() && f.readable == readable && f.size == v.minodes[ino].filesize
  {
    ValidIsFileSystem(v);
    ViewIsFile(v.disk.words, v.disk.datablockStart, v.Now(), ino, readable);
    ViewOf(v.disk.words, v.disk.datablockStart, v.Now(), ino, readable)
  }

  /** The bytes of a leaf. */
  lemma BlockShows(v: Vdisk, ino: nat, readable: bool, k: nat, blk: nat)
    requires v.Valid() && ino in v.minodes && k < Nblk(v.disk.words, v.Now(), ino)
    requires blk == Leaves(v.disk.words, v.Now(), ino)[k]
    ensures blk < |v.disk.blocks|
    ensures var f := FileOf(v, ino, readable);
            k < |f.blocks| && f.leaves[k] == blk && f.blocks[k] == BytesOf(v.disk.blocks[blk])
  {
    ValidIsFileSystem(v);
    LeafInUse(v.disk.words, v.disk.datablockStart, v.Now(), ino, k);
  }

  /** The block that holds the byte at a position, given the offset after it. */
  method FindBlock(v: Vdisk, ino: nat, ghost readable: bool, ghost pos: nat, offset: nat)
    returns (blk: nat, ghost k: nat)
    requires v.Valid() && ino in v.minodes && offset == pos + 1 && pos < v.minodes[ino].filesize
    ensures v.Valid() && blk < |v.disk.blocks|
    ensures FileOf(v, ino, readable) == old(FileOf(v, ino, readable))
    ensures var f := FileOf(v, ino, readable);
            && k == BlockAt(f, pos) && k < |f.blocks|
            && f.leaves[k] == blk && f.blocks[k] == BytesOf(v.disk.blocks[blk])
            && Times(k, f.blksize) <= pos
  {
    ghost var f := FileOf(v, ino, readable);
    BlockAtIs(f, pos);
    blk := Last(v, ino, offset);
    k := BlockCount(v.Blksize(), offset) - 1;
    BlockShows(v, ino, readable, k, blk);
  }

  /** The leaves of a file do not depend on the contents of its blocks. */
  lemma LeavesStay(n: nat, lo: nat, x: Snapshot, y: Snapshot, ino: nat)
    requires IsFileSystem(n, lo, x) && IsFileSystem(n, lo, y) && ino in x.minodes
    requires y.minodes == x.minodes && y.forest == x.forest
    ensures Leaves(n, y, ino) == Leaves(n, x, ino)
  {
    forall k | 0 <= k < Nblk(n, x, ino) ensures Leaves(n, y, ino)[k] == Leaves(n, x, ino)[k] {
      LeafInUse(n, lo, x, ino, k);
      LeafInUse(n, lo, y, ino, k);
    }
  }

  /** Writing bytes to a block of a file changes that block of its view. */
  lemma ViewWritten(n: nat, lo: nat, x: Snapshot, y: Snapshot, ino: nat, readable: bool, k: nat, bytes: seq<nat>)
    requires IsFileSystem(n, lo, x) && IsFileSystem(n, lo, y) && ino in x.minodes && k < Nblk(n, x, ino)
    requires y.minodes == x.minodes && y.forest == x.forest
    requires |bytes| == 4 * n && AreBytes(bytes)
    requires FileBlocks(n, lo, y, ino) == FileBlocks(n, lo, x, ino)[k := WordsOf(bytes)]
    ensures var f := ViewOf(n, lo, x, ino, readable);
            ViewOf(n, lo, y, ino, readable) == f.(blocks := f.blocks[k := bytes])
  {
    LeavesStay(n, lo, x, y, ino);
    BytesOfWordsOf(bytes);
  }

  /** Blocks of a file are data blocks. */
  lemma LeafIsData(v: Vdisk, ino: nat, readable: bool, k: nat)
    requires v.Valid() && ino in v.minodes && k < |FileOf(v, ino, readable).leaves|
    ensures FileOf(v, ino, readable).leaves[k] >= v.disk.datablockStart > 0
  {
    ValidIsFileSystem(v);
    LeafInUse(v.disk.words, v.disk.datablockStart, v.Now(), ino, k);
  }

  /** Block k of a file is the disk block with number blk. */
  ghost predicate IsBlock(f: FileView, blocks: seq<Block>, k: nat, blk: nat)
    requires IsFileView(f)
  {
    0 < blk < |blocks| && k < |f.blocks| && f.leaves[k] == blk && f.blocks[k] == BytesOf(blocks[blk])
  }

  /** The first block of a file is the first number in its inode. */
  lemma FirstBlock(v: Vdisk, ino: nat, readable: bool)
    requires v.Valid() && ino in v.minodes
    ensures |v.minodes[ino].addr| == NADDR
    ensures var f := FileOf(v, ino, readable);
            f.size > 0 ==> IsBlock(f, v.disk.blocks, SoughtBlock(f, 0), v.minodes[ino].addr[0])
  {
    var f := FileOf(v, ino, readable);
    if f.size > 0 {
      BlockAtIs(f, 0);
      FirstLeaf(v.disk.words, v.Now(), ino);
      BlockShows(v, ino, readable, 0, v.minodes[ino].addr[0]);
      LeafIsData(v, ino, readable, 0);
    }
  }

  /** A larger file has the blocks of the smaller one first. */
  ghost predicate IsGrown(f: FileView, f': FileView, size: nat)
  {
    && f' == f.(size := size, leaves := f'.leaves, blocks := f'.blocks) && f.size <= size
    && |f.leaves| <= |f'.leaves| && f'.leaves[..|f.leaves|] == f.leaves
    && |f.blocks| <= |f'.blocks| && f'.blocks[..|f.blocks|] == f.blocks
  }

  lemma ViewGrown(n: nat, lo: nat, x: Snapshot, y: Snapshot, ino: nat, readable: bool, size: nat)
    requires IsFileSystem(n, lo, x) && IsFileSystem(n, lo, y) && ino in x.minodes && x.minodes[ino].filesize <= size
    requires Resized(x.minodes, y.minodes, ino, size)
    requires Expanded(0, n, x, y, ino, Nblk(n, x, ino), Nblk(n, y, ino))
    ensures IsGrown(ViewOf(n, lo, x, ino, readable), ViewOf(n, lo, y, ino, readable), size)
  {
    ExpandAppends(n, lo, x, y, ino, ino, size);
  }

  lemma ViewKept(n: nat, lo: nat, x: Snapshot, y: Snapshot, ino: nat, readable: bool)
    requires IsFileSystem(n, lo, x) && IsFileSystem(n, lo, y) && ino in x.minodes
    requires OnlyAddrDiffers(x.minodes, y.minodes, ino) && y.forest == x.forest
    requires SameElsewhere(x.blocks, y.blocks, x.forest, ino, lo) && y.ilist == x.ilist
    ensures ViewOf(n, lo, y, ino, readable) == ViewOf(n, lo, x, ino, readable)
    ensures OthersKept(n, lo, x, y, ino)
  {
    ListKeepsSlots(n, lo, x, y, ino);
    forall j | j in x.minodes
      ensures Leaves(n, y, j) == Leaves(n, x, j) && FileBlocks(n, lo, y, j) == FileBlocks(n, lo, x, j)
    {
      FailureKeepsFiles(n, lo, x, y, ino, j);
    }
  }

  /** A buffer that has been changed belongs to the block before the position. */
  lemma DirtyBlock(f: FileView, h: Handle, data: seq<nat>, k: nat) returns (pos: nat)
    requires IsFileView(f) && IsWriting(f, h, true, data, k)
    ensures f.blocks != [] && k < |f.leaves|
    ensures h.filepos == pos + 1 && pos < f.size && BlockAt(f, pos) == k
  {
    pos := h.filepos - 1;
    BlockAtIs(f, pos);
    BlockAtUnique(f, pos, k);
  }

  /** Byte sequences, one after the other. */
  function Concat(bufs: seq<seq<nat>>): seq<nat>
  {
    if bufs == [] then [] else Concat(bufs[..|bufs| - 1]) + bufs[|bufs| - 1]
  }

  lemma {:induction false} ConcatPrefix(bufs: seq<seq<nat>>, i: nat)
    requires i <= |bufs|
    ensures |Concat(bufs[..i])| <= |Concat(bufs)|
    decreases |bufs|
  {
    if i < |bufs| {
      var front := bufs[..|bufs| - 1];
      assert front[..i] == bufs[..i];
      ConcatPrefix(front, i);
    } else {
      assert bufs[..i] == bufs;
    }
  }

  lemma ConcatNext(bufs: seq<seq<nat>>, i: nat)
    requires i < |bufs|
    ensures Concat(bufs[..i + 1]) == Concat(bufs[..i]) + bufs[i]
  {
    assert bufs[..i + 1][..i] == bufs[..i];
  }

  function Larger(a: nat, b: nat): nat
  {
    if a > b then a else b
  }

  class UfsFile {
    const v: Vdisk
    const ino: nat
    const readable: bool
    const writable: bool
    var filepos: nat
    var blkpos: nat
    var blkno: nat
    const blkbuf: array<nat>
    var eof: bool
    var failed: bool
    var dirty: bool
    var error: Status

    ghost predicate Valid()
      reads this, blkbuf, v, v.disk, v.disk.freeblock
    {
      && v.Valid() && ino in v.minodes && blkbuf != v.disk.freeblock
      && blkbuf.Length == v.Blksize() && AreBytes(blkbuf[..])
    }

    ghost function State(): Handle
      reads this, blkbuf
    {
      Handle(filepos, blkpos, blkno, blkbuf[..], eof, failed, error)
    }

    /** A handle for a file, with an empty buffer. */
    constructor (v: Vdisk, ino: nat, readable: bool, writable: bool)
      requires v.Valid() && ino in v.minodes
      ensures this.v == v && this.ino == ino && this.readable == readable && this.writable == writable
      ensures Valid() && fresh(blkbuf) && !dirty
      ensures filepos == 0 && blkpos == 0 && blkno == 0 && !eof && !failed && error == Ok
    {
      this.v, this.ino, this.readable, this.writable := v, ino, readable, writable;
      filepos, blkpos, blkno, eof, failed, dirty, error := 0, 0, 0, false, false, false, Ok;
      blkbuf := new nat[v.Blksize()](_ => 0);
    }

    /** Reads the block at the position into the buffer. */
    method LoadBlock()
      requires Valid() && filepos < v.minodes[ino].filesize
      modifies this`blkno, this`blkpos, blkbuf
      ensures Valid()
      ensures State() == Fetch(old(FileOf(v, ino, readable)), old(State()))
    {
      var newblk;
      ghost var k;
      newblk, k := FindBlock(v, ino, readable, filepos, filepos + 1);
      ReadBuffer(newblk);
      blkpos := filepos - Times(Quotient(filepos, v.Blksize()), v.Blksize());
    }

    method ReadBuffer(newblk: nat)
      requires Valid() && newblk < |v.disk.blocks|
      modifies this`blkno, blkbuf
      ensures Valid() && blkno == newblk && blkbuf[..] == BytesOf(v.disk.blocks[newblk])
    {
      blkno := newblk;
      var bytes := BytesOf(v.disk.blocks[newblk]);
      assert |v.disk.blocks[newblk]| == v.disk.words;
      forall i | 0 <= i < blkbuf.Length {
        blkbuf[i] := bytes[i];
      }
      assert blkbuf[..] == bytes;
    }

    /** Reads one byte; None at the end of the file or after an error. */
    method Getc() returns (c: Option<nat>)
      requires Valid()
      modifies this`filepos, this`blkpos, this`blkno, this`eof, this`failed, this`error, blkbuf
      ensures Valid()
      ensures (State(), c) == GetcNext(old(FileOf(v, ino, readable)), old(State()))
      ensures old(eof) || old(failed) ==> c == None && State() == old(State())
      ensures !old(eof) && !old(failed) && !readable ==>
                c == None && State() == old(State()).(failed := true, error := EPERM)
      ensures !old(eof) && !old(failed) && readable && old(filepos) >= v.minodes[ino].filesize ==>
                c == None && State() == old(State()).(eof := true)
      ensures c.Some? <==> !old(eof) && !old(failed) && readable && old(filepos) < v.minodes[ino].filesize
      ensures c.Some? ==> filepos == old(filepos) + 1 && !eof && !failed
    {
      if eof || failed {
        return None;
      }
      if !readable {
        failed := true;
        error := EPERM;
        return None;
      }
      if filepos >= v.minodes[ino].filesize {
        eof := true;
        return None;
      }
      ghost var f, h := FileOf(v, ino, readable), State();
      if blkpos >= blkbuf.Length {
        LoadBlock();
      }
      GetcTakes(f, h, State());
      ghost var g := State();
      c := TakeByte(g.(blkpos := g.blkpos + 1, filepos := g.filepos + 1));
    }

    method TakeByte(ghost next: Handle) returns (c: Option<nat>)
      requires Valid() && blkpos < blkbuf.Length
      requires next == State().(blkpos := blkpos + 1, filepos := filepos + 1)
      modifies this`filepos, this`blkpos
      ensures Valid() && State() == next && c == Some(blkbuf[old(blkpos)])
    {
      c := Some(blkbuf[blkpos]);
      blkpos := blkpos + 1;
      filepos := filepos + 1;
    }

    /** Reads up to n bytes: the same as reading one byte n times. */
    method Getn(n: nat) returns (out: seq<nat>)
      requires Valid() && blkpos <= blkbuf.Length
      modifies this`filepos, this`blkpos, this`blkno, this`eof, this`failed, this`error, blkbuf
      ensures Valid()
      ensures (State(), out) == GetcMany(old(FileOf(v, ino, readable)), old(State()), n)
      decreases n, if blkpos < blkbuf.Length then 0 else 1, 4
    {
      ghost var f, h := FileOf(v, ino, readable), State();
      if n == 0 {
        return [];
      }
      if eof || failed {
        GetcStopped(f, h, n);
        return [];
      }
      GetcRefused(f, h, n);
      if !readable {
        failed := true;
        error := EPERM;
        return [];
      }
      if filepos >= v.minodes[ino].filesize {
        eof := true;
        return [];
      }
      // At least one byte is left in the file, so no byte is read by Getc.
      out := GetnMore(n);
    }

    /** The rest of Getn when there are bytes to read. */
    method GetnMore(n: nat) returns (out: seq<nat>)
      requires Valid() && blkpos <= blkbuf.Length && n > 0
      requires !eof && !failed && readable && filepos < v.minodes[ino].filesize
      modifies this`filepos, this`blkpos, this`blkno, this`eof, this`failed, this`error, blkbuf
      ensures Valid()
      ensures (State(), out) == GetcMany(old(FileOf(v, ino, readable)), old(State()), n)
      decreases n, if blkpos < blkbuf.Length then 0 else 1, 3
    {
      ghost var f, h := FileOf(v, ino, readable), State();
      var favail := v.minodes[ino].filesize - filepos;
      var avail := blkbuf.Length - blkpos;
      if avail > favail {
        avail := favail;
      }
      if avail >= n {
        out := GetnOnce(n, f, h);
      } else {
        out := GetnAcross(avail, n - avail, n, f, h);
      }
    }

    /** Reads n bytes that are in the buffer. */
    method GetnOnce(n: nat, ghost f: FileView, ghost h: Handle) returns (out: seq<nat>)
      requires Valid() && f == FileOf(v, ino, readable) && h == State()
      requires !eof && !failed && readable && blkpos + n <= blkbuf.Length && filepos + n <= f.size
      modifies this`filepos, this`blkpos
      ensures Valid()
      ensures State() == GetcMany(f, h, n).0 && out == GetcMany(f, h, n).1
    {
      GetcRun(f, h, n);
      out := CopyOut(n, h.(blkpos := h.blkpos + n, filepos := h.filepos + n));
    }

    /** Reads n bytes of which only m are left in the buffer or in the file. */
    method GetnAcross(m: nat, k: nat, ghost n: nat, ghost f: FileView, ghost h: Handle) returns (out: seq<nat>)
      requires Valid() && f == FileOf(v, ino, readable) && h == State() && n == m + k && k > 0 && h.filepos < f.size
      requires !h.eof && !h.failed && readable && h.blkpos + m <= f.blksize && h.filepos + m <= f.size
      requires h.blkpos + m == f.blksize || h.filepos + m == f.size
      modifies this`filepos, this`blkpos, this`blkno, this`eof, this`failed, this`error, blkbuf
      ensures Valid()
      ensures State() == GetcMany(f, h, n).0 && out == GetcMany(f, h, n).1
      decreases n, if blkpos < blkbuf.Length then 0 else 1, 2
    {
      ghost var mid := h.(blkpos := h.blkpos + m, filepos := h.filepos + m);
      GetcRunThen(f, h, mid, m, k, n);
      out := GetnTwice(m, k, n, f, h, mid);
    }

    /** Takes the m bytes out of the buffer and goes on. */
    method GetnTwice(m: nat, k: nat, ghost n: nat, ghost f: FileView, ghost h: Handle, ghost mid: Handle)
      returns (out: seq<nat>)
      requires Valid() && f == FileOf(v, ino, readable) && h == State() && n == m + k && k > 0 && filepos < f.size
      requires !eof && !failed && readable && blkpos + m <= blkbuf.Length && filepos + m <= f.size
      requires mid == h.(blkpos := h.blkpos + m, filepos := h.filepos + m)
      requires mid.blkpos == blkbuf.Length || mid.filepos == f.size
      modifies this`filepos, this`blkpos, this`blkno, this`eof, this`failed, this`error, blkbuf
      ensures Valid()
      ensures State() == GetcMany(f, mid, k).0
      ensures out == h.buf[h.blkpos..mid.blkpos] + GetcMany(f, mid, k).1
      decreases n, if blkpos < blkbuf.Length then 0 else 1, 1
    {
      var front := CopyOut(m, mid);
      assert front == h.buf[h.blkpos..mid.blkpos];
      var rest := GetnRest(k, f, mid);
      out := front + rest;
    }

    /** Goes on reading after the bytes in the buffer, or in the file, are used up. */
    method GetnRest(n: nat, ghost f: FileView, ghost h: Handle) returns (out: seq<nat>)
      requires Valid() && f == FileOf(v, ino, readable) && h == State() && n > 0 && !eof && !failed && readable
      requires h.blkpos == blkbuf.Length || h.filepos == f.size
      modifies this`filepos, this`blkpos, this`blkno, this`eof, this`failed, this`error, blkbuf
      ensures Valid()
      ensures State() == GetcMany(f, h, n).0 && out == GetcMany(f, h, n).1
      decreases n, 1, 0
    {
      if filepos >= v.minodes[ino].filesize {
        GetcRefused(f, h, n);
        eof := true;
        return [];
      }
      FetchFirst(f, h, n);
      LoadBlock();
      out := Getn(n);
    }

    /** Takes m bytes out of the buffer. */
    method CopyOut(m: nat, ghost next: Handle) returns (out: seq<nat>)
      requires Valid() && blkpos + m <= blkbuf.Length
      requires next == State().(blkpos := blkpos + m, filepos := filepos + m)
      modifies this`filepos, this`blkpos
      ensures Valid() && out == old(blkbuf[blkpos..blkpos + m])
      ensures State() == next
    {
      out := blkbuf[blkpos..blkpos + m];
      blkpos := blkpos + m;
      filepos := filepos + m;
    }

    // ---------- positioning ----------

    /** The block that positioning reads is there: that of a file that is empty need not be. */
    ghost predicate IsThere()
      requires Valid()
      reads this, blkbuf, v, v.disk, v.disk.freeblock
    {
      v.minodes[ino].filesize > 0 || FirstNumber() < |v.disk.blocks|
    }

    /** The first number in the inode. */
    function FirstNumber(): nat
      requires Valid()
      reads this, blkbuf, v, v.disk, v.disk.freeblock
    {
      v.minodes[ino].addr[0]
    }

    /** The block that positioning reads: that of the byte before the position, or the
        first one. */
    method SeekBlock(pos: nat, ghost f: FileView, ghost k: nat) returns (blk: nat)
      requires Valid() && f == FileOf(v, ino, readable) && pos <= f.size && k == SoughtBlock(f, pos)
      ensures Valid() && if f.size > 0 then IsBlock(f, v.disk.blocks, k, blk) else blk == FirstNumber()
    {
      if pos == 0 {
        blk := FirstBlkno(f, k);
      } else {
        ghost var last := pos - 1;
        blk := BlockBefore(pos, last, f);
      }
    }

    /** The first number in the inode. */
    method FirstBlkno(ghost f: FileView, ghost k: nat) returns (blk: nat)
      requires Valid() && f == FileOf(v, ino, readable) && k == SoughtBlock(f, 0)
      ensures Valid() && if f.size > 0 then IsBlock(f, v.disk.blocks, k, blk) else blk == FirstNumber()
    {
      FirstBlock(v, ino, readable);
      blk := FirstNumber();
    }

    /** The block of the byte before the position. */
    method BlockBefore(pos: nat, ghost last: nat, ghost f: FileView) returns (blk: nat)
      requires Valid() && f == FileOf(v, ino, readable) && pos == last + 1 <= f.size
      ensures Valid() && IsBlock(f, v.disk.blocks, BlockAt(f, last), blk)
    {
      ghost var k;
      blk, k := FindBlock(v, ino, readable, last, pos);
      LeafIsData(v, ino, readable, k);
    }

    /** Moves the position of a handle, and reads the block there. */
    method Position(newpos: nat) returns (rc: Status)
      requires Valid() && newpos <= v.minodes[ino].filesize && IsBuffered(FileOf(v, ino, readable), State())
      modifies this`filepos, this`blkpos, this`blkno, this`eof, this`failed, this`error, blkbuf
      ensures Valid()
      ensures if IsThere() then rc == Ok && Sought(FileOf(v, ino, readable), State(), newpos)
              else rc == error == EIO && failed
    {
      ghost var f, h := FileOf(v, ino, readable), State();
      SetPosition(newpos, f);
      ghost var k := SoughtBlock(f, newpos);
      var newblk := SeekBlock(newpos, f, k);
      rc := BufferBlock(newblk, f, h, k);
      SetIndicators(rc, f);
    }

    method SetPosition(newpos: nat, ghost f: FileView)
      requires Valid() && f == FileOf(v, ino, readable)
      modifies this`filepos, this`blkpos
      ensures Valid() && f == FileOf(v, ino, readable)
      ensures filepos == newpos && blkpos == newpos - Times(BlockAt(f, newpos), f.blksize)
    {
      filepos := newpos;
      QuotientBounds(newpos, v.Blksize());
      TimesIsProduct(Quotient(newpos, v.Blksize()), v.Blksize());
      blkpos := newpos - Times(Quotient(newpos, v.Blksize()), v.Blksize());
    }

    method SetIndicators(rc: Status, ghost f: FileView)
      requires Valid() && f == FileOf(v, ino, readable)
      modifies this`eof, this`failed, this`error
      ensures Valid() && f == FileOf(v, ino, readable)
      ensures failed == (rc != Ok) && error == rc && eof == if rc == Ok then filepos >= f.size else old(eof)
    {
      if rc == Ok {
        eof := filepos >= v.minodes[ino].filesize;
      }
      failed := rc != Ok;
      error := rc;
    }

    /** Reads a block into the buffer, unless it is there. */
    method BufferBlock(newblk: nat, ghost f: FileView, ghost h: Handle, ghost k: nat) returns (rc: Status)
      requires Valid() && f == FileOf(v, ino, readable)
      requires h.blkno == blkno && h.buf == blkbuf[..] && IsBuffered(f, h)
      requires f.size > 0 ==> IsBlock(f, v.disk.blocks, k, newblk)
      modifies this`blkno, blkbuf
      ensures Valid() && rc == if newblk < |v.disk.blocks| then Ok else EIO
      ensures f.size > 0 ==> k < |f.blocks| && blkno == f.leaves[k] && blkbuf[..] == f.blocks[k]
    {
      rc := Ok;
      if newblk == 0 {
        forall i | 0 <= i < blkbuf.Length {
          blkbuf[i] := 0;
        }
      } else if newblk != blkno {
        if newblk >= |v.disk.blocks| {
          blkno := newblk;
          return EIO;
        }
        ReadBuffer(newblk);
      } else {
        ghost var j :| 0 <= j < |f.blocks| && f.leaves[j] == blkno && f.blocks[j] == h.buf;
        BlockShows(v, ino, readable, j, newblk);
      }
    }

    /** Positions a handle that only reads, at most to the end of the file. */
    method Seek(offset: int, whence: Whence) returns (rc: Status)
      requires Valid() && !writable && IsBuffered(FileOf(v, ino, readable), State())
      requires filepos < TWO_TO_32 && v.minodes[ino].filesize < TWO_TO_32 && -TWO_TO_31 <= offset < TWO_TO_31
      requires var size := v.minodes[ino].filesize;
               match whence
               case FromStart => offset <= size
               case FromPosition => filepos + offset <= size || filepos + offset >= TWO_TO_32
               case FromEnd => offset <= 0 || size + offset >= TWO_TO_32
      modifies this`filepos, this`blkpos, this`blkno, this`eof, this`failed, this`error, blkbuf
      ensures Valid()
      ensures rc == EINVAL <==>
                || (whence.FromPosition? && !(0 <= old(filepos) + offset < TWO_TO_32))
                || (whence.FromEnd? && !(0 <= v.minodes[ino].filesize + offset < TWO_TO_32))
      ensures rc == Ok ==>
                && Sought(FileOf(v, ino, readable), State(), filepos)
                && match whence
                   case FromStart => filepos == if offset < 0 then 0 else offset
                   case FromPosition => filepos == old(filepos) + offset
                   case FromEnd => filepos == v.minodes[ino].filesize + offset
      ensures rc == EINVAL ==> State() == old(State()).(failed := true, error := EINVAL)
      ensures rc != EINVAL ==> if IsThere() then rc == Ok else rc == error == EIO && failed
    {
      match SeekTarget(whence, offset, filepos, v.minodes[ino].filesize)
      case None =>
        failed := true;
        error := EINVAL;
        rc := EINVAL;
      case Some(newpos) =>
        rc := Position(newpos);
    }

    /** Positions a handle to the start of the file and reads all of it. */
    method ReadFromStart() returns (out: seq<nat>)
      requires Valid() && readable && !writable && filepos < TWO_TO_32 && v.minodes[ino].filesize < TWO_TO_32
      requires IsBuffered(FileOf(v, ino, true), State())
      modifies this`filepos, this`blkpos, this`blkno, this`eof, this`failed, this`error, blkbuf
      ensures Valid() && out == Content(FileOf(v, ino, true))
    {
      ghost var f := FileOf(v, ino, true);
      var rc := Seek(0, FromStart);
      if rc != Ok {
        return [];
      }
      SoughtReadsAll(f, State());
      out := Getn(v.minodes[ino].filesize);
    }

    // ---------- writing ----------

    /** Makes the file larger. */
    method Grow(size: nat) returns (rc: Status)
      requires Valid() && v.IsSize(size) && v.minodes[ino].filesize < size < v.minodes[ino].filesize + TWO_TO_31
      modifies v`forest, v`minodes, v.disk, v.disk.freeblock
      ensures Valid() && OthersKept(v.disk.words, v.disk.datablockStart, old(v.Now()), v.Now(), ino)
      ensures if old(HasRoom(v.disk.words, v.Now(), ino, size))
              then
                && rc == Ok && IsGrown(old(FileOf(v, ino, readable)), FileOf(v, ino, readable), size)
                && Budget(v.disk.words, v.Now(), ino) == old(Budget(v.disk.words, v.Now(), ino))
              else rc == ENOSPC && FileOf(v, ino, readable) == old(FileOf(v, ino, readable))
    {
      ghost var x := v.Now();
      ValidIsFileSystem(v);
      rc := v.SizeChange(size, ino);
      ValidIsFileSystem(v);
      if rc == Ok {
        ExpandKeepsOthers(v.disk.words, v.disk.datablockStart, x, v.Now(), ino, size);
        ViewGrown(v.disk.words, v.disk.datablockStart, x, v.Now(), ino, readable, size);
      } else {
        ViewKept(v.disk.words, v.disk.datablockStart, x, v.Now(), ino, readable);
      }
    }

    /** Writes the buffer to its block. */
    method WriteBuffer(blk: nat, ghost f: FileView, ghost k: nat)
      requires Valid() && f == FileOf(v, ino, readable) && k < |f.leaves| && blk == f.leaves[k]
      modifies v.disk`blocks
      ensures Valid() && OthersKept(v.disk.words, v.disk.datablockStart, old(v.Now()), v.Now(), ino)
      ensures k < |f.blocks| && FileOf(v, ino, readable) == f.(blocks := f.blocks[k := blkbuf[..]])
    {
      ghost var x := v.Now();
      var bytes := blkbuf[..];
      AreWholeWords(bytes, v.disk.words);
      ValidIsFileSystem(v);
      WriteLeaf(v, blk, WordsOf(bytes), ino, k);
      ValidIsFileSystem(v);
      ViewWritten(v.disk.words, v.disk.datablockStart, x, v.Now(), ino, readable, k, bytes);
    }

    /** Finds out the number of the block the buffer is for. */
    method FindBlkno(ghost f: FileView, ghost h: Handle, ghost data: seq<nat>, ghost k: nat)
      requires Valid() && f == FileOf(v, ino, readable) && h == State() && IsWriting(f, h, true, data, k)
      modifies this`blkno
      ensures Valid() && f.blocks != [] && k < |f.leaves| && State() == h.(blkno := f.leaves[k])
    {
      ghost var pos := DirtyBlock(f, h, data, k);
      if blkno == 0 {
        var blk;
        ghost var found;
        blk, found := FindBlock(v, ino, readable, pos, filepos);
        blkno := blk;
      }
    }

    /** Writes the buffer to its block on disk. */
    method SyncBuffer(ghost f: FileView, ghost h: Handle, ghost h': Handle, ghost data: seq<nat>, ghost k: nat)
      requires Valid() && f == FileOf(v, ino, readable) && h' == State() && IsWriting(f, h, true, data, k)
      requires f.blocks != [] && h' == h.(blkno := f.leaves[k])
      modifies this`dirty, v.disk`blocks
      ensures Valid() && !dirty && OthersKept(v.disk.words, v.disk.datablockStart, old(v.Now()), v.Now(), ino)
      ensures IsWriting(FileOf(v, ino, readable), h', false, data, k)
    {
      WriteBuffer(blkno, f, k);
      dirty := false;
      WritingSynced(f, FileOf(v, ino, readable), h, h', data, k);
    }

    /** Writes the buffer to disk if it has been changed.  Then all of what was written
        is on disk. */
    method Sync(ghost data: seq<nat>, ghost k: nat)
      requires Valid() && IsWriting(FileOf(v, ino, readable), State(), dirty, data, k)
      modifies this`blkno, this`dirty, v.disk`blocks
      ensures Valid() && !dirty && OthersKept(v.disk.words, v.disk.datablockStart, old(v.Now()), v.Now(), ino)
      ensures IsWriting(FileOf(v, ino, readable), State(), false, data, k)
      ensures filepos == v.minodes[ino].filesize ==> Content(FileOf(v, ino, readable)) == data
    {
      if dirty {
        ghost var f, h := FileOf(v, ino, readable), State();
        FindBlkno(f, h, data, k);
        SyncBuffer(f, h, State(), data, k);
      } else {
        ValidIsFileSystem(v);
      }
      if filepos == v.minodes[ino].filesize {
        WritingDone(FileOf(v, ino, readable), State(), data, k);
      }
    }

    method Store(piece: seq<nat>)
      requires Valid() && AreBytes(piece) && blkpos + |piece| <= blkbuf.Length
      modifies blkbuf
      ensures Valid()
      ensures blkbuf[..] == Patched(old(blkbuf[..]), blkpos, piece)
    {
      ghost var was := blkbuf[..];
      forall i | blkpos <= i < blkpos + |piece| {
        blkbuf[i] := piece[i - blkpos];
      }
      ghost var now := Patched(was, blkpos, piece);
      forall i | 0 <= i < |now| ensures blkbuf[i] == now[i] {
      }
      assert blkbuf[..] == now;
    }

    /** Copies bytes into the buffer. */
    method CopyIn(piece: seq<nat>, ghost data: seq<nat>, ghost data': seq<nat>, ghost k: nat)
      requires Valid() && AreBytes(piece) && piece != [] && data' == data + piece
      requires blkpos + |piece| <= blkbuf.Length && filepos + |piece| <= v.minodes[ino].filesize
      requires IsWriting(FileOf(v, ino, readable), State(), dirty, data, k)
      modifies this`filepos, this`blkpos, this`dirty, blkbuf
      ensures Valid() && IsWriting(FileOf(v, ino, readable), State(), dirty, data', k)
      ensures filepos == old(filepos) + |piece| && blkpos == old(blkpos) + |piece|
    {
      ghost var f, h := FileOf(v, ino, readable), State();
      Store(piece);
      Advance(|piece|);
      WritingCopied(f, h, State(), old(dirty), data, piece, data', k);
    }

    /** Moves the position past bytes that have been copied into the buffer. */
    method Advance(n: nat)
      requires Valid()
      modifies this`filepos, this`blkpos, this`dirty
      ensures Valid() && dirty && filepos == old(filepos) + n && blkpos == old(blkpos) + n
      ensures FileOf(v, ino, readable) == old(FileOf(v, ino, readable))
    {
      dirty := true;
      filepos := filepos + n;
      blkpos := blkpos + n;
    }

    /** Leaves the full buffer for the next block. */
    method NextBlock(ghost data: seq<nat>, ghost k: nat, ghost next: nat)
      requires Valid() && IsWriting(FileOf(v, ino, readable), State(), dirty, data, k)
      requires blkpos == blkbuf.Length && filepos < v.minodes[ino].filesize && next == k + 1
      modifies this`blkno, this`dirty, this`blkpos, blkbuf, v.disk`blocks
      ensures Valid() && OthersKept(v.disk.words, v.disk.datablockStart, old(v.Now()), v.Now(), ino)
      ensures blkpos == 0 && IsWriting(FileOf(v, ino, readable), State(), dirty, data, next)
    {
      Sync(data, k);
      FetchNext(FileOf(v, ino, readable), data, k, next);
    }

    /** Reads the next block into the buffer. */
    method FetchNext(ghost f: FileView, ghost data: seq<nat>, ghost k: nat, ghost next: nat)
      requires Valid() && f == FileOf(v, ino, readable) && !dirty && IsWriting(f, State(), false, data, k)
      requires blkpos == f.blksize && filepos < f.size && next == k + 1
      modifies this`blkno, this`blkpos, blkbuf
      ensures Valid() && FileOf(v, ino, readable) == f && v.Now() == old(v.Now())
      ensures blkpos == 0 && IsWriting(f, State(), false, data, next)
    {
      WritingNext(f, State(), data, k, next);
      LoadBlock();
    }

    /** Writes bytes.  They follow those written before, unless there are too few free
        blocks: then nothing is written. */
    method Putn(buf: seq<nat>, ghost newsize: nat, ghost data: seq<nat>, ghost k: nat)
      returns (count: nat, ghost last: nat)
      requires Valid() && AreBytes(buf) && |buf| < TWO_TO_31
      requires failed || (newsize == filepos + |buf| && v.IsSize(newsize))
      requires failed || IsWriting(FileOf(v, ino, readable), State(), dirty, data, k)
      modifies this, blkbuf, v`forest, v`minodes, v.disk, v.disk.freeblock
      ensures Valid() && OthersKept(v.disk.words, v.disk.datablockStart, old(v.Now()), v.Now(), ino)
      ensures if buf == [] || old(failed) then
                count == 0 && State() == old(State()) && dirty == old(dirty) && last == k && v.Now() == old(v.Now())
              else if !writable then
                && count == 0 && State() == old(State()).(failed := true, error := EPERM) && v.Now() == old(v.Now())
              else if old(!HasRoom(v.disk.words, v.Now(), ino, newsize))
              then
                && count == 0 && State() == old(State()).(failed := true, error := ENOSPC)
                && FileOf(v, ino, readable) == old(FileOf(v, ino, readable))
              else
                && count == |buf|
                && IsWriting(FileOf(v, ino, readable), State(), dirty, data + buf, last)
                && filepos == newsize && eof == (old(eof) && newsize <= old(v.minodes[ino].filesize))
                && v.minodes[ino].filesize == Larger(newsize, old(v.minodes[ino].filesize))
                && Budget(v.disk.words, v.Now(), ino) == old(Budget(v.disk.words, v.Now(), ino))
      decreases |buf|, if blkpos < blkbuf.Length then 0 else 1, 2
    {
      last := k;
      ghost var x := v.Now();
      ValidIsFileSystem(v);
      if buf == [] || failed {
        return 0, k;
      }
      if !writable {
        error := EPERM;
        failed := true;
        return 0, k;
      }
      var ok := MakeRoom(filepos + |buf|, newsize, data, k);
      if !ok {
        return 0, k;
      }
      ghost var y := v.Now();
      count, last := PutnMore(buf, newsize, data, k);
      OthersKeptTwice(v.disk.words, v.disk.datablockStart, x, y, v.Now(), ino);
    }

    /** Makes the file larger if it is too small. */
    method MakeRoom(size: nat, ghost newsize: nat, ghost data: seq<nat>, ghost k: nat) returns (ok: bool)
      requires Valid() && size == newsize && v.IsSize(newsize) && newsize < v.minodes[ino].filesize + TWO_TO_31
      requires IsWriting(FileOf(v, ino, readable), State(), dirty, data, k)
      modifies this`eof, this`failed, this`error, v`forest, v`minodes, v.disk, v.disk.freeblock
      ensures Valid() && OthersKept(v.disk.words, v.disk.datablockStart, old(v.Now()), v.Now(), ino)
      ensures ok == old(HasRoom(v.disk.words, v.Now(), ino, newsize))
      ensures ok ==>
        && IsWriting(FileOf(v, ino, readable), State(), dirty, data, k)
        && v.minodes[ino].filesize == Larger(newsize, old(v.minodes[ino].filesize))
        && eof == (old(eof) && newsize <= old(v.minodes[ino].filesize))
        && Budget(v.disk.words, v.Now(), ino) == old(Budget(v.disk.words, v.Now(), ino))
      ensures !ok ==>
        && State() == old(State()).(failed := true, error := ENOSPC)
        && FileOf(v, ino, readable) == old(FileOf(v, ino, readable))
    {
      if size <= v.minodes[ino].filesize {
        ValidIsFileSystem(v);
        return true;
      }
      ok := Enlarge(size, newsize, State().(eof := false), State().(failed := true, error := ENOSPC), data, k);
    }

    /** Makes the file larger, or fails. */
    method Enlarge(size: nat, ghost newsize: nat, ghost g: Handle, ghost e: Handle, ghost data: seq<nat>, ghost k: nat)
      returns (ok: bool)
      requires Valid() && size == newsize && v.IsSize(newsize)
      requires v.minodes[ino].filesize < newsize < v.minodes[ino].filesize + TWO_TO_31
      requires IsWriting(FileOf(v, ino, readable), State(), dirty, data, k)
      requires g == State().(eof := false) && e == State().(failed := true, error := ENOSPC)
      modifies this`eof, this`failed, this`error, v`forest, v`minodes, v.disk, v.disk.freeblock
      ensures Valid() && OthersKept(v.disk.words, v.disk.datablockStart, old(v.Now()), v.Now(), ino)
      ensures ok == old(HasRoom(v.disk.words, v.Now(), ino, newsize))
      ensures ok ==> State() == g && v.minodes[ino].filesize == newsize
      ensures ok ==> IsWriting(FileOf(v, ino, readable), g, dirty, data, k)
      ensures ok ==> Budget(v.disk.words, v.Now(), ino) == old(Budget(v.disk.words, v.Now(), ino))
      ensures !ok ==> State() == e && FileOf(v, ino, readable) == old(FileOf(v, ino, readable))
    {
      var rc := GrowWriting(size, g, data, k);
      ok := Indicate(rc, g, State().(failed := true, error := rc), v.Now(), FileOf(v, ino, readable));
    }

    /** Sets the indicators after an attempt to make the file larger. */
    method Indicate(rc: Status, ghost g: Handle, ghost e: Handle, ghost y: Snapshot, ghost f: FileView)
      returns (ok: bool)
      requires Valid() && v.Now() == y && FileOf(v, ino, readable) == f
      requires g == State().(eof := false) && e == State().(failed := true, error := rc)
      modifies this`eof, this`failed, this`error
      ensures Valid() && v.Now() == y && FileOf(v, ino, readable) == f
      ensures ok == (rc == Ok) && State() == (if ok then g else e)
    {
      ok := rc == Ok;
      if ok {
        eof := false;
      } else {
        error := rc;
        failed := true;
      }
    }

    /** Makes the file larger while it is being written. */
    method GrowWriting(size: nat, ghost g: Handle, ghost data: seq<nat>, ghost k: nat) returns (rc: Status)
      requires Valid() && v.IsSize(size) && v.minodes[ino].filesize < size < v.minodes[ino].filesize + TWO_TO_31
      requires IsWriting(FileOf(v, ino, readable), State(), dirty, data, k) && g == State().(eof := false)
      modifies v`forest, v`minodes, v.disk, v.disk.freeblock
      ensures Valid() && OthersKept(v.disk.words, v.disk.datablockStart, old(v.Now()), v.Now(), ino)
      ensures rc == (if old(HasRoom(v.disk.words, v.Now(), ino, size)) then Ok else ENOSPC)
      ensures rc == Ok ==> v.minodes[ino].filesize == size && IsWriting(FileOf(v, ino, readable), g, dirty, data, k)
      ensures rc == Ok ==> Budget(v.disk.words, v.Now(), ino) == old(Budget(v.disk.words, v.Now(), ino))
      ensures rc != Ok ==> FileOf(v, ino, readable) == old(FileOf(v, ino, readable))
    {
      ghost var f, h := FileOf(v, ino, readable), State();
      rc := Grow(size);
      if rc == Ok {
        WritingGrown(f, FileOf(v, ino, readable), h, dirty, data, k);
      }
    }

    /** The rest of Putn when the file is large enough. */
    method PutnMore(buf: seq<nat>, ghost newsize: nat, ghost data: seq<nat>, ghost k: nat)
      returns (count: nat, ghost last: nat)
      requires Valid() && AreBytes(buf) && buf != [] && |buf| < TWO_TO_31 && writable
      requires newsize == filepos + |buf| <= v.minodes[ino].filesize && v.IsSize(newsize)
      requires IsWriting(FileOf(v, ino, readable), State(), dirty, data, k)
      modifies this, blkbuf, v`forest, v`minodes, v.disk, v.disk.freeblock
      ensures Valid() && OthersKept(v.disk.words, v.disk.datablockStart, old(v.Now()), v.Now(), ino)
      ensures count == |buf| && IsWriting(FileOf(v, ino, readable), State(), dirty, data + buf, last)
      ensures filepos == newsize && eof == old(eof) && v.minodes[ino].filesize == old(v.minodes[ino].filesize)
      ensures Budget(v.disk.words, v.Now(), ino) == old(Budget(v.disk.words, v.Now(), ino))
      decreases |buf|, if blkpos < blkbuf.Length then 0 else 1, 1
    {
      var avail := blkbuf.Length - blkpos;
      if avail >= |buf| {
        ValidIsFileSystem(v);
        CopyIn(buf, data, data + buf, k);
        return |buf|, k;
      }
      count, last := PutnAcross(avail, buf, newsize, data, k);
    }

    /** Writes bytes of which only the first `avail` fit in the buffer. */
    method PutnAcross(avail: nat, buf: seq<nat>, ghost newsize: nat, ghost data: seq<nat>, ghost k: nat)
      returns (count: nat, ghost last: nat)
      requires Valid() && AreBytes(buf) && avail < |buf| < TWO_TO_31 && writable && blkpos + avail == blkbuf.Length
      requires newsize == filepos + |buf| <= v.minodes[ino].filesize && v.IsSize(newsize)
      requires IsWriting(FileOf(v, ino, readable), State(), dirty, data, k)
      modifies this, blkbuf, v`forest, v`minodes, v.disk, v.disk.freeblock
      ensures Valid() && OthersKept(v.disk.words, v.disk.datablockStart, old(v.Now()), v.Now(), ino)
      ensures count == |buf| && IsWriting(FileOf(v, ino, readable), State(), dirty, data + buf, last)
      ensures filepos == newsize && eof == old(eof) && v.minodes[ino].filesize == old(v.minodes[ino].filesize)
      ensures Budget(v.disk.words, v.Now(), ino) == old(Budget(v.disk.words, v.Now(), ino))
      decreases |buf|, if blkpos < blkbuf.Length then 0 else 1, 0
    {
      var front, rest := buf[..avail], buf[avail..];
      ghost var data', all, next := data + front, data + buf, k + 1;
      CutInTwo(buf, avail, data);
      Fill(front, data, data', k);
      var more;
      more, last := PutnRest(rest, newsize, data', all, k, next);
      count := avail + more;
    }

    lemma CutInTwo(buf: seq<nat>, avail: nat, data: seq<nat>)
      requires avail < |buf| && AreBytes(buf)
      ensures AreBytes(buf[..avail]) && AreBytes(buf[avail..]) && data + buf == data + buf[..avail] + buf[avail..]
    {
    }

    /** Goes on writing with the next block. */
    method PutnRest(buf: seq<nat>, ghost newsize: nat, ghost data: seq<nat>, ghost all: seq<nat>, ghost k: nat,
                    ghost next: nat)
      returns (count: nat, ghost last: nat)
      requires Valid() && AreBytes(buf) && 0 < |buf| < TWO_TO_31 && writable && blkpos == blkbuf.Length
      requires newsize == filepos + |buf| <= v.minodes[ino].filesize && v.IsSize(newsize) && next == k + 1
      requires all == data + buf
      requires IsWriting(FileOf(v, ino, readable), State(), dirty, data, k)
      modifies this, blkbuf, v`forest, v`minodes, v.disk, v.disk.freeblock
      ensures Valid() && OthersKept(v.disk.words, v.disk.datablockStart, old(v.Now()), v.Now(), ino)
      ensures count == |buf| && IsWriting(FileOf(v, ino, readable), State(), dirty, all, last)
      ensures filepos == newsize && eof == old(eof) && v.minodes[ino].filesize == old(v.minodes[ino].filesize)
      ensures Budget(v.disk.words, v.Now(), ino) == old(Budget(v.disk.words, v.Now(), ino))
      decreases |buf|, 0, 3
    {
      ghost var x := v.Now();
      NextBlock(data, k, next);
      ghost var y := v.Now();
      count, last := Putn(buf, newsize, data, next);
      OthersKeptTwice(v.disk.words, v.disk.datablockStart, x, y, v.Now(), ino);
    }

    /** Fills the buffer. */
    method Fill(piece: seq<nat>, ghost data: seq<nat>, ghost data': seq<nat>, ghost k: nat)
      requires Valid() && AreBytes(piece) && data' == data + piece
      requires blkpos + |piece| == blkbuf.Length && filepos + |piece| < v.minodes[ino].filesize
      requires IsWriting(FileOf(v, ino, readable), State(), dirty, data, k)
      modifies this`filepos, this`blkpos, this`dirty, blkbuf
      ensures Valid() && IsWriting(FileOf(v, ino, readable), State(), dirty, data', k)
      ensures filepos == old(filepos) + |piece| && blkpos == blkbuf.Length
      ensures v.Now() == old(v.Now()) && Budget(v.disk.words, v.Now(), ino) == old(Budget(v.disk.words, v.Now(), ino))
    {
      if piece != [] {
        CopyIn(piece, data, data', k);
      } else {
        assert data' == data;
      }
    }

    /** All of `data` has been written, or it needs more blocks than there are. */
    ghost predicate Progress(data: seq<nat>, k: nat, budget: nat)
      requires Valid()
      reads this, blkbuf, v, v.disk, v.disk.freeblock
    {
      if failed then error == ENOSPC && budget < Need(v.disk.words, |data|)
      else
        && filepos == v.minodes[ino].filesize
        && Budget(v.disk.words, v.Now(), ino) == budget >= Need(v.disk.words, |data|)
        && IsWriting(FileOf(v, ino, readable), State(), dirty, data, k)
    }

    /** Writes one more buffer. */
    method PutNext(buf: seq<nat>, ghost data: seq<nat>, ghost data': seq<nat>, ghost newsize: nat, ghost k: nat,
                   ghost budget: nat, ghost x: Snapshot)
      returns (ghost last: nat)
      requires Valid() && writable && AreBytes(buf) && |buf| < TWO_TO_31 && Progress(data, k, budget)
      requires OthersKept(v.disk.words, v.disk.datablockStart, x, v.Now(), ino)
      requires data' == data + buf && newsize == |data'| && v.IsSize(newsize)
      modifies this, blkbuf, v`forest, v`minodes, v.disk, v.disk.freeblock
      ensures Valid() && OthersKept(v.disk.words, v.disk.datablockStart, x, v.Now(), ino)
      ensures Progress(data', last, budget)
    {
      NeedMonotone(v.disk.words, |data|, newsize);
      assert buf == [] ==> data' == data;
      var count;
      ghost var y := v.Now();
      count, last := Putn(buf, newsize, data, k);
      OthersKeptTwice(v.disk.words, v.disk.datablockStart, x, y, v.Now(), ino);
    }

    /** Writes several buffers to a new file.  If there are enough free blocks, the file
        then contains these bytes and no others; if not, writing fails. */
    method WriteAll(bufs: seq<seq<nat>>)
      requires Valid() && writable && !failed && !dirty && filepos == blkpos == blkno == v.minodes[ino].filesize == 0
      requires forall i :: 0 <= i < |bufs| ==> AreBytes(bufs[i]) && |bufs[i]| < TWO_TO_31
      requires v.IsSize(|Concat(bufs)|)
      modifies this, blkbuf, v`forest, v`minodes, v.disk, v.disk.freeblock
      ensures Valid() && OthersKept(v.disk.words, v.disk.datablockStart, old(v.Now()), v.Now(), ino)
      ensures failed <==> old(!HasRoom(v.disk.words, v.Now(), ino, |Concat(bufs)|))
      ensures if failed then error == ENOSPC else Content(FileOf(v, ino, readable)) == Concat(bufs)
    {
      ghost var x, budget, data := v.Now(), Budget(v.disk.words, v.Now(), ino), Concat(bufs);
      StartProgress(budget);
      ghost var k := PutAll(bufs, budget, x, data);
      SyncLast(data, k, budget, x);
    }

    lemma StartProgress(budget: nat)
      requires Valid() && !failed && !dirty && filepos == blkpos == blkno == v.minodes[ino].filesize == 0
      requires budget == Budget(v.disk.words, v.Now(), ino)
      ensures Progress([], 0, budget) && OthersKept(v.disk.words, v.disk.datablockStart, v.Now(), v.Now(), ino)
      ensures Need(v.disk.words, 0) == 0
    {
      ValidIsFileSystem(v);
      StartWriting(FileOf(v, ino, readable), State());
      BlockCountZero(v.Blksize());
    }

    /** Writes buffer after buffer. */
    method PutAll(bufs: seq<seq<nat>>, ghost budget: nat, ghost x: Snapshot, ghost data: seq<nat>)
      returns (ghost k: nat)
      requires Valid() && writable && Progress([], 0, budget) && data == Concat(bufs)
      requires forall i :: 0 <= i < |bufs| ==> AreBytes(bufs[i]) && |bufs[i]| < TWO_TO_31
      requires v.IsSize(|Concat(bufs)|)
      requires OthersKept(v.disk.words, v.disk.datablockStart, x, v.Now(), ino)
      modifies this, blkbuf, v`forest, v`minodes, v.disk, v.disk.freeblock
      ensures Valid() && OthersKept(v.disk.words, v.disk.datablockStart, x, v.Now(), ino)
      ensures Progress(data, k, budget)
    {
      k := 0;
      for i := 0 to |bufs|
        invariant Valid() && OthersKept(v.disk.words, v.disk.datablockStart, x, v.Now(), ino)
        invariant Progress(Concat(bufs[..i]), k, budget)
      {
        ghost var next := i + 1;
        SizeOfFront(bufs, next);
        ConcatNext(bufs, i);
        k := PutNext(bufs[i], Concat(bufs[..i]), Concat(bufs[..next]), |Concat(bufs[..next])|, k, budget, x);
      }
      assert bufs[..|bufs|] == bufs;
    }

    /** Writes what is left in the buffer. */
    method SyncLast(ghost data: seq<nat>, ghost k: nat, ghost budget: nat, ghost x: Snapshot)
      requires Valid() && Progress(data, k, budget) && OthersKept(v.disk.words, v.disk.datablockStart, x, v.Now(), ino)
      modifies this`blkno, this`dirty, v.disk`blocks
      ensures Valid() && OthersKept(v.disk.words, v.disk.datablockStart, x, v.Now(), ino)
      ensures failed <==> budget < Need(v.disk.words, |data|)
      ensures if failed then error == ENOSPC else Content(FileOf(v, ino, readable)) == data
    {
      if !failed {
        ghost var y := v.Now();
        Sync(data, k);
        OthersKeptTwice(v.disk.words, v.disk.datablockStart, x, y, v.Now(), ino);
      }
    }

    /** The first of several buffers are no larger than a file can be if all of them are not. */
    lemma SizeOfFront(bufs: seq<seq<nat>>, i: nat)
      requires Valid() && i <= |bufs| && v.IsSize(|Concat(bufs)|)
      ensures v.IsSize(|Concat(bufs[..i])|)
    {
      ConcatPrefix(bufs, i);
      var size, front := |Concat(bufs)|, |Concat(bufs[..i])|;
      v.SmallerIsSize(size, size - front);
    }
  }

  /** Who may read or write a file does not matter for its contents. */
  lemma SameContent(v: Vdisk, ino: nat)
    requires v.Valid() && ino in v.minodes
    ensures Content(FileOf(v, ino, true)) == Content(FileOf(v, ino, false))
  {
  }

  /** Writes several buffers to a new file, opens it again, and reads as many bytes. */
  method WriteAndRead(v: Vdisk, ino: nat, bufs: seq<seq<nat>>) returns (ok: bool, out: seq<nat>)
    requires v.Valid() && ino in v.minodes && v.minodes[ino].filesize == 0
    requires forall i :: 0 <= i < |bufs| ==> AreBytes(bufs[i]) && |bufs[i]| < TWO_TO_31
    requires v.IsSize(|Concat(bufs)|)
    modifies v`forest, v`minodes, v.disk, v.disk.freeblock
    ensures v.Valid() && ok == old(HasRoom(v.disk.words, v.Now(), ino, |Concat(bufs)|))
    ensures out == if ok then Concat(bufs) else []
  {
    var w := new UfsFile(v, ino, false, true);
    w.WriteAll(bufs);
    if w.failed {
      return false, [];
    }
    SameContent(v, ino);
    out := ReadAll(v, ino);
    ok := true;
  }

  /** Opens a file for reading, and reads it from its start to its end. */
  method ReadAll(v: Vdisk, ino: nat) returns (out: seq<nat>)
    requires v.Valid() && ino in v.minodes
    ensures v.Valid() && ino in v.minodes && out == Content(FileOf(v, ino, true))
  {
    var r := new UfsFile(v, ino, true, false);
    out := r.ReadFromStart();
  }
}

/** Reading a file through a buffer: what one handle does, without the disk. */
module Streams {
  import opened Blocks
  import opened Addressing
  import opened DatablockAddr

  /** A file as a handle sees it: its size, and its blocks as bytes. */
  datatype FileView = FileView(readable: bool, blksize: nat, size: nat, leaves: seq<nat>, blocks: seq<seq<nat>>)

  ghost predicate IsFileView(f: FileView)
  {
    && f.blksize > 0 && |f.leaves| == |f.blocks| == BlockCount(f.blksize, f.size)
    && forall k :: 0 <= k < |f.blocks| ==> |f.blocks[k]| == f.blksize
  }

  /** The bytes of the first k blocks. */
  function Flat(blocks: seq<seq<nat>>, k: nat): seq<nat>
    requires k <= |blocks|
  {
    if k == 0 then [] else Flat(blocks, k - 1) + blocks[k - 1]
  }

  lemma {:induction false} FlatLength(blocks: seq<seq<nat>>, blksize: nat, k: nat)
    requires k <= |blocks| && forall j :: 0 <= j < |blocks| ==> |blocks[j]| == blksize
    ensures |Flat(blocks, k)| == Times(k, blksize)
  {
    if k > 0 {
      FlatLength(blocks, blksize, k - 1);
    }
  }

  /** The bytes of block j stand right after those of the blocks before it. */
  lemma {:induction false} FlatAt(blocks: seq<seq<nat>>, blksize: nat, j: nat, k: nat)
    requires j < k <= |blocks| && forall i :: 0 <= i < |blocks| ==> |blocks[i]| == blksize
    ensures var start := Times(j, blksize);
            start + blksize <= |Flat(blocks, k)| && Flat(blocks, k)[start..start + blksize] == blocks[j]
    decreases k
  {
    FlatLength(blocks, blksize, k - 1);
    var front, start := Flat(blocks, k - 1), Times(j, blksize);
    if j == k - 1 {
      assert (front + blocks[j])[start..start + blksize] == blocks[j];
    } else {
      FlatAt(blocks, blksize, j, k - 1);
      assert (front + blocks[k - 1])[start..start + blksize] == front[start..start + blksize];
    }
  }

  lemma SizeFits(f: FileView)
    requires IsFileView(f)
    ensures f.size <= |Flat(f.blocks, |f.blocks|)|
  {
    FlatLength(f.blocks, f.blksize, |f.blocks|);
    TimesIsProduct(|f.blocks|, f.blksize);
    QuotientBounds(f.size + f.blksize - 1, f.blksize);
  }

  /** The contents of a file. */
  ghost function Content(f: FileView): (s: seq<nat>)
    requires IsFileView(f)
    ensures |s| == f.size
  {
    SizeFits(f);
    Flat(f.blocks, |f.blocks|)[..f.size]
  }

  datatype Handle = Handle(filepos: nat, blkpos: nat, blkno: nat, buf: seq<nat>, eof: bool, failed: bool, error: Status)

  /** The block that holds the byte at the position. */
  function BlockAt(f: FileView, pos: nat): nat
    requires f.blksize > 0
  {
    Quotient(pos, f.blksize)
  }

  lemma BlockAtIs(f: FileView, pos: nat)
    requires IsFileView(f) && pos < f.size
    ensures var k := BlockAt(f, pos);
            k < |f.blocks| && Times(k, f.blksize) <= pos < Times(k, f.blksize) + f.blksize
    ensures BlockCount(f.blksize, pos + 1) == BlockAt(f, pos) + 1
  {
    var k := BlockAt(f, pos);
    QuotientBounds(pos, f.blksize);
    TimesIsProduct(k, f.blksize);
    QuotientBounds(f.size + f.blksize - 1, f.blksize);
    if k >= |f.blocks| {
      MulMonotone(|f.blocks|, k, f.blksize);
    }
  }

  lemma BlockAtUnique(f: FileView, pos: nat, k: nat)
    requires f.blksize > 0 && Times(k, f.blksize) <= pos < Times(k, f.blksize) + f.blksize
    ensures BlockAt(f, pos) == k
  {
    TimesIsProduct(k, f.blksize);
    QuotientUnique(pos, f.blksize, k, pos - k * f.blksize);
  }

  /** The handle after the block at its position is read into the buffer. */
  function Fetch(f: FileView, h: Handle): (g: Handle)
    requires IsFileView(f) && h.filepos < f.size
    ensures |g.buf| == f.blksize && g.blkpos < f.blksize && g.filepos == h.filepos
  {
    BlockAtIs(f, h.filepos);
    var k := BlockAt(f, h.filepos);
    h.(blkno := f.leaves[k], buf := f.blocks[k], blkpos := h.filepos - Times(k, f.blksize))
  }

  /** The handle after reading one byte, and the byte; None for end of file or error. */
  function GetcNext(f: FileView, h: Handle): (Handle, Option<nat>)
    requires IsFileView(f) && |h.buf| == f.blksize
  {
    if h.eof || h.failed then (h, None)
    else if !f.readable then (h.(failed := true, error := EPERM), None)
    else if h.filepos >= f.size then (h.(eof := true), None)
    else
      BlockAtIs(f, h.filepos);
      var g := if h.blkpos >= f.blksize then Fetch(f, h) else h;
      (g.(blkpos := g.blkpos + 1, filepos := g.filepos + 1), Some(g.buf[g.blkpos]))
  }

  /** A byte is taken from the buffer, after the next block is fetched if it is used up. */
  lemma GetcTakes(f: FileView, h: Handle, g: Handle)
    requires IsFileView(f) && |h.buf| == f.blksize && !h.eof && !h.failed && f.readable && h.filepos < f.size
    requires g == if h.blkpos >= f.blksize then Fetch(f, h) else h
    ensures |g.buf| == f.blksize && g.blkpos < f.blksize
    ensures GetcNext(f, h) == (g.(blkpos := g.blkpos + 1, filepos := g.filepos + 1), Some(g.buf[g.blkpos]))
  {
  }

  /** Reading one byte n times. */
  function GetcMany(f: FileView, h: Handle, n: nat): (r: (Handle, seq<nat>))
    requires IsFileView(f) && |h.buf| == f.blksize
    ensures |r.0.buf| == f.blksize
    decreases n
  {
    if n == 0 then (h, [])
    else
      BlockAtIs'(f, h);
      var (g, c) := GetcNext(f, h);
      var (g', out) := GetcMany(f, g, n - 1);
      (g', (if c.Some? then [c.value] else []) + out)
  }

  lemma BlockAtIs'(f: FileView, h: Handle)
    requires IsFileView(f) && |h.buf| == f.blksize
    ensures |GetcNext(f, h).0.buf| == f.blksize
  {
    if h.filepos < f.size {
      BlockAtIs(f, h.filepos);
    }
  }

  /** Reading j bytes, then k. */
  lemma {:induction false} GetcSplit(f: FileView, h: Handle, j: nat, k: nat)
    requires IsFileView(f) && |h.buf| == f.blksize
    ensures var (g, out) := GetcMany(f, h, j);
            var (g', out') := GetcMany(f, g, k);
            GetcMany(f, h, j + k) == (g', out + out')
    decreases j
  {
    var (g, out) := GetcMany(f, h, j);
    var (g', out') := GetcMany(f, g, k);
    if j == 0 {
      assert [] + out' == out';
    } else {
      BlockAtIs'(f, h);
      var (next, c) := GetcNext(f, h);
      GetcSplit(f, next, j - 1, k);
      var byte := if c.Some? then [c.value] else [];
      var rest := GetcMany(f, next, j - 1).1;
      assert out == byte + rest && (byte + rest) + out' == byte + (rest + out');
    }
  }

  /** Reading bytes that are all in the buffer. */
  lemma {:induction false} GetcRun(f: FileView, h: Handle, m: nat)
    requires IsFileView(f) && |h.buf| == f.blksize && f.readable && !h.eof && !h.failed
    requires h.blkpos + m <= f.blksize && h.filepos + m <= f.size
    ensures GetcMany(f, h, m) == (h.(blkpos := h.blkpos + m, filepos := h.filepos + m), h.buf[h.blkpos..h.blkpos + m])
    decreases m
  {
    if m > 0 {
      var next := h.(blkpos := h.blkpos + 1, filepos := h.filepos + 1);
      GetcTakes(f, h, h);
      GetcRun(f, next, m - 1);
      assert GetcMany(f, h, m) == (GetcMany(f, next, m - 1).0, [h.buf[h.blkpos]] + GetcMany(f, next, m - 1).1);
      assert [h.buf[h.blkpos]] + h.buf[h.blkpos + 1..h.blkpos + m] == h.buf[h.blkpos..h.blkpos + m];
    }
  }

  /** Reading m bytes that are all in the buffer, then k more. */
  lemma GetcRunThen(f: FileView, h: Handle, mid: Handle, m: nat, k: nat, n: nat)
    requires IsFileView(f) && |h.buf| == f.blksize && f.readable && !h.eof && !h.failed
    requires h.blkpos + m <= f.blksize && h.filepos + m <= f.size && n == m + k
    requires mid == h.(blkpos := h.blkpos + m, filepos := h.filepos + m)
    ensures GetcMany(f, h, n).0 == GetcMany(f, mid, k).0
    ensures GetcMany(f, h, n).1 == h.buf[h.blkpos..mid.blkpos] + GetcMany(f, mid, k).1
  {
    GetcRun(f, h, m);
    GetcSplit(f, h, m, k);
  }

  /** After an error or at the end of the file, nothing more is read. */
  lemma {:induction false} GetcStopped(f: FileView, h: Handle, n: nat)
    requires IsFileView(f) && |h.buf| == f.blksize && (h.eof || h.failed)
    ensures GetcMany(f, h, n) == (h, [])
  {
    if n > 0 {
      GetcStopped(f, h, n - 1);
      assert [] + GetcMany(f, h, n - 1).1 == [];
    }
  }

  lemma GetcRefused(f: FileView, h: Handle, n: nat)
    requires IsFileView(f) && |h.buf| == f.blksize && !h.eof && !h.failed && n > 0
    ensures !f.readable ==> GetcMany(f, h, n) == (h.(failed := true, error := EPERM), [])
    ensures f.readable && h.filepos >= f.size ==> GetcMany(f, h, n) == (h.(eof := true), [])
  {
    if !f.readable || h.filepos >= f.size {
      var g := GetcNext(f, h).0;
      GetcStopped(f, g, n - 1);
      assert [] + GetcMany(f, g, n - 1).1 == [];
    }
  }

  /** Fetching the next block early makes no difference to what is read. */
  lemma FetchFirst(f: FileView, h: Handle, n: nat)
    requires IsFileView(f) && |h.buf| == f.blksize && f.readable && !h.eof && !h.failed
    requires n > 0 && h.blkpos >= f.blksize && h.filepos < f.size
    ensures |Fetch(f, h).buf| == f.blksize && GetcMany(f, h, n) == GetcMany(f, Fetch(f, h), n)
  {
    BlockAtIs(f, h.filepos);
    assert GetcNext(f, h) == GetcNext(f, Fetch(f, h));
  }

  /** The buffer holds the block at the position, or its end has been reached. */
  ghost predicate IsInPlace(f: FileView, h: Handle)
    requires IsFileView(f)
  {
    && |h.buf| == f.blksize
    && (h.filepos < f.size && h.blkpos < f.blksize ==>
          var k := BlockAt(f, h.filepos);
          k < |f.blocks| && h.buf == f.blocks[k] && h.filepos == Times(k, f.blksize) + h.blkpos)
    && (h.filepos < f.size && h.blkpos >= f.blksize ==> h.filepos == Times(BlockAt(f, h.filepos), f.blksize))
  }

  /** Reading a byte gives the next byte of the contents. */
  lemma GetcIsNextByte(f: FileView, h: Handle)
    requires IsFileView(f) && IsInPlace(f, h) && f.readable && !h.eof && !h.failed && h.filepos < f.size
    ensures var (g, c) := GetcNext(f, h);
            && c == Some(Content(f)[h.filepos]) && g.filepos == h.filepos + 1 && !g.eof && !g.failed
            && IsInPlace(f, g)
  {
    var k := BlockAt(f, h.filepos);
    BlockAtIs(f, h.filepos);
    FlatAt(f.blocks, f.blksize, k, |f.blocks|);
    var start := Times(k, f.blksize);
    var flat := Flat(f.blocks, |f.blocks|);
    SizeFits(f);
    assert flat[start..start + f.blksize][h.filepos - start] == flat[h.filepos];
    var g := GetcNext(f, h).0;
    if g.filepos < f.size {
      if g.blkpos < f.blksize {
        BlockAtUnique(f, g.filepos, k);
      } else {
        var next := k + 1;
        NextStart(k, next, f.blksize);
        BlockAtUnique(f, g.filepos, next);
      }
    }
  }

  lemma NextStart(k: nat, next: nat, b: nat)
    requires next == k + 1
    ensures Times(next, b) == Times(k, b) + b
  {
  }

  /** Reading n bytes gives the next n bytes of the contents, or what is left of it. */
  lemma {:induction false} GetnIsSlice(f: FileView, h: Handle, n: nat)
    requires IsFileView(f) && IsInPlace(f, h) && f.readable && !h.eof && !h.failed && h.filepos <= f.size
    ensures var m := if n <= f.size - h.filepos then n else f.size - h.filepos;
            var (g, out) := GetcMany(f, h, n);
            && out == Content(f)[h.filepos..h.filepos + m]
            && g.filepos == h.filepos + m && !g.failed && (g.eof <==> n > m) && IsInPlace(f, g)
    decreases n
  {
    if n > 0 {
      if h.filepos < f.size {
        GetcIsNextByte(f, h);
        var (g, c) := GetcNext(f, h);
        GetnIsSlice(f, g, n - 1);
        var m := if n <= f.size - h.filepos then n else f.size - h.filepos;
        assert [Content(f)[h.filepos]] + Content(f)[h.filepos + 1..h.filepos + m]
               == Content(f)[h.filepos..h.filepos + m];
      } else {
        GetcRefused(f, h, n);
      }
    }
  }

  // ---------- positioning ----------

  /** What an offset is counted from. */
  datatype Whence = FromStart | FromPosition | FromEnd

  /** A position moved by an offset; None if it leaves the range of positions. */
  function Moved(pos: nat, offset: int): (r: Option<nat>)
    requires pos < TWO_TO_32 && -TWO_TO_31 <= offset < TWO_TO_31
    ensures r == if 0 <= pos + offset < TWO_TO_32 then Some(pos + offset) else None
  {
    if offset < 0 then
      var back := -offset;
      if back > pos then None else Some(pos - back)
    else
      var sum := Wrap(pos + offset);
      if sum < pos then None else Some(sum)
  }

  /** The position asked for; a negative offset from the start is taken as 0. */
  function SeekTarget(whence: Whence, offset: int, filepos: nat, size: nat): Option<nat>
    requires filepos < TWO_TO_32 && size < TWO_TO_32 && -TWO_TO_31 <= offset < TWO_TO_31
  {
    match whence
    case FromStart => Some(if offset >= 0 then offset else 0)
    case FromPosition => Moved(filepos, offset)
    case FromEnd => Moved(size, offset)
  }

  /** The block that positioning reads: that of the byte before the position. */
  function SoughtBlock(f: FileView, pos: nat): nat
    requires f.blksize > 0
  {
    if pos == 0 then 0 else BlockAt(f, pos - 1)
  }

  /** The handle after positioning. */
  ghost predicate Sought(f: FileView, h: Handle, pos: nat)
    requires IsFileView(f)
  {
    && |h.buf| == f.blksize && h.filepos == pos <= f.size && h.blkpos == pos - Times(BlockAt(f, pos), f.blksize)
    && !h.failed && h.error == Ok && (h.eof <==> pos == f.size)
    && (f.size > 0 ==> var k := SoughtBlock(f, pos); k < |f.blocks| && h.blkno == f.leaves[k] && h.buf == f.blocks[k])
  }

  /** The buffer is that of the block with number blkno, if there is one. */
  ghost predicate IsBuffered(f: FileView, h: Handle)
    requires IsFileView(f)
  {
    h.blkno != 0 ==> exists k :: 0 <= k < |f.blocks| && f.leaves[k] == h.blkno && f.blocks[k] == h.buf
  }

  /** Reading keeps the buffer that of its block. */
  lemma {:induction false} GetcManyBuffered(f: FileView, h: Handle, n: nat)
    requires IsFileView(f) && |h.buf| == f.blksize && IsBuffered(f, h)
    ensures IsBuffered(f, GetcMany(f, h, n).0)
    decreases n
  {
    if n > 0 {
      BlockAtIs'(f, h);
      if h.filepos < f.size {
        BlockAtIs(f, h.filepos);
      }
      GetcManyBuffered(f, GetcNext(f, h).0, n - 1);
    }
  }

  /** The position is the start of a block that is neither the first one nor the same as
      the block before it. */
  ghost predicate IsMisread(f: FileView, pos: nat)
    requires IsFileView(f)
  {
    && IsBlockStart(f, pos) && pos < f.size
    && var k := BlockAt(f, pos);
       0 < k < |f.blocks| && f.blocks[k - 1] != f.blocks[k]
  }

  ghost predicate IsBlockStart(f: FileView, pos: nat)
    requires f.blksize > 0
  {
    pos > 0 && pos == Times(BlockAt(f, pos), f.blksize)
  }

  /** Before the start of a block stands the block before it, and before any other
      position the block of the position. */
  lemma SoughtBlockIs(f: FileView, pos: nat)
    requires IsFileView(f) && pos < f.size
    ensures var k := BlockAt(f, pos);
            && k < |f.blocks|
            && if IsBlockStart(f, pos) then k > 0 && SoughtBlock(f, pos) == k - 1 else SoughtBlock(f, pos) == k
  {
    var k := BlockAt(f, pos);
    BlockAtIs(f, pos);
    if IsBlockStart(f, pos) {
      var before: nat := k - 1;
      NextStart(before, k, f.blksize);
      BlockAtUnique(f, pos - 1, before);
    } else if pos > 0 {
      BlockAtUnique(f, pos - 1, k);
    } else {
      BlockAtUnique(f, 0, 0);
    }
  }

  /** Positioning brings a handle in place, unless the position is the start of a block
      that is not the first one: then the buffer holds the block before it. */
  lemma SoughtIsInPlace(f: FileView, h: Handle, pos: nat)
    requires IsFileView(f) && Sought(f, h, pos)
    ensures IsInPlace(f, h) <==> !IsMisread(f, pos)
  {
    if pos < f.size {
      SoughtBlockIs(f, pos);
      BlockAtIs(f, pos);
    }
  }

  /** From the start of the file, as many bytes as it has are its contents. */
  lemma SoughtReadsAll(f: FileView, h: Handle)
    requires IsFileView(f) && Sought(f, h, 0) && f.readable
    ensures GetcMany(f, h, f.size).1 == Content(f)
  {
    if f.size > 0 {
      SoughtIsInPlace(f, h, 0);
      GetnIsSlice(f, h, f.size);
      assert Content(f)[0..f.size] == Content(f);
    }
  }

  /** What is read after positioning to a block start: the block before, once more. */
  lemma SeekReadsBefore(f: FileView, h: Handle, pos: nat, n: nat)
    requires IsFileView(f) && Sought(f, h, pos) && f.readable && IsBlockStart(f, pos)
    requires n <= f.blksize && pos + n <= f.size && pos < f.size
    ensures pos >= f.blksize && GetcMany(f, h, n).1 == Content(f)[pos - f.blksize..pos - f.blksize + n]
  {
    SoughtBlockIs(f, pos);
    var k := BlockAt(f, pos);
    var before: nat := k - 1;
    NextStart(before, k, f.blksize);
    FlatAt(f.blocks, f.blksize, before, |f.blocks|);
    SizeFits(f);
    assert h.blkpos == 0 && !h.eof;
    GetcRun(f, h, n);
    var flat, start := Flat(f.blocks, |f.blocks|), Times(before, f.blksize);
    SliceOfSlice(flat, start, f.blksize, f.size, n);
  }

  lemma SliceOfSlice(s: seq<nat>, start: nat, length: nat, size: nat, n: nat)
    requires start + length <= |s| && n <= length && start + n <= size <= |s|
    ensures s[start..start + length][..n] == s[..size][start..start + n]
  {
  }

  // ---------- writing ----------

  /** `data` has been written since the file was empty: the blocks before number k are
      on disk, the bytes of block k are in the buffer, and on disk too unless it is dirty. */
  ghost predicate IsWriting(f: FileView, h: Handle, dirty: bool, data: seq<nat>, k: nat)
    requires IsFileView(f)
  {
    && |h.buf| == f.blksize && |data| == h.filepos <= f.size
    && h.filepos == Times(k, f.blksize) + h.blkpos && h.blkpos <= f.blksize
    && (if f.blocks == [] then k == 0 && h.blkno == 0
        else k < |f.blocks| && (h.blkno == f.leaves[k] || (h.blkno == 0 && k == 0)))
    && (f.blocks != [] ==> Flat(f.blocks, k) == data[..Times(k, f.blksize)])
    && h.buf[..h.blkpos] == data[Times(k, f.blksize)..]
    && (!dirty && f.blocks != [] ==> f.blocks[k][..h.blkpos] == h.buf[..h.blkpos])
    && (dirty ==> h.blkpos > 0)
    && !h.failed
  }

  /** A new file. */
  lemma StartWriting(f: FileView, h: Handle)
    requires IsFileView(f) && f.size == 0 && |h.buf| == f.blksize && h.filepos == 0 && h.blkpos == 0 && h.blkno == 0
    requires !h.failed
    ensures IsWriting(f, h, false, [], 0)
  {
    assert |f.blocks| == 0;
  }

  lemma {:induction false} FlatPrefix(a: seq<seq<nat>>, b: seq<seq<nat>>, k: nat)
    requires k <= |a| && k <= |b| && a[..k] == b[..k]
    ensures Flat(a, k) == Flat(b, k)
  {
    if k > 0 {
      assert a[..k - 1] == a[..k][..k - 1] && b[..k - 1] == b[..k][..k - 1];
      FlatPrefix(a, b, k - 1);
      assert a[k - 1] == a[..k][k - 1] && b[k - 1] == b[..k][k - 1];
    }
  }

  /** The file grows. */
  lemma WritingGrown(f: FileView, f': FileView, h: Handle, dirty: bool, data: seq<nat>, k: nat)
    requires IsFileView(f) && IsFileView(f') && IsWriting(f, h, dirty, data, k) && f'.blksize == f.blksize
    requires f'.size >= f.size
    requires |f.blocks| <= |f'.blocks| && f'.blocks[..|f.blocks|] == f.blocks && f'.leaves[..|f.blocks|] == f.leaves
    ensures IsWriting(f', h, dirty, data, k)
  {
    if f.blocks != [] {
      assert f'.blocks[..k] == f.blocks[..k] && f'.blocks[k] == f.blocks[k] && f'.leaves[k] == f.leaves[k];
      FlatPrefix(f.blocks, f'.blocks, k);
    }
  }

  /** A buffer with bytes stored at a position. */
  function Patched(buf: seq<nat>, pos: nat, piece: seq<nat>): (s: seq<nat>)
    requires pos + |piece| <= |buf|
    ensures |s| == |buf|
  {
    buf[..pos] + piece + buf[pos + |piece|..]
  }

  /** Bytes are copied into the buffer. */
  lemma WritingCopied(f: FileView, h: Handle, h': Handle, dirty: bool, data: seq<nat>, piece: seq<nat>,
                      data': seq<nat>, k: nat)
    requires IsFileView(f) && IsWriting(f, h, dirty, data, k)
    requires piece != [] && h.blkpos + |piece| <= f.blksize && h.filepos + |piece| <= f.size
    requires h'.blkpos == h.blkpos + |piece| && h'.filepos == h.filepos + |piece|
    requires h'.blkno == h.blkno && !h'.failed
    requires h'.buf == Patched(h.buf, h.blkpos, piece) && data' == data + piece
    ensures IsWriting(f, h', true, data', k)
  {
    var start := Times(k, f.blksize);
    assert (data + piece)[..start] == data[..start];
    assert (data + piece)[start..] == data[start..] + piece;
    assert h'.buf[..h'.blkpos] == h.buf[..h.blkpos] + piece;
    if f.blocks == [] {
      SizeFits(f);
    }
  }

  /** The buffer is written to its block. */
  lemma WritingSynced(f: FileView, f': FileView, h: Handle, h': Handle, data: seq<nat>, k: nat)
    requires IsFileView(f) && IsWriting(f, h, true, data, k) && f.blocks != [] && h' == h.(blkno := f.leaves[k])
    requires f' == f.(blocks := f.blocks[k := h.buf])
    ensures IsFileView(f') && IsWriting(f', h', false, data, k)
  {
    assert f'.blocks[..k] == f.blocks[..k];
    FlatPrefix(f.blocks, f'.blocks, k);
  }

  /** The full buffer is left for the next block. */
  lemma WritingNext(f: FileView, h: Handle, data: seq<nat>, k: nat, next: nat)
    requires IsFileView(f) && IsWriting(f, h, false, data, k) && h.blkpos == f.blksize && h.filepos < f.size
    requires next == k + 1
    ensures IsWriting(f, Fetch(f, h), false, data, next) && Fetch(f, h).blkpos == 0
  {
    SizeFits(f);
    NextStart(k, next, f.blksize);
    BlockAtUnique(f, h.filepos, next);
    BlockAtIs(f, h.filepos);
    assert data == data[..Times(k, f.blksize)] + data[Times(k, f.blksize)..];
    assert f.blocks[k][..f.blksize] == f.blocks[k] && h.buf[..f.blksize] == h.buf;
    assert Flat(f.blocks, next) == data;
  }

  /** When everything is on disk, the file contains what was written. */
  lemma WritingDone(f: FileView, h: Handle, data: seq<nat>, k: nat)
    requires IsFileView(f) && IsWriting(f, h, false, data, k) && h.filepos == f.size
    ensures Content(f) == data
  {
    if f.blocks == [] {
      assert data == [];
    } else {
      var start := Times(k, f.blksize);
      SizeFits(f);
      FlatAt(f.blocks, f.blksize, k, |f.blocks|);
      var flat := Flat(f.blocks, |f.blocks|);
      FlatPrefixOf(f.blocks, k, |f.blocks|);
      FlatLength(f.blocks, f.blksize, k);
      assert data == data[..start] + data[start..];
      assert flat[..f.size] == flat[..start] + flat[start..start + f.blksize][..h.blkpos];
    }
  }

  lemma {:induction false} FlatPrefixOf(blocks: seq<seq<nat>>, j: nat, k: nat)
    requires j <= k <= |blocks|
    ensures Flat(blocks, j) <= Flat(blocks, k)
    decreases k
  {
    if j < k {
      FlatPrefixOf(blocks, j, k - 1);
    }
  }
}

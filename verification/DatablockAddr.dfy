/** From a file size to the address of its last block, in 32-bit arithmetic. */
module DatablockAddr {
  import opened Blocks
  import opened Addressing

  const TWO_TO_32: nat := 0x1_0000_0000

  function Wrap(x: int): nat
  {
    x % TWO_TO_32
  }

  const TWO_TO_31: int := 0x8000_0000

  /** The value of a 32-bit word in two's complement. */
  function Signed(x: int): int
  {
    if Wrap(x) < TWO_TO_31 then Wrap(x) else Wrap(x) - TWO_TO_32
  }

  /** The difference of a new size s and an old size t is taken correctly exactly if it is
      in range.  Out of range it has the wrong sign: growing by too much is taken for
      cutting off more bytes than the file has, and shrinking by too much for adding so
      many that the size passes 2^32, though in 32 bits both come to the new size. */
  lemma SignedExactly(s: nat, t: nat)
    requires s < TWO_TO_32 && t < TWO_TO_32
    ensures Signed(s - t) == s - t <==> -TWO_TO_31 <= s - t < TWO_TO_31
    ensures s - t >= TWO_TO_31 ==> Signed(s - t) == s - t - TWO_TO_32 < 0 && -Signed(s - t) > t
    ensures s - t < -TWO_TO_31 ==> Signed(s - t) == s - t + TWO_TO_32 > 0 && t + Signed(s - t) >= TWO_TO_32
    ensures Wrap(t + Signed(s - t)) == s
  {
  }

  /** The next multiple of `a`, a power of two or 0, as the program computes it:
      add a - 1, then clear the bits below `a`; for a == 0 that clears them all. */
  function Round(x: nat, a: nat): nat
  {
    if a == 0 then 0 else Quotient(Wrap(x + a - 1), a) * a
  }

  // ---------- the mask ----------

  /** The bitwise conjunction of two words of w bits. */
  function And(x: nat, y: nat, w: nat): nat
  {
    if w == 0 then 0 else 2 * And(x / 2, y / 2, w - 1) + if x % 2 == 1 && y % 2 == 1 then 1 else 0
  }

  /** The bitwise complement of a 32-bit word. */
  function Not(x: nat): nat
    requires x < TWO_TO_32
  {
    TWO_TO_32 - 1 - x
  }

  /** The number of words of w bits. */
  function Words(w: nat): nat
  {
    if w == 0 then 1 else 2 * Words(w - 1)
  }

  lemma {:induction false} AndOnes(x: nat, w: nat)
    requires x < Words(w)
    ensures Words(w) > 0 && And(x, Words(w) - 1, w) == x
  {
    if w > 0 {
      AndOnes(x / 2, w - 1);
    }
  }

  lemma {:induction false} AndZero(x: nat, w: nat)
    ensures And(x, 0, w) == 0
  {
    if w > 0 {
      AndZero(x / 2, w - 1);
    }
  }

  lemma {:induction false} HalfQuotient(x: nat, p: nat)
    requires p > 0
    ensures Quotient(x / 2, p) == Quotient(x, 2 * p)
    decreases x
  {
    if x >= 2 * p {
      HalfQuotient(x - 2 * p, p);
      assert (x - 2 * p) / 2 == x / 2 - p;
    }
  }

  lemma {:induction false} QuotientByOne(x: nat)
    ensures Quotient(x, 1) == x
  {
    if x > 0 {
      QuotientByOne(x - 1);
    }
  }

  /** A mask whose lowest set bit is `a` rounds down to a multiple of `a`. */
  lemma {:induction false} MaskRoundsDown(x: nat, a: nat, w: nat)
    requires IsPowerOfTwo(a) && a <= Words(w) && x < Words(w)
    ensures And(x, Words(w) - a, w) == Quotient(x, a) * a
    decreases a
  {
    if a == 1 {
      AndOnes(x, w);
      QuotientByOne(x);
    } else {
      var p := a / 2;
      MaskRoundsDown(x / 2, p, w - 1);
      HalfQuotient(x, p);
      AndEven(x, Words(w) - a, Words(w - 1) - p, w);
      DoubleProduct(Quotient(x, a), p, a);
    }
  }

  lemma AndEven(x: nat, y: nat, half: nat, w: nat)
    requires w > 0 && y == 2 * half
    ensures And(x, y, w) == 2 * And(x / 2, half, w - 1)
  {
  }

  lemma DoubleProduct(q: nat, p: nat, a: nat)
    requires a == 2 * p
    ensures q * a == 2 * (q * p)
  {
  }

  /** Rounding is what the masks of the program compute, for every block size and for 0. */
  lemma RoundIsMask(x: nat, a: nat)
    requires a == 0 || (IsPowerOfTwo(a) && a < TWO_TO_32)
    ensures Round(x, a) == And(Wrap(x + Wrap(a - 1)), Not(Wrap(a - 1)), 32)
  {
    ThirtyTwo();
    if a == 0 {
      MaskOfZero();
      AndZero(Wrap(x + Wrap(a - 1)), 32);
    } else {
      WrapInside(x, a);
      MaskRoundsDown(Wrap(x + a - 1), a, 32);
    }
  }

  lemma MaskOfZero()
    ensures Not(Wrap(-1)) == 0
  {
  }

  lemma WrapInside(x: nat, a: nat)
    requires 0 < a < TWO_TO_32
    ensures Wrap(a - 1) == a - 1 && Not(Wrap(a - 1)) == TWO_TO_32 - a && Wrap(x + Wrap(a - 1)) == Wrap(x + a - 1)
  {
    assert x + (a - 1) == x + a - 1;
  }

  lemma ThirtyTwo()
    ensures Words(32) == TWO_TO_32
  {
    assert Words(8) == 0x100;
    assert Words(16) == 0x1_0000;
    assert Words(24) == 0x100_0000;
  }

  predicate IsPowerOfTwo(b: nat)
  {
    b == 1 || (b > 1 && b % 2 == 0 && IsPowerOfTwo(b / 2))
  }

  /** A block size the disk can be opened with: a power of two, a multiple of 512,
      and small enough for a 16-bit field. */
  predicate IsBlksize(b: nat)
  {
    512 <= b <= 32768 && IsPowerOfTwo(b)
  }

  lemma {:induction false} PowersApart(b: nat, c: nat)
    requires IsPowerOfTwo(b) && IsPowerOfTwo(c) && c <= b < 2 * c
    ensures b == c
  {
    if c > 1 {
      PowersApart(b / 2, c / 2);
    }
  }

  predicate IsOneOfSeven(b: nat)
  {
    b == 512 || b == 1024 || b == 2048 || b == 4096 || b == 8192 || b == 16384 || b == 32768
  }

  lemma BlksizeCases(b: nat)
    requires IsBlksize(b)
    ensures IsOneOfSeven(b)
  {
    assert IsPowerOfTwo(512) && IsPowerOfTwo(1024) && IsPowerOfTwo(2048) && IsPowerOfTwo(4096);
    assert IsPowerOfTwo(8192) && IsPowerOfTwo(16384) && IsPowerOfTwo(32768);
    PowersApart(b, if b < 1024 then 512 else if b < 2048 then 1024 else if b < 4096 then 2048 else if b < 8192 then 4096
                   else if b < 16384 then 8192 else if b < 32768 then 16384 else 32768);
  }

  function BlockCount(blksize: nat, size: nat): nat
    requires blksize > 0
  {
    CeilDiv(size, blksize)
  }

  /** The block counts whose last block the computation finds. */
  predicate Addressable(blksize: nat, count: nat)
  {
    var n := blksize / 4;
    InReach(n, count) && (count <= DIRECT + n || blksize <= 2048)
  }

  lemma SevenTreeSizes(blksize: nat)
    requires IsOneOfSeven(blksize)
    ensures var n := blksize / 4;
            && n > 1 && blksize == 4 * n
            && Wrap(DIRECT * blksize) == DIRECT * blksize
            && Wrap(n * blksize) == n * blksize
            && Wrap(n * n * blksize) == if blksize <= 2048 then n * n * blksize else 0
  {
    if blksize == 512 || blksize == 1024 || blksize == 2048 {
    } else if blksize == 4096 || blksize == 8192 {
    } else {
    }
  }

  /** The sizes of the trees; that of a double-indirect one wraps to 0 for large blocks. */
  lemma TreeSizes(blksize: nat)
    requires IsBlksize(blksize)
    ensures var n := blksize / 4;
            && n > 1 && blksize == 4 * n
            && Wrap(DIRECT * blksize) == DIRECT * blksize
            && Wrap(n * blksize) == n * blksize
            && Wrap(n * n * blksize) == if blksize <= 2048 then n * n * blksize else 0
  {
    BlksizeCases(blksize);
    SevenTreeSizes(blksize);
  }

  lemma MulOrder(a: nat, c: nat, b: nat)
    requires b > 0
    ensures a * b <= c * b <==> a <= c
  {
    if a <= c {
      MulMonotone(a, c, b);
    } else {
      MulMonotone(c + 1, a, b);
    }
  }

  /** Away from the end of the 32-bit range, Round is rounding up. */
  lemma RoundIsCeil(x: nat, d: nat)
    requires d > 0 && x + d <= TWO_TO_32
    ensures Round(x, d) == CeilDiv(x, d) * d
    ensures Quotient(Round(x, d), d) == CeilDiv(x, d)
  {
    assert Wrap(x + d - 1) == x + d - 1;
    QuotientUnique(CeilDiv(x, d) * d, d, CeilDiv(x, d), 0);
  }

  /** A size rounded up to whole blocks, and compared with the direct blocks. */
  lemma SizeInBlocks(blksize: nat, sz: nat)
    requires blksize > 0 && 0 < sz && sz + blksize <= TWO_TO_32
    ensures var count := BlockCount(blksize, sz);
            && 0 < count
            && Round(sz, blksize) == count * blksize <= sz + blksize - 1
            && Quotient(Round(sz, blksize), blksize) == count
            && sz <= count * blksize
            && (count * blksize <= DIRECT * blksize <==> count <= DIRECT)
  {
    RoundIsCeil(sz, blksize);
    QuotientBounds(sz + blksize - 1, blksize);
    var count := BlockCount(blksize, sz);
    MulOrder(count, DIRECT, blksize);
  }

  lemma WrappedSize(blksize: nat, sz: nat)
    requires 0 < blksize < TWO_TO_32 && TWO_TO_32 - blksize < sz < TWO_TO_32
    ensures Round(sz, blksize) == 0
  {
    var y := sz + blksize - 1 - TWO_TO_32;
    assert Wrap(sz + blksize - 1) == y < blksize;
  }

  lemma QuotientExact(m: nat, b: nat)
    requires b > 0
    ensures Quotient(m * b, b) == m
  {
    QuotientUnique(m * b, b, m, 0);
  }

  /** The number of the child of size d = n blocks that holds the last of m blocks. */
  lemma ChildIndex(m: nat, n: nat, blksize: nat, d: nat) returns (q: nat)
    requires m > 0 && n > 0 && blksize > 0 && d == n * blksize && d > 0
    requires m * blksize + d <= TWO_TO_32
    ensures Quotient(Round(m * blksize, d), d) == q + 1
    ensures q * n < m <= q * n + n && q <= m
    ensures m * blksize - q * d == (m - q * n) * blksize
  {
    q := Quotient(m - 1, n);
    QuotientBounds(m - 1, n);
    var r := m - 1 - q * n;
    assert q * d == (q * n) * blksize;
    assert m * blksize == q * d + (r + 1) * blksize;
    MulMonotone(1, r + 1, blksize);
    MulMonotone(r + 1, n, blksize);
    CeilDivUnique(m * blksize, d, q, (r + 1) * blksize);
    RoundIsCeil(m * blksize, d);
    MulMonotone(1, n, q);
  }

  /** The two steps of the computation for one index: which child holds the last
      block, and what is left of the size `sz` of m blocks. */
  lemma ChildOfLast(sz: nat, m: nat, n: nat, blksize: nat, d: nat) returns (q: nat, l: nat)
    requires m > 0 && n > 0 && blksize > 0 && d == n * blksize && d > 0
    requires sz == m * blksize && sz + d <= TWO_TO_32
    ensures Wrap(Quotient(Round(sz, d), d) - 1) == q
    ensures m == q * n + l && 0 < l <= n
    ensures Wrap(sz - q * d) == l * blksize <= sz
    ensures Wrap(Quotient(l * blksize, blksize) - 1) == l - 1
  {
    q := ChildIndex(m, n, blksize, d);
    l := m - q * n;
    MulMonotone(1, blksize, m);
    MulMonotone(0, q, n);
    MulMonotone(l, m, blksize);
    MulMonotone(0, l, blksize);
    MulMonotone(1, blksize, l);
    QuotientExact(l, blksize);
  }

  /** `count` blocks, less c of them, in bytes. */
  lemma LessBlocks(count: nat, c: nat, blksize: nat, sz: nat, csz: nat)
    requires blksize > 0 && sz == count * blksize && csz == c * blksize
    ensures sz <= csz <==> count <= c
    ensures count > c ==> sz - csz == (count - c) * blksize >= blksize
    ensures Quotient(sz, blksize) == count && count <= sz
  {
    MulOrder(count, c, blksize);
    QuotientExact(count, blksize);
    MulMonotone(1, blksize, count);
    if count > c {
      MulMonotone(1, count - c, blksize);
    }
  }

  lemma LastDirect(n: nat, count: nat)
    requires n > 0 && 0 < count <= DIRECT + n
    ensures AddrOf(n, count - 1)
            == if count <= DIRECT then Addr(0, count - 1, 0, 0) else Addr(1, count - DIRECT - 1, 0, 0)
  {
    AddrOfNumber(n, if count <= DIRECT then Addr(0, count - 1, 0, 0) else Addr(1, count - DIRECT - 1, 0, 0));
  }

  lemma LastLevel2(n: nat, m: nat, q: nat, l: nat)
    requires n > 0 && m == q * n + l && 0 < l <= n && m <= n * n
    ensures AddrOf(n, DIRECT + n + m - 1) == Addr(2, q, l - 1, 0)
  {
    if q >= n {
      MulMonotone(n, q, n);
    }
    AddrOfNumber(n, Addr(2, q, l - 1, 0));
  }

  lemma LastLevel3(n: nat, m: nat, q0: nat, l0: nat, q1: nat, l1: nat)
    requires n > 0 && m == q0 * (n * n) + l0 && 0 < l0 <= n * n
    requires l0 == q1 * n + l1 && 0 < l1 <= n
    ensures AddrOf(n, DIRECT + n + n * n + m - 1) == Addr(3, q0, q1, l1 - 1)
  {
    if q1 >= n {
      MulMonotone(n, q1, n);
    }
    assert q0 * (n * n) == q0 * n * n;
    AddrOfNumber(n, Addr(3, q0, q1, l1 - 1));
  }

  /** The sizes of the trees below the inode, in 32-bit arithmetic. */
  method TreeSizesOf(blksize: nat) returns (nidx: nat, directSz: nat, idx1Sz: nat, idx2Sz: nat, ghost square: nat)
    requires IsBlksize(blksize)
    ensures nidx == blksize / 4 > 0 && square == nidx * nidx
    ensures directSz == DIRECT * blksize && idx1Sz == nidx * blksize > 0
    ensures idx2Sz == if blksize <= 2048 then square * blksize else 0
    ensures idx2Sz == 0 <==> blksize > 2048
  {
    TreeSizes(blksize);
    nidx := blksize / 4;
    square := nidx * nidx;
    directSz := Wrap(DIRECT * blksize);
    idx1Sz := Wrap(nidx * blksize);
    idx2Sz := Wrap(nidx * nidx * blksize);
    MulMonotone(1, nidx, blksize);
    MulMonotone(1, nidx, nidx);
    MulMonotone(1, square, blksize);
  }

  /** The address of the last block of a file of `sz0` bytes; None is the division
      by zero that happens when the size of a double-indirect tree wraps to 0. */
  method LastAddr(blksize: nat, sz0: nat) returns (addr: Option<Addr>)
    requires IsBlksize(blksize) && sz0 < TWO_TO_32
    ensures sz0 == 0 ==> addr == Some(Addr(0, 0, 0, 0))
    ensures sz0 > TWO_TO_32 - blksize ==> addr == Some(Addr(0, TWO_TO_32 - 1, 0, 0))
    ensures 0 < sz0 <= TWO_TO_32 - blksize ==>
              var n, count := blksize / 4, BlockCount(blksize, sz0);
              && count > 0
              && addr == if count <= DIRECT + n || blksize <= 2048 then Some(AddrOf(n, count - 1)) else None
  {
    var nidx, directSz, idx1Sz, idx2Sz;
    ghost var square, count;
    nidx, directSz, idx1Sz, idx2Sz, square := TreeSizesOf(blksize);
    if sz0 == 0 {
      return Some(Addr(0, 0, 0, 0));
    }
    if sz0 > TWO_TO_32 - blksize {
      WrappedSize(blksize, sz0);
      count := 0;
    } else {
      SizeInBlocks(blksize, sz0);
      count := BlockCount(blksize, sz0);
    }
    addr := RoundedAddr(blksize, nidx, directSz, idx1Sz, idx2Sz, Round(sz0, blksize), count, square);
  }

  /** The computation for a size of `count` whole blocks. */
  method RoundedAddr(blksize: nat, nidx: nat, directSz: nat, idx1Sz: nat, idx2Sz: nat, sz0: nat, ghost count: nat,
                     ghost square: nat)
    returns (addr: Option<Addr>)
    requires 0 < blksize && nidx > 0 && square == nidx * nidx
    requires directSz == DIRECT * blksize && idx1Sz == nidx * blksize > 0 && (idx2Sz == 0 || idx2Sz == square * blksize)
    requires sz0 == count * blksize && sz0 < TWO_TO_32
    ensures count == 0 ==> addr == Some(Addr(0, TWO_TO_32 - 1, 0, 0))
    ensures count > 0 ==> addr == if count <= DIRECT + nidx || idx2Sz != 0 then Some(AddrOf(nidx, count - 1)) else None
  {
    LessBlocks(count, DIRECT, blksize, sz0, directSz);
    if 0 < count <= DIRECT + nidx {
      LastDirect(nidx, count);
    }
    var sz := sz0;
    if sz <= directSz {
      return Some(Addr(0, Wrap(Quotient(sz, blksize) - 1), 0, 0));
    }
    addr := IndirectAddr(blksize, nidx, idx1Sz, idx2Sz, sz - directSz, count - DIRECT, square);
  }

  /** The rest of the computation, for c blocks beyond the direct ones. */
  method IndirectAddr(blksize: nat, nidx: nat, idx1Sz: nat, idx2Sz: nat, sz0: nat, ghost c: nat, ghost square: nat)
    returns (addr: Option<Addr>)
    requires 0 < blksize && nidx > 0 && square == nidx * nidx
    requires idx1Sz == nidx * blksize > 0 && (idx2Sz == 0 || idx2Sz == square * blksize)
    requires sz0 == c * blksize && sz0 < TWO_TO_32 && c > 0
    ensures addr == if c <= nidx || idx2Sz != 0 then Some(AddrOf(nidx, DIRECT + c - 1)) else None
  {
    var sz := sz0;
    LessBlocks(c, nidx, blksize, sz, idx1Sz);
    if sz <= idx1Sz {
      LastDirect(nidx, DIRECT + c);
      return Some(Addr(1, Wrap(Quotient(sz, blksize) - 1), 0, 0));
    }
    addr := DoubleAddr(blksize, nidx, idx1Sz, idx2Sz, sz - idx1Sz, c - nidx, square);
  }

  /** The rest of the computation, for m blocks beyond the single-indirect tree. */
  method DoubleAddr(blksize: nat, nidx: nat, idx1Sz: nat, idx2Sz: nat, sz0: nat, ghost m: nat, ghost square: nat)
    returns (addr: Option<Addr>)
    requires m > 0 && nidx > 0 && blksize > 0 && square == nidx * nidx
    requires idx1Sz == nidx * blksize > 0 && (idx2Sz == 0 || idx2Sz == square * blksize)
    requires sz0 == m * blksize > 0 && sz0 + idx1Sz <= TWO_TO_32
    ensures addr == if idx2Sz != 0 then Some(AddrOf(nidx, DIRECT + nidx + m - 1)) else None
  {
    var sz := sz0;
    if sz <= idx2Sz {
      MulOrder(m, square, blksize);
      ghost var q, l := ChildOfLast(sz0, m, nidx, blksize, idx1Sz);
      LastLevel2(nidx, m, q, l);
      var i0 := Wrap(Quotient(Round(sz, idx1Sz), idx1Sz) - 1);
      sz := Wrap(sz - i0 * idx1Sz);
      return Some(Addr(2, i0, Wrap(Quotient(sz, blksize) - 1), 0));
    }
    if idx2Sz == 0 {
      return None;
    }
    MulOrder(m, square, blksize);
    MulMonotone(1, nidx, idx1Sz);
    addr := TripleAddr(blksize, nidx, idx1Sz, idx2Sz, sz - idx2Sz, m - square, square);
  }

  /** The same for m blocks beyond the double-indirect tree. */
  method TripleAddr(blksize: nat, nidx: nat, idx1Sz: nat, idx2Sz: nat, sz0: nat, ghost m: nat, ghost square: nat)
    returns (addr: Option<Addr>)
    requires m > 0 && nidx > 0 && blksize > 0 && square == nidx * nidx
    requires 0 < idx1Sz == nidx * blksize <= idx2Sz == square * blksize
    requires sz0 == m * blksize && sz0 + idx2Sz <= TWO_TO_32
    ensures addr == Some(AddrOf(nidx, DIRECT + nidx + square + m - 1))
  {
    ghost var q0, l0 := ChildOfLast(sz0, m, square, blksize, idx2Sz);
    ghost var q1, l1 := ChildOfLast(l0 * blksize, l0, nidx, blksize, idx1Sz);
    LastLevel3(nidx, m, q0, l0, q1, l1);
    var sz := sz0;
    var i0 := Wrap(Quotient(Round(sz, idx2Sz), idx2Sz) - 1);
    sz := Wrap(sz - i0 * idx2Sz);
    var i1 := Wrap(Quotient(Round(sz, idx1Sz), idx1Sz) - 1);
    sz := Wrap(sz - i1 * idx1Sz);
    addr := Some(Addr(3, i0, i1, Wrap(Quotient(sz, blksize) - 1)));
  }
}

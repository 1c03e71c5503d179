/** Where the k-th block of a file is reached from its inode. */
module Addressing {

  const DIRECT: nat := 16

  /** A level (0 direct, 1 to 3 indirect) and one index per level; unused
      indices are 0.  `n` below is the number of pointers in a block. */
  datatype Addr = Addr(level: nat, i0: nat, i1: nat, i2: nat)

  predicate IsAddr(n: nat, a: Addr)
  {
    match a.level
    case 0 => a.i0 < DIRECT && a.i1 == 0 && a.i2 == 0
    case 1 => a.i0 < n && a.i1 == 0 && a.i2 == 0
    case 2 => a.i0 < n && a.i1 < n && a.i2 == 0
    case 3 => a.i0 < n && a.i1 < n && a.i2 < n
    case _ => false
  }

  /** The order in which a file uses its addresses. */
  predicate Le(a: Addr, b: Addr)
  {
    || a.level < b.level
    || (a.level == b.level &&
        (|| a.i0 < b.i0
         || (a.i0 == b.i0 && (a.i1 < b.i1 || (a.i1 == b.i1 && a.i2 <= b.i2)))))
  }

  function Succ(n: nat, a: Addr): Addr
  {
    match a.level
    case 0 => if a.i0 + 1 < DIRECT then Addr(0, a.i0 + 1, 0, 0) else Addr(1, 0, 0, 0)
    case 1 => if a.i0 + 1 < n then Addr(1, a.i0 + 1, 0, 0) else Addr(2, 0, 0, 0)
    case 2 =>
      if a.i1 + 1 < n then Addr(2, a.i0, a.i1 + 1, 0)
      else if a.i0 + 1 < n then Addr(2, a.i0 + 1, 0, 0)
      else Addr(3, 0, 0, 0)
    case _ =>
      if a.i2 + 1 < n then Addr(3, a.i0, a.i1, a.i2 + 1)
      else if a.i1 + 1 < n then Addr(3, a.i0, a.i1 + 1, 0)
      else Addr(3, a.i0 + 1, 0, 0)
  }

  /** How many index blocks are first needed by the leaf at `a`: those all of
      whose later indices are 0. */
  function NewIndexBlocks(a: Addr): nat
  {
    match a.level
    case 0 => 0
    case 1 => if a.i0 == 0 then 1 else 0
    case 2 => if a.i1 != 0 then 0 else if a.i0 != 0 then 1 else 2
    case _ => if a.i2 != 0 then 0 else if a.i1 != 0 then 1 else if a.i0 != 0 then 2 else 3
  }

  /** The address of block number k of a file. */
  function AddrOf(n: nat, k: nat): Addr
  {
    if k == 0 then Addr(0, 0, 0, 0) else Succ(n, AddrOf(n, k - 1))
  }

  /** The block number an address stands for: its indices are the digits. */
  function Number(n: nat, a: Addr): nat
  {
    match a.level
    case 0 => a.i0
    case 1 => DIRECT + a.i0
    case 2 => DIRECT + n + a.i0 * n + a.i1
    case _ => DIRECT + n + n * n + a.i0 * n * n + a.i1 * n + a.i2
  }

  /** The most blocks an inode can address. */
  function Capacity(n: nat): nat
  {
    DIRECT + n + n * n + n * n * n
  }

  /** An address whose first triple-indirect index may be too large. */
  predicate IsDigits(n: nat, a: Addr)
  {
    if a.level == 3 then a.i1 < n && a.i2 < n else IsAddr(n, a)
  }

  lemma MulMonotone(a: int, b: int, c: nat)
    requires a <= b
    ensures a * c <= b * c
  {
  }

  lemma MulNext(i: int, n: int)
    ensures (i + 1) * n == i * n + n
  {
  }

  lemma MulLast(i: int, n: int)
    requires i + 1 == n
    ensures i * n + n == n * n
    ensures i * n * n + n * n == n * n * n
  {
  }

  lemma CarryToLevel3(n: nat)
    requires n > 0
    ensures Number(n, Addr(3, 0, 0, 0)) == Number(n, Addr(2, n - 1, n - 1, 0)) + 1
  {
    MulLast(n - 1, n);
  }

  lemma CarryTriple(n: nat, i: nat)
    requires n > 0
    ensures Number(n, Addr(3, i + 1, 0, 0)) == Number(n, Addr(3, i, n - 1, n - 1)) + 1
  {
    MulLast(n - 1, n);
    assert (i + 1) * n * n == i * n * n + n * n;
  }

  lemma SuccNumber(n: nat, a: Addr)
    requires n > 0 && IsDigits(n, a)
    ensures Number(n, Succ(n, a)) == Number(n, a) + 1
  {
    if a.level == 2 && a.i1 + 1 == n {
      if a.i0 + 1 == n {
        CarryToLevel3(n);
      } else {
        MulNext(a.i0, n);
      }
    } else if a.level == 3 && a.i2 + 1 == n {
      if a.i1 + 1 == n {
        CarryTriple(n, a.i0);
      } else {
        MulNext(a.i1, n);
      }
    }
  }

  lemma SuccIsNext(n: nat, a: Addr)
    requires n > 0 && IsDigits(n, a)
    ensures IsDigits(n, Succ(n, a)) && Le(a, Succ(n, a)) && !Le(Succ(n, a), a)
    ensures Number(n, Succ(n, a)) == Number(n, a) + 1
  {
    SuccNumber(n, a);
  }

  /** The address of block k has the digits of k. */
  lemma {:induction false} NumberOfAddr(n: nat, k: nat)
    requires n > 0
    ensures IsDigits(n, AddrOf(n, k)) && Number(n, AddrOf(n, k)) == k
  {
    if k > 0 {
      NumberOfAddr(n, k - 1);
      SuccIsNext(n, AddrOf(n, k - 1));
    }
  }

  lemma AddrInRange(n: nat, k: nat)
    requires n > 0 && k < Capacity(n)
    ensures IsAddr(n, AddrOf(n, k))
  {
    NumberOfAddr(n, k);
    var a := AddrOf(n, k);
    if a.level == 3 && a.i0 >= n {
      MulMonotone(n, a.i0, n);
      MulMonotone(n * n, a.i0 * n, n);
    }
  }

  lemma PairBound(n: nat, i: nat, j: nat, k: nat)
    requires i < k && j < n
    ensures i * n + j < k * n
  {
    MulMonotone(i + 1, k, n);
    MulNext(i, n);
  }

  lemma TripleBound(n: nat, i: nat, j: nat, k: nat, m: nat)
    requires i < m && j < n && k < n
    ensures i * n * n + j * n + k < m * n * n
  {
    PairBound(n, j, k, n);
    MulMonotone(i + 1, m, n);
    MulMonotone((i + 1) * n, m * n, n);
    assert (i + 1) * n * n == i * n * n + n * n;
  }

  lemma MulNat(i: nat, n: nat)
    ensures 0 <= i * n && 0 <= i * n * n
  {
  }

  /** Earlier addresses have smaller numbers. */
  lemma NumberOrder(n: nat, a: Addr, b: Addr)
    requires n > 0 && IsDigits(n, a) && IsDigits(n, b)
    requires Le(a, b) && a != b
    ensures Number(n, a) < Number(n, b)
  {
    MulNat(b.i0, n);
    MulNat(b.i1, n);
    if a.level == 2 {
      PairBound(n, a.i0, a.i1, if b.level == 3 then n else if a.i0 < b.i0 then b.i0 else a.i0 + 1);
    } else if a.level == 3 && a.i0 < b.i0 {
      TripleBound(n, a.i0, a.i1, a.i2, b.i0);
    } else if a.level == 3 && a.i1 < b.i1 {
      PairBound(n, a.i1, a.i2, b.i1);
    }
  }

  /** Every address in range is that of exactly one block. */
  lemma AddrOfNumber(n: nat, a: Addr)
    requires n > 0 && IsDigits(n, a)
    ensures AddrOf(n, Number(n, a)) == a
  {
    var b := AddrOf(n, Number(n, a));
    NumberOfAddr(n, Number(n, a));
    if a != b {
      if Le(a, b) {
        NumberOrder(n, a, b);
      } else {
        NumberOrder(n, b, a);
      }
    }
  }

  lemma NumberBound(n: nat, a: Addr)
    requires n > 0 && IsAddr(n, a)
    ensures Number(n, a) < Capacity(n)
  {
    NumberOrder(n, a, Addr(3, n, 0, 0));
  }

  /** Addresses come in the order of the blocks. */
  lemma AddrOrder(n: nat, j: nat, k: nat)
    requires n > 0
    ensures Le(AddrOf(n, j), AddrOf(n, k)) <==> j <= k
  {
    NumberOfAddr(n, j);
    NumberOfAddr(n, k);
    if j != k {
      if Le(AddrOf(n, j), AddrOf(n, k)) {
        NumberOrder(n, AddrOf(n, j), AddrOf(n, k));
      } else {
        NumberOrder(n, AddrOf(n, k), AddrOf(n, j));
      }
    }
  }

  /** The size of k blocks: multiplication by repeated addition. */
  function Times(k: nat, b: nat): nat
  {
    if k == 0 then 0 else Times(k - 1, b) + b
  }

  lemma {:induction false} TimesIsProduct(k: nat, b: nat)
    ensures Times(k, b) == k * b
  {
    if k > 0 {
      TimesIsProduct(k - 1, b);
      MulNext(k - 1, b);
    }
  }

  /** Integer division, by repeated subtraction: how often d fits in x. */
  function Quotient(x: nat, d: nat): nat
    requires d > 0
  {
    if x < d then 0 else 1 + Quotient(x - d, d)
  }

  lemma {:induction false} QuotientUnique(x: nat, d: nat, q: nat, r: nat)
    requires r < d && x == q * d + r
    ensures Quotient(x, d) == q
    decreases q
  {
    if q > 0 {
      MulNext(q - 1, d);
      MulMonotone(1, q, d);
      QuotientUnique(x - d, d, q - 1, r);
    }
  }

  lemma QuotientIsDivision(x: nat, d: nat)
    requires d > 0
    ensures Quotient(x, d) == x / d
  {
    assert x == (x / d) * d + x % d;
    QuotientUnique(x, d, x / d, x % d);
  }

  lemma {:induction false} QuotientBounds(x: nat, d: nat)
    requires d > 0
    ensures Quotient(x, d) * d <= x < Quotient(x, d) * d + d
  {
    if x >= d {
      QuotientBounds(x - d, d);
      MulNext(Quotient(x - d, d), d);
    }
  }

  function CeilDiv(a: nat, b: nat): nat
    requires b > 0
  {
    Quotient(a + b - 1, b)
  }

  /** The index blocks of a file of `count` blocks: one single-indirect block, one
      double-indirect root and a block for each n leaves below it, and so on. */
  function IndexBlocks(n: nat, count: nat): nat
    requires n > 0
  {
    if count <= DIRECT then 0
    else if count - DIRECT <= n then 1
    else
      var m := count - DIRECT - n;
      if m <= n * n then 2 + CeilDiv(m, n)
      else
        var l := m - n * n;
        3 + n + CeilDiv(l, n) + CeilDiv(l, n * n)
  }

  lemma CeilDivUnique(x: nat, n: nat, q: nat, r: nat)
    requires 0 < r <= n && x == q * n + r
    ensures CeilDiv(x, n) == q + 1
  {
    MulNext(q, n);
    QuotientUnique(x + n - 1, n, q + 1, r - 1);
  }

  /** The index blocks of a file whose last leaf is at address a. */
  function IndexUpTo(n: nat, a: Addr): nat
  {
    match a.level
    case 0 => 0
    case 1 => 1
    case 2 => 3 + a.i0
    case _ => 5 + n + a.i0 + a.i0 * n + a.i1
  }

  lemma IndexLevel2(n: nat, i: nat, j: nat)
    requires i < n && j < n
    ensures IndexBlocks(n, Number(n, Addr(2, i, j, 0)) + 1) == 3 + i
  {
    PairBound(n, i, j, n);
    MulNat(i, n);
    CeilDivUnique(i * n + j + 1, n, i, j + 1);
  }

  lemma IndexLevel3(n: nat, i: nat, j: nat, k: nat)
    requires j < n && k < n
    ensures IndexBlocks(n, Number(n, Addr(3, i, j, k)) + 1) == 5 + n + i + i * n + j
  {
    MulNat(i, n);
    MulNat(j, n);
    var l: nat := i * n * n + j * n + k + 1;
    assert (i * n + j) * n == i * n * n + j * n;
    CeilDivUnique(l, n, i * n + j, k + 1);
    PairBound(n, j, k, n);
    assert i * (n * n) == i * n * n;
    CeilDivUnique(l, n * n, i, j * n + k + 1);
  }

  lemma IndexBlocksLast(n: nat, a: Addr)
    requires n > 0 && IsDigits(n, a)
    ensures IndexBlocks(n, Number(n, a) + 1) == IndexUpTo(n, a)
  {
    if a.level == 2 {
      IndexLevel2(n, a.i0, a.i1);
    } else if a.level == 3 {
      IndexLevel3(n, a.i0, a.i1, a.i2);
    }
  }

  lemma IndexUpToNext(n: nat, a: Addr)
    requires n > 0 && IsDigits(n, a)
    ensures IndexUpTo(n, Succ(n, a)) == IndexUpTo(n, a) + NewIndexBlocks(Succ(n, a))
  {
    if a.level == 3 && a.i1 + 1 == n {
      MulNext(a.i0, n);
    }
  }

  lemma IndexBlocksNext(n: nat, k: nat)
    requires n > 0
    ensures IndexBlocks(n, k + 1) == IndexBlocks(n, k) + NewIndexBlocks(AddrOf(n, k))
  {
    if k > 0 {
      NumberOfAddr(n, k - 1);
      IndexBlocksLast(n, AddrOf(n, k - 1));
      NumberOfAddr(n, k);
      IndexBlocksLast(n, AddrOf(n, k));
      IndexUpToNext(n, AddrOf(n, k - 1));
    }
  }

  /** All blocks of a file of `count` blocks: each leaf, and the index blocks it is
      the first to need. */
  function TotalBlocks(n: nat, count: nat): nat
  {
    if count == 0 then 0 else TotalBlocks(n, count - 1) + 1 + NewIndexBlocks(AddrOf(n, count - 1))
  }

  /** In closed form. */
  lemma {:induction false} TotalBlocksClosed(n: nat, count: nat)
    requires n > 0
    ensures TotalBlocks(n, count) == count + IndexBlocks(n, count)
  {
    if count > 0 {
      TotalBlocksClosed(n, count - 1);
      IndexBlocksNext(n, count - 1);
    }
  }

  /** Blocks 0 to count - 1 all have addresses. */
  predicate InReach(n: nat, count: nat)
  {
    count == 0 || IsAddr(n, AddrOf(n, count - 1))
  }

  lemma InReachIsCapacity(n: nat, count: nat)
    requires n > 0
    ensures InReach(n, count) <==> count <= Capacity(n)
  {
    if count > 0 {
      NumberOfAddr(n, count - 1);
      if count <= Capacity(n) {
        AddrInRange(n, count - 1);
      } else if InReach(n, count) {
        NumberBound(n, AddrOf(n, count - 1));
      }
    }
  }

  lemma InReachSmaller(n: nat, j: nat, k: nat)
    requires n > 0 && j <= k && InReach(n, k)
    ensures InReach(n, j)
  {
    InReachIsCapacity(n, j);
    InReachIsCapacity(n, k);
  }
}

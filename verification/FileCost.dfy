/** What writing bytes to a file takes of the room that its transaction has. */
module FileCost {
  import opened Flash
  import opened FsIndex
  import opened Transactions

  /** The ranges of a file that one active block covers: the inode's, and one for each block of
      addresses. */
  function RangeNo(off: nat): nat {
    if off < INDIRECT_OFFSET then 0 else 1 + InIndirects(off - INDIRECT_OFFSET)
  }

  function RangeStart(k: nat): nat { if k == 0 then 0 else INDIRECT_OFFSET + 65536 * (k - 1) }

  /** The part of the file in the inode, and then one for each block. */
  function BlockNo(off: nat): nat {
    if off < INODE_DATA_SIZE then 0 else 1 + InBlocks(off - INODE_DATA_SIZE)
  }

  /** Committing the paths of the ranges from i up to j. */
  function Leaving(i: nat, j: nat): nat {
    if j <= i then 0 else Leaving(i, j - 1) + Transaction.PathCost(RangeStart(j - 1))
  }

  /** n bytes from o: the active block is committed if they lie elsewhere, each range is when the next
      one is come to, and each block outside the inode is a page and a vote for the old one. */
  function WriteCost(fileOffset: int, o: nat, n: nat): nat {
    if n == 0 then 0
    else
      Transaction.ActivateCost(fileOffset, o) + Leaving(RangeNo(o), RangeNo(o + n - 1))
      + (REFS_PER_BLOCK + 1) * Blocks(o, n)
  }

  /** The blocks outside the inode that n bytes from o lie in. */
  function Blocks(o: nat, n: nat): (r: nat)
    requires n > 0
  {
    BlockOrder(o, o + n - 1);
    BlockNo(o + n - 1) - BlockNo(o) + if o < INODE_DATA_SIZE then 0 else 1
  }

  lemma BlockOrder(a: nat, b: nat)
    requires a <= b
    ensures BlockNo(a) <= BlockNo(b) && RangeNo(a) <= RangeNo(b)
  {
  }

  /** Bytes within one block. */
  function PieceCost(fileOffset: int, o: nat): nat {
    Transaction.ActivateCost(fileOffset, o) + if o < INODE_DATA_SIZE then 0 else REFS_PER_BLOCK + 1
  }

  /** Where an active block may start. */
  predicate IsStart(fileOffset: int) {
    fileOffset < 0 || fileOffset == 0 || (fileOffset >= INDIRECT_OFFSET && IndirectStart(fileOffset) == fileOffset)
  }

  lemma ActiveIsRange(off: nat, fileOffset: int)
    requires IsStart(fileOffset)
    ensures InActive(off, fileOffset) <==> fileOffset >= 0 && RangeNo(off) == RangeNo(fileOffset)
  {
  }

  lemma RangeIsPath(off: nat)
    ensures Transaction.PathCost(off) == Transaction.PathCost(RangeStart(RangeNo(off)))
  {
  }

  lemma SameRangeCost(fileOffset: int, a: nat, b: nat)
    requires IsStart(fileOffset) && RangeNo(a) == RangeNo(b)
    ensures InActive(a, fileOffset) <==> InActive(b, fileOffset)
    ensures Transaction.ActivateCost(fileOffset, a) == Transaction.ActivateCost(fileOffset, b)
  {
    hide RangeNo;
    ActiveIsRange(a, fileOffset);
    ActiveIsRange(b, fileOffset);
  }

  /** A block lies in one range. */
  lemma BlockInRange(a: nat, b: nat)
    requires BlockNo(a) == BlockNo(b)
    ensures RangeNo(a) == RangeNo(b)
  {
    hide BlockNo, RangeNo;
    RangeOfBlock(a);
    RangeOfBlock(b);
  }

  lemma RangeOfBlock(a: nat)
    ensures RangeNo(a) == if BlockNo(a) <= DIRECT_ENTRIES then 0 else 1 + (BlockNo(a) - 11) / REFS_PER_BLOCK
  {
  }

  /** The next byte is in the same range or starts the next one. */
  lemma RangeNext(p: nat)
    requires p > 0
    ensures RangeNo(p) == RangeNo(p - 1) || RangeNo(p) == RangeNo(p - 1) + 1
  {
  }

  /** The bytes from p lie in one block, which begins there unless nothing was written before. */
  predicate Piece(o: nat, n: nat, m: nat) {
    && m > 0 && BlockNo(o + n) == BlockNo(o + n + m - 1)
    && (n > 0 ==> BlockNo(o + n) == BlockNo(o + n - 1) + 1)
  }

  /** Piece by piece. */
  lemma WriteMore(first: int, o: nat, n: nat, fileOffset: int, m: nat)
    requires IsStart(first) && IsStart(fileOffset) && Piece(o, n, m)
    requires if n == 0 then fileOffset == first else InActive(o + n - 1, fileOffset)
    ensures WriteCost(first, o, n + m) == WriteCost(first, o, n) + PieceCost(fileOffset, o + n)
  {
    hide RangeNo, BlockNo, RangeStart, Blocks, Leaving, Transaction.ActivateCost;
    var p := o + n;
    BlockInRange(p, p + m - 1);
    BlockInNone(p);
    if n == 0 {
      BlocksOne(o, m);
      NoneLeft(RangeNo(o));
    } else {
      BlocksMore(o, n, m);
      RangeLeft(o, p, fileOffset);
      AfterFirst(p - 1);
    }
  }

  lemma NoneLeft(i: nat)
    ensures Leaving(i, i) == 0
  {
  }

  lemma RangeLeft(o: nat, p: nat, fileOffset: int)
    requires o < p && IsStart(fileOffset) && InActive(p - 1, fileOffset)
    ensures Leaving(RangeNo(o), RangeNo(p)) == Leaving(RangeNo(o), RangeNo(p - 1)) + Transaction.ActivateCost(fileOffset, p)
  {
    hide RangeNo, RangeStart, Transaction.PathCost;
    RangeNext(p);
    BlockOrder(o, p - 1);
    ActiveIsRange(p, fileOffset);
    ActiveIsRange(p - 1, fileOffset);
    RangeIsPath(fileOffset);
  }

  lemma BlockInNone(p: nat)
    ensures BlockNo(p) == 0 <==> p < INODE_DATA_SIZE
  {
  }

  lemma AfterFirst(q: nat)
    ensures BlockNo(q + 1) == BlockNo(q) + 1 ==> q + 1 >= INODE_DATA_SIZE
  {
  }

  lemma BlocksOne(o: nat, m: nat)
    requires m > 0 && BlockNo(o) == BlockNo(o + m - 1)
    ensures Blocks(o, m) == if o < INODE_DATA_SIZE then 0 else 1
  {
  }

  lemma BlocksMore(o: nat, n: nat, m: nat)
    requires n > 0 && Piece(o, n, m)
    ensures Blocks(o, n + m) == Blocks(o, n) + 1
  {
    hide BlockNo;
  }

  lemma {:induction false} LeavingGrows(i: nat, j: nat, k: nat)
    requires j <= k
    ensures Leaving(i, j) <= Leaving(i, k)
  {
    if j < k {
      LeavingGrows(i, j, k - 1);
    }
  }

  lemma WriteGrows(fileOffset: int, o: nat, n: nat, m: nat)
    requires n <= m
    ensures WriteCost(fileOffset, o, n) <= WriteCost(fileOffset, o, m)
  {
    if 0 < n {
      hide RangeNo, BlockNo, Leaving;
      BlockOrder(o, o + n - 1);
      BlockOrder(o + n - 1, o + m - 1);
      LeavingGrows(RangeNo(o), RangeNo(o + n - 1), RangeNo(o + m - 1));
    }
  }
}

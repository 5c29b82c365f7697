/** Bytes of an open file: nandfs_write and nandfs_read on top of a transaction. */
module FileIo {
  import opened Flash
  import opened FsIndex
  import opened FsTree
  import opened FsCopy
  import opened TxLedger
  import opened TxFile
  import opened TxRebase
  import opened Transactions
  import opened FileCost

  // ----- the file as its reader sees it

  /** What decides the bytes of a file: the pages, the file and how far its active block is written. */
  datatype Seen = Seen(b: Blocks, f: File, max: nat)

  ghost predicate Shown(v: Seen) { BlocksOk(v.b) && Shaped(v.b, v.f) }

  ghost function Size(v: Seen): nat
    requires Shown(v)
  {
    Transaction.SizeOf(v.b, v.f, v.max)
  }

  /** fsReadBlock */
  function PageAt(b: Blocks, r: Ref): (p: Block)
    ensures |p| == PAGE
  {
    if r.Some? && r.value in b && b[r.value].Data? && |b[r.value].bytes| == PAGE then b[r.value].bytes
    else seq(PAGE, i => EMPTY_BYTE)
  }

  ghost function BlockAt(v: Seen, l: Loc): (p: Block)
    requires Shown(v) && l.Ok()
    ensures |p| == SizeOf(l)
  {
    if l.InInode? then Transaction.Current(v.b, v.f).data else PageAt(v.b, View(v.b, v.f, l))
  }

  /** The byte at an offset: the path of the offset leads to its block. */
  ghost function ByteAt(v: Seen, p: nat): bv8
    requires Shown(v) && p < ADDRESSABLE
  {
    LocateOk(p);
    LocateStart(p);
    BlockAt(v, Locate(p))[p - StartOf(Locate(p))]
  }

  ghost predicate Readable(v: Seen) { Shown(v) && Size(v) <= ADDRESSABLE }

  ghost function Contents(v: Seen): (s: seq<bv8>)
    requires Readable(v)
    ensures |s| == Size(v) && forall p :: 0 <= p < |s| ==> s[p] == ByteAt(v, p)
  {
    seq(Size(v), p requires 0 <= p < Size(v) => ByteAt(v, p))
  }

  /** s with the bytes of d from o on, as long as needed. */
  ghost function Splice<T>(s: seq<T>, o: nat, d: seq<T>): (r: seq<T>)
    requires o <= |s|
    ensures |r| == if o + |d| > |s| then o + |d| else |s|
    ensures forall p :: 0 <= p < |r| ==> r[p] == if o <= p < o + |d| then d[p - o] else s[p]
  {
    s[..o] + d + (if o + |d| < |s| then s[o + |d|..] else [])
  }

  lemma SpliceMore<T>(s: seq<T>, o: nat, d: seq<T>, e: seq<T>)
    requires o <= |s|
    ensures Splice(Splice(s, o, d), o + |d|, e) == Splice(s, o, d + e)
  {
    hide Splice;
    var r, t := Splice(Splice(s, o, d), o + |d|, e), Splice(s, o, d + e);
    assert |r| == |t|;
    assert forall p :: 0 <= p < |r| ==> r[p] == t[p];
  }

  /** A block with the bytes of d from i on. */
  function Merge(b: Block, i: nat, d: Block): (r: Block)
    requires i + |d| <= |b|
    ensures |r| == |b| && forall p :: 0 <= p < |b| ==> r[p] == if i <= p < i + |d| then d[p - i] else b[p]
  {
    b[..i] + d + b[i + |d|..]
  }

  // ----- blocks

  /** Outside the inode, blocks lie on one grid. */
  lemma BlockStart(off: nat)
    requires INODE_DATA_SIZE <= off < ADDRESSABLE
    ensures Locate(off).Ok() && !Locate(off).InInode?
    ensures StartOf(Locate(off)) == INODE_DATA_SIZE + PAGE * InBlocks(off - INODE_DATA_SIZE)
  {
    LocateOk(off);
    LocateStart(off);
    OnGrid(Locate(off), off);
  }

  lemma OnGrid(l: Loc, off: nat)
    requires l.Ok() && !l.InInode? && StartOf(l) <= off < StartOf(l) + PAGE
    ensures StartOf(l) == INODE_DATA_SIZE + PAGE * InBlocks(off - INODE_DATA_SIZE)
  {
    var q := match l
      case Direct(i) => i
      case Indirect(i) => 10 + i
      case Double(j, i) => 138 + 128 * j + i
      case Triple(k, j, i) => 16522 + 16384 * k + 128 * j + i
      case InInode => 0;
    assert StartOf(l) == INODE_DATA_SIZE + PAGE * q;
    assert PAGE * q <= off - INODE_DATA_SIZE < PAGE * q + PAGE;
  }

  /** The pages of a file are there. */
  ghost predicate Live(v: Seen)
    requires Shown(v)
  {
    forall l: Loc {:trigger Walk(l)} :: Walk(l) && l.Ok() && !l.InInode? && View(v.b, v.f, l).Some? ==> View(v.b, v.f, l).value in v.b
  }

  /** The block at l is now bytes, everything else in the file is as before. */
  ghost predicate BlockPut(v: Seen, w: Seen, at: Loc, bytes: Block, end: nat)
    requires Shown(v) && Shown(w)
  {
    && Size(w) == (if end > Size(v) then end else Size(v))
    && forall l: Loc {:trigger Walk(l)} :: Walk(l) && l.Ok() ==> BlockAt(w, l) == if l == at then bytes else BlockAt(v, l)
  }

  lemma PutSize(v: Seen, w: Seen, at: Loc, bytes: Block, end: nat)
    requires Shown(v) && Shown(w) && BlockPut(v, w, at, bytes, end)
    ensures Size(w) == if end > Size(v) then end else Size(v)
  {
  }

  lemma ActiveBound(b: Blocks, off: nat, f: File)
    requires InActive(off, f.offset) && Shaped(b, f)
    ensures off < MAX_FILE_SIZE + 65536
  {
  }

  lemma OutsidePut(v: Seen, w: Seen, off: nat, len: nat, bytes: Block, r: Ref)
    requires Shown(v) && Shown(w) && Live(v) && Extends(v.b, w.b) && |bytes| == PAGE && len > 0
    requires Transaction.BlockWritten(v.b, v.f, v.max, off, len, Some(bytes), r, w.b, w.f, w.max)
    requires INODE_DATA_SIZE <= off < ADDRESSABLE
    ensures BlockPut(v, w, Locate(off), bytes, off + len)
  {
    hide View, Transaction.SizeOf, Transaction.Current, Shaped, BlocksOk, Locate;
    forall l: Loc | Walk(l) && l.Ok()
      ensures BlockAt(w, l) == if l == Locate(off) then bytes else BlockAt(v, l)
    {
      BlockStart(off);
    }
  }

  lemma InsidePut(v: Seen, w: Seen, len: nat, bytes: Block)
    requires Shown(v) && Shown(w) && Live(v) && Extends(v.b, w.b) && len > 0
    requires Transaction.InlineWritten(v.b, v.f, v.max, len, bytes, w.b, w.f, w.max)
    ensures BlockPut(v, w, InInode, bytes, len)
  {
    hide View, Transaction.SizeOf, Transaction.Current, Shaped, BlocksOk;
    forall l: Loc | Walk(l) && l.Ok()
      ensures BlockAt(w, l) == if l == InInode then bytes else BlockAt(v, l)
    {
    }
  }

  /** Merging bytes into one block splices them into the file. */
  lemma PutSplices(v: Seen, w: Seen, o: nat, d: Block)
    requires Readable(v) && Readable(w) && o <= Size(v) && o < ADDRESSABLE && Locate(o).Ok()
    requires StartOf(Locate(o)) <= o && o - StartOf(Locate(o)) + |d| <= SizeOf(Locate(o))
    requires BlockPut(v, w, Locate(o), Merge(BlockAt(v, Locate(o)), o - StartOf(Locate(o)), d), o + |d|)
    ensures Contents(w) == Splice(Contents(v), o, d)
  {
    hide Merge, Contents, Splice, BlockAt, Locate, Size, StartOf, SizeOf;
    forall p | 0 <= p < Size(w) ensures Contents(w)[p] == Splice(Contents(v), o, d)[p] {
      PutByte(v, w, o, d, p);
    }
  }

  lemma PutByte(v: Seen, w: Seen, o: nat, d: Block, p: nat)
    requires Readable(v) && Readable(w) && o < ADDRESSABLE && p < ADDRESSABLE && Locate(o).Ok()
    requires StartOf(Locate(o)) <= o && o - StartOf(Locate(o)) + |d| <= SizeOf(Locate(o))
    requires BlockPut(v, w, Locate(o), Merge(BlockAt(v, Locate(o)), o - StartOf(Locate(o)), d), o + |d|)
    ensures ByteAt(w, p) == if o <= p < o + |d| then d[p - o] else ByteAt(v, p)
  {
    hide Merge, BlockAt, Locate, Size, StartOf, SizeOf, Loc.Ok;
    LocateOk(p);
    LocateStart(p);
    assert Walk(Locate(p));
    LocateCovers(p, Locate(o));
  }

  // ----- the pages of a file are live

  lemma LeafIn(b: Blocks, ino: Inode, l: Loc)
    requires BlocksOk(b) && ino.Ok() && l.Ok() && !l.InInode?
    ensures Under(b, Resolve(b, ino, l), 0, false) <= InodeUnder(b, ino, false)
  {
    hide InodeUnder, UnderAll, Under, Resolve, PathPages;
    if l.Direct? {
      EntryWithin(b, ino.direct, l.i, 0, false);
      DirectIn(b, ino, false);
      assert Resolve(b, ino, l) == ino.direct[l.i] by { DirectResolves(b, ino, l); }
    } else {
      ResolveIsLeaf(b, ino, l);
      RefsAtLength(b, LeafRef(b, ino, l));
      LeafWithin(b, ino, l, false);
      EntryWithin(b, RefsAt(b, LeafRef(b, ino, l)), LeafIndex(l), 0, false);
    }
  }

  lemma DirectResolves(b: Blocks, ino: Inode, l: Loc)
    requires BlocksOk(b) && ino.Ok() && l.Ok() && l.Direct?
    ensures Resolve(b, ino, l) == ino.direct[l.i]
  {
  }

  lemma InThere(b: Blocks, r: Ref, m: multiset<LogAddr>)
    requires Under(b, r, 0, false) <= m && Within(m, b) && r.Some?
    ensures r.value in b
  {
    assert r.value in Under(b, r, 0, false);
  }

  lemma InodeLive(b: Blocks, a: Ref, l: Loc)
    requires BlocksOk(b) && IsInode(b, a) && Within(InodePages(b, a, false), b) && l.Ok() && !l.InInode?
    ensures var r := Resolve(b, InodeAt(b, a), l);
            r.Some? ==> r.value in b
  {
    hide InodePages, InodeUnder, Under, Resolve;
    var r := Resolve(b, InodeAt(b, a), l);
    if r.Some? {
      LeafIn(b, InodeAt(b, a), l);
      PagesOfInode(b, a, false);
      InThere(b, r, InodePages(b, a, false));
    }
  }

  lemma ViewLive(b: Blocks, rest: multiset<LogAddr>, f: File, l: Loc)
    requires BlocksOk(b) && Shaped(b, f) && Within(rest, b) && !f.root && l.Ok() && !l.InInode?
    requires if f.offset >= 0 then Holds(b, rest, f) else Rests(b, rest, f)
    ensures var r := View(b, f, l);
            r.Some? ==> r.value in b
  {
    hide InodePages, InodeUnder, Under, UnderAll, Resolve;
    var r := View(b, f, l);
    if r.Some? {
      if f.offset < 0 {
        LookSettled(b, rest, f);
        InodeLive(b, f.ino, l);
      } else {
        LookOpen(b, rest, f);
        if f.offset == 0 {
          LeafIn(b, f.active.ino, l);
          InThere(b, r, rest);
        } else {
          InodeLive(b, f.ino, l);
          if SameLeaf(Locate(f.offset), l) {
            EntryWithin(b, f.active.refs, LeafIndex(l), 0, false);
            InThere(b, r, UnderAll(b, f.active.refs, 0, false));
          }
        }
      }
    }
  }

  // ----- system calls

  /** CALC_OFFSET_IN_FILE_BLOCK */
  function InFileBlock(off: nat): (r: nat)
    ensures r <= off
  {
    if off < INODE_DATA_SIZE then 0 else off - INODE_DATA_SIZE - PAGE * InBlocks(off - INODE_DATA_SIZE)
  }

  /** How much of a block lies behind an offset in it. */
  function Room(off: nat): (r: nat)
    ensures r > 0
  {
    if off < INODE_DATA_SIZE then INODE_DATA_SIZE - off else PAGE - InFileBlock(off)
  }

  /** The start of the block in which an offset lies, and its end. */
  lemma BlockBounds(off: nat)
    requires off < ADDRESSABLE
    ensures Locate(off).Ok()
    ensures var start := if off < INODE_DATA_SIZE then 0 else off - InFileBlock(off);
            StartOf(Locate(off)) == start && Locate(start) == Locate(off) && off + Room(off) == start + SizeOf(Locate(off))
    ensures SizeOf(Locate(off)) <= PAGE
    ensures INODE_DATA_SIZE <= off + Room(off) && InFileBlock(off + Room(off)) == 0
  {
    LocateOk(off);
    LocateStart(off);
    if INODE_DATA_SIZE <= off {
      BlockStart(off);
      LocateCovers(StartOf(Locate(off)), Locate(off));
      NextBlock(off);
    }
  }

  lemma NextBlock(off: nat)
    requires INODE_DATA_SIZE <= off
    ensures InFileBlock(off + Room(off)) == 0
    ensures InFileBlock(off) == 0 ==> Room(off) == PAGE
  {
    assert off + Room(off) == INODE_DATA_SIZE + PAGE * (InBlocks(off - INODE_DATA_SIZE) + 1);
  }

  /** The block that an offset lies in. */
  lemma PieceStart(fileOffset: int, start: nat, off: nat)
    requires IsStart(fileOffset) && start == if off < INODE_DATA_SIZE then 0 else off - InFileBlock(off)
    ensures PieceCost(fileOffset, start) == PieceCost(fileOffset, off) && start <= off
    ensures InActive(start, fileOffset) <==> InActive(off, fileOffset)
  {
    assert BlockNo(start) == BlockNo(off);
    hide BlockNo, InFileBlock;
    BlockInRange(start, off);
    SameRangeCost(fileOffset, start, off);
    BlockInNone(start);
    BlockInNone(off);
  }

  /** As many bytes as the block has room for, from the start of a block or from the first offset. */
  lemma PieceIsOne(o: nat, n: nat, m: nat)
    requires 0 < m <= Room(o + n) && (n > 0 ==> INODE_DATA_SIZE <= o + n && InFileBlock(o + n) == 0)
    ensures Piece(o, n, m)
  {
  }

  /** What writing the block at o takes has been spent, and it is active now. */
  ghost predicate Spent(credit: int, fileOffset: int, credit2: int, fileOffset2: int, o: nat) {
    credit2 >= credit - PieceCost(fileOffset, o) && InActive(o, fileOffset2)
  }

  /** Of a credit of k at first, with the active block at fo, n bytes from o have been paid for. */
  ghost predicate IsPaid(credit: int, fileOffset: int, k: int, fo: int, o: nat, n: nat) {
    && credit >= k - WriteCost(fo, o, n) && IsStart(fo) && IsStart(fileOffset)
    && if n == 0 then fileOffset == fo else InActive(o + n - 1, fileOffset)
  }

  /** One more piece. */
  lemma PaidMore(credit: int, fileOffset: int, k: int, fo: int, o: nat, n: nat, credit2: int, fileOffset2: int, m: nat)
    requires IsPaid(credit, fileOffset, k, fo, o, n) && IsStart(fileOffset2) && 0 < m <= Room(o + n)
    requires Spent(credit, fileOffset, credit2, fileOffset2, o + n)
    requires n > 0 ==> INODE_DATA_SIZE <= o + n && InFileBlock(o + n) == 0
    ensures IsPaid(credit2, fileOffset2, k, fo, o, n + m)
  {
    hide WriteCost, PieceCost, Room, InFileBlock, InActive, IsStart;
    NextPiece(fo, o, n, fileOffset, fileOffset2, m);
  }

  lemma NextPiece(first: int, o: nat, n: nat, fileOffset: int, next: int, m: nat)
    requires IsStart(first) && IsStart(fileOffset) && IsStart(next) && 0 < m <= Room(o + n)
    requires n > 0 ==> INODE_DATA_SIZE <= o + n && InFileBlock(o + n) == 0
    requires if n == 0 then fileOffset == first else InActive(o + n - 1, fileOffset)
    requires InActive(o + n, next)
    ensures WriteCost(first, o, n + m) == WriteCost(first, o, n) + PieceCost(fileOffset, o + n)
    ensures InActive(o + n + m - 1, next)
  {
    hide WriteCost, PieceCost, Room, InFileBlock, InActive, IsStart;
    PieceIsOne(o, n, m);
    WriteMore(first, o, n, fileOffset, m);
    BlockInRange(o + n, o + n + m - 1);
    SameRangeCost(next, o + n, o + n + m - 1);
  }

  /** fsMemcpy */
  method Memcpy(dst: array<bv8>, at: nat, src: Block)
    requires at + |src| <= dst.Length
    modifies dst
    ensures dst[..] == Merge(old(dst[..]), at, src)
  {
    var i := 0;
    while i < |src|
      invariant i <= |src| && dst[at..at + i] == src[..i]
      invariant dst[..at] == old(dst[..at]) && dst[at + i..] == old(dst[at + i..])
    {
      dst[at + i] := src[i];
      i := i + 1;
    }
    assert dst[..] == dst[..at] + dst[at..at + i] + dst[at + i..];
    assert old(dst[..])[at + |src|..] == old(dst[at + |src|..]);
  }

  lemma MergeTake(b: Block, at: nat, d: Block, n: nat)
    requires at + |d| <= n <= |b|
    ensures Merge(b, at, d)[..n] == Merge(b[..n], at, d)
  {
  }

  lemma MergeAll(b: Block, d: Block)
    requires |b| == |d|
    ensures Merge(b, 0, d) == d && b[..|b|] == b
  {
  }

  lemma MergeMore(b: Block, d: Block, e: Block)
    requires |d| + |e| <= |b|
    ensures Merge(Merge(b, 0, d), |d|, e) == Merge(b, 0, d + e)
  {
    hide Merge;
    var r, t := Merge(Merge(b, 0, d), |d|, e), Merge(b, 0, d + e);
    assert forall p :: 0 <= p < |b| ==> r[p] == t[p];
  }

  /** Bytes within one block. */
  lemma PieceIs(v: Seen, o: nat, n: nat)
    requires Readable(v) && o + n <= Size(v) && o < ADDRESSABLE && Locate(o).Ok()
    requires StartOf(Locate(o)) <= o && o - StartOf(Locate(o)) + n <= SizeOf(Locate(o))
    ensures BlockAt(v, Locate(o))[o - StartOf(Locate(o))..o - StartOf(Locate(o)) + n] == Contents(v)[o..o + n]
  {
    hide Contents, BlockAt, Size, Locate, StartOf, SizeOf;
    forall p | o <= p < o + n ensures Contents(v)[p] == BlockAt(v, Locate(o))[p - StartOf(Locate(o))] {
      LocateCovers(p, Locate(o));
    }
  }

  lemma SliceOfTake(s: Block, k: nat, i: nat, j: nat)
    requires i <= j <= k <= |s|
    ensures s[..k][i..j] == s[i..j]
  {
  }

  /** No file grows further than the last block that can be active reaches. */
  const LIMIT := MAX_FILE_SIZE + 65536 + PAGE

  class OpenFile {
    const tx: Transaction
    const buffer: array<bv8>
    var offset: nat

    ghost function Now(): Seen
      reads tx
    {
      Seen(tx.blks, tx.TheFile(), tx.maxWritten)
    }

    ghost predicate Valid()
      reads tx
    {
      tx.Ready() && !tx.inode0 && buffer.Length == PAGE && Size(Now()) < LIMIT
    }

    constructor (t: Transaction)
      requires t.Ready() && !t.inode0 && Transaction.SizeOf(t.blks, t.TheFile(), t.maxWritten) < LIMIT
      ensures Valid() && tx == t && offset == 0
    {
      tx, offset := t, 0;
      buffer := new bv8[PAGE];
    }

    lemma Starts()
      requires Valid()
      ensures IsStart(tx.fileOffset)
    {
      hide Books, Holds, Rests, OwnPages;
    }

    lemma IsLive()
      requires Valid()
      ensures Live(Now())
    {
      hide Shaped, View, Transaction.SizeOf;
      tx.AllWithin();
      forall l: Loc | Walk(l) && l.Ok() && !l.InInode? && View(tx.blks, tx.TheFile(), l).Some?
        ensures View(tx.blks, tx.TheFile(), l).value in tx.blks
      {
        ViewLive(tx.blks, tx.rest, tx.TheFile(), l);
      }
    }

    /** getFileSize */
    method FileSize() returns (n: nat)
      requires Valid()
      ensures n == Size(Now())
    {
      var ino := if tx.fileOffset == 0 then tx.indirect.ino else InodeAt(tx.blks, tx.inoAddr);
      n := if tx.fileOffset < 0 then ino.size else Transaction.NewSize(ino.size, tx.fileOffset, tx.maxWritten);
    }

    /** readFileBlock: the buffer holds the block of off. */
    method ReadFileBlock(off: nat) returns (ok: bool)
      requires Valid() && off < ADDRESSABLE
      modifies buffer
      ensures ok <==> off <= MAX_FILE_SIZE && (tx.Active(off) || off <= Size(Now()))
      ensures Locate(off).Ok() && (ok ==> buffer[..SizeOf(Locate(off))] == BlockAt(Now(), Locate(off)))
    {
      BlockBounds(off);
      if off > MAX_FILE_SIZE {
        return false;
      }
      if off < INODE_DATA_SIZE {
        if !tx.Active(off) {
          var size := FileSize();
          if off > size {
            return false;
          }
        }
        var data := (if tx.fileOffset == 0 then tx.indirect.ino else InodeAt(tx.blks, tx.inoAddr)).data;
        Memcpy(buffer, 0, data);
        return true;
      }
      var r;
      ok, r := tx.FindBlock(off);
      if ok {
        Memcpy(buffer, 0, PageAt(tx.blks, r));
      }
    }

    /** writeFileBlock with the buffer, of which the first len bytes are the file's. */
    method WriteFileBlock(start: nat, len: nat) returns (ok: bool)
      requires Valid() && start < ADDRESSABLE && StartOf(Locate(start)) == start && 0 < len <= Room(start)
      modifies tx
      ensures Locate(start).Ok() && Books(tx.Now()) && tx.Metered()
      ensures !ok ==> tx.room == 0 || start >= MAX_FILE_SIZE
      ensures old(tx.Credit()) >= PieceCost(old(tx.fileOffset), start) && start < MAX_FILE_SIZE ==> ok
      ensures ok ==> Spent(old(tx.Credit()), old(tx.fileOffset), tx.Credit(), tx.fileOffset, start)
      ensures ok ==> Valid() && BlockPut(old(Now()), Now(), Locate(start), buffer[..SizeOf(Locate(start))], start + len)
    {
      BlockBounds(start);
      if start < INODE_DATA_SIZE {
        ok := WriteInside(len);
      } else {
        ok := WriteOutside(start, len);
      }
    }

    method WriteInside(len: nat) returns (ok: bool)
      requires Valid() && 0 < len <= INODE_DATA_SIZE
      modifies tx
      ensures Books(tx.Now()) && tx.Metered() && (!ok ==> tx.room == 0)
      ensures old(tx.Credit()) >= PieceCost(old(tx.fileOffset), 0) && 0 < MAX_FILE_SIZE ==> ok
      ensures ok ==> Spent(old(tx.Credit()), old(tx.fileOffset), tx.Credit(), tx.fileOffset, 0)
      ensures ok ==> Valid() && BlockPut(old(Now()), Now(), InInode, buffer[..INODE_DATA_SIZE], len)
    {
      IsLive();
      hide Books, OwnPages, Grew, BlockPut, Live, View, Holds, Rests, InodePages, Transaction.InlineWritten, BlocksOk, Shaped, Transaction.SizeOf;
      ghost var t, v := tx.Now(), Now();
      var bytes := buffer[..];
      ok := tx.WriteInline(len, bytes);
      ghost var u, w := tx.Now(), Now();
      GrewOver(t, u, u);
      if ok {
        InsidePut(v, w, len, bytes[..INODE_DATA_SIZE]);
        PutSize(v, w, InInode, bytes[..INODE_DATA_SIZE], len);
      }
    }

    method WriteOutside(start: nat, len: nat) returns (ok: bool)
      requires Valid() && INODE_DATA_SIZE <= start < ADDRESSABLE && 0 < len <= PAGE && Locate(start).Ok()
      modifies tx
      ensures Books(tx.Now()) && tx.Metered() && (!ok ==> tx.room == 0 || start >= MAX_FILE_SIZE)
      ensures old(tx.Credit()) >= PieceCost(old(tx.fileOffset), start) && start < MAX_FILE_SIZE ==> ok
      ensures ok ==> Spent(old(tx.Credit()), old(tx.fileOffset), tx.Credit(), tx.fileOffset, start)
      ensures ok ==> Valid() && BlockPut(old(Now()), Now(), Locate(start), buffer[..], start + len)
    {
      IsLive();
      hide Books, OwnPages, Grew, BlockPut, Live, View, Holds, Rests, InodePages, Locate, Transaction.BlockWritten, BlocksOk, Shaped, Transaction.SizeOf, InActive;
      ghost var t, v := tx.Now(), Now();
      var bytes := buffer[..];
      ghost var r;
      ok, r := tx.WriteFileBlock(start, len, Some(bytes));
      ghost var u, w := tx.Now(), Now();
      GrewOver(t, u, u);
      if ok {
        OutsidePut(v, w, start, len, bytes, r);
        PutSize(v, w, Locate(start), bytes, start + len);
        ActiveBound(w.b, start, w.f);
      }
    }

    /** Writes what the buffer holds, in which the bytes of d replace the old ones at the offset,
        and moves the offset behind them. */
    method StorePiece(ghost d: Block, len: nat) returns (ok: bool)
      requires Valid() && offset <= Size(Now()) && |d| == len && 0 < len <= Room(offset) && Locate(offset).Ok()
      requires StartOf(Locate(offset)) <= offset
      requires offset - StartOf(Locate(offset)) + len <= SizeOf(Locate(offset))
      requires buffer[..SizeOf(Locate(offset))] == Merge(BlockAt(Now(), Locate(offset)), offset - StartOf(Locate(offset)), d)
      modifies tx, `offset
      ensures Books(tx.Now()) && tx.Metered()
      ensures !ok ==> tx.room == 0 || old(offset) >= MAX_FILE_SIZE
      ensures old(tx.Credit()) >= PieceCost(old(tx.fileOffset), old(offset)) && old(offset) < MAX_FILE_SIZE ==> ok
      ensures ok ==> Spent(old(tx.Credit()), old(tx.fileOffset), tx.Credit(), tx.fileOffset, old(offset))
      ensures ok ==> Valid() && offset == old(offset) + len && Contents(Now()) == Splice(old(Contents(Now())), old(offset), d)
    {
      hide PieceCost, Merge, Contents, Splice, BlockAt, Locate, StartOf, SizeOf, Room, InFileBlock, BlockPut, Books, Transaction.SizeOf, Shaped, OwnPages, Holds, Rests, BlocksOk;
      BlockBounds(offset);
      ghost var v := Now();
      var start := if offset < INODE_DATA_SIZE then 0 else offset - InFileBlock(offset);
      BlockBounds(start);
      Starts();
      PieceStart(tx.fileOffset, start, offset);
      ok := WriteFileBlock(start, offset - start + len);
      if ok {
        Starts();
        PieceStart(tx.fileOffset, start, offset);
        PutSplices(v, Now(), offset, d);
        offset := offset + len;
      }
    }

    /** Since its contents were c and its offset o, the bytes of d were written. */
    ghost predicate Wrote(c: seq<bv8>, o: nat, d: Block)
      requires o <= |c|
      reads this, tx
    {
      Valid() && offset == o + |d| && offset <= Size(Now()) && Contents(Now()) == Splice(c, o, d)
    }

    lemma WroteMore(c: seq<bv8>, o: nat, w: Block, d: Block, before: seq<bv8>)
      requires Valid() && o <= |c| && before == Splice(c, o, w) && offset == o + |w| + |d|
      requires Contents(Now()) == Splice(before, o + |w|, d)
      ensures Wrote(c, o, w + d)
    {
      hide Contents, Splice, Transaction.SizeOf;
      SpliceMore(c, o, w, d);
    }

    /** Copies d into the block in the buffer and stores it. */
    method ReplacePiece(ghost c: seq<bv8>, ghost o: nat, ghost w: Block, d: Block) returns (ok: bool)
      requires o <= |c| && Wrote(c, o, w) && 0 < |d| <= Room(offset) && Locate(offset).Ok()
      requires buffer[..SizeOf(Locate(offset))] == BlockAt(Now(), Locate(offset))
      modifies tx, `offset, buffer
      ensures Books(tx.Now()) && tx.Metered() && (ok ==> Wrote(c, o, w + d))
      ensures !ok ==> tx.room == 0 || old(offset) >= MAX_FILE_SIZE
      ensures old(tx.Credit()) >= PieceCost(old(tx.fileOffset), old(offset)) && old(offset) < MAX_FILE_SIZE ==> ok
      ensures ok ==> Spent(old(tx.Credit()), old(tx.fileOffset), tx.Credit(), tx.fileOffset, old(offset))
    {
      hide Spent, PieceCost, Merge, Contents, Splice, BlockAt, Locate, StartOf, SizeOf, Room, InFileBlock, Books, Transaction.SizeOf, Shaped, OwnPages, Holds, Rests, BlocksOk;
      BlockBounds(offset);
      ghost var was := buffer[..];
      Memcpy(buffer, if offset < INODE_DATA_SIZE then offset else InFileBlock(offset), d);
      MergeTake(was, offset - StartOf(Locate(offset)), d, SizeOf(Locate(offset)));
      ghost var before := Contents(Now());
      ok := StorePiece(d, |d|);
      if ok {
        WroteMore(c, o, w, d, before);
      }
    }

    /** The first and the last block are read before they are written. */
    method WritePart(ghost c: seq<bv8>, ghost o: nat, ghost w: Block, d: Block, ghost k: int, ghost fo: int, ghost all: nat)
      returns (ok: bool)
      requires o <= |c| && Wrote(c, o, w) && 0 < |d| <= Room(offset)
      requires PaidFor(k, fo, o, |w|) && |w| + |d| <= all && (w != [] ==> INODE_DATA_SIZE <= offset && InFileBlock(offset) == 0)
      modifies tx, `offset, buffer
      ensures Books(tx.Now()) && tx.Metered() && (ok ==> Wrote(c, o, w + d))
      ensures !ok ==> tx.room == 0 || old(offset) >= MAX_FILE_SIZE
      ensures k >= WriteCost(fo, o, all) && old(offset) < MAX_FILE_SIZE ==> ok
      ensures ok ==> PaidFor(k, fo, o, |w| + |d|)
    {
      hide IsPaid, Spent, PieceCost, WriteCost, Contents, Splice, BlockAt, Locate, StartOf, SizeOf, Room, Transaction.SizeOf, Shaped, BooksDef, OwnPages, Holds, Rests, BlocksOk, Transaction.Covers, Books, InActive, IsStart, Merge, InFileBlock;
      WroteOffset(c, o, w);
      PaysFor(k, fo, o, |w|, |d|, all);
      ghost var credit, at := tx.Credit(), tx.fileOffset;
      ok := ReadFileBlock(offset);
      if ok {
        ok := ReplacePiece(c, o, w, d);
      }
      if ok {
        Starts();
        PaidMore(credit, at, k, fo, o, |w|, tx.Credit(), tx.fileOffset, |d|);
      }
    }

    method FillWhole(d: Block)
      requires Valid() && |d| == PAGE && INODE_DATA_SIZE <= offset <= Size(Now()) && InFileBlock(offset) == 0
      modifies buffer
      ensures Locate(offset).Ok() && StartOf(Locate(offset)) == offset && SizeOf(Locate(offset)) == PAGE == Room(offset)
      ensures buffer[..PAGE] == Merge(BlockAt(Now(), Locate(offset)), 0, d)
    {
      hide BlockAt, Locate, StartOf, Transaction.SizeOf, Shaped, Merge, InFileBlock, SizeOf, Room;
      BlockBounds(offset);
      NextBlock(offset);
      ghost var block, was := BlockAt(Now(), Locate(offset)), buffer[..];
      MergeAll(block, d);
      MergeAll(was, d);
      Memcpy(buffer, 0, d);
    }

    /** A whole block needs not be read before. */
    method WriteWhole(ghost c: seq<bv8>, ghost o: nat, ghost w: Block, d: Block, ghost k: int, ghost fo: int, ghost all: nat)
      returns (ok: bool)
      requires o <= |c| && Wrote(c, o, w) && |d| == PAGE && INODE_DATA_SIZE <= offset && InFileBlock(offset) == 0
      requires PaidFor(k, fo, o, |w|) && |w| + |d| <= all && (w != [] ==> INODE_DATA_SIZE <= offset && InFileBlock(offset) == 0)
      modifies tx, `offset, buffer
      ensures Books(tx.Now()) && tx.Metered() && (ok ==> Wrote(c, o, w + d))
      ensures !ok ==> tx.room == 0 || old(offset) >= MAX_FILE_SIZE
      ensures k >= WriteCost(fo, o, all) && old(offset) < MAX_FILE_SIZE ==> ok
      ensures ok ==> PaidFor(k, fo, o, |w| + |d|)
    {
      hide IsPaid, Spent, PieceCost, WriteCost, Contents, Splice, BlockAt, Locate, StartOf, Books, Transaction.SizeOf, Shaped, Merge, InFileBlock, SizeOf, Room, OwnPages, Holds, Rests, BlocksOk, Transaction.Covers, InActive, IsStart;
      NextBlock(offset);
      PaysFor(k, fo, o, |w|, PAGE, all);
      ghost var credit, at := tx.Credit(), tx.fileOffset;
      FillWhole(d);
      ghost var before := Contents(Now());
      ok := StorePiece(d, PAGE);
      if ok {
        WroteMore(c, o, w, d, before);
        Starts();
        PaidMore(credit, at, k, fo, o, |w|, tx.Credit(), tx.fileOffset, PAGE);
      }
    }

    /** The blocks between the first and the last. */
    method WriteBlocks(ghost c: seq<bv8>, ghost o: nat, buf: Block, from: nat, ghost k: int, ghost fo: int) returns (ok: bool, written: nat)
      requires from <= |buf| && o <= |c| && Wrote(c, o, buf[..from]) && 0 < from && PaidFor(k, fo, o, from)
      requires from < |buf| ==> INODE_DATA_SIZE <= offset && InFileBlock(offset) == 0
      modifies tx, `offset, buffer
      ensures Books(tx.Now()) && tx.Metered() && from <= written <= |buf| && |buf| - written <= PAGE
      ensures !ok ==> tx.room == 0 || o + |buf| > MAX_FILE_SIZE
      ensures k >= WriteCost(fo, o, |buf|) && o + |buf| <= MAX_FILE_SIZE ==> ok
      ensures ok ==> PaidFor(k, fo, o, written)
      ensures ok ==> Wrote(c, o, buf[..written])
      ensures ok && written < |buf| ==> Room(offset) == PAGE && INODE_DATA_SIZE <= offset && InFileBlock(offset) == 0
    {
      hide Wrote, InFileBlock, Room, Books, IsPaid, WriteCost, PieceCost;
      written := from;
      while |buf| - written > PAGE
        invariant from <= written <= |buf| && Wrote(c, o, buf[..written]) && PaidFor(k, fo, o, written)
        invariant written < |buf| ==> INODE_DATA_SIZE <= offset && InFileBlock(offset) == 0
      {
        assert buf[..written] + buf[written..written + PAGE] == buf[..written + PAGE];
        WroteOffset(c, o, buf[..written]);
        NextBlock(offset);
        ok := WriteWhole(c, o, buf[..written], buf[written..written + PAGE], k, fo, |buf|);
        if !ok {
          return false, |buf|;
        }
        written := written + PAGE;
        WroteOffset(c, o, buf[..written]);
      }
      WroteOffset(c, o, buf[..written]);
      if written < |buf| {
        NextBlock(offset);
      }
      ok := true;
    }

    /** nandfs_write */
    method Write(buf: Block, count: int, hasTransaction: bool) returns (r: int)
      requires Valid() && count <= |buf|
      modifies tx, `offset, buffer
      ensures Books(tx.Now()) && tx.Metered()
      ensures old(offset) > old(Size(Now())) && count != 0 ==> r == -1
      ensures r <= 0 && count > 0 && old(offset) <= old(Size(Now())) && hasTransaction ==>
        tx.room == 0 || old(offset) + count > MAX_FILE_SIZE
      ensures count > 0 && old(offset) <= old(Size(Now())) && hasTransaction && old(offset) + count <= MAX_FILE_SIZE ==>
        old(tx.Credit()) >= WriteCost(old(tx.fileOffset), old(offset), count) ==> r == count
      ensures r > 0 && count > 0 ==> tx.Credit() >= old(tx.Credit()) - WriteCost(old(tx.fileOffset), old(offset), count)
      ensures count < 0 ==> r == -1
      ensures count == 0 ==> r == 0
      ensures count <= 0 || old(offset) > old(Size(Now())) || !hasTransaction ==>
        r <= 0 && Valid() && Now() == old(Now()) && offset == old(offset)
      ensures r <= 0 || r == count
      ensures r > 0 ==> Valid() && offset == old(offset) + count && old(offset) <= old(Size(Now()))
      ensures r > 0 ==> Contents(Now()) == Splice(old(Contents(Now())), old(offset), buf[..count])
    {
      hide WriteCost, Contents, Splice, BlockAt, Locate, Room, InFileBlock, Books, Transaction.SizeOf, Shaped, OwnPages, Holds, Rests, BlocksOk;
      if count <= 0 {
        return if count < 0 then -1 else 0;
      }
      var size := FileSize();
      if offset > size {
        return -1;
      }
      if !hasTransaction {
        return 0;
      }
      r := WriteSome(buf[..count]);
    }

    method WriteSome(d: Block) returns (r: int)
      requires Valid() && offset <= Size(Now()) && d != []
      modifies tx, `offset, buffer
      ensures Books(tx.Now()) && tx.Metered()
      ensures r <= 0 ==> tx.room == 0 || old(offset) + |d| > MAX_FILE_SIZE
      ensures old(tx.Credit()) >= WriteCost(old(tx.fileOffset), old(offset), |d|) && old(offset) + |d| <= MAX_FILE_SIZE ==> r > 0
      ensures r > 0 ==> tx.Credit() >= old(tx.Credit()) - WriteCost(old(tx.fileOffset), old(offset), |d|)
      ensures r <= 0 || (r == |d| && Wrote(old(Contents(Now())), old(offset), d))
    {
      hide Wrote, Contents, Splice, BlockAt, Locate, Room, InFileBlock, Books, IsPaid, WriteCost, PieceCost,
        Transaction.SizeOf, Transaction.Covers, Shaped, Holds, Rests, OwnPages, BlocksOk;
      ghost var c, o, k, fo := Contents(Now()), offset, tx.Credit(), tx.fileOffset;
      BlockBounds(offset);
      Nothing();
      NothingPaid();
      var n := if |d| > Room(offset) then Room(offset) else |d|;
      assert [] + d[..n] == d[..n];
      var ok := WritePart(c, o, [], d[..n], k, fo, |d|);
      if !ok {
        return -1;
      }
      var written;
      WroteOffset(c, o, d[..n]);
      ok, written := WriteBlocks(c, o, d, n, k, fo);
      if !ok {
        return 0;
      }
      assert d[..|d|] == d && d[..written] + d[written..] == d;
      if written < |d| {
        WroteOffset(c, o, d[..written]);
        ok := WritePart(c, o, d[..written], d[written..], k, fo, |d|);
        if !ok {
          return 0;
        }
      }
      AllPaid(k, fo, o, |d|);
      r := |d|;
    }

    lemma NothingPaid()
      requires Valid()
      ensures PaidFor(tx.Credit(), tx.fileOffset, offset, 0)
    {
      Starts();
    }

    lemma AllPaid(k: int, fo: int, o: nat, n: nat)
      requires PaidFor(k, fo, o, n)
      ensures tx.Credit() >= k - WriteCost(fo, o, n)
    {
    }

    ghost predicate PaidFor(k: int, fo: int, o: nat, n: nat)
      reads this, tx
    {
      IsPaid(tx.Credit(), tx.fileOffset, k, fo, o, n)
    }

    /** What is left pays for the next piece. */
    lemma PaysFor(k: int, fo: int, o: nat, n: nat, m: nat, all: nat)
      requires PaidFor(k, fo, o, n) && 0 < m <= Room(o + n) && n + m <= all
      requires n > 0 ==> INODE_DATA_SIZE <= o + n && InFileBlock(o + n) == 0
      ensures k >= WriteCost(fo, o, all) ==> tx.Credit() >= PieceCost(tx.fileOffset, o + n)
    {
      hide WriteCost, PieceCost, Room, InFileBlock, InActive, IsStart, Valid, Piece;
      PieceIsOne(o, n, m);
      WriteMore(fo, o, n, tx.fileOffset, m);
      WriteGrows(fo, o, n + m, all);
    }

    lemma WroteOffset(c: seq<bv8>, o: nat, d: Block)
      requires o <= |c| && Wrote(c, o, d)
      ensures offset == o + |d| && Books(tx.Now()) && tx.Metered()
    {
    }

    lemma Nothing()
      requires Valid() && offset <= Size(Now())
      ensures Wrote(Contents(Now()), offset, [])
    {
      assert Splice(Contents(Now()), offset, []) == Contents(Now());
    }
  
    // ----- reading

    /** Reads n bytes of one block behind the at bytes that out has. */
    method ReadPiece(out: array<bv8>, at: nat, n: nat) returns (ok: bool)
      requires Valid() && out != buffer && n <= Room(offset) && offset + n <= Size(Now()) && at + n <= out.Length
      modifies `offset, buffer, out
      ensures ok <==> old(offset) <= MAX_FILE_SIZE
      ensures ok ==> offset == old(offset) + n
      ensures ok ==> out[..] == Merge(old(out[..]), at, Contents(Now())[old(offset)..offset])
    {
      hide Merge, Contents, BlockAt, Locate, StartOf, SizeOf, Room, InFileBlock, Transaction.SizeOf, Shaped;
      BlockBounds(offset);
      ok := ReadFileBlock(offset);
      if ok {
        var from := if offset < INODE_DATA_SIZE then offset else InFileBlock(offset);
        PieceIs(Now(), offset, n);
        ghost var k := SizeOf(Locate(offset));
        SliceOfTake(buffer[..], k, from, from + n);
        assert buffer[..k] == buffer[..][..k] && buffer[from..from + n] == buffer[..][from..from + n];
        Memcpy(out, at, buffer[from..from + n]);
        offset := offset + n;
      }
    }

    /** Since out was was and the offset o, k bytes were read. */
    ghost predicate Got(out: array<bv8>, was: Block, o: nat, k: nat)
      requires Valid() && |was| == out.Length && o + k <= Size(Now()) && k <= |was|
      reads this, tx, out
    {
      offset == o + k && out[..] == Merge(was, 0, Contents(Now())[o..o + k])
    }

    method ReadMore(out: array<bv8>, ghost was: Block, ghost o: nat, k: nat, n: nat) returns (ok: bool)
      requires Valid() && out != buffer && |was| == out.Length && o + k + n <= Size(Now()) && k + n <= |was| && Got(out, was, o, k)
      requires n <= Room(offset)
      modifies `offset, buffer, out
      ensures ok <==> old(offset) <= MAX_FILE_SIZE
      ensures ok ==> Got(out, was, o, k + n)
    {
      hide Merge, Contents, Room, Transaction.SizeOf, Shaped, Transaction.Covers, Holds, Rests, OwnPages, Books;
      ghost var c := Contents(Now());
      ok := ReadPiece(out, k, n);
      if ok {
        MergeMore(was, c[o..o + k], c[o + k..o + k + n]);
        assert c[o..o + k] + c[o + k..o + k + n] == c[o..o + k + n];
      }
    }

    /** nandfs_read */
    method Read(out: array<bv8>, count: int) returns (r: int)
      requires Valid() && out != buffer && count <= out.Length
      modifies `offset, buffer, out
      ensures count < 0 || old(offset) > Size(Now()) ==> r == -1 && offset == old(offset) && out[..] == old(out[..])
      ensures count >= 0 && old(offset) <= Size(Now()) ==>
        var n := if count > Size(Now()) - old(offset) then Size(Now()) - old(offset) else count;
        && (r == n || (r == -1 && old(offset) + n > MAX_FILE_SIZE))
        && (r == n ==> Got(out, old(out[..]), old(offset), n))
    {
      hide Merge, Contents, Room, Transaction.SizeOf, Shaped, InFileBlock, Got;
      if count < 0 {
        return -1;
      }
      var size := FileSize();
      if offset > size {
        return -1;
      }
      ghost var was, o := out[..], offset;
      NothingGot(out);
      BlockBounds(offset);
      var n := if count > Room(offset) then Room(offset) else count;
      if offset + n > size {
        n := size - offset;
      }
      var ok := ReadMore(out, was, o, 0, n);
      if !ok {
        return -1;
      }
      GotOffset(out, was, o, n);
      r := ReadOn(out, was, o, count, n, size);
    }

    lemma NothingGot(out: array<bv8>)
      requires Valid() && offset <= Size(Now())
      ensures Got(out, out[..], offset, 0)
    {
      assert out[..][..0] + [] + out[..][0..] == out[..];
    }

    method ReadOn(out: array<bv8>, ghost was: Block, ghost o: nat, count: nat, first: nat, size: nat) returns (r: int)
      requires Valid() && out != buffer && |was| == out.Length && size == Size(Now()) && first <= count <= |was| && o + first <= size
      requires Got(out, was, o, first) && offset == o + first
      requires first == count || o + first == size || (INODE_DATA_SIZE <= offset && InFileBlock(offset) == 0)
      modifies `offset, buffer, out
      ensures var n := if count > size - o then size - o else count;
              && (r == n || (r == -1 && o + n > MAX_FILE_SIZE))
              && (r == n ==> Got(out, was, o, n))
    {
      hide Merge, Contents, Room, Transaction.SizeOf, Shaped, InFileBlock, Got;
      r := first;
      var left := count - first;
      var n := if left > PAGE then PAGE else left;
      if offset + n > size {
        n := size - offset;
      }
      while left > PAGE && n == PAGE
        invariant r + left == count && 0 <= r && 0 <= left && offset == o + r <= size && Got(out, was, o, r)
        invariant 0 <= n <= size - offset && n <= PAGE
        invariant n >= left || n == PAGE || n == size - offset
        invariant left == 0 || offset == size || (INODE_DATA_SIZE <= offset && InFileBlock(offset) == 0)
      {
        NextBlock(offset);
        var ok := ReadMore(out, was, o, r, n);
        if !ok {
          return -1;
        }
        GotOffset(out, was, o, r + n);
        r, left := r + n, left - n;
        if offset + n > size {
          n := size - offset;
        }
      }
      if n == 0 || left == 0 {
        return r;
      }
      if n > left {
        n := left;
      }
      NextBlock(offset);
      var ok := ReadMore(out, was, o, r, n);
      if !ok {
        return -1;
      }
      r := r + n;
    }

    lemma GotOffset(out: array<bv8>, was: Block, o: nat, k: nat)
      requires Valid() && |was| == out.Length && o + k <= Size(Now()) && k <= |was| && Got(out, was, o, k)
      ensures offset == o + k
    {
    }
  }

  // ----- what a commit keeps

  /** The file of an inode, opened anew. */
  ghost function Reopened(b: Blocks, ino: Ref): Seen {
    Seen(b, File(ino, Data([]), -1, false, multiset{}), 0)
  }

  /** Whoever opens the file after commitTransaction reads the bytes the transaction had. */
  lemma CommitKeepsContents(v: Seen, root0: Ref, off: nat, b: Blocks, rest: multiset<LogAddr>, root: Ref)
    requires Readable(v) && Live(v) && BlocksOk(b) && Extends(v.b, b) && IsInode(v.b, root0) && off < ADDRESSABLE && Locate(off).Ok()
    requires Transaction.FileCommitted(v.b, v.f, v.max, root0, off, b, rest, root)
    ensures var w := Reopened(b, Resolve(b, InodeAt(b, root), Locate(off)));
            Readable(w) && Contents(w) == Contents(v)
  {
    hide Resolve, InodeAt, Locate, Contents, View, Transaction.Current, Transaction.SizeOf, StartOf, BlocksOk, InodePages;
    SavedContents(v, b, Resolve(b, InodeAt(b, root), Locate(off)));
  }

  lemma SavedContents(v: Seen, b: Blocks, file: Ref)
    requires Readable(v) && Live(v) && BlocksOk(b) && Extends(v.b, b) && IsInode(b, file)
    requires Transaction.SavedAs(v.b, v.f, b, file)
    requires InodeAt(b, file).size == Size(v) && InodeAt(b, file).data == Transaction.Current(v.b, v.f).data
    ensures Readable(Reopened(b, file)) && Contents(Reopened(b, file)) == Contents(v)
  {
    hide View, Resolve, Transaction.Current, Locate, StartOf, BlocksOk, Contents;
    var w := Reopened(b, file);
    CurrentIs(w);
    forall p | 0 <= p < Size(v) ensures ByteAt(w, p) == ByteAt(v, p) {
      LocateOk(p);
      assert Walk(Locate(p));
      ViewIs(w, Locate(p));
    }
    assert Contents(w) == Contents(v);
  }

  lemma ViewIs(w: Seen, l: Loc)
    requires Shown(w) && w.f.offset < 0 && l.Ok()
    ensures View(w.b, w.f, l) == Resolve(w.b, InodeAt(w.b, w.f.ino), l)
  {
  }

  lemma CurrentIs(w: Seen)
    requires Shown(w) && w.f.offset < 0
    ensures Transaction.Current(w.b, w.f) == InodeAt(w.b, w.f.ino)
  {
  }
}

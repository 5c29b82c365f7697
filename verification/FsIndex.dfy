/** The index of a file: blocks, inodes, and the path from a byte offset
    through direct, indirect, double and triple blocks. */
module FsIndex {
  import opened Flash

  type Ref = Option<LogAddr>

  /** The constants of the build with 512-byte pages. */
  const REFS_PER_BLOCK := 128
  const DIRECT_ENTRIES := 10
  const INODE_DATA_SIZE := 447
  const INDIRECT_OFFSET := 5567
  /** FS_MAX_FILESIZE, and how far the index reaches. */
  const MAX_FILE_SIZE := 33554432
  const ADDRESSABLE := 1082201535

  /** The start of a file lives in its inode. */
  datatype Inode = Inode(data: Block, size: nat, direct: seq<Ref>, indirect: Ref, double: Ref, triple: Ref) {
    predicate Ok() { |direct| == DIRECT_ENTRIES && |data| == INODE_DATA_SIZE }

    /** The size covers every entry: nothing is listed on the levels that it rules out. */
    predicate Sized() {
      && (size <= 447 ==> forall i :: 0 <= i < |direct| ==> direct[i] == None)
      && (size <= 5567 ==> indirect == None)
      && (size <= 71103 ==> double == None)
      && (size <= 8459711 ==> triple == None)
    }
  }

  datatype Blk = Data(bytes: Block) | Entries(refs: seq<Ref>) | InodeBlk(ino: Inode) | Vots(votes: seq<LogAddr>)

  /** Live pages and what they hold. */
  type Blocks = map<LogAddr, Blk>

  predicate BlkOk(b: Blk) {
    match b
    case Entries(refs) => |refs| == REFS_PER_BLOCK
    case InodeBlk(ino) => ino.Ok() && ino.Sized()
    case _ => true
  }

  ghost predicate BlocksOk(b: Blocks) {
    forall a :: a in b ==> BlkOk(b[a])
  }

  function NoRefs(): (r: seq<Ref>)
    ensures |r| == REFS_PER_BLOCK && forall i :: 0 <= i < |r| ==> r[i] == None
  {
    seq(REFS_PER_BLOCK, i => None)
  }

  /** What fsReadBlock leaves in the buffer for a block of addresses: an empty
      address reads as a page of empty addresses. */
  function RefsAt(b: Blocks, a: Ref): seq<Ref> {
    if a.Some? && a.value in b && b[a.value].Entries? then b[a.value].refs else NoRefs()
  }

  lemma RefsAtLength(b: Blocks, a: Ref)
    requires BlocksOk(b)
    ensures |RefsAt(b, a)| == REFS_PER_BLOCK
  {
    assert a.Some? && a.value in b ==> BlkOk(b[a.value]);
  }

  // ----- offsets

  /** Where a byte of a file is found. */
  datatype Loc =
    | InInode
    | Direct(i: nat)
    | Indirect(i: nat)
    | Double(j: nat, i: nat)
    | Triple(k: nat, j: nat, i: nat)
  {
    predicate Ok() {
      match this
      case InInode => true
      case Direct(i) => i < DIRECT_ENTRIES
      case Indirect(i) => i < REFS_PER_BLOCK
      case Double(j, i) => j < REFS_PER_BLOCK && i < REFS_PER_BLOCK
      case Triple(k, j, i) => k < REFS_PER_BLOCK && j < REFS_PER_BLOCK && i < REFS_PER_BLOCK
    }
  }

  /** CALC_IN_BLOCKS */
  function InBlocks(x: nat): (r: nat)
    ensures 512 * r <= x < 512 * r + 512
  {
    x / 512
  }

  /** CALC_OFFSET_IN_DOUBLE_BLOCK */
  function InIndirects(x: nat): (r: nat)
    ensures 65536 * r <= x < 65536 * r + 65536
  {
    x / 65536
  }

  /** CALC_OFFSET_IN_TRIPLE_BLOCK */
  function InDoubles(x: nat): (r: nat)
    ensures 8388608 * r <= x < 8388608 * r + 8388608
  {
    x / 8388608
  }

  /** CALC_OFFSET_IN_INDIRECT_SIZE */
  function WithinIndirect(x: nat): nat { x - 65536 * InIndirects(x) }

  /** CALC_OFFSET_IN_DOUBLE_SIZE */
  function WithinDouble(x: nat): nat { x - 8388608 * InDoubles(x) }

  /** readFileBlock and readIndirectToBuffer: the path to an offset. */
  function Locate(off: nat): Loc {
    if off < 447 then InInode
    else if off < 5567 then Direct(InBlocks(off - 447))
    else if off < 71103 then Indirect(LeafEntry(off))
    else if off < 8459711 then Double(InIndirects(off - 71103), LeafEntry(off))
    else Triple(InDoubles(off - 8459711), InIndirects(WithinDouble(off - 8459711)), LeafEntry(off))
  }

  /** The entry of an offset in its last block of addresses. */
  function LeafEntry(off: nat): nat
    requires INDIRECT_OFFSET <= off
  {
    InBlocks(WithinIndirect(off - 5567))
  }

  /** The first offset that a path covers. */
  function StartOf(l: Loc): nat {
    match l
    case InInode => 0
    case Direct(i) => 447 + 512 * i
    case Indirect(i) => 5567 + 512 * i
    case Double(j, i) => 71103 + 65536 * j + 512 * i
    case Triple(k, j, i) => 8459711 + 8388608 * k + 65536 * j + 512 * i
  }

  function SizeOf(l: Loc): nat { if l.InInode? then 447 else 512 }

  /** All blocks of addresses cover ranges of one grid that starts behind the
      direct blocks. */
  lemma Grid(off: nat)
    requires INDIRECT_OFFSET <= off
    ensures off < 71103 ==> WithinIndirect(off - 5567) == off - 5567
    ensures 71103 <= off < 8459711 ==>
              WithinIndirect(off - 5567) == off - 71103 - 65536 * InIndirects(off - 71103)
    ensures 8459711 <= off ==>
              WithinIndirect(off - 5567) == WithinDouble(off - 8459711) - 65536 * InIndirects(WithinDouble(off - 8459711))
  {
    var q := InIndirects(off - 5567);
    if 71103 <= off < 8459711 {
      assert q == 1 + InIndirects(off - 71103);
    } else if 8459711 <= off {
      assert q == 129 + 128 * InDoubles(off - 8459711) + InIndirects(WithinDouble(off - 8459711));
    }
  }

  lemma LocateOk(off: nat)
    requires off < ADDRESSABLE
    ensures Locate(off).Ok()
  {
    if INDIRECT_OFFSET <= off { Grid(off); }
  }

  lemma LocateStart(off: nat)
    requires off < ADDRESSABLE
    ensures StartOf(Locate(off)) <= off < StartOf(Locate(off)) + SizeOf(Locate(off))
  {
    if INDIRECT_OFFSET <= off { Grid(off); }
  }

  lemma StretchesDisjoint(l: Loc, m: Loc)
    requires l.Ok() && m.Ok() && StartOf(l) < StartOf(m) + SizeOf(m) && StartOf(m) < StartOf(l) + SizeOf(l)
    ensures l == m
  {
    if l.Triple? && m.Triple? {
      assert l.k == m.k;
      assert l.j == m.j;
    } else if l.Double? && m.Double? {
      assert l.j == m.j;
    }
  }

  /** Each offset lies in exactly the stretch of its path, and each path is the
      path of the offsets in its stretch: nothing overlaps and nothing is
      skipped. */
  lemma LocateCovers(off: nat, l: Loc)
    requires off < ADDRESSABLE && l.Ok()
    ensures Locate(off) == l <==> StartOf(l) <= off < StartOf(l) + SizeOf(l)
  {
    LocateOk(off);
    LocateStart(off);
    if StartOf(l) <= off < StartOf(l) + SizeOf(l) {
      StretchesDisjoint(Locate(off), l);
    }
  }

  /** calcIndirectBlockOffset */
  function IndirectStart(off: nat): nat {
    if off < INDIRECT_OFFSET then 0 else off - WithinIndirect(off - 5567)
  }

  /** isOffsetInIndirect, for an active block that starts at fileOffset. */
  predicate InActive(off: nat, fileOffset: int) {
    if fileOffset < 0 then false
    else if fileOffset == 0 then off < INDIRECT_OFFSET
    else 0 <= off - fileOffset < 65536
  }

  /** Two paths go through the same last block of addresses. */
  predicate SameLeaf(a: Loc, b: Loc) {
    if a.Indirect? then b.Indirect?
    else if a.Double? then b.Double? && a.j == b.j
    else if a.Triple? then b.Triple? && a.k == b.k && a.j == b.j
    else b.InInode? || b.Direct?
  }

  /** The number of an offset's block of addresses on the grid. */
  function LeafNumber(l: Loc): nat {
    match l
    case Indirect(_) => 0
    case Double(j, _) => 1 + j
    case Triple(k, j, _) => 129 + 128 * k + j
    case _ => 0
  }

  lemma LeafNumberIs(off: nat)
    requires INDIRECT_OFFSET <= off < ADDRESSABLE
    ensures LeafNumber(Locate(off)) == InIndirects(off - 5567)
    ensures !Locate(off).InInode? && !Locate(off).Direct? && Locate(off).Ok()
  {
    Grid(off);
    LocateOk(off);
  }

  lemma SameNumber(l: Loc, m: Loc)
    requires l.Ok() && m.Ok() && !l.InInode? && !l.Direct? && !m.InInode? && !m.Direct?
    ensures LeafNumber(l) == LeafNumber(m) <==> SameLeaf(l, m)
  {
  }

  /** The active range is exactly the offsets whose path shares the block. */
  lemma ActiveIsSameLeaf(a: nat, b: nat)
    requires a < ADDRESSABLE && b < ADDRESSABLE
    ensures InActive(b, IndirectStart(a)) <==> SameLeaf(Locate(a), Locate(b))
  {
    if INDIRECT_OFFSET <= a { LeafNumberIs(a); }
    if INDIRECT_OFFSET <= b { LeafNumberIs(b); }
    if INDIRECT_OFFSET <= a && INDIRECT_OFFSET <= b {
      SameNumber(Locate(a), Locate(b));
      assert InActive(b, IndirectStart(a)) <==> InIndirects(a - 5567) == InIndirects(b - 5567);
    }
  }

  // ----- resolving a path

  /** The address of the page that holds the data at a path. */
  function Resolve(b: Blocks, ino: Inode, l: Loc): Ref
    requires BlocksOk(b) && ino.Ok() && l.Ok()
  {
    match l
    case InInode => None
    case Direct(i) => ino.direct[i]
    case Indirect(i) => RefAt(b, ino.indirect, i)
    case Double(j, i) => RefAt(b, RefAt(b, ino.double, j), i)
    case Triple(k, j, i) => RefAt(b, RefAt(b, RefAt(b, ino.triple, k), j), i)
  }

  function RefAt(b: Blocks, a: Ref, i: nat): Ref
    requires BlocksOk(b) && i < REFS_PER_BLOCK
  {
    RefsAtLength(b, a);
    RefsAt(b, a)[i]
  }
}

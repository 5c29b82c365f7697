/** A file as its transaction sees it: the last inode written, and one block of
    its index held in a buffer. */
module TxFile {
  import opened Flash
  import opened FsIndex
  import opened FsTree
  import opened FsCopy

  /** The inode address, the active buffer, the file offset where the buffer's
      range starts (negative when none is loaded), whether the file is inode0,
      and the pages that do not belong to the file. */
  datatype File = File(ino: Ref, active: Blk, offset: int, root: bool, rem: multiset<LogAddr>)

  predicate IsInode(b: Blocks, a: Ref) {
    a.Some? && a.value in b && b[a.value].InodeBlk?
  }

  function InodeAt(b: Blocks, a: Ref): (r: Inode)
    requires IsInode(b, a) && BlocksOk(b)
    ensures r.Ok() && r.Sized()
  {
    assert BlkOk(b[a.value]);
    b[a.value].ino
  }

  /** Nothing is pending in the buffer. */
  ghost predicate Settled(b: Blocks, rest: multiset<LogAddr>, f: File) {
    && (f.ino.Some? ==> IsInode(b, f.ino))
    && rest == f.rem + InodePages(b, f.ino, f.root)
  }

  /** The stored block of addresses that the buffer stands for. */
  ghost function Stored(b: Blocks, f: File): seq<Ref>
    requires BlocksOk(b) && IsInode(b, f.ino) && 0 <= f.offset < MAX_FILE_SIZE
  {
    LocateOk(f.offset);
    RefsAt(b, LeafRef(b, InodeAt(b, f.ino), Locate(f.offset)))
  }

  ghost predicate OpenAtInode(b: Blocks, rest: multiset<LogAddr>, f: File) {
    && f.active.InodeBlk? && f.active.ino.Ok()
    && Within(rest, b)
    && rest == f.rem + (Opt(f.ino) + InodeUnder(b, f.active.ino, f.root))
  }

  ghost predicate OpenAtLeaf(b: Blocks, rest: multiset<LogAddr>, f: File)
    requires BlocksOk(b)
  {
    && INDIRECT_OFFSET <= f.offset < MAX_FILE_SIZE && IndirectStart(f.offset) == f.offset
    && f.active.Entries? && |f.active.refs| == REFS_PER_BLOCK
    && IsInode(b, f.ino)
    && Within(InodePages(b, f.ino, f.root), b) && Within(UnderAll(b, f.active.refs, 0, f.root), b)
    && Traded(rest, f.rem + InodePages(b, f.ino, f.root), multiset{}, multiset{},
              UnderAll(b, Stored(b, f), 0, f.root), UnderAll(b, f.active.refs, 0, f.root))
  }

  /** The file's pages, with the buffer in place of the stored block. */
  ghost predicate Open(b: Blocks, rest: multiset<LogAddr>, f: File) {
    && BlocksOk(b)
    && if f.offset == 0 then OpenAtInode(b, rest, f) else OpenAtLeaf(b, rest, f)
  }

  /** The buffer and the inode are there, whatever pages they lead to. */
  predicate Shaped(b: Blocks, f: File) {
    && f.offset < MAX_FILE_SIZE
    && (if f.offset == 0 then f.active.InodeBlk? && f.active.ino.Ok() else IsInode(b, f.ino))
    && (f.offset > 0 ==> f.active.Entries? && |f.active.refs| == REFS_PER_BLOCK && f.offset >= INDIRECT_OFFSET)
    && (f.offset > 0 ==> IndirectStart(f.offset) == f.offset)
  }

  /** Always true; mentioning it makes the verifier look inside Holds and Rests. */
  predicate Looked(f: File) { true }

  /** Open, and Settled, kept closed for the verifier. */
  ghost predicate Holds(b: Blocks, rest: multiset<LogAddr>, f: File) {
    && BlocksOk(b) && Shaped(b, f) && f.offset >= 0
    && forall g {:trigger Looked(g)} :: Looked(g) && g == f ==> Open(b, rest, g)
  }

  ghost predicate Rests(b: Blocks, rest: multiset<LogAddr>, f: File) {
    forall g {:trigger Looked(g)} :: Looked(g) && g == f ==> Settled(b, rest, g)
  }

  lemma LookOpen(b: Blocks, rest: multiset<LogAddr>, f: File)
    requires Holds(b, rest, f)
    ensures Open(b, rest, f)
  {
    assert Looked(f);
  }

  lemma LookSettled(b: Blocks, rest: multiset<LogAddr>, f: File)
    requires Rests(b, rest, f)
    ensures Settled(b, rest, f)
  {
    assert Looked(f);
  }

  /** The page that holds the data at a path, as the transaction sees it. */
  ghost function View(b: Blocks, f: File, l: Loc): Ref
    requires BlocksOk(b) && l.Ok() && Shaped(b, f)
  {
    if f.offset == 0 then Resolve(b, f.active.ino, l)
    else if f.offset > 0 && SameLeaf(Locate(f.offset), l) then (NotInline(f.offset, l); f.active.refs[LeafIndex(l)])
    else Resolve(b, InodeAt(b, f.ino), l)
  }

  lemma NotInline(off: nat, l: Loc)
    requires INDIRECT_OFFSET <= off
    ensures SameLeaf(Locate(off), l) ==> !l.InInode? && !l.Direct?
  {
  }

  lemma SameLeafRef(b: Blocks, ino: Inode, l: Loc, m: Loc)
    requires BlocksOk(b) && ino.Ok() && l.Ok() && m.Ok() && SameLeaf(l, m)
    ensures LeafRef(b, ino, l) == LeafRef(b, ino, m)
  {
  }

  /** How far into the active range an offset lies. */
  lemma WithinActive(fo: nat, off: nat)
    requires INDIRECT_OFFSET <= fo && IndirectStart(fo) == fo && InActive(off, fo)
    ensures fo + WithinIndirect(off - 5567) == off
  {
    assert InIndirects(off - 5567) == InIndirects(fo - 5567);
  }

  // ----- loading the buffer

  /** readIndirectToBuffer */
  function Loaded(b: Blocks, ino: Inode, off: nat): Blk
    requires BlocksOk(b) && ino.Ok() && off < MAX_FILE_SIZE
  {
    if off < INDIRECT_OFFSET then InodeBlk(ino)
    else (LocateOk(off); Entries(RefsAt(b, LeafRef(b, ino, Locate(off)))))
  }

  lemma StartIsStart(off: nat)
    requires INDIRECT_OFFSET <= off < MAX_FILE_SIZE
    ensures INDIRECT_OFFSET <= IndirectStart(off) <= off && IndirectStart(IndirectStart(off)) == IndirectStart(off)
    ensures SameLeaf(Locate(off), Locate(IndirectStart(off)))
    ensures Locate(off).Ok() && Locate(IndirectStart(off)).Ok()
  {
    LocateOk(off);
    LocateOk(IndirectStart(off));
    assert InIndirects(IndirectStart(off) - 5567) == InIndirects(off - 5567);
    ActiveIsSameLeaf(off, IndirectStart(off));
  }

  /** Loading a block changes neither the pages nor what any path leads to. */
  lemma LoadOk(b: Blocks, rest: multiset<LogAddr>, f: File, off: nat)
    requires BlocksOk(b) && Settled(b, rest, f) && f.ino.Some? && Within(rest, b) && off < MAX_FILE_SIZE
    ensures var g := f.(active := Loaded(b, InodeAt(b, f.ino), off), offset := IndirectStart(off));
            Open(b, rest, g)
  {
    if off < INDIRECT_OFFSET {
      PagesOfInode(b, f.ino, f.root);
    } else {
      LoadLeaf(b, rest, f, off);
    }
  }

  lemma PagesOfInode(b: Blocks, a: Ref, root: bool)
    requires BlocksOk(b) && IsInode(b, a)
    ensures InodePages(b, a, root) == Opt(a) + InodeUnder(b, InodeAt(b, a), root)
  {
  }

  lemma LoadLeaf(b: Blocks, rest: multiset<LogAddr>, f: File, off: nat)
    requires BlocksOk(b) && Settled(b, rest, f) && f.ino.Some? && Within(rest, b) && INDIRECT_OFFSET <= off < MAX_FILE_SIZE
    ensures var g := f.(active := Loaded(b, InodeAt(b, f.ino), off), offset := IndirectStart(off));
            g.offset != 0 && OpenAtLeaf(b, rest, g)
  {
    StartIsStart(off);
    var ino, w := InodeAt(b, f.ino), InodePages(b, f.ino, f.root);
    SameLeafRef(b, ino, Locate(off), Locate(IndirectStart(off)));
    var refs := RefsAt(b, LeafRef(b, ino, Locate(off)));
    RefsAtLength(b, LeafRef(b, ino, Locate(off)));
    WithinPart(w, rest, b);
    LeafKids(b, f.ino, Locate(off), f.root);
    WithinPart(UnderAll(b, refs, 0, f.root), w, b);
    TradeNothing(rest, f.rem, w, UnderAll(b, refs, 0, f.root));
  }

  lemma TradeNothing(rest: multiset<LogAddr>, rem: multiset<LogAddr>, w: multiset<LogAddr>, s: multiset<LogAddr>)
    requires rest == rem + w
    ensures Traded(rest, rem + w, multiset{}, multiset{}, s, s)
  {
  }

  lemma LeafKids(b: Blocks, a: Ref, l: Loc, root: bool)
    requires BlocksOk(b) && IsInode(b, a) && l.Ok() && !l.InInode? && !l.Direct?
    ensures UnderAll(b, RefsAt(b, LeafRef(b, InodeAt(b, a), l)), 0, root) <= InodePages(b, a, root)
  {
    LeafWithin(b, InodeAt(b, a), l, root);
    PagesOfInode(b, a, root);
  }

  lemma LoadView(b: Blocks, f: File, off: nat, l: Loc)
    requires BlocksOk(b) && IsInode(b, f.ino) && off < MAX_FILE_SIZE && l.Ok()
    ensures IndirectStart(off) < MAX_FILE_SIZE
    ensures var g := f.(active := Loaded(b, InodeAt(b, f.ino), off), offset := IndirectStart(off));
            && (g.offset > 0 ==> g.offset >= INDIRECT_OFFSET && |g.active.refs| == REFS_PER_BLOCK)
            && View(b, g, l) == Resolve(b, InodeAt(b, f.ino), l)
  {
    if INDIRECT_OFFSET <= off {
      StartIsStart(off);
      var ino := InodeAt(b, f.ino);
      RefsAtLength(b, LeafRef(b, ino, Locate(off)));
      if SameLeaf(Locate(IndirectStart(off)), l) {
        SameLeafRef(b, ino, Locate(off), l);
        NotInline(off, l);
        ResolveIsLeaf(b, ino, l);
      }
    }
  }

  lemma WithinPart(m: multiset<LogAddr>, n: multiset<LogAddr>, b: Blocks)
    requires m <= n && Within(n, b)
    ensures Within(m, b)
  {
  }

  /** The pages of a path and below its last block are pages of the inode. */
  lemma LeafWithin(b: Blocks, ino: Inode, l: Loc, root: bool)
    requires BlocksOk(b) && ino.Ok() && l.Ok() && !l.InInode? && !l.Direct?
    ensures PathPages(b, ino, l) + UnderAll(b, RefsAt(b, LeafRef(b, ino, l)), 0, root) <= InodeUnder(b, ino, root)
  {
    match l
    case Indirect(_) =>
      UnderIs(b, ino.indirect, 1, root);
      InodeHas(b, ino, root, PathPages(b, ino, l) + UnderAll(b, RefsAt(b, LeafRef(b, ino, l)), 0, root));
    case Double(j, _) =>
      TwoWithin(b, ino.double, j, root);
      InodeHas(b, ino, root, PathPages(b, ino, l) + UnderAll(b, RefsAt(b, LeafRef(b, ino, l)), 0, root));
    case Triple(k, j, _) =>
      ThreeWithin(b, ino.triple, k, j, root);
      InodeHas(b, ino, root, PathPages(b, ino, l) + UnderAll(b, RefsAt(b, LeafRef(b, ino, l)), 0, root));
  }

  lemma InodeHas(b: Blocks, ino: Inode, root: bool, m: multiset<LogAddr>)
    requires m <= Under(b, ino.indirect, 1, root) || m <= Under(b, ino.double, 2, root) || m <= Under(b, ino.triple, 3, root)
    ensures m <= InodeUnder(b, ino, root)
  {
    SumHas(UnderAll(b, ino.direct, 0, root), Under(b, ino.indirect, 1, root), Under(b, ino.double, 2, root),
           Under(b, ino.triple, 3, root), m);
  }

  lemma SumHas(d: multiset<LogAddr>, i: multiset<LogAddr>, e: multiset<LogAddr>, t: multiset<LogAddr>, m: multiset<LogAddr>)
    requires m <= i || m <= e || m <= t
    ensures m <= d + i + e + t
  {
  }

  lemma ThreeWithin(b: Blocks, a: Ref, k: nat, j: nat, root: bool)
    requires BlocksOk(b) && k < REFS_PER_BLOCK && j < REFS_PER_BLOCK
    ensures Opt(a) + (Opt(RefAt(b, a, k)) + Opt(RefAt(b, RefAt(b, a, k), j)))
         + UnderAll(b, RefsAt(b, RefAt(b, RefAt(b, a, k), j)), 0, root) <= Under(b, a, 3, root)
  {
    RefsAtLength(b, a);
    UnderIs(b, a, 3, root);
    EntryWithin(b, RefsAt(b, a), k, 2, root);
    TwoWithin(b, RefAt(b, a, k), j, root);
    Nested(Opt(a), Opt(RefAt(b, a, k)) + Opt(RefAt(b, RefAt(b, a, k), j)),
           UnderAll(b, RefsAt(b, RefAt(b, RefAt(b, a, k), j)), 0, root), Under(b, RefAt(b, a, k), 2, root),
           UnderAll(b, RefsAt(b, a), 2, root), Under(b, a, 3, root));
  }

  lemma Nested(o: multiset<LogAddr>, p: multiset<LogAddr>, s: multiset<LogAddr>, u: multiset<LogAddr>,
               e: multiset<LogAddr>, w: multiset<LogAddr>)
    requires p + s <= u && u <= e && w == o + e
    ensures o + p + s <= w
  {
    forall a ensures (o + p + s)[a] <= w[a] { assert (p + s)[a] <= u[a] <= e[a]; }
  }

  lemma TwoWithin(b: Blocks, a: Ref, j: nat, root: bool)
    requires BlocksOk(b) && j < REFS_PER_BLOCK
    ensures Opt(a) + Opt(RefAt(b, a, j)) + UnderAll(b, RefsAt(b, RefAt(b, a, j)), 0, root) <= Under(b, a, 2, root)
  {
    RefsAtLength(b, a);
    UnderIs(b, a, 2, root);
    EntryWithin(b, RefsAt(b, a), j, 1, root);
    UnderIs(b, RefAt(b, a, j), 1, root);
    Nested(Opt(a), Opt(RefAt(b, a, j)), UnderAll(b, RefsAt(b, RefAt(b, a, j)), 0, root),
           Under(b, RefAt(b, a, j), 1, root), UnderAll(b, RefsAt(b, a), 1, root), Under(b, a, 2, root));
  }

  // ----- writing an entry of the buffer

  /** The buffer's entry for the block at off. */
  function EntryAt(f: File, off: nat): Ref
    requires INODE_DATA_SIZE <= off < ADDRESSABLE && InActive(off, f.offset)
    requires if f.offset == 0 then f.active.InodeBlk? && f.active.ino.Ok()
             else f.active.Entries? && |f.active.refs| == REFS_PER_BLOCK && INDIRECT_OFFSET <= f.offset
  {
    LocateOk(off);
    if f.offset == 0 then f.active.ino.direct[InBlocks(off - 447)] else f.active.refs[LeafEntry(off)]
  }

  function WithEntry(f: File, off: nat, r: Ref): File
    requires INODE_DATA_SIZE <= off < ADDRESSABLE && InActive(off, f.offset)
    requires if f.offset == 0 then f.active.InodeBlk? && f.active.ino.Ok()
             else f.active.Entries? && |f.active.refs| == REFS_PER_BLOCK && INDIRECT_OFFSET <= f.offset
  {
    LocateOk(off);
    if f.offset == 0 then
      var ino := f.active.ino;
      f.(active := InodeBlk(ino.(direct := ino.direct[InBlocks(off - 447) := r])))
    else f.(active := Entries(f.active.refs[LeafEntry(off) := r]))
  }

  /** Replacing an entry keeps the buffer in step with the pages. */
  lemma WithEntryOk(b: Blocks, rest: multiset<LogAddr>, f: File, off: nat, r: Ref, rest': multiset<LogAddr>)
    requires Open(b, rest, f) && INODE_DATA_SIZE <= off < ADDRESSABLE && InActive(off, f.offset)
    requires rest' + Under(b, EntryAt(f, off), 0, f.root) == rest + Under(b, r, 0, f.root)
    requires Within(Under(b, r, 0, f.root), b) && Within(rest', b)
    ensures Open(b, rest', WithEntry(f, off, r))
  {
    if f.offset == 0 {
      DirectEntry(b, f.active.ino, InBlocks(off - 447), r, f.root);
      DirectSums(rest, rest', f.rem, Opt(f.ino), InodeUnder(b, f.active.ino, f.root),
                 InodeUnder(b, WithEntry(f, off, r).active.ino, f.root),
                 Under(b, EntryAt(f, off), 0, f.root), Under(b, r, 0, f.root));
    } else {
      LocateOk(off);
      var refs, i := f.active.refs, LeafEntry(off);
      ReplaceEntry(b, refs, i, r, 0, f.root);
      LeafSumsAgain(rest, rest', f.rem + InodePages(b, f.ino, f.root), UnderAll(b, Stored(b, f), 0, f.root),
                    UnderAll(b, refs, 0, f.root), UnderAll(b, refs[i := r], 0, f.root),
                    Under(b, refs[i], 0, f.root), Under(b, r, 0, f.root));
      WithinSum(UnderAll(b, refs[i := r], 0, f.root), Under(b, refs[i], 0, f.root),
                UnderAll(b, refs, 0, f.root), Under(b, r, 0, f.root), b);
    }
  }

  lemma WithinSum(x: multiset<LogAddr>, u: multiset<LogAddr>, y: multiset<LogAddr>, v: multiset<LogAddr>, b: Blocks)
    requires x + u == y + v && Within(y, b) && Within(v, b)
    ensures Within(x, b)
  {
    forall a | a in x ensures a in b {
      assert a in x + u && (a in y || a in v);
    }
  }

  lemma DirectEntry(b: Blocks, ino: Inode, i: nat, r: Ref, root: bool)
    requires i < |ino.direct|
    ensures InodeUnder(b, ino.(direct := ino.direct[i := r]), root) + Under(b, ino.direct[i], 0, root)
         == InodeUnder(b, ino, root) + Under(b, r, 0, root)
  {
    ReplaceEntry(b, ino.direct, i, r, 0, root);
    FourSums(UnderAll(b, ino.direct[i := r], 0, root), UnderAll(b, ino.direct, 0, root),
             Under(b, ino.indirect, 1, root), Under(b, ino.double, 2, root), Under(b, ino.triple, 3, root),
             Under(b, ino.direct[i], 0, root), Under(b, r, 0, root));
  }

  lemma FourSums(d': multiset<LogAddr>, d: multiset<LogAddr>, i: multiset<LogAddr>, e: multiset<LogAddr>,
                 t: multiset<LogAddr>, u: multiset<LogAddr>, v: multiset<LogAddr>)
    requires d' + u == d + v
    ensures (d' + i + e + t) + u == (d + i + e + t) + v
  {
    forall a ensures ((d' + i + e + t) + u)[a] == ((d + i + e + t) + v)[a] { assert (d' + u)[a] == (d + v)[a]; }
  }

  lemma DirectSums(rest: multiset<LogAddr>, rest': multiset<LogAddr>, rem: multiset<LogAddr>, o: multiset<LogAddr>,
                   i: multiset<LogAddr>, i': multiset<LogAddr>, u: multiset<LogAddr>, v: multiset<LogAddr>)
    requires rest == rem + (o + i) && i' + u == i + v && rest' + u == rest + v
    ensures rest' == rem + (o + i')
  {
    forall a ensures rest'[a] == (rem + (o + i'))[a] {
      assert (i' + u)[a] == (i + v)[a] && (rest' + u)[a] == (rest + v)[a];
    }
  }

  lemma LeafSumsAgain(rest: multiset<LogAddr>, rest': multiset<LogAddr>, w: multiset<LogAddr>, s: multiset<LogAddr>,
                      k: multiset<LogAddr>, k': multiset<LogAddr>, u: multiset<LogAddr>, v: multiset<LogAddr>)
    requires Traded(rest, w, multiset{}, multiset{}, s, k) && k' + u == k + v && rest' + u == rest + v
    ensures Traded(rest', w, multiset{}, multiset{}, s, k')
  {
    forall a ensures rest'[a] + s[a] == w[a] + k'[a] {
      assert Any(a);
      assert (k' + u)[a] == (k + v)[a] && (rest' + u)[a] == (rest + v)[a];
    }
  }

  /** The written block leads to its new page, every other block to the same
      page as before. */
  lemma WithEntryView(b: Blocks, rest: multiset<LogAddr>, f: File, off: nat, r: Ref, l: Loc)
    requires Open(b, rest, f) && INODE_DATA_SIZE <= off < ADDRESSABLE && InActive(off, f.offset) && l.Ok()
    ensures View(b, WithEntry(f, off, r), l) == if l == Locate(off) then r else View(b, f, l)
  {
    LocateOk(off);
    if f.offset == 0 {
      DirectEntryView(b, f.active.ino, off, r, l);
    } else {
      LeafEntryView(b, f, off, r, l);
    }
  }

  lemma LeafEntryView(b: Blocks, f: File, off: nat, r: Ref, l: Loc)
    requires BlocksOk(b) && IsInode(b, f.ino) && INDIRECT_OFFSET <= f.offset < MAX_FILE_SIZE && l.Ok()
    requires f.active.Entries? && |f.active.refs| == REFS_PER_BLOCK && IndirectStart(f.offset) == f.offset
    requires INODE_DATA_SIZE <= off < ADDRESSABLE && InActive(off, f.offset)
    ensures View(b, WithEntry(f, off, r), l) == if l == Locate(off) then r else View(b, f, l)
  {
    LocateOk(off);
    ActiveIsSameLeaf(f.offset, off);
    NotInline(f.offset, Locate(off));
    SameEntry(Locate(f.offset), Locate(off), l);
    assert LeafIndex(Locate(off)) == LeafEntry(off);
    if SameLeaf(Locate(f.offset), l) { NotInline(f.offset, l); }
  }

  lemma DirectEntryView(b: Blocks, ino: Inode, off: nat, r: Ref, l: Loc)
    requires BlocksOk(b) && ino.Ok() && INODE_DATA_SIZE <= off < INDIRECT_OFFSET && l.Ok() && Locate(off).Ok()
    ensures Resolve(b, ino.(direct := ino.direct[InBlocks(off - 447) := r]), l)
         == if l == Locate(off) then r else Resolve(b, ino, l)
  {
  }

  lemma SameEntry(p: Loc, m: Loc, l: Loc)
    requires !p.InInode? && !p.Direct? && SameLeaf(p, m)
    ensures l == m <==> SameLeaf(p, l) && LeafIndex(l) == LeafIndex(m)
  {
  }

  // ----- more pages

  lemma StillWithin(m: multiset<LogAddr>, b: Blocks, b': Blocks)
    requires Within(m, b) && Extends(b, b')
    ensures Within(m, b') && SameOn(m, b, b')
  {
  }

  /** New pages do not disturb the file. */
  lemma GrowOk(b: Blocks, b': Blocks, rest: multiset<LogAddr>, f: File)
    requires Open(b, rest, f) && Extends(b, b') && BlocksOk(b')
    ensures Open(b', rest, f)
  {
    if f.offset == 0 {
      WithinPart(InodeUnder(b, f.active.ino, f.root), rest, b);
      StillWithin(InodeUnder(b, f.active.ino, f.root), b, b');
      InodeUnderFrame(b, b', f.active.ino, f.root);
    } else {
      StillWithin(InodePages(b, f.ino, f.root), b, b');
      StillWithin(UnderAll(b, f.active.refs, 0, f.root), b, b');
      InodeFrame(b, b', f.ino, f.root);
      UnderAllFrame(b, b', f.active.refs, 0, f.root);
      StoredFrame(b, b', f);
    }
  }

  lemma StoredFrame(b: Blocks, b': Blocks, f: File)
    requires BlocksOk(b) && BlocksOk(b') && IsInode(b, f.ino) && INDIRECT_OFFSET <= f.offset < MAX_FILE_SIZE
    requires SameOn(InodePages(b, f.ino, f.root), b, b')
    ensures IsInode(b', f.ino) && InodeAt(b', f.ino) == InodeAt(b, f.ino) && Stored(b', f) == Stored(b, f)
    ensures UnderAll(b', Stored(b, f), 0, f.root) == UnderAll(b, Stored(b, f), 0, f.root)
  {
    LocateOk(f.offset);
    InodeKept(b, b', f.ino, f.root);
    LeafKept(b, b', InodeAt(b, f.ino), Locate(f.offset), f.root);
  }

  lemma InodeKept(b: Blocks, b': Blocks, a: Ref, root: bool)
    requires BlocksOk(b) && BlocksOk(b') && IsInode(b, a) && SameOn(InodePages(b, a, root), b, b')
    ensures IsInode(b', a) && InodeAt(b', a) == InodeAt(b, a)
    ensures SameOn(InodeUnder(b, InodeAt(b, a), root), b, b')
  {
    assert a.value in InodePages(b, a, root);
    SameParts(multiset{a.value}, InodeUnder(b, InodeAt(b, a), root), b, b');
  }

  lemma LeafKept(b: Blocks, b': Blocks, ino: Inode, l: Loc, root: bool)
    requires BlocksOk(b) && BlocksOk(b') && ino.Ok() && l.Ok() && !l.InInode? && !l.Direct?
    requires SameOn(InodeUnder(b, ino, root), b, b')
    ensures LeafRef(b', ino, l) == LeafRef(b, ino, l) && RefsAt(b', LeafRef(b, ino, l)) == RefsAt(b, LeafRef(b, ino, l))
    ensures UnderAll(b', RefsAt(b, LeafRef(b, ino, l)), 0, root) == UnderAll(b, RefsAt(b, LeafRef(b, ino, l)), 0, root)
  {
    ResolveFrame(b, b', ino, l, root);
    LeafWithin(b, ino, l, root);
    UnderAllFrame(b, b', RefsAt(b, LeafRef(b, ino, l)), 0, root);
  }

  // ----- committing the inode

  /** The inode and the index pages on the path are still current, so they can
      be voted. */
  lemma PathInRest(b: Blocks, rest: multiset<LogAddr>, f: File)
    requires Open(b, rest, f) && f.offset > 0
    ensures Locate(f.offset).Ok()
    ensures PathPages(b, InodeAt(b, f.ino), Locate(f.offset)) + Opt(f.ino) <= rest
  {
    LocateOk(f.offset);
    NotInline(f.offset, Locate(f.offset));
    var ino, l := InodeAt(b, f.ino), Locate(f.offset);
    LeafWithin(b, ino, l, f.root);
    PathSums(rest, f.rem, Opt(f.ino), InodeUnder(b, ino, f.root), PathPages(b, ino, l),
             UnderAll(b, Stored(b, f), 0, f.root), UnderAll(b, f.active.refs, 0, f.root), InodePages(b, f.ino, f.root));
  }

  lemma PathSums(rest: multiset<LogAddr>, rem: multiset<LogAddr>, o: multiset<LogAddr>, u: multiset<LogAddr>,
                 p: multiset<LogAddr>, s: multiset<LogAddr>, k: multiset<LogAddr>, w: multiset<LogAddr>)
    requires Traded(rest, rem + w, multiset{}, multiset{}, s, k) && w == o + u && p + s <= u
    ensures p + o <= rest
  {
    forall a ensures (p + o)[a] <= rest[a] {
      assert Any(a) && (p + s)[a] <= u[a];
    }
  }

  lemma RefsKept(b: Blocks, b': Blocks, r: Ref)
    requires Extends(b, b') && (r.Some? ==> r.value in b)
    ensures RefsAt(b', r) == RefsAt(b, r)
  {
  }

  lemma OptIn(r: Ref, m: multiset<LogAddr>, b: Blocks)
    requires Opt(r) <= m && Within(m, b)
    ensures r.Some? ==> r.value in b
  {
    assert r.Some? ==> r.value in Opt(r);
  }

  /** Later pages leave a copied path as it is. */
  lemma CopiedKept(b: Blocks, ino: Inode, l: Loc, buf: seq<Ref>, b1: Blocks, copy: Inode, b': Blocks)
    requires BlocksOk(b) && BlocksOk(b1) && BlocksOk(b') && ino.Ok() && copy.Ok() && l.Ok() && Extends(b1, b')
    requires CopiedPath(b, ino, l, buf, b1, copy) && Within(PathPages(b1, copy, l), b1)
    ensures CopiedPath(b, ino, l, buf, b', copy) && PathPages(b', copy, l) == PathPages(b1, copy, l)
  {
    var m := PathPages(b1, copy, l);
    match l
    case Indirect(_) =>
      OptIn(copy.indirect, m, b1);
      RefsKept(b1, b', copy.indirect);
    case Double(j, _) =>
      OptIn(copy.double, m, b1);
      OptIn(RefAt(b1, copy.double, j), m, b1);
      RefsKept(b1, b', copy.double);
      RefsKept(b1, b', RefAt(b1, copy.double, j));
    case Triple(k, j, _) =>
      OptIn(copy.triple, m, b1);
      OptIn(RefAt(b1, copy.triple, k), m, b1);
      OptIn(RefAt(b1, RefAt(b1, copy.triple, k), j), m, b1);
      RefsKept(b1, b', copy.triple);
      RefsKept(b1, b', RefAt(b1, copy.triple, k));
      RefsKept(b1, b', RefAt(b1, RefAt(b1, copy.triple, k), j));
    case _ =>
  }

  /** commitInode below the inode: the copied path and the new inode hold
      exactly the pages that were not voted. */
  lemma CommitOk(b: Blocks, rest: multiset<LogAddr>, f: File, b': Blocks, rest': multiset<LogAddr>, ino': Inode, a: LogAddr)
    requires Open(b, rest, f) && f.offset > 0 && Locate(f.offset).Ok() && Extends(b, b') && BlocksOk(b') && ino'.Ok()
    requires CopiedPath(b, InodeAt(b, f.ino), Locate(f.offset), f.active.refs, b', ino')
    requires a in b' && b'[a].InodeBlk? && b'[a].ino == ino'.(size := b'[a].ino.size)
    requires rest' + PathPages(b, InodeAt(b, f.ino), Locate(f.offset)) + Opt(f.ino)
          == rest + PathPages(b', ino', Locate(f.offset)) + multiset{a}
    ensures Settled(b', rest', f.(ino := Some(a)))
  {
    var ino, l := InodeAt(b, f.ino), Locate(f.offset);
    CommitTrade(b, f, b', ino');
    SizeIrrelevant(b', ino', b'[a].ino.size, f.root);
    PagesOfInode(b, f.ino, f.root);
    PagesOfInode(b', Some(a), f.root);
    CommitSums(rest, rest', f.rem, Opt(f.ino), multiset{a}, InodeUnder(b, ino, f.root), InodeUnder(b', ino', f.root),
               PathPages(b, ino, l), PathPages(b', ino', l), UnderAll(b, Stored(b, f), 0, f.root),
               UnderAll(b, f.active.refs, 0, f.root), InodePages(b, f.ino, f.root));
  }

  lemma CommitTrade(b: Blocks, f: File, b': Blocks, ino': Inode)
    requires BlocksOk(b) && BlocksOk(b') && Extends(b, b') && ino'.Ok() && IsInode(b, f.ino)
    requires INDIRECT_OFFSET <= f.offset < MAX_FILE_SIZE && Locate(f.offset).Ok() && f.active.Entries?
    requires Within(InodePages(b, f.ino, f.root), b) && Within(UnderAll(b, f.active.refs, 0, f.root), b)
    requires CopiedPath(b, InodeAt(b, f.ino), Locate(f.offset), f.active.refs, b', ino')
    ensures Traded(InodeUnder(b', ino', f.root), InodeUnder(b, InodeAt(b, f.ino), f.root),
                   PathPages(b, InodeAt(b, f.ino), Locate(f.offset)), PathPages(b', ino', Locate(f.offset)),
                   UnderAll(b, Stored(b, f), 0, f.root), UnderAll(b, f.active.refs, 0, f.root))
  {
    var ino, l := InodeAt(b, f.ino), Locate(f.offset);
    PagesOfInode(b, f.ino, f.root);
    WithinPart(InodeUnder(b, ino, f.root), InodePages(b, f.ino, f.root), b);
    StillWithin(InodeUnder(b, ino, f.root), b, b');
    StillWithin(UnderAll(b, f.active.refs, 0, f.root), b, b');
    CopyConserves(b, ino, l, f.active.refs, b', ino', f.root);
    UnderAllFrame(b, b', f.active.refs, 0, f.root);
  }

  lemma SizeIrrelevant(b: Blocks, ino: Inode, n: nat, root: bool)
    ensures InodeUnder(b, ino.(size := n), root) == InodeUnder(b, ino, root)
  {
  }

  lemma CommitSums(rest: multiset<LogAddr>, rest': multiset<LogAddr>, rem: multiset<LogAddr>, o: multiset<LogAddr>,
                   n: multiset<LogAddr>, u: multiset<LogAddr>, u': multiset<LogAddr>, p: multiset<LogAddr>,
                   p': multiset<LogAddr>, s: multiset<LogAddr>, k: multiset<LogAddr>, w: multiset<LogAddr>)
    requires Traded(rest, rem + w, multiset{}, multiset{}, s, k) && w == o + u
    requires Traded(u', u, p, p', s, k) && rest' + p + o == rest + p' + n
    ensures rest' == rem + (n + u')
  {
    forall a ensures rest'[a] == (rem + (n + u'))[a] {
      assert Any(a) && (rest' + p + o)[a] == (rest + p' + n)[a];
    }
  }

  /** ... and every path leads where the transaction saw it lead. */
  lemma CommitView(b: Blocks, rest: multiset<LogAddr>, f: File, b': Blocks, ino': Inode, n: nat, l: Loc)
    requires Open(b, rest, f) && f.offset > 0 && Locate(f.offset).Ok() && Extends(b, b') && BlocksOk(b') && ino'.Ok()
    requires CopiedPath(b, InodeAt(b, f.ino), Locate(f.offset), f.active.refs, b', ino') && l.Ok()
    ensures Resolve(b', ino'.(size := n), l) == View(b, f, l)
  {
    var ino := InodeAt(b, f.ino);
    WithinPart(InodeUnder(b, ino, f.root), InodePages(b, f.ino, f.root), b);
    CopyResolves(b, ino, Locate(f.offset), f.active.refs, b', ino', l, f.root);
    assert Resolve(b', ino'.(size := n), l) == Resolve(b', ino', l);
  }

  /** commitInode when the buffer is the inode itself. */
  lemma CommitInline(b: Blocks, rest: multiset<LogAddr>, f: File, b': Blocks, rest': multiset<LogAddr>, a: LogAddr)
    requires Open(b, rest, f) && f.offset == 0 && Extends(b, b') && BlocksOk(b')
    requires a in b' && b'[a].InodeBlk? && b'[a].ino == f.active.ino.(size := b'[a].ino.size)
    requires rest' + Opt(f.ino) == rest + multiset{a}
    ensures Settled(b', rest', f.(ino := Some(a)))
  {
    var ino := f.active.ino;
    WithinPart(InodeUnder(b, ino, f.root), rest, b);
    StillWithin(InodeUnder(b, ino, f.root), b, b');
    InodeUnderFrame(b, b', ino, f.root);
    SizeIrrelevant(b', ino, b'[a].ino.size, f.root);
    PagesOfInode(b', Some(a), f.root);
    InlineSums(rest, rest', f.rem, Opt(f.ino), multiset{a}, InodeUnder(b, ino, f.root));
  }

  lemma CommitInlineView(b: Blocks, rest: multiset<LogAddr>, f: File, b': Blocks, n: nat, l: Loc)
    requires Open(b, rest, f) && f.offset == 0 && Extends(b, b') && BlocksOk(b') && l.Ok()
    ensures Resolve(b', f.active.ino.(size := n), l) == View(b, f, l)
  {
    var ino := f.active.ino;
    WithinPart(InodeUnder(b, ino, f.root), rest, b);
    StillWithin(InodeUnder(b, ino, f.root), b, b');
    ResolveFrame(b, b', ino, l, f.root);
    assert Resolve(b', ino.(size := n), l) == Resolve(b', ino, l);
  }

  lemma InlineSums(rest: multiset<LogAddr>, rest': multiset<LogAddr>, rem: multiset<LogAddr>, o: multiset<LogAddr>,
                   n: multiset<LogAddr>, u: multiset<LogAddr>)
    requires rest == rem + (o + u) && rest' + o == rest + n
    ensures rest' == rem + (n + u)
  {
    forall a ensures rest'[a] == (rem + (n + u))[a] { assert (rest' + o)[a] == (rest + n)[a]; }
  }

  // ----- entries and the pages they hold

  /** What lies below an entry of the buffer is current. */
  lemma EntryInRest(b: Blocks, rest: multiset<LogAddr>, f: File, off: nat)
    requires Open(b, rest, f) && INODE_DATA_SIZE <= off < ADDRESSABLE && InActive(off, f.offset)
    ensures Under(b, EntryAt(f, off), 0, f.root) <= rest
  {
    LocateOk(off);
    if f.offset == 0 {
      EntryWithin(b, f.active.ino.direct, InBlocks(off - 447), 0, f.root);
      DirectIn(b, f.active.ino, f.root);
    } else {
      EntryWithin(b, f.active.refs, LeafEntry(off), 0, f.root);
      LocateOk(f.offset);
      NotInline(f.offset, Locate(f.offset));
      LeafKids(b, f.ino, Locate(f.offset), f.root);
      KidsIn(rest, f.rem, InodePages(b, f.ino, f.root), UnderAll(b, Stored(b, f), 0, f.root), UnderAll(b, f.active.refs, 0, f.root));
    }
  }

  lemma DirectIn(b: Blocks, ino: Inode, root: bool)
    ensures UnderAll(b, ino.direct, 0, root) <= InodeUnder(b, ino, root)
  {
  }

  lemma KidsIn(rest: multiset<LogAddr>, rem: multiset<LogAddr>, w: multiset<LogAddr>, s: multiset<LogAddr>, k: multiset<LogAddr>)
    requires Traded(rest, rem + w, multiset{}, multiset{}, s, k) && s <= w
    ensures k <= rest
  {
    forall a ensures k[a] <= rest[a] { assert Any(a) && s[a] <= w[a]; }
  }

  /** The pages of a file are pages of the inode0 that lists it. */
  lemma FileInRoot(b: Blocks, root: Ref, l: Loc)
    requires BlocksOk(b) && IsInode(b, root) && l.Ok() && !l.InInode?
    ensures InodePages(b, Resolve(b, InodeAt(b, root), l), false) <= InodePages(b, root, true)
  {
    var ino := InodeAt(b, root);
    PagesOfInode(b, root, true);
    if l.Direct? {
      EntryWithin(b, ino.direct, l.i, 0, true);
      DirectIn(b, ino, true);
    } else {
      ResolveIsLeaf(b, ino, l);
      RefsAtLength(b, LeafRef(b, ino, l));
      LeafKids(b, root, l, true);
      EntryWithin(b, RefsAt(b, LeafRef(b, ino, l)), LeafIndex(l), 0, true);
    }
  }

  // ----- the same facts, kept closed

  lemma HeldLoad(b: Blocks, rest: multiset<LogAddr>, f: File, off: nat)
    requires BlocksOk(b) && Rests(b, rest, f) && IsInode(b, f.ino) && Within(rest, b) && off < MAX_FILE_SIZE
    ensures Holds(b, rest, f.(active := Loaded(b, InodeAt(b, f.ino), off), offset := IndirectStart(off)))
    ensures InActive(off, IndirectStart(off))
  {
    LookSettled(b, rest, f);
    LoadOk(b, rest, f, off);
    LoadView(b, f, off, InInode);
    if INDIRECT_OFFSET <= off { StartIsStart(off); }
  }

  lemma HeldEntry(b: Blocks, rest: multiset<LogAddr>, f: File, off: nat)
    requires Holds(b, rest, f) && INODE_DATA_SIZE <= off < ADDRESSABLE && InActive(off, f.offset)
    ensures Under(b, EntryAt(f, off), 0, f.root) <= rest
    ensures Shaped(b, WithEntry(f, off, None))
  {
    LookOpen(b, rest, f);
    EntryInRest(b, rest, f, off);
  }

  /** A new page r in place of the entry's old page, and other pages besides. */
  lemma HeldPut(b: Blocks, rest: multiset<LogAddr>, f: File, off: nat, r: Ref, b': Blocks, rest': multiset<LogAddr>)
    requires Holds(b, rest, f) && INODE_DATA_SIZE <= off < ADDRESSABLE && InActive(off, f.offset)
    requires Extends(b, b') && BlocksOk(b') && Within(rest', b') && Within(Under(b', r, 0, f.root), b')
    requires rest' + Under(b', EntryAt(f, off), 0, f.root) == rest + Under(b', r, 0, f.root)
    ensures Holds(b', rest', WithEntry(f, off, r))
  {
    LookOpen(b, rest, f);
    GrowOk(b, b', rest, f);
    WithEntryOk(b', rest, f, off, r, rest');
  }

  lemma HeldShape(b: Blocks, rest: multiset<LogAddr>, f: File, off: nat, r: Ref, b': Blocks)
    requires Holds(b, rest, f) && INODE_DATA_SIZE <= off < ADDRESSABLE && InActive(off, f.offset)
    requires Extends(b, b') && BlocksOk(b')
    ensures Shaped(b', f) && Shaped(b', WithEntry(f, off, r))
  {
  }

  /** Only the written block leads somewhere else. */
  lemma HeldView(b: Blocks, rest: multiset<LogAddr>, f: File, off: nat, r: Ref, b': Blocks, l: Loc)
    requires Holds(b, rest, f) && INODE_DATA_SIZE <= off < ADDRESSABLE && InActive(off, f.offset)
    requires Extends(b, b') && BlocksOk(b') && l.Ok()
    ensures Shaped(b', WithEntry(f, off, r))
    ensures View(b', WithEntry(f, off, r), l) == if l == Locate(off) then r else View(b, f, l)
  {
    HeldShape(b, rest, f, off, r, b');
    OpenViews(b, rest, f, off, r, b', l);
  }

  lemma OpenViews(b: Blocks, rest: multiset<LogAddr>, f: File, off: nat, r: Ref, b': Blocks, l: Loc)
    requires Holds(b, rest, f) && INODE_DATA_SIZE <= off < ADDRESSABLE && InActive(off, f.offset)
    requires Extends(b, b') && BlocksOk(b') && l.Ok() && Shaped(b', f) && Shaped(b', WithEntry(f, off, r))
    ensures View(b', f, l) == View(b, f, l)
    ensures View(b', WithEntry(f, off, r), l) == if l == Locate(off) then r else View(b', f, l)
  {
    LookOpen(b, rest, f);
    GrowOk(b, b', rest, f);
    ViewFrame(b, b', rest, f, l);
    WithEntryView(b', rest, f, off, r, l);
  }

  lemma ViewFrame(b: Blocks, b': Blocks, rest: multiset<LogAddr>, f: File, l: Loc)
    requires Open(b, rest, f) && Extends(b, b') && BlocksOk(b') && l.Ok() && Shaped(b, f) && Shaped(b', f)
    ensures View(b', f, l) == View(b, f, l)
  {
    var ino := if f.offset == 0 then f.active.ino else InodeAt(b, f.ino);
    if f.offset == 0 {
      WithinPart(InodeUnder(b, ino, f.root), rest, b);
    } else {
      PagesOfInode(b, f.ino, f.root);
      WithinPart(InodeUnder(b, ino, f.root), InodePages(b, f.ino, f.root), b);
    }
    StillWithin(InodeUnder(b, ino, f.root), b, b');
    ResolveFrame(b, b', ino, l, f.root);
  }

  lemma LoadSame(b: Blocks, f: File, off: nat)
    requires BlocksOk(b) && IsInode(b, f.ino) && off < MAX_FILE_SIZE
    ensures var g := f.(active := Loaded(b, InodeAt(b, f.ino), off), offset := IndirectStart(off));
            Shaped(b, g) && forall l: Loc :: l.Ok() ==> View(b, g, l) == Resolve(b, InodeAt(b, f.ino), l)
  {
    var g := f.(active := Loaded(b, InodeAt(b, f.ino), off), offset := IndirectStart(off));
    LoadView(b, f, off, InInode);
    if INDIRECT_OFFSET <= off { StartIsStart(off); }
    forall l: Loc | l.Ok() ensures View(b, g, l) == Resolve(b, InodeAt(b, f.ino), l) {
      LoadView(b, f, off, l);
    }
  }
}

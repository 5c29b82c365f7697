/** A fresh file system on an erased flash: where every run of the store and of the recovery system
    begins. */
module Format {
  import opened Flash
  import opened FsIndex
  import opened FsTree
  import opened TxLedger
  import opened SeqState
  import opened SeqSteps
  import opened SeqCrash
  import opened SeqRoom
  import opened SeqWorld
  import opened Sequencing
  import opened Layers
  import R = Recovery

  // ----- the two inodes

  function NoDirect(): (r: seq<Ref>)
    ensures |r| == DIRECT_ENTRIES && forall i :: 0 <= i < |r| ==> r[i] == None
  {
    seq(DIRECT_ENTRIES, i => None)
  }

  /** setNewInode: no page is listed. */
  function NewInode(data: Block, size: nat): Inode {
    Inode(data, size, NoDirect(), None, None, None)
  }

  /** inode0 lists the root directory as file 1. */
  function RootInode(data: Block, dir: LogAddr): Inode {
    NewInode(data, INODE_DATA_SIZE + 512).(direct := NoDirect()[0 := Some(dir)])
  }

  lemma NothingListed(b: Blocks, data: Block, size: nat, root: bool)
    ensures InodeUnder(b, NewInode(data, size), root) == multiset{}
  {
    NothingUnder(b, NoDirect(), 0, root);
  }

  /** The tree of a fresh file system is its two inodes. */
  lemma FreshTree(b: Blocks, dir: LogAddr, root: LogAddr, i: Block, m: nat, j: Block)
    requires dir in b && b[dir] == InodeBlk(NewInode(i, m)) && root in b && b[root] == InodeBlk(RootInode(j, dir))
    ensures InodePages(b, Some(root), true) == multiset{root, dir}
  {
    NothingListed(b, i, m, false);
    assert InodePages(b, Some(dir), false) == multiset{dir};
    ReplaceEntry(b, NoDirect(), 0, Some(dir), 0, true);
    NothingUnder(b, NoDirect(), 0, true);
    assert Under(b, Some(dir), 0, true) == multiset{dir} && Under(b, NoDirect()[0], 0, true) == multiset{};
    hide InodePages, UnderAll, Under;
    var u := UnderAll(b, NoDirect()[0 := Some(dir)], 0, true);
    assert u == u + multiset{} == multiset{} + multiset{dir} == multiset{dir};
    RootUnder(b, dir, j);
    RootPages(b, root, RootInode(j, dir), dir);
  }

  lemma RootUnder(b: Blocks, dir: LogAddr, j: Block)
    requires UnderAll(b, NoDirect()[0 := Some(dir)], 0, true) == multiset{dir}
    ensures InodeUnder(b, RootInode(j, dir), true) == multiset{dir}
  {
    hide UnderAll;
  }

  lemma RootPages(b: Blocks, root: LogAddr, ino: Inode, dir: LogAddr)
    requires root in b && b[root] == InodeBlk(ino) && InodeUnder(b, ino, true) == multiset{dir}
    ensures InodePages(b, Some(root), true) == multiset{root, dir}
  {
    hide InodeUnder;
  }

  ghost function FreshDisk(dir: LogAddr, root: LogAddr, d: Inode, r: Inode): R.Disk {
    R.Disk(map[dir := InodeBlk(d), root := InodeBlk(r)], map[dir := None, root := Some(dir)], {})
  }

  lemma FirstOk(i: Block, m: nat, j: Block, dir: LogAddr)
    requires |i| == |j| == INODE_DATA_SIZE
    ensures BlkOk(InodeBlk(NewInode(i, m))) && BlkOk(InodeBlk(RootInode(j, dir)))
  {
  }

  lemma FreshParts(dir: LogAddr, root: LogAddr, i: Block, m: nat, j: Block)
    requires dir != root && |i| == |j| == INODE_DATA_SIZE
    ensures var k := FreshDisk(dir, root, NewInode(i, m), RootInode(j, dir));
      BlocksOk(k.blks) && k.Live() == {dir, root} && R.Tree(k, root) == multiset{root, dir}
  {
    FirstOk(i, m, j, dir);
    hide NewInode, RootInode, BlkOk, InodePages;
    FreshTree(FreshDisk(dir, root, NewInode(i, m), RootInode(j, dir)).blks, dir, root, i, m, j);
  }

  lemma TwoPageTree(k: R.Disk, dir: LogAddr, root: LogAddr, tids: nat)
    requires dir != root && BlocksOk(k.blks) && k.Live() == {dir, root} && R.Tree(k, root) == multiset{root, dir}
    ensures R.Inv(R.Sys(R.FirstSnap(k, root, tids), R.FirstSnap(k, root, tids), {}, R.Idle))
  {
    hide R.Inv, R.Tree, BlocksOk, R.FirstSnap;
    R.FirstInv(k, root, tids);
  }

  lemma FreshInv(dir: LogAddr, root: LogAddr, i: Block, m: nat, j: Block, tids: nat)
    requires dir != root && |i| == |j| == INODE_DATA_SIZE
    ensures var k := FreshDisk(dir, root, NewInode(i, m), RootInode(j, dir));
      R.Inv(R.Sys(R.FirstSnap(k, root, tids), R.FirstSnap(k, root, tids), {}, R.Idle))
  {
    FreshParts(dir, root, i, m, j);
    hide FreshDisk, NewInode, RootInode, BlocksOk, R.Tree, R.Inv, R.FirstSnap;
    TwoPageTree(FreshDisk(dir, root, NewInode(i, m), RootInode(j, dir)), dir, root, tids);
  }

  // ----- the pages

  lemma NeitherStored(m: Image)
    requires View(m) == map[] && ObsSet(m) == {}
    ensures forall a :: a in m ==> !Stored(m[a])
  {
    forall a | a in m ensures !Stored(m[a]) {
      assert a !in View(m) && a !in ObsSet(m);
    }
  }

  /** Of the image, only the two pages are stored. */
  ghost predicate TwoPages(m: Image, dir: LogAddr, p: Page, root: LogAddr, q: Page) {
    && dir != root && dir in m && root in m && m[dir] == p && m[root] == q && LivePage(p) && LivePage(q)
    && forall a :: a in m && Stored(m[a]) ==> a == dir || a == root
  }

  lemma TwoStored(m: Image, dir: LogAddr, p: Page, root: LogAddr, q: Page)
    requires dir in m && root in m && dir != root && LivePage(p) && LivePage(q)
    requires forall a :: a in m ==> !Stored(m[a])
    ensures TwoPages(m[dir := Bare(p)][root := Bare(q)], dir, Bare(p), root, Bare(q))
  {
  }

  lemma TwoKept(m: Image, n: Image, dir: LogAddr, p: Page, root: LogAddr, q: Page)
    requires TwoPages(m, dir, p, root, q) && Overwrites(m, n)
    ensures TwoPages(n, dir, p, root, q)
  {
  }

  lemma TwoShown(m: Image, reader: Reader, dir: LogAddr, p: Page, root: LogAddr, q: Page, d: Inode, r: Inode)
    requires TwoPages(m, dir, p, root, q) && p.prev == None && q.prev == Some(dir)
    requires reader.page(EntryOf(p)) == InodeBlk(d) && reader.page(EntryOf(q)) == InodeBlk(r)
    ensures Shows(m, reader, FreshDisk(dir, root, d, r))
  {
  }

  function PageFor(data: Block, prev: Ref): (p: Page)
    ensures LivePage(p) && !p.copied && EntryOf(p) == Entry(data, prev, false)
  {
    Used(data, prev, false, NotCp, false, false)
  }

  ghost predicate BothWritten(q: Sequencer, dirPage: Block, rootPage: LogAddr -> Block, dir: LogAddr, root: LogAddr)
    reads q
  {
    TwoPages(q.image, dir, Bare(PageFor(dirPage, None)), root, Bare(PageFor(rootPage(dir), Some(dir))))
  }

  /** One page; while the segment is being allocated and has room behind it for m more, the next
      position is the one after it. */
  method WriteThere(q: Sequencer, p: Page, cp: Writer, ghost m: nat) returns (st: Status, addr: LogAddr)
    requires q.Valid() && Ready(q.Snap(), q.claimed) && q.Counted() && q.Covering() && LivePage(p) && Writes(cp, q.g.cpPages) && m > 0
    modifies q, q.cells, q.segToSlot, q.counters
    ensures st.Ok? ==> q.Valid() && Ready(q.Snap(), q.claimed) && q.Counted() && q.Covering()
    ensures st.Ok? ==> addr in old(q.image) && !LivePage(old(q.image)[addr]) && q.image == old(q.image)[addr := Bare(p)]
    ensures RoomAt(q.g, old(q.Where()), 1 + m) ==> st.Ok? && Next(old(q.Where()), q.Where()) && Fitting(q.Contents().Keys, q.g, q.Where(), m)
  {
    hide Good, SeqState.Ready, View, LivePage, Bare, EndMark, Exact, Covers, Recl, AllFull, Seek, Fits, Here, Credit, Fitting, Next, RoomAt,
      Sequencer.Behind;
    PlainPage(q.g, p);
    ghost var k := q.Where();
    var written, moved;
    st, written, addr, moved := q.AllocAndWriteBlock(p, false, cp);
    RoomNotFull(q.g, k, 1 + m);
    if RoomAt(q.g, k, 1 + m) {
      WroteThere(q, q.Contents().Keys, k, st, q.Where(), m);
    }
  }

  /** The segment is being allocated and has room for m pages, and not every counter is at its
      maximum. */
  ghost predicate RoomAt(g: Geometry, k: Control, m: nat) {
    g.Valid() && k.Ok(g) && !k.recl && k.rec.off + m <= g.pages && !AllFull(g, k.counters)
  }

  ghost predicate Next(k: Control, k2: Control) {
    k2 == k.(rec := LogAddr(k.rec.seg, k.rec.off + 1))
  }

  ghost predicate Fitting(live: set<LogAddr>, g: Geometry, k: Control, m: nat) {
    g.Valid() && k.Ok(g) && k.rec.off < g.pages && Fits(live, g, k, m)
  }

  lemma RoomNotFull(g: Geometry, k: Control, m: nat)
    ensures RoomAt(g, k, m) ==> g.Valid() && k.Ok(g) && !AllFull(g, k.counters)
  {
  }

  lemma WroteThere(q: Sequencer, live: set<LogAddr>, k: Control, st: Status, k2: Control, m: nat)
    requires RoomAt(q.g, k, 1 + m) && m > 0 && k.rec.off < q.g.pages
    requires Seek(live, q.g, q.Behind(k), q.g.Segments()) == if st.Ok? then Some(k2) else None
    ensures st.Ok? && Next(k, k2) && Fitting(live, q.g, k2, m)
  {
    RoomBehind(live, q.g, q.Behind(k), m);
  }

  lemma RoomAfter(g: Geometry, k: Control, k2: Control, m: nat)
    requires RoomAt(g, k, m + 1) && Next(k, k2)
    ensures RoomAt(g, k2, m)
  {
  }

  /** The inodes of the root directory and of inode0, on an erased flash. */
  method WriteInodes(g: Geometry, cp: Writer, dirPage: Block, rootPage: LogAddr -> Block)
    returns (st: Status, q: Sequencer, dir: LogAddr, root: LogAddr)
    requires g.Valid() && g.Aligned() && Writes(cp, g.cpPages)
    ensures fresh(q) && fresh(q.cells) && fresh(q.counters) && fresh(q.segToSlot) && q.g == g
    ensures st.Ok? ==> q.Valid() && Ready(q.Snap(), q.claimed) && q.Counted() && q.Covering() && q.Where().Ok(g) && q.rec.off < g.pages
    ensures st.Ok? ==> BothWritten(q, dirPage, rootPage, dir, root)
    ensures g.Header() + 2 + g.cpPages <= g.pages ==> st.Ok?
    ensures g.Header() + 2 + g.cpPages <= g.pages ==> !AllFull(g, q.counters[..]) && Fitting(q.Contents().Keys, g, q.Where(), g.cpPages)
  {
    hide Good, SeqState.Ready, View, LivePage, Bare, Stored, TwoPages, EndMark, Exact, Covers, Recl, AllFull, ObsSet, Fitting, Next, RoomAt;
    q := new Sequencer(g, cp);
    NeitherStored(q.image);
    ghost var empty := q.image;
    ghost var room, k := g.Header() + 2 + g.cpPages <= g.pages, q.Where();
    FirstRoom(g, k);
    var p := PageFor(dirPage, None);
    st, dir := WriteThere(q, p, cp, 1 + g.cpPages);
    root := dir;
    if st.FlashFull? { return; }
    ghost var one, k1 := q.image, q.Where();
    if room { RoomAfter(g, k, k1, 1 + g.cpPages); }
    var p2 := PageFor(rootPage(dir), Some(dir));
    st, root := WriteThere(q, p2, cp, g.cpPages);
    if st.FlashFull? { return; }
    if room { RoomAfter(g, k1, q.Where(), g.cpPages); }
    RoomNotFull(g, q.Where(), g.cpPages);
    FreshPage(empty, one, dir, p, root);
    TwoStored(empty, dir, p, root, p2);
    Behave(q);
  }

  lemma Behave(q: Sequencer)
    requires q.Valid() && Ready(q.Snap(), q.claimed)
    ensures q.Where().Ok(q.g) && q.rec.off < q.g.pages
  {
    q.Bounds();
    q.ReadyPlace(q.Now());
  }

  /** handleNoFs on an erased flash: the root directory's inode, inode0 and a checkpoint. From there
      the store and the recovery system are in step, and their invariants hold. It succeeds when the
      first segment has room for two pages and a checkpoint. */
  method HandleNoFs(g: Geometry, blank: Writer, fs: LogAddr -> Writer, dirPage: Block, rootPage: LogAddr -> Block, ghost reader: Reader,
                    ghost i: Block, ghost m: nat, ghost j: Block, ghost tids: nat)
    returns (st: Status, q: Sequencer, root: LogAddr, ghost s: R.Sys)
    requires g.Valid() && g.Aligned() && Writes(blank, g.cpPages) && |i| == |j| == INODE_DATA_SIZE
    requires forall a: LogAddr :: Writes(fs(a), g.cpPages) && Saves(fs(a), reader, FreshFs(a, tids), g.cpPages)
    requires forall prev: Ref :: reader.page(Entry(dirPage, prev, false)) == InodeBlk(NewInode(i, m))
    requires forall a: LogAddr, prev: Ref :: reader.page(Entry(rootPage(a), prev, false)) == InodeBlk(RootInode(j, a))
    ensures fresh(q)
    ensures g.Header() + 2 + g.cpPages <= g.pages ==> st.Ok?
    ensures st.Ok? ==> q.Valid() && q.Counted() && q.Covering()
    ensures st.Ok? ==> Joined(q.image, q.durable, reader, s) && R.Inv(s) && s.phase.Idle? && s.ram.root == root && |s.ram.open| == tids
  {
    hide Good, SeqState.Ready, R.Inv, Overwrites, View, LivePage, Bare, Stored, TwoPages, Joined, EndMark, Exact, Covers, Recl, AllFull, Fits, ObsSet,
      ReadsAs, Saves, Taken, FreshFs, NewInode, RootInode, BlkOk, FreshDisk, R.FirstSnap, Credit;
    var dir;
    st, q, dir, root := WriteInodes(g, blank, dirPage, rootPage);
    s := R.Sys(R.FirstSnap(R.Disk(map[], map[], {}), q.rec, 0), R.FirstSnap(R.Disk(map[], map[], {}), q.rec, 0), {}, R.Idle);
    if st.FlashFull? { return; }
    ghost var two, p, p2 := q.image, PageFor(dirPage, None), PageFor(rootPage(dir), Some(dir));
    var cp := fs(root);
    st := q.Commit(cp);
    if st.Ok? {
      ReadsSaved(cp, reader, FreshFs(root, tids), g.cpPages, q.durable);
      TwoKept(two, q.image, dir, Bare(p), root, Bare(p2));
      s := Started(q.image, q.durable, reader, dir, p, root, p2, i, m, j, tids);
    }
  }

  lemma FirstRoom(g: Geometry, k: Control)
    requires g.Valid() && k == Control(LogAddr(0, g.Header()), 1, false, FirstCounters(g).perSeg)
    ensures g.Header() + 2 + g.cpPages <= g.pages ==> RoomAt(g, k, 2 + g.cpPages)
  {
    ZeroNotFull(g, k.counters);
  }

  lemma RoomBehind(live: set<LogAddr>, g: Geometry, k: Control, m: nat)
    requires g.Valid() && k.rec.seg < k.nSegs <= g.Segments() <= |k.counters| && g.Header() <= k.rec.off && !k.recl && m > 0
    ensures k.rec.off + m <= g.pages ==> k.Ok(g) && k.rec.off < g.pages && Seek(live, g, k, g.Segments()) == Some(k) && Fits(live, g, k, m)
  {
    if k.rec.off + m <= g.pages {
      SeekNext(live, g, k);
      FitsInSegment(live, g, k, m);
    }
  }

  lemma PlainPage(g: Geometry, p: Page)
    requires LivePage(p)
    ensures p.Used? && !p.obs && p.cp.NotCp? && Credit(p) == 0 && p.cp != EndMark(g)
  {
  }

  /** The second page cannot take the place of the first. */
  lemma FreshPage(m: Image, n: Image, dir: LogAddr, p: Page, root: LogAddr)
    requires dir in m && LivePage(p) && n == m[dir := Bare(p)] && root in n && !LivePage(n[root])
    ensures root != dir && root in m
  {
  }

  lemma Started(img: Image, d: Durable, reader: Reader, dir: LogAddr, p: Page, root: LogAddr, q: Page,
                i: Block, m: nat, j: Block, tids: nat) returns (s: R.Sys)
    requires LivePage(p) && LivePage(q) && TwoPages(img, dir, Bare(p), root, Bare(q)) && p.prev == None && q.prev == Some(dir)
    requires d.image == img && d.marks == {} && |i| == |j| == INODE_DATA_SIZE && ReadsAs(reader, d, FreshFs(root, tids))
    requires reader.page(EntryOf(p)) == InodeBlk(NewInode(i, m)) && reader.page(EntryOf(q)) == InodeBlk(RootInode(j, dir))
    ensures Joined(img, d, reader, s) && R.Inv(s) && s.phase.Idle? && s.ram.root == root && |s.ram.open| == tids
  {
    var k := FreshDisk(dir, root, NewInode(i, m), RootInode(j, dir));
    TwoShown(img, reader, dir, Bare(p), root, Bare(q), NewInode(i, m), RootInode(j, dir));
    FreshInv(dir, root, i, m, j, tids);
    hide R.Inv, Shows, ReadsAs;
    s := R.Sys(R.FirstSnap(k, root, tids), R.FirstSnap(k, root, tids), {}, R.Idle);
    assert FsOf(s.dur).open == FreshFs(root, tids).open;
  }

  /** No transaction has written anything. */
  function FreshFs(root: LogAddr, tids: nat): FsState {
    FsState(root, None, seq(tids, i => None))
  }
}

/** Runs from an erased flash that end badly: stored pages cannot be read, or pages are lost, or
    space is. */
module Incidents {
  import opened Flash
  import opened SeqState
  import opened SeqSteps
  import opened SeqCrash
  import opened SeqTurn
  import opened SeqWorld
  import opened SeqRoom
  import opened Sequencing

  /** Two data segments with room for two pages each. */
  const TWO_SEGMENTS := Geometry(4, 1, 4, 4, 1, 1)

  const A := LogAddr(0, 2)
  const B := LogAddr(0, 3)
  const C := LogAddr(1, 2)
  const D := LogAddr(1, 3)

  const NO_COUNTS := [0, 0, 0, 0]

  predicate Plain(p: Page) { p.Used? && p.cp.NotCp? && !p.obs }

  lemma PlainEnds(p: Page)
    requires Plain(p)
    ensures p.cp != EndMark(TWO_SEGMENTS) && Credit(p) == 0 && EntryOf(Bare(p)) == EntryOf(p)
  {
  }

  lemma NoneFull()
    ensures TWO_SEGMENTS.Valid() && TWO_SEGMENTS.Aligned() && TWO_SEGMENTS.Segments() == 2 && TWO_SEGMENTS.Header() == 2
    ensures !AllFull(TWO_SEGMENTS, NO_COUNTS) && !AllFull(TWO_SEGMENTS, [1, 0, 0, 0])
  {
    assert NO_COUNTS[0] != 4 && [1, 0, 0, 0][0] != 4;
  }

  /** Where the search ends while segments are allocated. */
  lemma Allocating(live: set<LogAddr>)
    ensures var g := TWO_SEGMENTS;
      && Seek(live, g, Control(B, 1, false, NO_COUNTS), 2) == Some(Control(B, 1, false, NO_COUNTS))
      && Seek(live, g, Control(LogAddr(0, 4), 1, false, NO_COUNTS), 2) == Some(Control(C, 2, false, NO_COUNTS))
      && Seek(live, g, Control(D, 2, false, NO_COUNTS), 2) == Some(Control(D, 2, false, NO_COUNTS))
      && !Here(live, g, Control(LogAddr(0, 4), 1, false, NO_COUNTS))
      && Here(live, g, Control(B, 1, false, NO_COUNTS)) && Here(live, g, Control(D, 2, false, NO_COUNTS))
  {
    NoneFull();
  }

  lemma FirstCounts()
    ensures FirstCounters(TWO_SEGMENTS).perSeg == NO_COUNTS
  {
  }

  /** Pages at A, B and C; the last checkpoint is the header between B and C. */
  method ThreePages(p: Page, cp: Writer) returns (q: Sequencer)
    requires Plain(p) && Writes(cp, 1)
    ensures fresh(q) && fresh(q.cells) && fresh(q.counters) && fresh(q.segToSlot)
    ensures q.Valid() && q.g == TWO_SEGMENTS && Ready(q.Snap(), q.claimed) && q.Counted() && q.Covering()
    ensures q.Where() == Control(D, 2, false, NO_COUNTS)
    ensures q.Contents() == map[A := EntryOf(p), B := EntryOf(p), C := EntryOf(p)]
    ensures q.durable == Durable(1, q.durable.image, {}, NO_COUNTS, q.durable.bytes)
    ensures |q.durable.bytes| == 1 && Taken(cp, q.durable.bytes, NO_COUNTS, 1)
    ensures View(q.durable.image) == map[A := EntryOf(p), B := EntryOf(p)]
  {
    hide Good, Exact, Covers, View, SeqState.Ready, Seek, Here, LivePage, EndMark, AllFull, Recl, Draft, NextBytes, Taken, After, MarkedAt;
    NoneFull();
    PlainEnds(p);
    FirstCounts();
    q := new Sequencer(TWO_SEGMENTS, cp);
    var st, written, addr, moved := q.AllocAndWriteBlock(p, false, cp);
    Allocating(q.Contents().Keys);
    st, written, addr, moved := q.AllocAndWriteBlock(p, false, cp);
    Allocating(q.Contents().Keys);
    ghost var d := q.durable;
    st, written, addr, moved := q.AllocAndWriteBlock(p, false, cp);
    Allocating(q.Contents().Keys);
  }

  // ----- a full flash with nothing to reclaim

  /** All four positions are filled and the next segment is asked for: the pages of the last segment
      no longer read back, although nothing was marked obsolete. */
  method FillBothSegments(p: Page, cp: Writer) returns (q: Sequencer)
    requires Plain(p) && Writes(cp, 1)
    ensures q.Stuck() && q.Contents() == map[A := EntryOf(p), B := EntryOf(p), C := EntryOf(p), D := EntryOf(p)]
    ensures forall a :: a in q.Contents() ==> (LivePage(PageAt(q.Snap(), a)) <==> a == A || a == B)
  {
    hide Good, Exact, Covers, View, SeqState.Ready, LivePage, EndMark, Recl, PageAt, Draft, NextBytes, Taken, After, MarkedAt, q.Saved;
    NoneFull();
    PlainEnds(p);
    q := ThreePages(p, cp);
    ghost var m := q.image;
    q.WritePage(p);
    WriteView(m, D, Bare(p));
    PlainLive(p);
    var st := q.MoveToNextSegment(cp);
    forall a | a in q.Contents() ensures LivePage(PageAt(q.Snap(), a)) <==> a == A || a == B {
      q.StuckReads(a);
    }
  }

  lemma PlainLive(p: Page)
    requires Plain(p)
    ensures LivePage(p) && Bare(p).cp.NotCp?
  {
  }

  // ----- a page copied forward, and a crash while the next segment is opened

  lemma Reclaiming()
    ensures var g, live := TWO_SEGMENTS, {A, C, D};
      && Seek(live, g, Control(LogAddr(1, 4), 2, false, [1, 0, 0, 0]), 2) == Some(Control(B, 2, true, NO_COUNTS))
      && !Here(live, g, Control(LogAddr(1, 4), 2, false, [1, 0, 0, 0]))
  {
    NoneFull();
    var g, live, c := TWO_SEGMENTS, {A, C, D}, [1, 0, 0, 0];
    BestUnique(g, c, 1, 0);
    assert c[0 := 0] == NO_COUNTS;
    assert NextFree(live, g, 0, 3) == 3;
    assert NextFree(live, g, 0, 2) == 3;
  }

  /** The page at B is marked, so that its segment is reclaimed when D is written: the page at A is
      copied forward. */
  method CopyForward(p: Page, cp: Writer) returns (q: Sequencer)
    requires Plain(p) && Writes(cp, 1)
    ensures fresh(q) && fresh(q.cells) && fresh(q.counters) && fresh(q.segToSlot)
    ensures q.Valid() && q.g == TWO_SEGMENTS && Ready(q.Snap(), q.claimed) && q.Counted() && q.Covering()
    ensures q.Where() == Control(B, 2, true, NO_COUNTS) && q.Saved(1, cp) && q.Contents().Keys == {A, C, D}
  {
    hide Good, Exact, Covers, View, SeqState.Ready, LivePage, Recl, PageAt, q.Saved;
    q := ThreePages(p, cp);
    MarkedAtB(q, p);
    q.MarkAsObsolete(B, false);
    assert NO_COUNTS[0 := 1] == [1, 0, 0, 0];
    assert q.Contents().Keys == {A, C};
    WriteAtD(q, p, cp);
  }

  method WriteAtD(q: Sequencer, p: Page, cp: Writer)
    requires q.Valid() && Plain(p) && Writes(cp, 1) && q.g == TWO_SEGMENTS && Ready(q.Snap(), q.claimed) && q.Counted() && q.Covering()
    requires q.Where() == Control(D, 2, false, [1, 0, 0, 0]) && q.Contents().Keys == {A, C}
    modifies q, q.cells, q.segToSlot, q.counters
    ensures q.Valid() && Ready(q.Snap(), q.claimed) && q.Counted() && q.Covering()
    ensures q.Where() == Control(B, 2, true, NO_COUNTS) && q.Saved(1, cp) && q.Contents().Keys == {A, C, D}
  {
    hide Good, Exact, Covers, View, SeqState.Ready, LivePage, EndMark, AllFull, Seek, Here, Recl, q.Saved, Draft,
      NextBytes, Taken, After, MarkedAt;
    NoneFull();
    PlainEnds(p);
    var st, written, addr, moved := q.AllocAndWriteBlock(p, false, cp);
    assert q.Contents().Keys == {A, C, D};
    Reclaiming();
  }

  /** Then the segment is filled. When power fails while the next segment is opened, the page at A is
      lost: it was stored before the last checkpoint and nobody marked it. */
  method CopyAndRetire(p: Page, cp: Writer) returns (q: Sequencer)
    requires Plain(p) && Writes(cp, 1)
    ensures q.Valid() && q.Counted() && q.Covering() && Core(q.Snap()) && Recl(q.Snap()) && q.rec.off == q.g.pages
    ensures A in q.Contents() && A in View(q.durable.image) && q.durable.marks == {}
    ensures DurableOk(q.Snap(), q.durable) && CopiedSince(q.Snap(), q.durable, A) && A !in View(WindowImage(q.Snap(), q.durable.off, 0))
    ensures !KeepsView(View(WindowImage(q.Snap(), q.durable.off, 0)), q.durable)
  {
    hide Good, Exact, Covers, View, SeqState.Ready, LivePage, EndMark, Recl, Core, DurableOk, CopiedSince, WindowImage,
      KeepsView, Draft, NextBytes, Taken, After, MarkedAt;
    NoneFull();
    PlainEnds(p);
    q := CopyForward(p, cp);
    ghost var m := q.image;
    q.WritePage(p);
    WriteView(m, B, Bare(p));
    PlainLive(p);
    Sequencer.EndsAt(q.Now());
    CopiedLost(q.Snap(), q.durable, A);
  }

  lemma MarkedAtB(q: Sequencer, p: Page)
    requires q.Valid() && Plain(p) && q.g == TWO_SEGMENTS && q.nSegs == 2
    requires q.Contents() == map[A := EntryOf(p), B := EntryOf(p), C := EntryOf(p)]
    ensures IsPos(q.g, A) && IsPos(q.g, B) && LivePage(PageAt(q.Snap(), B)) && LivePage(PageAt(q.Snap(), A))
  {
    q.ContentsAt(A);
    q.ContentsAt(B);
  }

  lemma CopiedLost(s: St, d: Durable, a: LogAddr)
    requires Core(s) && Recl(s) && s.rec.off == s.g.pages && DurableOk(s, d) && d.marks == {}
    requires a in View(d.image) && a.seg == s.rec.seg && a.off > d.off
    ensures CopiedSince(s, d, a) && a !in View(WindowImage(s, d.off, 0)) && !KeepsView(View(WindowImage(s, d.off, 0)), d)
  {
    hide Core, Recl, WindowImage, Rewound, KeepsView;
    DurableView(Rewound(s, d.off), d);
    ViewKept(View(Rewound(s, d.off)), d, a);
    TruncationWindow(s, d, 0);
  }

  lemma ViewKept(v: map<LogAddr, Entry>, d: Durable, a: LogAddr)
    requires KeepsView(v, d) && a in View(d.image) && a !in d.marks
    ensures a in v
  {
  }

  // ----- a mark that the counters forget

  predicate OnlyLast(c: seq<nat>) { |c| == 4 && c[0] == 0 }

  lemma NothingCounted(live: set<LogAddr>, c: seq<nat>)
    requires OnlyLast(c)
    ensures !AllFull(TWO_SEGMENTS, c)
    ensures Seek(live, TWO_SEGMENTS, Control(LogAddr(1, 4), 2, false, c), 2) == None
    ensures Seek(live, TWO_SEGMENTS, Control(C, 2, false, c), 2) == Some(Control(C, 2, false, c))
    ensures Seek(live, TWO_SEGMENTS, Control(D, 2, false, c), 2) == Some(Control(D, 2, false, c))
  {
    NoneFull();
  }

  /** Of one page that the writer wrote, the counters of the segments are loaded as they were. */
  ghost predicate Loads(load: seq<Block> -> Counters, cp: Writer) {
    forall c :: load(cp(c)).perSeg == c.perSeg
  }

  lemma LoadsTaken(load: seq<Block> -> Counters, cp: Writer, bytes: seq<Block>, perSeg: seq<nat>)
    requires Loads(load, cp) && |bytes| == 1 && Taken(cp, bytes, perSeg, 1)
    ensures load(bytes).perSeg == perSeg
  {
    var i := 0;
    assert i < |bytes| && bytes[i] == bytes[0];
    var c: Counters :| c.perSeg == perSeg && i < |cp(c)| == 1 && bytes[i] == cp(c)[i];
    assert bytes == cp(c);
  }

  /** The page at A is marked after the last checkpoint, and power fails. Boot finds the mark, and marks
      the page once more as it carries out the votes, but the counter of its segment stays at zero:
      when the other segment is filled again the flash is reported full although the page at A is
      obsolete. Without the crash its counter would be one (Reclaiming). */
  method ForgetMark(p: Page, cp: Writer, load: seq<Block> -> Counters) returns (q: Sequencer, st: Status)
    requires Plain(p) && Writes(cp, 1) && Loads(load, cp)
    ensures st.FlashFull? && A in q.image && ObsPage(q.image[A]) && A.seg != q.rec.seg && q.counters.Length == 4 && q.counters[0] == 0
  {
    hide Good, Exact, Covers, View, SeqState.Ready, LivePage, ObsPage, EndMark, AllFull, Seek, Here, Recl, PageAt,
      Draft, NextBytes, Taken, After, MarkedAt, q.Saved;
    NoneFull();
    PlainEnds(p);
    q := MarkAndCrash(p, cp, load);
    NothingCounted(q.Contents().Keys, NO_COUNTS);
    var moved;
    st, moved := q.FindNextFreePage(cp);
    ObsoleteThere(q, A);
    q.MarkAsObsolete(A, true);
    st := FillSegment(q, p, cp);
  }

  /** The mark is made, and power fails before the next checkpoint. */
  method MarkAndCrash(p: Page, cp: Writer, load: seq<Block> -> Counters) returns (q: Sequencer)
    requires Plain(p) && Writes(cp, 1) && Loads(load, cp)
    ensures fresh(q) && fresh(q.cells) && fresh(q.counters) && fresh(q.segToSlot)
    ensures q.Valid() && !q.claimed && q.g == TWO_SEGMENTS && q.Where() == Control(C, 2, false, NO_COUNTS)
    ensures A in q.image && ObsPage(q.image[A])
    ensures !q.Covering()
  {
    hide Good, Exact, Covers, View, SeqState.Ready, LivePage, EndMark, Recl, PageAt, KeepsDurable, SavedSuffice, Draft,
      NextBytes, Taken, After, MarkedAt;
    NoneFull();
    PlainEnds(p);
    q := ThreePages(p, cp);
    MarkedAtB(q, p);
    q.MarkAsObsolete(A, false);
    MarkedThere(q, q.image, A);
    ghost var d := q.durable;
    LoadsTaken(load, cp, q.durable.bytes, NO_COUNTS);
    var bytes := q.Boot(EndMark(q.g), load);
    NotSufficient(q.Snap(), q.image, d);
  }

  lemma NotSufficient(s: St, m: Image, d: Durable)
    requires Shape(s) && s.g == TWO_SEGMENTS && s.nSegs == 2 && s.rec.seg == 1 && KeepsDurable(m, d) && d.perSeg == NO_COUNTS
    requires A in m && ObsPage(m[A])
    ensures !SavedSuffice(s, m, d)
  {
    LostCount(m, d, 0, 4);
    assert 2 in ObsOffs(m, 0, 4);
    assert Reached(s, 0) == 4;
  }

  /** Two pages fill segment 1; then no other segment has a count. */
  method FillSegment(q: Sequencer, p: Page, cp: Writer) returns (st: Status)
    requires q.Valid() && Plain(p) && Writes(cp, 1) && q.g == TWO_SEGMENTS
    requires Ready(q.Snap(), q.claimed) && q.Where() == Control(C, 2, false, NO_COUNTS)
    requires A in q.image && ObsPage(q.image[A])
    modifies q, q.cells, q.segToSlot, q.counters
    ensures st.FlashFull? && A in q.image && ObsPage(q.image[A]) && A.seg != q.rec.seg && q.counters.Length == 4 && q.counters[0] == 0
  {
    hide Good, Exact, Covers, View, SeqState.Ready, LivePage, ObsPage, EndMark, Recl, Draft, NextBytes, Taken, After, MarkedAt, q.Saved;
    NoneFull();
    PlainEnds(p);
    WriteAtC(q, p, cp);
    q.WritePage(p);
    st := q.MoveToNextSegment(cp);
  }

  method WriteAtC(q: Sequencer, p: Page, cp: Writer)
    requires q.Valid() && Plain(p) && Writes(cp, 1) && q.g == TWO_SEGMENTS
    requires Ready(q.Snap(), q.claimed) && q.Where() == Control(C, 2, false, NO_COUNTS)
    modifies q, q.cells, q.segToSlot, q.counters
    ensures q.Valid() && Ready(q.Snap(), q.claimed) && q.Where() == Control(D, 2, false, NO_COUNTS)
    ensures C in old(q.image) && q.image == old(q.image)[C := Bare(p)]
  {
    hide Good, Exact, Covers, View, SeqState.Ready, LivePage, EndMark, AllFull, Seek, Here, Recl, Draft, NextBytes,
      Taken, After, MarkedAt, q.Saved, Bare;
    NoneFull();
    PlainEnds(p);
    NothingCounted(q.Contents().Keys, NO_COUNTS);
    var st, written, addr, moved := q.AllocAndWriteBlock(p, false, cp);
    NothingCounted(q.Contents().Keys, NO_COUNTS);
  }

  /** A mark in a segment that is not being written survives. */
  lemma MarkedThere(q: Sequencer, m: Image, a: LogAddr)
    requires q.Valid() && m == q.image && a in m && a.seg != q.rec.seg && IsPos(q.g, a)
    ensures a in q.Booted() && q.Booted()[a] == m[a]
  {
    Sequencer.EndsAt(q.Now());
    RewoundElsewhere(q.Snap(), q.durable.off, a);
  }

  lemma ObsoleteThere(q: Sequencer, a: LogAddr)
    requires q.Valid() && a in q.image && ObsPage(q.image[a])
    ensures IsPos(q.g, a) && ObsPage(PageAt(q.Snap(), a)) && a.seg < q.nSegs && a !in q.Contents()
  {
    Sequencer.EndsAt(q.Now());
  }

  // ----- a checkpoint on a full flash

  /** When every counter is at its maximum, commit() fails and leaves the free count one too high. */
  method CommitOnFull(q: Sequencer, cp: Writer) returns (st: Status)
    requires Writes(cp, 1) && q.Valid() && q.g == TWO_SEGMENTS && Ready(q.Snap(), q.claimed) && q.Counted() && AllFull(q.g, q.counters[..])
    modifies q, q.cells, q.segToSlot, q.counters
    ensures st.FlashFull? && q.Valid() && q.CountedBut(1) && !q.Counted()
  {
    hide Good, SeqState.Ready, Fits, Recl, View, Overwrites, Taken, q.Saved;
    ghost var w := q.Now();
    assert w.(c := w.c.(free := w.c.free - 0)) == w;
    st := q.Commit(cp);
    assert q.Now().(c := q.Now().c.(free := q.Now().c.free - 1)) == w;
    SameGood(w, q.Now());
  }

  lemma SameGood(w: World, v: World)
    requires Good(w) && v.s == w.s && v.claimed == w.claimed && v.d == w.d && v.image == w.image
    ensures Good(v)
  {
    Look(w);
  }

  const CHECKPOINT := Used([], None, false, CpFirst, false, false)

  function RowOf(p: Page, q: Page): seq<Cell>
    requires p.Used? && q.Used?
  {
    [Programmed(HEADER), Programmed(CHECKPOINT), Programmed(p), Programmed(q)]
  }

  /** Both segments are in use, with counters at their maximum: segment 0 is being reclaimed, its
      page at A was copied and its position B is claimed. */
  function FullState(p: Page): St
    requires Plain(p)
  {
    St(TWO_SEGMENTS,
       [RowOf(p, p.(obs := true)), RowOf(p, p), [Programmed(HEADER), Programmed(CHECKPOINT), Programmed(p), FreshCell],
        [FreshCell, FreshCell, FreshCell, FreshCell]],
       [0, 1, NO_SLOT, 3], B, 2, 2)
  }

  lemma FullCore(p: Page)
    requires Plain(p)
    ensures Core(FullState(p)) && Recl(FullState(p)) && EndOk(FullState(p), 1) && Holds(FullState(p), 1, [[]])
  {
    var s := FullState(p);
    assert forall i :: Mapped(s, i) <==> i == 0 || i == 1 || i == 3;
    assert FlagsOk(s);
    assert FullSlot(s, 0) && FullSlot(s, 1);
  }

  lemma FullImage(p: Page)
    requires Plain(p)
    ensures var s := FullState(p);
      && Core(s) && B in Logical(s) && ObsPage(Logical(s)[B])
      && forall a :: a in Logical(s) && a != B ==> LivePage(Logical(s)[a])
  {
    FullCore(p);
    var s := FullState(p);
    hide FlagsOk, PagesOk, AllocMap, SpareSlot;
    assert B in Positions(s.g);
    forall a | IsPos(s.g, a) && a != B ensures LivePage(CellAt(s, a).page) {
      assert a == A || a == C || a == D;
    }
  }

  /** Such a state satisfies every invariant of the store. */
  lemma FullIsReal(p: Page) returns (w: World)
    requires Plain(p)
    ensures Good(w) && Exact(w) && Covers(w) && w.s.g == TWO_SEGMENTS && Ready(w.s, w.claimed) && AllFull(w.s.g, w.c.perSeg)
  {
    FullCore(p);
    FullImage(p);
    w := FullStore(FullState(p));
  }

  lemma FullStore(s: St) returns (w: World)
    requires Core(s) && Recl(s) && EndOk(s, 1) && Holds(s, 1, [[]]) && s.rec == B && s.g == TWO_SEGMENTS
    requires B in Logical(s) && ObsPage(Logical(s)[B]) && forall a :: a in Logical(s) && a != B ==> LivePage(Logical(s)[a])
    ensures Good(w) && Exact(w) && Covers(w) && w.s.g == TWO_SEGMENTS && Ready(w.s, w.claimed) && AllFull(w.s.g, w.c.perSeg)
  {
    var c := Counters([4, 4, 4, 4], 0, 0);
    w := World(s, true, c, Durable(1, Rewound(s, 1), {}, [0, 0, 0, 0], [[]]), Logical(s));
    FullCounts(s, c);
    FullCovers(s, c);
    FullReady(s);
    Sound(s);
    hide Core, Logical, Rewound, EndOk, Holds, CountsOk, Recl;
    Conclude(w);
    FullWorld(w);
  }

  lemma Sound(s: St)
    requires Core(s)
    ensures Shape(s) && KeepsDurable(Rewound(s, 1), Durable(1, Rewound(s, 1), {}, [0, 0, 0, 0], [[]]))
  {
  }

  lemma FullWorld(w: World)
    requires Good(w) && CountsOk(w.image, {B}, w.c) && w.claimed && w.s.rec == B && w.s.g == TWO_SEGMENTS && w.c == Counters([4, 4, 4, 4], 0, 0)
    requires forall i :: 0 <= i < w.s.nSegs ==> Shape(w.s) && |ObsOffs(w.image, i, Reached(w.s, i))| <= w.c.perSeg[i]
    ensures Exact(w) && Covers(w) && AllFull(w.s.g, w.c.perSeg)
  {
    Look(w);
  }

  lemma FullCounts(s: St, c: Counters)
    requires Core(s) && s.rec == B && B in Logical(s) && forall a :: a in Logical(s) && a != B ==> LivePage(Logical(s)[a])
    requires c == Counters([4, 4, 4, 4], 0, 0)
    ensures CountsOk(Logical(s), {B}, c)
  {
    var m := Logical(s);
    hide Core, Logical;
    assert ObsSet(m) - {B} == {} && FreeSet(m) - {B} == {};
  }

  lemma FullCovers(s: St, c: Counters)
    requires Core(s) && c == Counters([4, 4, 4, 4], 0, 0) && s.g == TWO_SEGMENTS
    ensures forall i :: 0 <= i < s.nSegs ==> |ObsOffs(Logical(s), i, Reached(s, i))| <= c.perSeg[i]
  {
    forall i | 0 <= i < s.nSegs ensures |ObsOffs(Logical(s), i, Reached(s, i))| <= c.perSeg[i] {
      SubsetCard(ObsOffs(Logical(s), i, Reached(s, i)), UpTo(4));
    }
  }

  lemma FullReady(s: St)
    requires Core(s) && Recl(s) && s.rec == B && s.g == TWO_SEGMENTS && B in Logical(s) && ObsPage(Logical(s)[B])
    ensures ClaimOk(s, true) && Ready(s, true)
  {
  }
}

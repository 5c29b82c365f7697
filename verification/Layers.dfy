/** The two halves together: the pages of the sequencing layer are the disk of the recovery
    system, its operations are steps of that system, and what boot finds after a crash is what
    the crash step says, except in the window in which a segment is retired. */
module Layers {
  import opened Flash
  import opened FsIndex
  import opened SeqState
  import opened SeqSteps
  import opened SeqCrash
  import opened SeqTurn
  import opened SeqRoom
  import opened SeqWorld
  import opened Sequencing
  import C = Checkpoint
  import L = TxLedger
  import R = Recovery

  /** What fs_ptr holds of the file system in a checkpoint: inode0, and the last pages of the closed
      transaction and of the open ones. */
  datatype FsState = FsState(root: LogAddr, closed: Ref, open: seq<Ref>)

  /** How the file system reads a page, and the pages of a checkpoint. */
  datatype Reader = Reader(page: Entry -> Blk, state: seq<Block> -> FsState, counters: seq<Block> -> Counters)

  function FsOf(d: R.Snap): FsState {
    FsState(d.root, R.Head(d.closed), seq(|d.open|, i requires 0 <= i < |d.open| => R.Head(d.open[i])))
  }

  /** The reader finds in the checkpoint the state, and the counters of the segments. */
  ghost predicate ReadsAs(reader: Reader, d: Durable, st: FsState) {
    reader.state(d.bytes) == st && reader.counters(d.bytes).perSeg == d.perSeg
  }

  /** From n pages that the writer wrote, the reader reads the state, and the counters of the segments
      that the writer was given. */
  ghost predicate Saves(cp: Writer, reader: Reader, st: FsState, n: nat) {
    forall bytes, perSeg :: |bytes| == n && Taken(cp, bytes, perSeg, n) ==>
      reader.state(bytes) == st && reader.counters(bytes).perSeg == perSeg
  }

  lemma ReadsSaved(cp: Writer, reader: Reader, st: FsState, n: nat, d: Durable)
    requires Saves(cp, reader, st, n) && |d.bytes| == n && Taken(cp, d.bytes, d.perSeg, n)
    ensures ReadsAs(reader, d, st)
  {
  }

  /** Pages that clients wrote, obsolete ones included. */
  predicate Stored(p: Page) { p.Used? && p.cp.NotCp? }

  /** k is the disk that the image m shows through the parser. */
  ghost predicate Shows(m: Image, reader: Reader, k: R.Disk) {
    && (forall a :: a in k.blks <==> a in m && Stored(m[a]))
    && (forall a :: a in k.blks ==> k.blks[a] == reader.page(EntryOf(m[a])) && a in k.links && k.links[a] == m[a].prev)
    && (forall a :: a in k.obs <==> a in m && Stored(m[a]) && m[a].obs)
  }

  lemma LiveShown(m: Image, reader: Reader, k: R.Disk)
    requires Shows(m, reader, k)
    ensures k.Live() == View(m).Keys
  {
  }

  /** The image is the recovery system's memory, the last checkpoint's image its durable state; from
      the pages of the checkpoint the reader reads the rest of that state. */
  ghost predicate Joined(m: Image, d: Durable, reader: Reader, s: R.Sys) {
    && Shows(m, reader, s.ram.disk) && Shows(d.image, reader, s.dur.disk) && d.marks <= s.marks
    && ReadsAs(reader, d, FsOf(s.dur))
  }

  // ----- pages written

  ghost function WriteOf(tid: nat, a: LogAddr, p: Page, reader: Reader, hdr: bool, last: bool): R.Step
    requires p.Used?
  {
    R.Write(tid, a, reader.page(EntryOf(p)), hdr, last)
  }

  ghost predicate CanWrite(s: R.Sys, tid: nat, p: Page, reader: Reader) {
    && Stored(p) && !p.obs && s.phase.Idle? && tid < |s.ram.open| && p.prev == R.Head(s.ram.open[tid])
    && BlkOk(reader.page(EntryOf(p)))
  }

  lemma ShowsWrite(m: Image, reader: Reader, k: R.Disk, a: LogAddr, p: Page)
    requires Shows(m, reader, k) && a in m && Stored(p) && !p.obs
    ensures Shows(m[a := Bare(p)], reader, R.WriteDisk(k, a, reader.page(EntryOf(p)), p.prev))
  {
  }

  /** What a segment header holds that is written on the way: of the last vote page of a commit the
      transaction knows already, of other pages not yet. */
  ghost function HeaderFs(s: R.Sys, tid: nat, a: LogAddr, last: bool): FsState {
    var st := FsOf(s.ram);
    if last && tid < |st.open| then st.(open := st.open[tid := Some(a)]) else st
  }

  lemma HeaderHolds(s: R.Sys, tid: nat, a: LogAddr, blk: Blk, last: bool)
    requires R.Enabled(s, R.Write(tid, a, blk, true, last))
    ensures FsOf(R.Apply(s, R.Write(tid, a, blk, true, last)).dur) == HeaderFs(s, tid, a, last)
  {
    var open := s.ram.open;
    assert FsOf(s.ram.(open := open[tid := [a] + open[tid]])).open == FsOf(s.ram).open[tid := Some(a)];
  }

  /** Writing a page of a transaction, with or without a segment header on the way. */
  lemma WriteJoined(m: Image, d: Durable, reader: Reader, s: R.Sys, tid: nat, a: LogAddr, p: Page, hdr: bool, last: bool, d2: Durable)
    requires Joined(m, d, reader, s) && CanWrite(s, tid, p, reader) && a in m && !LivePage(m[a])
    requires if hdr then d2 == Durable(d2.off, m[a := Bare(p)], {}, d2.perSeg, d2.bytes) else d2 == d
    requires hdr ==> ReadsAs(reader, d2, HeaderFs(s, tid, a, last))
    ensures R.Enabled(s, WriteOf(tid, a, p, reader, hdr, last))
    ensures Joined(m[a := Bare(p)], d2, reader, R.Apply(s, WriteOf(tid, a, p, reader, hdr, last)))
  {
    hide Shows, ReadsAs;
    ShowsWrite(m, reader, s.ram.disk, a, p);
    LiveShown(m, reader, s.ram.disk);
    if hdr {
      HeaderHolds(s, tid, a, reader.page(EntryOf(p)), last);
    }
  }

  // ----- checkpoint pages

  /** A run of steps of one kind that leaves everything but the pages alone. */
  ghost predicate OnlyScraps(steps: seq<R.Step>) {
    forall i :: 0 <= i < |steps| ==> steps[i].Scrap?
  }

  lemma ShowsScrap(m: Image, n: Image, reader: Reader, k: R.Disk, a: LogAddr)
    requires Shows(m, reader, k) && a in k.obs && Overwrites(m, n) && !Stored(n[a])
    ensures Shows(m[a := n[a]], reader, R.Disk(k.blks - {a}, k.links, k.obs - {a}))
    ensures Overwrites(m[a := n[a]], n)
  {
  }

  lemma ShowsSame(m: Image, n: Image, reader: Reader, k: R.Disk)
    requires Shows(m, reader, k) && Overwrites(m, n) && forall a :: a in m && Stored(m[a]) ==> Stored(n[a])
    ensures Shows(n, reader, k)
  {
  }

  ghost function Overwritten(m: Image, n: Image): set<LogAddr>
    requires m.Keys == n.Keys
  {
    set a | a in m && Stored(m[a]) && !Stored(n[a])
  }

  lemma OverwritesKeys(m: Image, n: Image)
    requires Overwrites(m, n)
    ensures m.Keys == n.Keys
    ensures forall a :: a in Overwritten(m, n) ==> a in m
  {
  }

  lemma NoneOverwritten(m: Image, n: Image)
    requires Overwrites(m, n) && Overwritten(m, n) == {}
    ensures forall a :: a in m && Stored(m[a]) ==> Stored(n[a])
  {
    forall a | a in m && Stored(m[a]) ensures Stored(n[a]) {
      assert a !in Overwritten(m, n);
    }
  }

  lemma ScrapNext(m: Image, n: Image, a: LogAddr)
    requires Overwrites(m, n) && a in Overwritten(m, n)
    ensures m[a := n[a]].Keys == n.Keys && Overwritten(m[a := n[a]], n) == Overwritten(m, n) - {a}
  {
  }

  /** Checkpoint pages over obsolete pages are Scrap steps; over other pages they do not show. */
  lemma {:induction false} ScrapsJoined(m: Image, n: Image, d: Durable, reader: Reader, s: R.Sys) returns (steps: seq<R.Step>)
    requires Joined(m, d, reader, s) && Overwrites(m, n) && (s.phase.Idle? || s.phase.RootSet?)
    ensures OnlyScraps(steps) && R.CanRun(s, steps)
    ensures var t := R.Run(s, steps); Joined(n, d, reader, t) && t.phase == s.phase && FsOf(t.ram) == FsOf(s.ram)
    decreases |Overwritten(m, n)|
  {
    hide Shows, Overwrites, Overwritten, Stored, LivePage, ReadsAs, FsOf;
    OverwritesKeys(m, n);
    if Overwritten(m, n) == {} {
      NoneOverwritten(m, n);
      ShowsSame(m, n, reader, s.ram.disk);
      steps := [];
    } else {
      var a :| a in Overwritten(m, n);
      var m1 := m[a := n[a]];
      var t := ScrapOne(m, n, d, reader, s, a);
      ScrapNext(m, n, a);
      var more := ScrapsJoined(m1, n, d, reader, t);
      steps := [R.Scrap(a)] + more;
      assert steps[1..] == more;
    }
  }

  lemma ScrapOne(m: Image, n: Image, d: Durable, reader: Reader, s: R.Sys, a: LogAddr) returns (t: R.Sys)
    requires Joined(m, d, reader, s) && Overwrites(m, n) && (s.phase.Idle? || s.phase.RootSet?) && a in Overwritten(m, n)
    ensures R.Enabled(s, R.Scrap(a)) && t == R.Apply(s, R.Scrap(a)) && t.phase == s.phase && FsOf(t.ram) == FsOf(s.ram)
    ensures Joined(m[a := n[a]], d, reader, t) && Overwrites(m[a := n[a]], n)
  {
    t := s.(ram := s.ram.(disk := R.Disk(s.ram.disk.blks - {a}, s.ram.disk.links, s.ram.disk.obs - {a})));
    ShowsScrap(m, n, reader, s.ram.disk, a);
  }

  /** A complete checkpoint, or a segment header written when no page is. */
  lemma CheckpointJoined(m: Image, d: Durable, reader: Reader, s: R.Sys, d2: Durable)
    requires Joined(m, d, reader, s) && R.Enabled(s, R.Checkpoint) && d2.image == m && d2.marks == {}
    requires ReadsAs(reader, d2, FsOf(s.ram))
    ensures Joined(m, d2, reader, R.Apply(s, R.Checkpoint))
  {
    hide Shows, ReadsAs;
  }

  // ----- marks

  lemma ShowsMark(m: Image, reader: Reader, k: R.Disk, a: LogAddr, n: Image)
    requires Shows(m, reader, k) && a in m && Stored(m[a])
    requires n == m[a := m[a].(obs := true)]
    ensures Shows(n, reader, R.MarkOne(k, a))
  {
  }

  /** markAsObsolete at the head of a traversal; d gets the mark if the page was live. */
  lemma MarkJoined(m: Image, d: Durable, reader: Reader, s: R.Sys, a: LogAddr, n: Image, d2: Durable)
    requires Joined(m, d, reader, s) && R.Enabled(s, R.Mark) && a == s.phase.todo[0] && a in m && Stored(m[a])
    requires n == m[a := m[a].(obs := true)] && d2 == d.(marks := d2.marks) && d2.marks <= d.marks + {a}
    ensures Joined(n, d2, reader, R.Apply(s, R.Mark))
  {
    hide Shows;
    ShowsMark(m, reader, s.ram.disk, a, n);
  }

  // ----- the calls

  /** allocAndWriteBlock for a page of a transaction: a Write step. It fails before writing exactly
      when every counter is at its maximum, and afterwards exactly when the search does; then
      the page is in the store, and the step is one without a header. */
  method WriteBlock(q: Sequencer, p: Page, cp: Writer, ghost tid: nat, ghost reader: Reader, ghost last: bool, ghost s: R.Sys)
    returns (st: Status, written: bool, addr: LogAddr, cpWritten: bool, ghost t: R.Sys)
    requires q.Valid() && Ready(q.Snap(), q.claimed) && Writes(cp, q.g.cpPages)
    requires Joined(q.image, q.durable, reader, s) && R.Inv(s) && CanWrite(s, tid, p, reader)
    requires Saves(cp, reader, HeaderFs(s, tid, q.rec, last), q.g.cpPages)
    modifies q, q.cells, q.segToSlot, q.counters
    ensures old(q.Where()).Ok(q.g) && old(q.rec).off < q.g.pages
    ensures written <==> !AllFull(q.g, old(q.counters[..]))
    ensures st.Ok? <==> written && Seek(old(q.Contents()).Keys + {old(q.rec)}, q.g, q.Behind(old(q.Where())), q.g.Segments()).Some?
    ensures !written ==> q.Now() == old(q.Now()) && t == s
    ensures written ==> R.Enabled(s, WriteOf(tid, addr, p, reader, st.Ok? && cpWritten, last))
    ensures written ==> t == R.Apply(s, WriteOf(tid, addr, p, reader, st.Ok? && cpWritten, last))
    ensures R.Inv(t) && Shows(q.image, reader, t.ram.disk)
    ensures st.Ok? ==> q.Valid() && Ready(q.Snap(), q.claimed) && Joined(q.image, q.durable, reader, t)
    ensures (old(q.Counted()) && written ==> q.Counted()) && (old(q.Covering()) && written ==> q.Covering())
    ensures st.FlashFull? && written ==> q.Exhausted()
  {
    hide Good, Shows, R.Inv, R.Enabled, R.Apply, SeqState.Ready, Bare, View, CanWrite, Exact, Covers, Recl, AllFull, Seek, Here, q.Exhausted,
      ReadsAs, Saves, Taken, HeaderFs, Draft;
    PagePlain(q, p, s, tid, reader);
    ghost var m, d := q.image, q.durable;
    t := s;
    st, written, addr, cpWritten := q.AllocAndWriteBlock(p, false, cp);
    if written {
      ghost var hdr_ := st.Ok? && cpWritten;
      assert q.Contents().Keys == View(m).Keys + {addr};
      if hdr_ {
        ReadsSaved(cp, reader, HeaderFs(s, tid, addr, last), q.g.cpPages, q.durable);
      }
      WriteJoined(m, d, reader, s, tid, addr, p, hdr_, last, if st.Ok? then q.durable else d);
      t := R.Apply(s, WriteOf(tid, addr, p, reader, hdr_, last));
      R.StepInv(s, WriteOf(tid, addr, p, reader, hdr_, last));
    }
  }

  lemma PagePlain(q: Sequencer, p: Page, s: R.Sys, tid: nat, reader: Reader)
    requires q.Valid() && CanWrite(s, tid, p, reader)
    ensures p.Used? && !p.obs && Credit(p) == 0 && p.cp != EndMark(q.g) && p.cp.NotCp? && CompletedBy(q.Snap(), p)
  {
  }

  /** commit(): Scrap steps and then a Checkpoint. It succeeds exactly when not every counter is at
      its maximum and its pages fit; otherwise the pages written so far are Scrap steps. */
  method Commit(q: Sequencer, cp: Writer, ghost reader: Reader, ghost s: R.Sys)
    returns (st: Status, ghost steps: seq<R.Step>, ghost t: R.Sys)
    requires q.Valid() && Ready(q.Snap(), q.claimed) && Writes(cp, q.g.cpPages)
    requires Joined(q.image, q.durable, reader, s) && R.Inv(s) && (s.phase.Idle? || s.phase.RootSet?)
    requires Saves(cp, reader, FsOf(s.ram), q.g.cpPages)
    modifies q, q.cells, q.segToSlot, q.counters
    ensures old(q.Where()).Ok(q.g) && old(q.rec).off < q.g.pages
    ensures st.Ok? <==> !AllFull(q.g, old(q.counters[..])) && Fits(old(q.Contents()).Keys, q.g, old(q.Where()), q.g.cpPages)
    ensures OnlyScraps(steps) && q.Contents() == old(q.Contents())
    ensures R.CanRun(s, if st.Ok? then steps + [R.Checkpoint] else steps)
    ensures t == R.Run(s, if st.Ok? then steps + [R.Checkpoint] else steps)
    ensures R.Inv(t) && Shows(q.image, reader, t.ram.disk)
    ensures st.Ok? ==> q.Valid() && Joined(q.image, q.durable, reader, t)
    ensures st.FlashFull? ==> q.Exhausted() || AllFull(q.g, old(q.counters[..]))
    ensures !AllFull(q.g, old(q.counters[..])) ==>
      (old(q.Counted()) ==> q.Counted()) && (old(q.Covering()) ==> q.Covering())
  {
    hide Good, Shows, R.Inv, R.Enabled, R.Apply, SeqState.Ready, Overwrites, R.Run, R.CanRun, OnlyScraps, Exact, Covers, Recl, AllFull, Fits, View, q.Exhausted,
      ReadsAs, Saves, Taken, FsOf;
    ghost var m, d := q.image, q.durable;
    st := q.Commit(cp);
    if st.Ok? {
      ReadsSaved(cp, reader, FsOf(s.ram), q.g.cpPages, q.durable);
      steps := CommitSteps(m, q.image, d, q.durable, reader, s);
      t := R.Run(s, steps + [R.Checkpoint]);
    } else {
      steps := ScrapsJoined(m, q.image, d, reader, s);
      R.RunInv(s, steps);
      t := R.Run(s, steps);
    }
  }

  lemma CommitSteps(m: Image, n: Image, d: Durable, d2: Durable, reader: Reader, s: R.Sys) returns (steps: seq<R.Step>)
    requires Joined(m, d, reader, s) && R.Inv(s) && Overwrites(m, n) && (s.phase.Idle? || s.phase.RootSet?)
    requires d2 == Durable(d2.off, n, {}, d2.perSeg, d2.bytes) && ReadsAs(reader, d2, FsOf(s.ram))
    ensures OnlyScraps(steps) && R.CanRun(s, steps + [R.Checkpoint])
    ensures var t := R.Run(s, steps + [R.Checkpoint]); R.Inv(t) && Joined(n, d2, reader, t)
  {
    hide Joined, R.Inv, Overwrites, ReadsAs, FsOf;
    steps := ScrapsJoined(m, n, d, reader, s);
    RunOneMore(s, steps, R.Checkpoint);
    R.RunInv(s, steps + [R.Checkpoint]);
    CheckpointJoined(n, d, reader, R.Run(s, steps), d2);
  }

  lemma {:induction false} RunOneMore(s: R.Sys, steps: seq<R.Step>, step: R.Step)
    requires R.CanRun(s, steps) && R.Enabled(R.Run(s, steps), step)
    ensures R.CanRun(s, steps + [step]) && R.Run(s, steps + [step]) == R.Apply(R.Run(s, steps), step)
    decreases |steps|
  {
    if steps == [] {
      assert ([step])[1..] == [];
    } else {
      RunOneMore(R.Apply(s, steps[0]), steps[1..], step);
      assert (steps + [step])[1..] == steps[1..] + [step];
    }
  }

  /** markAsObsolete in a traversal, of a commit, an abort or boot: a Mark step. */
  method MarkNext(q: Sequencer, a: LogAddr, afterReboot: bool, ghost reader: Reader, ghost s: R.Sys) returns (ghost t: R.Sys)
    requires q.Valid() && IsPos(q.g, a) && a.seg < q.nSegs && Stored(PageAt(q.Snap(), a))
    requires Joined(q.image, q.durable, reader, s) && R.Inv(s) && R.Enabled(s, R.Mark) && a == s.phase.todo[0]
    modifies q, q.cells, q.counters
    ensures q.Valid() && (Ready(old(q.Snap()), q.claimed) ==> Ready(q.Snap(), q.claimed))
    ensures t == R.Apply(s, R.Mark) && R.Inv(t) && Joined(q.image, q.durable, reader, t)
    ensures q.obsCount == old(q.obsCount) + if a in old(q.Contents()) || afterReboot then 1 else 0
    ensures ObsSet(q.image) == ObsSet(old(q.image)) + {a}
    ensures old(q.Covering()) ==> q.Covering()
  {
    hide Good, Joined, R.Inv, R.Apply, SeqState.Ready, Covers, Exact, Recl, R.Enabled, View;
    ghost var m, d := q.image, q.durable;
    InView(q.Now(), a);
    Sequencer.ViewAt(m, a);
    q.MarkAsObsolete(a, afterReboot);
    MarkSet(m, a);
    t := R.Apply(s, R.Mark);
    MarkJoined(m, d, reader, s, a, q.image, q.durable);
    R.StepInv(s, R.Mark);
  }

  lemma MarkSet(m: Image, a: LogAddr)
    requires a in m && Stored(m[a])
    ensures ObsSet(m[a := m[a].(obs := true)]) == ObsSet(m) + {a}
    ensures m[a].obs ==> m[a := m[a].(obs := true)] == m
  {
    ImageUpdate(m, a, m[a].(obs := true));
  }

  /** findNextFreePage outside of a write: invisible, unless a segment header is written. It
      succeeds exactly when the search does. */
  method FindPage(q: Sequencer, cp: Writer, ghost reader: Reader, ghost s: R.Sys) returns (st: Status, cpWritten: bool, ghost t: R.Sys)
    requires q.Valid() && !q.claimed && q.g.Header() <= q.rec.off && Writes(cp, q.g.cpPages)
    requires Joined(q.image, q.durable, reader, s) && R.Inv(s)
    requires R.Enabled(s, R.Checkpoint) || R.Enabled(s, R.BootHeader)
    requires Saves(cp, reader, if s.phase.Booting? then BootFs(s) else FsOf(s.ram), q.g.cpPages)
    modifies q, q.cells, q.segToSlot, q.counters
    ensures old(q.Where()).Ok(q.g)
    ensures st.Ok? <==> Seek(old(q.Contents()).Keys, q.g, old(q.Where()), q.g.Segments()).Some?
    ensures q.image == old(q.image) && Shows(q.image, reader, t.ram.disk)
    ensures st.Ok? ==> q.Valid() && Ready(q.Snap(), q.claimed)
    ensures t == if st.FlashFull? || !cpWritten then s
                 else if s.phase.Booting? then R.Apply(s, R.BootHeader) else R.Apply(s, R.Checkpoint)
    ensures R.Inv(t) && (st.Ok? ==> Joined(q.image, q.durable, reader, t))
    ensures (old(q.Counted()) ==> q.Counted()) && (old(q.Covering()) ==> q.Covering())
    ensures st.FlashFull? ==> q.Exhausted()
  {
    hide Good, Shows, R.Inv, R.Apply, SeqState.Ready, Exact, Covers, Recl, Seek, Here, View, q.Exhausted,
      ReadsAs, Saves, Taken, Draft, FsOf, BootFs;
    ghost var m, d := q.image, q.durable;
    st, cpWritten := q.FindNextFreePage(cp);
    t := s;
    if st.Ok? && cpWritten {
      ReadsSaved(cp, reader, if s.phase.Booting? then BootFs(s) else FsOf(s.ram), q.g.cpPages, q.durable);
      if s.phase.Booting? {
        t := R.Apply(s, R.BootHeader);
        BootHeaderJoined(m, d, reader, s, q.durable);
        R.StepInv(s, R.BootHeader);
      } else {
        t := R.Apply(s, R.Checkpoint);
        CheckpointJoined(m, d, reader, s, q.durable);
        R.StepInv(s, R.Checkpoint);
      }
    }
  }

  /** During boot the transactions in memory are empty. */
  ghost function BootFs(s: R.Sys): FsState {
    FsOf(s.ram).(open := seq(|s.ram.open|, i => None))
  }

  lemma BootHeaderJoined(m: Image, d: Durable, reader: Reader, s: R.Sys, d2: Durable)
    requires Joined(m, d, reader, s) && R.Enabled(s, R.BootHeader) && d2.image == m && d2.marks == {}
    requires ReadsAs(reader, d2, BootFs(s))
    ensures Joined(m, d2, reader, R.Apply(s, R.BootHeader))
  {
    hide Shows, ReadsAs;
    assert FsOf(R.Apply(s, R.BootHeader).dur).open == BootFs(s).open;
  }

  // ----- crashes

  /** The slot being written, as boot reads it. */
  ghost function Row(s: St): C.Log
    requires Shape(s)
  {
    seq(s.rec.off, j requires 0 <= j < s.rec.off =>
      var p := s.cells[s.newSlot][j].page; C.Leaf(MarkAt(p), if p.Used? then p.data else []))
  }

  /** The mark that findCheckpointInSegment looks for. */
  function Searched(size: nat): CpMark { if C.MoreThanOnePage(size) then CpLast else CpFirst }

  /** It is the mark that checkpoints of that size end with, unless they fill one page exactly. */
  lemma SearchedIsEnd(g: Geometry, size: nat)
    requires size > 0 && g.cpPages == C.Pages(size)
    ensures Searched(size) == EndMark(g) <==> size != PAGE
  {
  }

  /** Boot finds the last complete checkpoint, and not one before it. */
  lemma FoundIsDurable(s: St, d: Durable, size: nat)
    requires Core(s) && DurableOk(s, d) && 0 < size != PAGE && s.g.cpPages == C.Pages(size)
    ensures C.LastMarked(Row(s), Searched(size)) == d.off
  {
    hide KeepsDurable, Rewound, MapOk, FlagsOk, PagesOk, C.Pages, C.LastMarked;
    SearchedIsEnd(s.g, size);
    assert Row(s)[d.off].mark == EndMark(s.g);
  }

  /** The pages of a checkpoint one behind the other. */
  ghost function Flat(bytes: seq<Block>): Block {
    if bytes == [] then [] else Flat(bytes[..|bytes| - 1]) + bytes[|bytes| - 1]
  }

  lemma {:induction false} FlatLength(bytes: seq<Block>)
    requires forall b :: b in bytes ==> |b| == PAGE
    ensures |Flat(bytes)| == PAGE * |bytes|
  {
    if bytes != [] {
      FlatLength(bytes[..|bytes| - 1]);
    }
  }

  lemma FlatMore(bytes: seq<Block>, b: Block)
    ensures Flat(bytes + [b]) == Flat(bytes) + b && Flat([b]) == b
  {
    assert (bytes + [b])[..|bytes|] == bytes;
    assert [b][..0] == [];
  }

  /** A log that shows the pages of a slot. */
  ghost predicate LogOf(row: seq<Cell>, log: C.Log) {
    |log| <= |row| && forall j :: 0 <= j < |log| ==>
      var p := row[j].page; log[j] == C.Leaf(MarkAt(p), if p.Used? then p.data else [])
  }

  /** Read from the start of the checkpoint that ends before n, it yields the pages of the checkpoint. */
  lemma {:induction false} LogBytes(row: seq<Cell>, log: C.Log, n: nat)
    requires LogOf(row, log) && 0 < n <= |log|
    ensures C.Payload(C.Strip(log[C.StartBefore(log, n - 1)..n])) == Flat(CpBytes(row, n))
    decreases n
  {
    hide C.Strip, C.Payload, Flat;
    var start, p := C.StartBefore(log, n - 1), log[n - 1];
    var before := CpBytes(row, n - 1);
    C.OnePayload(p);
    FlatNothing();
    if start == n - 1 {
      assert log[start..n] == [p];
      FlatMore(before, p.bytes);
      FlatMore([], p.bytes);
    } else {
      LogBytes(row, log, n - 1);
      assert log[start..n] == log[start..n - 1] + [p];
      C.StripConcat(log[start..n - 1], [p]);
      C.PayloadConcat(C.Strip(log[start..n - 1]), C.Strip([p]));
      FlatMore(before, p.bytes);
    }
  }

  lemma FlatNothing()
    ensures Flat([]) == []
  {
  }

  /** What boot reads byte by byte is the last complete checkpoint. */
  lemma ReadIsDurable(s: St, d: Durable, size: nat)
    requires Core(s) && DurableOk(s, d) && 0 < size != PAGE && s.g.cpPages == C.Pages(size)
    requires forall b :: b in d.bytes ==> |b| == PAGE
    ensures size <= |Flat(d.bytes)| && C.Restored(Row(s), size) == Some(Flat(d.bytes)[..size])
  {
    hide KeepsDurable, Rewound, MapOk, FlagsOk, PagesOk, C.Pages, C.LastMarked, C.Strip, C.Payload, C.StartBefore, Flat, CpBytes;
    FoundIsDurable(s, d, size);
    SearchedIsEnd(s.g, size);
    FlatLength(d.bytes);
    var log, off := Row(s), d.off;
    assert log[off].mark == EndMark(s.g);
    StartAt(log, off, size);
    LogBytes(s.cells[s.newSlot], log, off + 1);
    var start := C.FoundAt(log, size);
    ReadOn(log, start, off + 1);
    var all := C.Payload(C.Strip(log[start..]));
    assert Flat(d.bytes) <= all;
    assert all[..size] == Flat(d.bytes)[..size];
  }

  lemma StartAt(log: C.Log, off: nat, size: nat)
    requires 0 < off < |log| && C.LastMarked(log, Searched(size)) == off
    ensures C.Found(log, size) && C.FoundAt(log, size) == C.StartBefore(log, off)
  {
    hide C.LastMarked;
    assert log[off].mark == Searched(size);
  }

  lemma ReadOn(log: C.Log, start: nat, n: nat)
    requires start <= n <= |log|
    ensures C.Payload(C.Strip(log[start..n])) <= C.Payload(C.Strip(log[start..]))
  {
    hide C.Strip, C.Payload;
    assert log[start..] == log[start..n] + log[n..];
    C.StripConcat(log[start..n], log[n..]);
    C.PayloadConcat(C.Strip(log[start..n]), C.Strip(log[n..]));
  }

  lemma ShowsCrash(m: Image, d: Durable, reader: Reader, k: R.Disk)
    requires KeepsDurable(m, d) && Shows(d.image, reader, k)
    ensures Shows(m, reader, k.(obs := k.obs + (LostIn(m, d) * k.blks.Keys)))
  {
  }

  /** What boot makes of the flash: it searches the slot for the last checkpoint and drops what
      follows. */
  ghost function Booted(s: St, size: nat): Image
    requires Core(s)
  {
    var off := C.LastMarked(Row(s), Searched(size));
    if off < s.rec.off && Core(Boot(s, off)) then Logical(Boot(s, off)) else map[]
  }

  lemma BootedIs(s: St, d: Durable, size: nat)
    requires Core(s) && DurableOk(s, d) && 0 < size != PAGE && s.g.cpPages == C.Pages(size)
    ensures KeepsDurable(Booted(s, size), d)
  {
    hide Core, KeepsDurable, Logical, Boot, C.LastMarked, Row, C.Pages;
    FoundIsDurable(s, d, size);
    CrashRecovers(s, d);
  }

  /** The Crash step of the recovery system. */
  ghost function Crashed(s: R.Sys, lost: set<LogAddr>): R.Sys
    requires lost <= s.marks
  {
    R.Apply(s, R.Crash(lost))
  }

  /** A crash and the search of boot are the Crash step of the recovery system, which loses no
      more than the marks made since the checkpoint. */
  lemma CrashJoined(f: St, d: Durable, size: nat, reader: Reader, s: R.Sys) returns (lost: set<LogAddr>)
    requires Core(f) && DurableOk(f, d) && Joined(Logical(f), d, reader, s) && 0 < size != PAGE && f.g.cpPages == C.Pages(size)
    ensures lost == LostIn(Booted(f, size), d) && lost <= d.marks
    ensures lost <= s.marks && Joined(Booted(f, size), d, reader, Crashed(s, lost))
  {
    hide Core, Booted, Shows, C.Pages, Logical, DurableOk;
    BootedIs(f, d, size);
    lost := LostIn(Booted(f, size), d);
    ShowsCrash(Booted(f, size), d, reader, s.dur.disk);
  }

  /** The flash after a boot is as sound as before: what a crash after it needs holds again. */
  lemma BootedSound(f: St, d: Durable, size: nat)
    requires Core(f) && DurableOk(f, d) && 0 < size != PAGE && f.g.cpPages == C.Pages(size)
    ensures d.off < f.rec.off && Core(Boot(f, d.off)) && DurableOk(Boot(f, d.off), d) && Logical(Boot(f, d.off)) == Booted(f, size)
  {
    hide Core, KeepsDurable, Logical, Boot, C.LastMarked, Row, C.Pages;
    FoundIsDurable(f, d, size);
    CrashRecovers(f, d);
  }

  /** The tree of the last checkpoint is on the flash, live and as it was then. */
  ghost predicate TreeFound(m: Image, reader: Reader, d: R.Snap) {
    forall a :: a in R.Tree(d.disk, d.root) ==>
      a in d.disk.blks && a in m && LivePage(m[a]) && reader.page(EntryOf(m[a])) == d.disk.blks[a]
  }

  /** Crash atomicity of the store: power may fail after any page written, copied or marked. What
      boot finds is the tree of the last complete checkpoint, whole and unchanged, and once the
      votes and the open transactions are dealt with nothing else is live but leaked pages. */
  lemma CrashAtomic(f: St, d: Durable, size: nat, reader: Reader, s: R.Sys) returns (lost: set<LogAddr>)
    requires Core(f) && DurableOk(f, d) && Joined(Logical(f), d, reader, s) && 0 < size != PAGE && f.g.cpPages == C.Pages(size)
    requires R.Inv(s)
    ensures TreeFound(Booted(f, size), reader, s.dur) && lost <= s.marks
    ensures R.Inv(Crashed(s, lost)) && Joined(Booted(f, size), d, reader, Crashed(s, lost))
    ensures var t, e := R.Reboot(s, lost), s.dur;
            && R.Inv(t) && t.ram.root == e.root && R.Tree(t.ram.disk, e.root) == R.Tree(e.disk, e.root)
            && forall a :: a in t.ram.disk.Live() ==> a in R.Tree(e.disk, e.root) || a in e.leaked
  {
    hide Core, Booted, R.Inv, C.Pages, Logical, DurableOk, R.Tree, R.Reboot, Shows;
    lost := CrashJoined(f, d, size, reader, s);
    R.CrashInv(s, lost);
    R.Recovered(s, lost);
    DurableTree(s);
    TreeShown(Booted(f, size), reader, s, lost);
  }

  /** Nothing of the durable tree has been marked. */
  lemma DurableTree(s: R.Sys)
    requires R.Inv(s)
    ensures forall a :: a in R.Tree(s.dur.disk, s.dur.root) ==> a in s.dur.disk.Live() && a !in s.marks && a !in R.Doomed(s.dur)
  {
    R.LookSnap(s.dur);
    R.LookKept(s);
  }

  lemma TreeShown(m: Image, reader: Reader, s: R.Sys, lost: set<LogAddr>)
    requires lost <= s.marks && Shows(m, reader, Crashed(s, lost).ram.disk)
    requires forall a :: a in R.Tree(s.dur.disk, s.dur.root) ==> a in s.dur.disk.Live() && a !in s.marks
    ensures TreeFound(m, reader, s.dur)
  {
    hide R.Tree;
  }

  // ----- boot of the store

  /** Power fails, and the store is booted: the Crash step. The file system's state and the counters are
      read from the pages of the last checkpoint. The contents are in order again, so the store can be
      used; whether the counters suffice is a matter of the marks that the crash left. */
  method Reboot(q: Sequencer, size: nat, reader: Reader, ghost s: R.Sys) returns (st: FsState, ghost lost: set<LogAddr>, ghost t: R.Sys)
    requires q.Valid() && Joined(q.image, q.durable, reader, s) && R.Inv(s) && 0 < size != PAGE && q.g.cpPages == C.Pages(size)
    modifies q, q.cells, q.counters
    ensures q.Valid() && !q.claimed && q.durable == old(q.durable) && st == FsOf(t.ram) == FsOf(s.dur)
    ensures lost == LostIn(q.image, q.durable) && lost <= s.marks && t == Crashed(s, lost) && t.phase.Booting?
    ensures R.Inv(t) && Joined(q.image, q.durable, reader, t) && TreeFound(q.image, reader, s.dur)
    ensures q.rec == LogAddr(old(q.rec.seg), q.durable.off + 1) && q.counters[..] == q.durable.perSeg
    ensures Shape(q.Snap()) && (q.Covering() <==> SavedSuffice(q.Snap(), q.image, q.durable))
    ensures var ck := reader.counters(q.durable.bytes);
      q.obsCount == ck.obs && (ck.obs == |ObsSet(q.durable.image)| ==> q.obsCount + |lost| == |ObsSet(q.image)|)
  {
    hide Good, Exact, Covers, Recl, Shows, R.Inv, KeepsDurable, SavedSuffice, C.Pages, R.Tree, EndMark, C.MoreThanOnePage;
    SearchedIsEnd(q.g, size);
    ghost var d := q.durable;
    var bytes := q.Boot(Searched(size), reader.counters);
    st := reader.state(bytes);
    lost := LostIn(q.image, d);
    LostObsolete(q.image, d);
    ShowsCrash(q.image, d, reader, s.dur.disk);
    t := Crashed(s, lost);
    R.CrashInv(s, lost);
    DurableTree(s);
    TreeShown(q.image, reader, s, lost);
  }

  /** The marks that boot has to make, each a Mark step. Every one raises the global count, also for a
      page found marked; the segments' counters rise for pages found live. */
  method CarryOut(q: Sequencer, todo: seq<LogAddr>, ghost reader: Reader, ghost s: R.Sys) returns (ghost t: R.Sys)
    requires q.Valid() && Joined(q.image, q.durable, reader, s) && R.Inv(s) && s.phase.Replaying? && todo == s.phase.todo
    requires forall a :: a in todo ==> a in s.ram.disk.blks
    modifies q, q.cells, q.counters
    ensures q.Valid() && t == R.MarkAll(s) && R.Inv(t) && Joined(q.image, q.durable, reader, t)
    ensures q.obsCount == old(q.obsCount) + |todo| && ObsSet(q.image) == old(ObsSet(q.image)) + SetOf(todo)
    ensures old(q.Covering()) ==> q.Covering()
  {
    hide Good, Joined, R.Inv, R.Apply, SeqState.Ready, Covers, Exact, R.MarkAll, ObsSet;
    t := s;
    assert todo[..0] == [] && todo[0..] == todo;
    NoMarks(ObsSet(q.image));
    for i := 0 to |todo|
      invariant q.Valid() && Joined(q.image, q.durable, reader, t) && R.Inv(t) && t.phase == R.Replaying(todo[i..])
      invariant R.MarkAll(t) == R.MarkAll(s) && t.ram.disk.blks == s.ram.disk.blks
      invariant q.obsCount == old(q.obsCount) + i && ObsSet(q.image) == old(ObsSet(q.image)) + SetOf(todo[..i])
      invariant old(q.Covering()) ==> q.Covering()
    {
      assert todo[i..][0] == todo[i] && todo[i..][1..] == todo[i + 1..];
      OnFlash(q, todo[i], reader, t);
      MarkSteps(t);
      t := MarkNext(q, todo[i], true, reader, t);
      MoreMarks(todo, i, old(ObsSet(q.image)));
    }
    assert todo[..|todo|] == todo;
    NothingLeft(t);
  }

  lemma NoMarks(o: set<LogAddr>)
    ensures var none: seq<LogAddr> := []; o == o + SetOf(none)
  {
  }

  lemma MoreMarks(todo: seq<LogAddr>, i: nat, o: set<LogAddr>)
    requires i < |todo|
    ensures o + SetOf(todo[..i]) + {todo[i]} == o + SetOf(todo[..i + 1])
  {
    assert todo[..i + 1] == todo[..i] + [todo[i]];
  }

  lemma MarkSteps(t: R.Sys)
    requires t.phase.Replaying? && t.phase.todo != []
    ensures R.Enabled(t, R.Mark) && R.MarkAll(t) == R.MarkAll(R.Apply(t, R.Mark))
    ensures R.Apply(t, R.Mark).ram.disk.blks == t.ram.disk.blks
    ensures R.Apply(t, R.Mark).phase == R.Replaying(t.phase.todo[1..])
  {
  }

  lemma NothingLeft(t: R.Sys)
    requires t.phase.Replaying? && t.phase.todo == []
    ensures R.MarkAll(t) == t
  {
  }

  /** A page of the disk is on the flash. */
  lemma OnFlash(q: Sequencer, a: LogAddr, reader: Reader, s: R.Sys)
    requires q.Valid() && Joined(q.image, q.durable, reader, s) && a in s.ram.disk.blks
    ensures IsPos(q.g, a) && a.seg < q.nSegs && Stored(PageAt(q.Snap(), a))
  {
    Sequencer.EndsAt(q.Now());
  }

  // ----- the window in which a segment is retired

  /** The part of a chain that can be read when the pages of gone are erased: a traversal ends at
      the first of them. */
  ghost function Cut(chain: seq<LogAddr>, gone: set<LogAddr>): seq<LogAddr> {
    if chain == [] || chain[0] in gone then [] else [chain[0]] + Cut(chain[1..], gone)
  }

  lemma {:induction false} CutIsVisited(links: map<LogAddr, Ref>, a: Ref, chain: seq<LogAddr>, gone: set<LogAddr>, n: nat)
    requires L.Linked(links, a, chain) && |chain| <= n
    ensures R.Visited(links - gone, a, n) == Cut(chain, gone)
    decreases n
  {
    if chain != [] {
      CutIsVisited(links, links[chain[0]], chain[1..], gone, n - 1);
    }
  }

  lemma {:induction false} CutPart(chain: seq<LogAddr>, gone: set<LogAddr>)
    ensures forall a :: a in Cut(chain, gone) ==> a in chain
  {
    if chain != [] && chain[0] !in gone {
      CutPart(chain[1..], gone);
    }
  }

  ghost function WithoutPages(k: R.Disk, gone: set<LogAddr>): R.Disk {
    R.Disk(k.blks - gone, k.links - gone, k.obs - gone)
  }

  /** The checkpoint as boot sees it when the pages of gone are erased. */
  ghost function Windowed(s: R.Sys, gone: set<LogAddr>): R.Sys {
    s.(dur := s.dur.(disk := WithoutPages(s.dur.disk, gone), closed := Cut(s.dur.closed, gone), open := CutAll(s.dur.open, gone)))
  }

  ghost function CutAll(open: seq<seq<LogAddr>>, gone: set<LogAddr>): (r: seq<seq<LogAddr>>)
    ensures |r| == |open|
  {
    seq(|open|, i requires 0 <= i < |open| => Cut(open[i], gone))
  }

  lemma {:induction false} VotesCut(b: Blocks, chain: seq<LogAddr>, gone: set<LogAddr>)
    ensures forall a :: a in R.VoteList(b - gone, Cut(chain, gone)) ==> a in R.VoteList(b, chain)
  {
    if chain != [] && chain[0] !in gone {
      VotesCut(b, chain[1..], gone);
      var c := Cut(chain, gone);
      assert c[0] == chain[0] && c[1..] == Cut(chain[1..], gone);
    }
  }

  lemma DeletesCut(open: seq<seq<LogAddr>>, closed: seq<LogAddr>, gone: set<LogAddr>, a: LogAddr)
    requires a in R.DeleteList(CutAll(open, gone), Cut(closed, gone))
    ensures a in R.DeleteList(open, closed)
  {
    R.DeleteListIs(CutAll(open, gone), Cut(closed, gone), a);
    R.DeleteListIs(open, closed, a);
    var i :| 0 <= i < |open| && CutAll(open, gone)[i] != Cut(closed, gone) && a in CutAll(open, gone)[i];
    CutPart(open[i], gone);
    assert open[i] != closed && a in open[i];
  }

  /** Boot dooms no more than it would without the window. */
  lemma DoomedCut(s: R.Sys, gone: set<LogAddr>)
    ensures forall a :: a in R.Doomed(Windowed(s, gone).dur) ==> a in R.Doomed(s.dur)
  {
    var d, e := s.dur, Windowed(s, gone).dur;
    VotesCut(d.disk.blks, d.closed, gone);
    forall a | a in R.Doomed(e) ensures a in R.Doomed(d) {
      if a in R.DeleteList(e.open, e.closed) {
        DeletesCut(d.open, d.closed, gone, a);
      }
    }
  }

  /** When the pages of gone are erased, boot comes up with the whole tree of the checkpoint
      exactly if none of them is in it. */
  lemma RecoveredIff(s: R.Sys, lost: set<LogAddr>, gone: set<LogAddr>)
    requires R.Inv(s) && lost <= s.marks
    ensures var t, d := R.Reboot(Windowed(s, gone), lost), s.dur;
            && t.ram.root == d.root
            && ((forall a :: a in R.Tree(d.disk, d.root) ==>
                   a in t.ram.disk.Live() && a in d.disk.blks && t.ram.disk.blks[a] == d.disk.blks[a])
                <==> forall a :: a in R.Tree(d.disk, d.root) ==> a !in gone)
  {
    hide R.Inv, R.Tree, R.Reboot, R.Doomed;
    DurableTree(s);
    DoomedCut(s, gone);
    var w := Windowed(s, gone);
    R.RebootIs(w, lost, LogAddr(0, 0));
    forall a ensures a in R.Reboot(w, lost).ram.disk.Live() <==> a in w.dur.disk.Live() && a !in lost && a !in R.Doomed(w.dur) {
      R.RebootIs(w, lost, a);
    }
  }

  /** The pages behind the last checkpoint in the segment that is being left, from an offset on. */
  ghost function Retired(s: St, d: Durable, from: nat): set<LogAddr> {
    set a | a in d.image && a.seg == s.rec.seg && a.off > d.off && a.off >= from
  }

  lemma ShowsWindow(m: Image, n: Image, d: Durable, reader: Reader, k: R.Disk, gone: set<LogAddr>)
    requires KeepsDurable(m, d) && Shows(d.image, reader, k) && n.Keys == m.Keys
    requires forall a :: a in m ==> n[a] == if a in gone then Erased else m[a]
    ensures var e := WithoutPages(k, gone); Shows(n, reader, e.(obs := e.obs + (LostIn(m, d) * e.blks.Keys)))
  {
  }

  lemma WindowPages(s: St, d: Durable, from: nat)
    requires Core(s) && DurableOk(s, d)
    ensures var m, n := Rewound(s, d.off), WindowImage(s, d.off, from);
            && n.Keys == m.Keys && (forall a :: a in m ==> n[a] == if a in Retired(s, d, from) then Erased else m[a])
            && KeepsDurable(m, d)
  {
  }

  lemma RetiredLive(s: St, d: Durable, from: nat, a: LogAddr)
    requires Core(s) && DurableOk(s, d) && a in d.image && LivePage(d.image[a]) && a !in d.marks
    ensures a in Retired(s, d, from) <==> CopiedSince(s, d, a) && a.off >= from
  {
  }

  /** The old slot of a finished segment has been erased from an offset on when power fails. The file
      system comes up whole exactly if no page of the durable tree that was copied forward since the
      last checkpoint lies in the erased part; every one that does is gone. */
  lemma WindowAtomicIff(f: St, d: Durable, from: nat, reader: Reader, s: R.Sys) returns (lost: set<LogAddr>)
    requires Core(f) && DurableOk(f, d) && Joined(Logical(f), d, reader, s) && R.Inv(s)
    ensures lost <= s.marks
    ensures Shows(WindowImage(f, d.off, from), reader, Crashed(Windowed(s, Retired(f, d, from)), lost).ram.disk)
    ensures var t, e := R.Reboot(Windowed(s, Retired(f, d, from)), lost), s.dur;
            && t.ram.root == e.root
            && ((forall a :: a in R.Tree(e.disk, e.root) ==>
                   a in t.ram.disk.Live() && a in e.disk.blks && t.ram.disk.blks[a] == e.disk.blks[a])
                <==> forall a :: a in R.Tree(e.disk, e.root) ==> !(CopiedSince(f, d, a) && a.off >= from))
  {
    hide FlagsOk, PagesOk, SpareSlot, AllocMap, Positions, R.Inv, R.Tree, Shows, R.Reboot, R.Apply, Windowed, CopiedSince, Retired, Rewound, KeepsDurable, EndOk;
    lost := LostIn(Rewound(f, d.off), d);
    WindowCrash(f, d, from, Rewound(f, d.off), reader, s, Retired(f, d, from), lost);
    RecoveredIff(s, lost, Retired(f, d, from));
    TreeRetired(f, d, from, Logical(f), reader, s);
  }

  lemma EndBefore(s: St, d: Durable)
    requires Core(s) && DurableOk(s, d)
    ensures d.off < s.rec.off && d.off < s.g.pages && CpBytes(s.cells[s.newSlot], d.off + 1) == d.bytes
  {
  }

  /** Of the durable tree, exactly the pages copied since the checkpoint lie behind it. */
  lemma TreeRetired(f: St, d: Durable, from: nat, m: Image, reader: Reader, s: R.Sys)
    requires Core(f) && DurableOk(f, d) && Joined(m, d, reader, s) && R.Inv(s)
    ensures forall a :: a in R.Tree(s.dur.disk, s.dur.root) ==> (a in Retired(f, d, from) <==> CopiedSince(f, d, a) && a.off >= from)
  {
    hide Core, DurableOk, Joined, R.Inv, R.Tree, CopiedSince, Retired;
    DurableTree(s);
    forall a | a in R.Tree(s.dur.disk, s.dur.root) ensures a in Retired(f, d, from) <==> CopiedSince(f, d, a) && a.off >= from {
      TreeInImage(m, d, reader, s, a);
      RetiredLive(f, d, from, a);
    }
  }

  lemma TreeInImage(m: Image, d: Durable, reader: Reader, s: R.Sys, a: LogAddr)
    requires Joined(m, d, reader, s) && a in s.dur.disk.Live() && a !in s.marks
    ensures a in d.image && LivePage(d.image[a]) && a !in d.marks
  {
  }

  lemma WindowCrash(f: St, d: Durable, from: nat, m: Image, reader: Reader, s: R.Sys, gone: set<LogAddr>, lost: set<LogAddr>)
    requires Core(f) && DurableOk(f, d) && Joined(Logical(f), d, reader, s)
    requires m == Rewound(f, d.off) && gone == Retired(f, d, from) && lost == LostIn(m, d)
    ensures lost <= s.marks && Shows(WindowImage(f, d.off, from), reader, Crashed(Windowed(s, gone), lost).ram.disk)
  {
    hide Core, Shows, Rewound, WindowImage, Retired, Logical;
    WindowPages(f, d, from);
    ShowsWindow(m, WindowImage(f, d.off, from), d, reader, s.dur.disk, gone);
  }

  // ----- what boot makes of it

  /** Between two erases of truncateSlot: the newer slot of the segment has the last checkpoint. */
  lemma PartBooted(f: St, d: Durable, from: nat, size: nat)
    requires Core(f) && DurableOk(f, d) && Recl(f) && f.rec.off == f.g.pages && 0 < size != PAGE && f.g.cpPages == C.Pages(size)
    ensures C.LastMarked(Row(f), Searched(size)) == d.off < f.g.pages && CpBytes(f.cells[f.newSlot], d.off + 1) == d.bytes
    ensures var u := PartBoot(f, d.off, from);
      && Shape(u) && MapDistinct(u) && Logical(u) == WindowImage(f, d.off, from)
  {
    hide DurableOk, C.LastMarked, C.Pages, PartBoot, Row, MapOk, FlagsOk, PagesOk, Logical, WindowImage, Recl, CpBytes;
    EndBefore(f, d);
    FoundIsDurable(f, d, size);
    PartBootIs(f, d.off, from);
  }

  /** The pages of the slot that segment seg is on. */
  ghost function BackRow(t: St, seg: nat): C.Log
    requires Shape(t) && seg < |t.map_| && t.map_[seg] < t.g.slots
  {
    seq(t.g.pages, j requires 0 <= j < t.g.pages =>
      var p := t.cells[t.map_[seg]][j].page; C.Leaf(MarkAt(p), if p.Used? then p.data else []))
  }

  /** From the end of truncateSlot to the last page of the next header: boot finds no checkpoint in the
      new segment, and the last checkpoint in the one that was left. */
  lemma BackBooted(f: St, t: St, d: Durable, size: nat)
    requires Core(f) && DurableOk(f, d) && f.rec.off == f.g.pages && 0 < size != PAGE && f.g.cpPages == C.Pages(size)
    requires Leaves(f, t) && Unfinished(t)
    ensures C.LastMarked(Row(t), Searched(size)) == 0
    ensures C.LastMarked(BackRow(t, f.rec.seg), Searched(size)) == d.off < f.g.pages
    ensures CpBytes(t.cells[t.map_[f.rec.seg]], d.off + 1) == d.bytes
    ensures var u := BackTo(t, f.rec.seg, f.nSegs, d.off);
      && Shape(u) && MapDistinct(u) && Logical(u) == WindowImage(f, d.off, 0)
      && (!Recl(f) ==> Logical(u) == Rewound(f, d.off))
  {
    hide KeepsDurable, Rewound, C.Pages, C.LastMarked, BackTo, Logical, WindowImage;
    EndBefore(f, d);
    SearchedIsEnd(f.g, size);
    BackEnd(f, t, d.off);
    BackHolds(f, t, d.off, d.bytes);
    BackFound(f, t, d.off, Searched(size));
    BackToIs(f, t, d.off);
    NothingNew(t, Searched(size));
  }

  lemma NothingNew(t: St, mark: CpMark)
    requires Shape(t) && Unfinished(t) && mark == EndMark(t.g)
    ensures C.LastMarked(Row(t), mark) == 0
  {
    hide C.LastMarked;
    assert forall i :: 0 <= i < |Row(t)| ==> Row(t)[i].mark != mark;
  }

  lemma BackFound(f: St, t: St, off: nat, mark: CpMark)
    requires Shape(f) && Shape(t) && t.g == f.g && f.rec.seg < |t.map_| && t.map_[f.rec.seg] < t.g.slots && off < t.g.pages
    requires MarkAt(t.cells[t.map_[f.rec.seg]][off].page) == mark
    requires forall j :: off < j < t.g.pages ==> MarkAt(t.cells[t.map_[f.rec.seg]][j].page) != mark
    ensures C.LastMarked(BackRow(t, f.rec.seg), mark) == off
  {
    hide C.LastMarked;
    assert BackRow(t, f.rec.seg)[off].mark == mark;
  }

  /** When the segment left was not one being reclaimed, nothing is erased: at the change from one
      allocated segment to the next, and from the last one to the first that is reclaimed, crashes
      are as harmless as anywhere. */
  lemma AllocationAtomic(f: St, t: St, d: Durable, size: nat, reader: Reader, s: R.Sys) returns (lost: set<LogAddr>)
    requires Core(f) && DurableOk(f, d) && Joined(Logical(f), d, reader, s) && R.Inv(s)
    requires !Recl(f) && f.rec.off == f.g.pages && 0 < size != PAGE && f.g.cpPages == C.Pages(size)
    requires Leaves(f, t) && Unfinished(t)
    ensures d.off < t.g.pages && f.rec.seg < |t.map_| && t.map_[f.rec.seg] < t.g.slots && lost <= s.marks
    ensures var u := BackTo(t, f.rec.seg, f.nSegs, d.off);
      && Shape(u) && MapDistinct(u) && TreeFound(Logical(u), reader, s.dur) && Joined(Logical(u), d, reader, Crashed(s, lost))
    ensures R.Inv(Crashed(s, lost))
  {
    hide Core, R.Inv, C.Pages, DurableOk, R.Tree, Shows, BackTo, Booted, Recl, WindowImage, C.LastMarked, Unfinished;
    BackBooted(f, t, d, size);
    lost := CrashAtomic(f, d, size, reader, s);
    BootedRewound(f, d, size);
    LeavesSeg(f, t);
  }

  lemma LeavesSeg(f: St, t: St)
    requires Leaves(f, t)
    ensures f.rec.seg < |t.map_| && t.map_[f.rec.seg] < t.g.slots && t.g == f.g
  {
  }

  lemma BootedRewound(f: St, d: Durable, size: nat)
    requires Core(f) && DurableOk(f, d) && 0 < size != PAGE && f.g.cpPages == C.Pages(size)
    ensures Booted(f, size) == Rewound(f, d.off)
  {
    hide KeepsDurable, Boot, C.LastMarked, Row, C.Pages;
    BootedSound(f, d, size);
    BootIsRewound(f, d.off);
  }
}

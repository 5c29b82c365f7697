/** The sequencing layer: an append-only store of logical pages over slots of
    erase units, with reclamation, wear leveling and checkpoints. */
module Sequencing {
  import opened Flash
  import opened SeqState
  import opened SeqSteps
  import opened SeqSegments
  import opened SeqCrash
  import opened SeqWorld
  import opened SeqRoom
  import opened SeqTurn

  datatype Status = Ok | FlashFull

  class Sequencer {
    const g: Geometry
    const cells: array2<Cell>
    const segToSlot: array<nat>
    const counters: array<nat>
    var rec: LogAddr
    var newSlot: nat
    var nSegs: nat
    var obsCount: int
    var freeCount: int
    /** Every page at a logical position, obsolete ones included. */
    ghost var image: Image
    /** findNextFreePage has reserved the reclaimed address. */
    ghost var claimed: bool
    ghost var durable: Durable

    /** handleFlashIsEmpty, on an erased flash with all erase units good. */
    constructor (geo: Geometry, cp: Writer)
      requires geo.Valid() && geo.Aligned() && Writes(cp, geo.cpPages)
      ensures g == geo && fresh(cells) && fresh(segToSlot) && fresh(counters)
      ensures Valid() && Ready(Snap(), claimed) && Counted() && Covering()
      ensures Contents() == map[] && ObsSet(image) == {} && durable == Durable(g.Header() - 1, image, {}, counters[..], cp(FirstCounters(g)))
      ensures Where() == Control(LogAddr(0, g.Header()), 1, false, FirstCounters(g).perSeg) && !claimed
      ensures Counts() == FirstCounters(g)
    {
      g := geo;
      cells := new Cell[geo.slots, geo.pages]((i, j) => FreshCell);
      segToSlot := new nat[geo.slots](i => if i == 0 || geo.FirstReserve() <= i then i else NO_SLOT);
      counters := new nat[geo.slots](i => 0);
      rec, newSlot, nSegs := LogAddr(0, 0), 0, 1;
      obsCount, freeCount := 0, geo.Segments() * (geo.pages - geo.Header());
      image, claimed, durable := map[], false, Durable(0, map[], {}, [], []);
      new;
      hide Good, Exact, Covers, SeqState.Ready, View, ObsSet, Recl, Core, Draft, Logical;
      StartSegment(cp);
    }

    method StartSegment(cp: Writer)
      requires Arrays() && Counts() == FirstCounters(g) && Writes(cp, g.cpPages)
      requires forall i, j :: 0 <= i < g.slots && 0 <= j < g.pages ==> cells[i, j] == FreshCell
      requires segToSlot[..] == FirstMap(g) && rec == LogAddr(0, 0) && newSlot == 0 && nSegs == 1
      requires !claimed
      modifies `rec, `durable, `image, cells
      ensures Valid() && Ready(Snap(), claimed) && Counted() && Covering()
      ensures Contents() == map[] && ObsSet(image) == {} && durable == Durable(g.Header() - 1, image, {}, counters[..], cp(FirstCounters(g)))
      ensures Where() == Control(LogAddr(0, g.Header()), 1, false, FirstCounters(g).perSeg) && !claimed
      ensures Counts() == FirstCounters(g)
    {
      hide Good, Exact, Covers, Logical, EndOk, Draft;
      RowsAre(EmptyFlash(g).cells);
      EmptyCore(g);
      WriteSegmentHeader(cp, Snap());
      ghost var w := First(Snap());
      Record(w.d, w.image);
    }

    ghost predicate Arrays() {
      && g.Valid() && g.Aligned()
      && cells.Length0 == g.slots && cells.Length1 == g.pages
      && segToSlot.Length == g.slots
      && counters.Length == g.slots
      && segToSlot != counters
    }

    ghost function Rows(): (r: seq<seq<Cell>>)
      reads cells
      requires Arrays()
      ensures |r| == g.slots
      ensures forall i :: 0 <= i < |r| ==> |r[i]| == g.pages
      ensures forall i, j :: 0 <= i < |r| && 0 <= j < g.pages ==> r[i][j] == cells[i, j]
    {
      seq(g.slots, i requires 0 <= i < g.slots && Arrays() reads cells =>
        seq(g.pages, j requires 0 <= j < g.pages && 0 <= i < g.slots && Arrays() reads cells => cells[i, j]))
    }

    lemma RowsAre(rs: seq<seq<Cell>>)
      requires Arrays() && |rs| == g.slots && (forall i :: 0 <= i < |rs| ==> |rs[i]| == g.pages)
      requires forall i, j :: 0 <= i < g.slots && 0 <= j < g.pages ==> rs[i][j] == cells[i, j]
      ensures Rows() == rs
    {
      forall i | 0 <= i < g.slots ensures Rows()[i] == rs[i] {}
    }

    ghost function Snap(): St
      reads `rec, `newSlot, `nSegs, cells, segToSlot
      requires Arrays()
    {
      St(g, Rows(), segToSlot[..], rec, newSlot, nSegs)
    }

    function Counts(): Counters
      reads `obsCount, `freeCount, counters
    {
      Counters(counters[..], obsCount, freeCount)
    }

    // ----- the flash device

    /** nandProgramTotalPage. The simulator asserts that the main area has not
        been programmed since the last erase. */
    method ProgramPage(slot: nat, off: nat, p: Page)
      requires Arrays() && slot < g.slots && off < g.pages && p.Used?
      requires cells[slot, off].mainWrites == 0 && cells[slot, off].spareWrites == 0
      modifies cells
      ensures Snap() == Put(old(Snap()), slot, off, Programmed(p))
    {
      ghost var before := Rows();
      cells[slot, off] := Cell(p, 1, if p.obs then 1 else cells[slot, off].spareWrites);
      RowsAre(before[slot := before[slot][off := Programmed(p)]]);
    }

    /** nandProgramPageC on the obsolete byte. The simulator asserts that the
        spare area has not been programmed on its own since the last erase. */
    method ProgramObsolete(slot: nat, off: nat)
      requires Arrays() && slot < g.slots && off < g.pages && cells[slot, off].page.Used?
      requires cells[slot, off].spareWrites == 0
      modifies cells
      ensures var c: Cell := old(Rows())[slot][off];
              Snap() == Put(old(Snap()), slot, off, Cell(c.page.(obs := true), c.mainWrites, 1))
    {
      ghost var before := Rows();
      ghost var c: Cell := before[slot][off];
      cells[slot, off] := Cell(cells[slot, off].page.(obs := true), cells[slot, off].mainWrites, 1);
      RowsAre(before[slot := before[slot][off := Cell(c.page.(obs := true), c.mainWrites, 1)]]);
    }

    /** nandErase: the erase unit that holds the page. */
    method EraseUnit(slot: nat, off: nat, start: nat)
      requires Arrays() && slot < g.slots && start <= off < start + g.euPages <= g.pages
      modifies cells
      ensures forall i, j :: 0 <= i < g.slots && 0 <= j < g.pages ==>
                cells[i, j] == if i == slot && start <= j < start + g.euPages then FreshCell else old(cells[i, j])
    {
      var k := 0;
      while k < g.euPages
        invariant k <= g.euPages
        invariant forall i, j :: 0 <= i < g.slots && 0 <= j < g.pages ==>
                    cells[i, j] == if i == slot && start <= j < start + k then FreshCell else old(cells[i, j])
      {
        cells[slot, start + k] := FreshCell;
        k := k + 1;
      }
    }

    static lemma UnitBelow(n: nat, k: nat)
      requires k > 0
      ensures n * (k - 1) == n * k - n >= 0
    {
    }

    /** The loop of truncateSlot, from the last erase unit to the first. */
    method EraseUnits(slot: nat)
      requires Arrays() && slot < g.slots
      modifies cells
      ensures forall i, j :: 0 <= i < g.slots && 0 <= j < g.pages ==>
                cells[i, j] == if i == slot then FreshCell else old(cells[i, j])
    {
      var eu, start := g.eus, g.pages;
      while eu > 0
        invariant eu <= g.eus && start == g.euPages * eu <= g.pages
        invariant PartlyErased(old(Rows()), slot, start)
      {
        UnitBelow(g.euPages, eu);
        eu, start := eu - 1, start - g.euPages;
        EraseUnit(slot, start + g.euPages - 1, start);
      }
    }

    /** A slot is erased from an offset on, all else is as in before. */
    ghost predicate PartlyErased(before: seq<seq<Cell>>, slot: nat, from: int)
      reads cells
      requires Arrays() && |before| == g.slots && forall i :: 0 <= i < |before| ==> |before[i]| == g.pages
    {
      forall i, j :: 0 <= i < g.slots && 0 <= j < g.pages ==>
        cells[i, j] == if i == slot && from <= j then FreshCell else before[i][j]
    }

    /** What a crash between two erases finds. */
    lemma ErasedIs(s: St, slot: nat, from: nat)
      requires Arrays() && Shape(s) && s.g == g && slot < g.slots && PartlyErased(s.cells, slot, from)
      requires s == Snap().(cells := s.cells)
      ensures Snap() == PartErased(s, slot, from)
    {
      RowsAre(PartErased(s, slot, from).cells);
    }

    /** truncateSlot */
    method TruncateSlot(slot: nat)
      requires Arrays() && slot < g.slots
      modifies cells
      ensures Snap() == EraseSlot(old(Snap()), slot, FreshRow(g))
    {
      ghost var before := Rows();
      EraseUnits(slot);
      RowsAre(before[slot := FreshRow(g)]);
    }

    // ----- translation

    ghost function Now(): World
      reads this, cells, segToSlot, counters
      requires Arrays()
    {
      World(Snap(), claimed, Counts(), durable, image)
    }

    /** Everything the clients can read. */
    ghost function Contents(): map<LogAddr, Entry>
      reads `image
    {
      View(image)
    }

    /** The contents are in order. */
    ghost predicate Valid()
      reads this, cells, segToSlot, counters
    {
      Arrays() && Good(Now())
    }

    /** The two global counters are exact, after k pages are taken off the free count. */
    ghost predicate CountedBut(k: int)
      reads this, cells, segToSlot, counters
    {
      Arrays() && Exact(Now().(c := Now().c.(free := Now().c.free - k)))
    }

    ghost predicate Counted()
      reads this, cells, segToSlot, counters
    {
      CountedBut(0)
    }

    /** No segment's counter falls short of its obsolete pages. */
    ghost predicate Covering()
      reads this, cells, segToSlot, counters
    {
      Arrays() && Covers(Now())
    }

    /** Counters that were right stay right. */
    twostate predicate KeepsCounters()
      reads this, cells, segToSlot, counters
    {
      (old(Counted()) ==> Counted()) && (old(Covering()) ==> Covering())
    }

    /** What the search for a free page depends on, besides the contents. */
    ghost function Where(): Control
      reads this, cells, segToSlot, counters
      requires Arrays()
    {
      Control(rec, nSegs, Recl(Snap()), counters[..])
    }

    method InReclamation() returns (b: bool)
      requires Arrays()
      ensures b <==> Recl(Snap())
    {
      b := nSegs == g.Segments() && rec.seg < segToSlot.Length && newSlot != segToSlot[rec.seg];
    }

    /** logicalAddressToPhysical */
    method Translate(a: LogAddr) returns (slot: nat)
      requires Arrays() && Core(Snap()) && a.seg < nSegs
      ensures slot == SlotOf(Snap(), a) && slot < g.slots
    {
      assert Mapped(Snap(), a.seg);
      var r := InReclamation();
      if r && a.seg == rec.seg && a.off < rec.off {
        slot := newSlot;
      } else {
        slot := segToSlot[a.seg];
      }
    }

    /** The page at a logical position. */
    method FetchPage(a: LogAddr) returns (p: Page)
      requires Arrays() && Core(Snap()) && IsPos(g, a) && a.seg < nSegs
      ensures p == PageAt(Snap(), a)
    {
      ghost var s := Snap();
      var slot := Translate(a);
      assert CellAt(s, a) == s.cells[slot][a.off];
      p := cells[slot, a.off].page;
    }

    method ValidPage(a: LogAddr) returns (p: Page)
      requires Valid() && IsPos(g, a) && a.seg < nSegs
      ensures p == PageAt(Snap(), a)
    {
      Look(Now());
      p := FetchPage(a);
    }

    /** readBlock: a live address reads back what was stored there. */
    method ReadBlock(a: LogAddr) returns (e: Entry)
      requires Valid() && a in Contents()
      ensures e == Contents()[a]
    {
      Look(Now());
      ContentsAt(a);
      var p := FetchPage(a);
      e := Entry(p.data, p.prev, p.vots);
    }

    lemma ContentsAt(a: LogAddr)
      requires Valid() && a in Contents()
      ensures IsPos(g, a) && a.seg < nSegs && LivePage(PageAt(Snap(), a)) && Contents()[a] == EntryOf(PageAt(Snap(), a))
    {
      Look(Now());
    }

    // ----- obsolete marks

    /** INCREASE_OBS_COUNT and INC_EXACT_COUNTER */
    method CountObsolete(a: LogAddr)
      requires Arrays() && a.seg < g.slots
      modifies this`obsCount, counters
      ensures Counts() == MarkCounts(a, old(Counts())) && Snap() == old(Snap())
    {
      obsCount := obsCount + 1;
      counters[a.seg] := counters[a.seg] + 1;
    }

    /** The part of markAsObsolete that programs the spare area. */
    method ObsoleteLive(a: LogAddr)
      requires Arrays() && Core(Snap()) && a.seg < counters.Length && IsPos(g, a) && a.seg < nSegs && LivePage(PageAt(Snap(), a))
      modifies `obsCount, cells, counters
      ensures Snap() == MarkStep(old(Snap()), a) && Counts() == MarkCounts(a, old(Counts()))
    {
      ghost var s := Snap();
      var slot := Translate(a);
      assert CellAt(s, a) == s.cells[slot][a.off];
      assert CellOk(s.cells[slot][a.off]);
      ProgramObsolete(slot, a.off);
      CountObsolete(a);
    }

    ghost method Record(d: Durable, v: Image)
      requires Arrays()
      modifies `durable, `image
      ensures durable == d && image == v && Snap() == old(Snap()) && Counts() == old(Counts())
    {
      durable, image := d, v;
    }

    method MarkLive(a: LogAddr)
      requires Valid() && IsPos(g, a) && a.seg < nSegs && LivePage(PageAt(Snap(), a))
      modifies this, cells, counters
      ensures Valid() && claimed == old(claimed) && rec == old(rec) && nSegs == old(nSegs) && KeepsCounters()
      ensures Snap() == MarkedAt(old(Snap()), a)
      ensures Ready(old(Snap()), claimed) ==> Ready(Snap(), claimed)
      ensures a in old(image) && LivePage(old(image)[a]) && image == old(image)[a := old(image)[a].(obs := true)]
      ensures durable == old(durable).(marks := old(durable).marks + {a})
      ensures Counts() == MarkCounts(a, old(Counts())) && (Recl(Snap()) <==> old(Recl(Snap())))
    {
      hide Exact, Covers, Good, LivePage, SeqState.Ready, Recl, Core, MarkedAt;
      ghost var w := Now();
      InOrder(w);
      ghost var v := Marked(w, a);
      MarkReady(w, a);
      ObsoleteLive(a);
      Record(v.d, v.image);
      assert Now() == v;
      SameKept(w, v);
    }

    static lemma InOrder(w: World)
      requires Good(w)
      ensures Core(w.s) && w.s.nSegs <= w.s.g.Segments()
    {
      Look(w);
    }

    lemma MarkReady(w: World, a: LogAddr)
      requires Good(w) && IsPos(w.s.g, a) && a.seg < w.s.nSegs && LivePage(PageAt(w.s, a))
      ensures Core(w.s) && (Ready(w.s, w.claimed) ==> Ready(MarkStep(w.s, a), w.claimed)) && (Recl(MarkStep(w.s, a)) <==> Recl(w.s))
      ensures MarkedAt(w.s, a) == MarkStep(w.s, a)
    {
      Look(w);
      MarkCore(w.s, a);
    }

    /** Equal counters, seen as one world or the other. */
    static lemma SameKept(w: World, v: World)
      requires KeepsCounts(w, v)
      ensures Exact(w.(c := w.c.(free := w.c.free - 0))) ==> Exact(v.(c := v.c.(free := v.c.free - 0)))
      ensures Covers(w) ==> Covers(v)
    {
      assert w.(c := w.c.(free := w.c.free - 0)) == w && v.(c := v.c.(free := v.c.free - 0)) == v;
    }

    /** markAsObsolete on a page that clients wrote: it leaves the store and no
        other address is affected. A second call changes nothing, but after a
        reboot the page is counted globally once more; its segment's counter is
        not told. */
    method MarkAsObsolete(a: LogAddr, afterReboot: bool)
      requires Valid() && IsPos(g, a) && a.seg < nSegs
      requires LivePage(PageAt(Snap(), a)) || ObsPage(PageAt(Snap(), a))
      modifies this, cells, counters
      ensures Valid() && claimed == old(claimed) && rec == old(rec) && nSegs == old(nSegs)
      ensures Ready(old(Snap()), claimed) ==> Ready(Snap(), claimed)
      ensures Contents() == old(Contents()) - {a}
      ensures a in old(Contents()) ==>
        image == old(image)[a := old(image)[a].(obs := true)] && durable == old(durable).(marks := old(durable).marks + {a})
      ensures Snap() == MarkedAt(old(Snap()), a)
      ensures a !in old(Contents()) ==> Snap() == old(Snap()) && image == old(image) && durable == old(durable)
      ensures Where() == if a in old(Contents()) then old(Where()).(counters := old(counters[..])[a.seg := old(counters[a.seg]) + 1])
                           else old(Where())
      ensures freeCount == old(freeCount) && obsCount == old(obsCount) + if a in old(Contents()) || afterReboot then 1 else 0
      ensures old(Covering()) ==> Covering()
      ensures a in old(Contents()) || !afterReboot ==> KeepsCounters()
    {
      hide Exact, Covers, Good, SeqState.Ready, Recl, PageAt, MarkedAt;
      var p := ValidPage(a);
      InView(Now(), a);
      InOrder(Now());
      ViewAt(image, a);
      if p.obs {
        NotMarked(Now(), a);
        assert Contents() - {a} == Contents();
        if afterReboot {
          CountAgain();
        }
      } else {
        MarkView(image, a);
        MarkLive(a);
      }
    }

    static lemma NotMarked(w: World, a: LogAddr)
      requires Good(w) && IsPos(w.s.g, a) && !LivePage(PageAt(w.s, a))
      ensures MarkedAt(w.s, a) == w.s
    {
      Look(w);
    }

    static lemma ViewAt(m: Image, a: LogAddr)
      requires a in m
      ensures a in View(m) <==> LivePage(m[a])
    {
    }

    /** INCREASE_OBS_COUNT */
    method CountAgain()
      requires Valid()
      modifies `obsCount
      ensures Valid() && Snap() == old(Snap()) && Counts() == old(Counts()).(obs := old(obsCount) + 1)
      ensures old(Covering()) ==> Covering()
    {
      ghost var w := Now();
      Look(w);
      obsCount := obsCount + 1;
      assert Now() == w.(c := w.c.(obs := w.c.obs + 1));
      Conclude(Now());
    }

    // ----- choosing a segment to reclaim

    /** findSegmentToReclaim: the first segment of maximal level other than the
        reclaimed one; it fails only when every other counter is zero. */
    method FindSegmentToReclaim() returns (found: bool)
      requires Arrays() && Shape(Snap())
      modifies this`rec
      ensures found ==> rec.off == 0 && IsBest(g, counters[..], old(rec).seg, rec.seg)
      ensures !found ==> rec == old(rec)
      ensures found <==> exists i :: 0 <= i < g.Segments() && i != old(rec).seg && counters[i] > 0
    {
      var level := g.pages - 1;
      while level > 0
        invariant level <= g.pages - 1
        invariant level < g.pages - 1 ==> forall i :: 0 <= i < g.Segments() && i != rec.seg ==> counters[i] <= level
        invariant rec == old(rec)
      {
        var i := 0;
        while i < g.Segments()
          invariant 0 <= i <= g.Segments()
          invariant forall k :: 0 <= k < i && k != rec.seg ==> counters[k] < level
          invariant rec == old(rec)
        {
          if counters[i] >= level && i != rec.seg {
            rec := LogAddr(i, 0);
            return true;
          }
          i := i + 1;
        }
        level := level - 1;
      }
      return false;
    }

    // ----- wear leveling

    /** The state with no segment being written: every data segment is full on
        its own slot, and the spare slot is fresh. */
    ghost function Settled(): St
      reads `rec, `newSlot, `nSegs, cells, segToSlot
      requires Arrays()
    {
      Snap().(rec := LogAddr(rec.seg, 0))
    }

    /** copyPage: reads the whole page, spare area included, and programs it as
        it is; on an erased page this programs an empty page. */
    method CopyPage(slot: nat, off: nat, from: nat, fromOff: nat)
      requires Arrays() && slot < g.slots && off < g.pages && from < g.slots && fromOff < g.pages
      requires cells[slot, off] == FreshCell
      modifies cells
      ensures forall i, j :: 0 <= i < g.slots && 0 <= j < g.pages && !(i == slot && j == off) ==>
                cells[i, j] == old(cells[i, j])
      ensures cells[slot, off].page == old(cells[from, fromOff]).page && CellOk(cells[slot, off])
    {
      var p := cells[from, fromOff].page;
      cells[slot, off] := Cell(p, 1, if p.Used? && p.obs then 1 else 0);
    }

    /** The copy loop of performWearLeveling. Unused erase units of a reserve
        slot are skipped without advancing the target. */
    method CopySlot(from: nat, isReserve: bool)
      requires Arrays() && from < g.slots && newSlot < g.slots && from != newSlot
      requires forall j :: 0 <= j < g.pages ==> cells[newSlot, j] == FreshCell
      modifies cells
      ensures Snap() == EraseSlot(old(Snap()), newSlot, Rows()[newSlot])
      ensures SeqSegments.SlotCopy(Rows()[newSlot], old(Rows())[from], g.euPages, isReserve)
    {
      hide SeqSegments.Copying, SeqSegments.SlotCopy;
      ghost var before, row := Rows(), Rows()[newSlot];
      NothingCopied(before[from], row, isReserve);
      var to, src := 0, 0;
      while to < g.pages && src < g.pages
        invariant Copying(before[from], row, g.euPages, isReserve, src, to) && to <= src <= g.pages
        invariant Rows() == before[newSlot := row]
        decreases g.pages - src
      {
        SameStart(before[from], row, isReserve, src, to);
        if to % g.euPages == 0 && isReserve && cells[from, src].page.Erased? {
          CopySkip(before[from], row, g.euPages, g.eus, src, to);
          src := src + g.euPages;
        } else {
          CopyPage(newSlot, to, from, src);
          CopyOne(before[from], row, g.euPages, isReserve, src, to, cells[newSlot, to]);
          row := row[to := cells[newSlot, to]];
          RowsAre(before[newSlot := row]);
          to, src := to + 1, src + 1;
        }
      }
      CopyDone(before[from], row, g.euPages, isReserve, src, to);
    }

    lemma NothingCopied(from: seq<Cell>, row: seq<Cell>, isReserve: bool)
      requires Arrays() && |from| == |row| == g.pages && forall j :: 0 <= j < g.pages ==> row[j] == FreshCell
      ensures Copying(from, row, g.euPages, isReserve, 0, 0)
    {
    }

    lemma SameStart(from: seq<Cell>, row: seq<Cell>, isReserve: bool, src: nat, to: nat)
      requires Arrays() && Copying(from, row, g.euPages, isReserve, src, to)
      ensures (isReserve ==> to % g.euPages == src % g.euPages) && (to < |row| ==> row[to] == FreshCell)
    {
    }

    /** The first index whose segment sits on slot rnd; the scan also meets the
        stale entry of the new segment, but never before the right one. */
    method FindOwner(rnd: nat) returns (org: nat)
      requires Arrays() && Core(Settled()) && Recl(Settled()) && rnd < g.slots && rnd != newSlot
      ensures Mapped(Settled(), org) && segToSlot[org] == rnd
    {
      ghost var s := Settled();
      SlotPermutation(s, rnd);
      org := 0;
      while org < g.slots
        invariant 0 <= org <= g.slots
        invariant forall k :: 0 <= k < org ==> segToSlot[k] != rnd
      {
        if segToSlot[org] == rnd {
          return;
        }
        org := org + 1;
      }
      assert false;
    }

    /** performWearLeveling: whatever slot is drawn, the segment on it moves to
        the spare slot unnoticed. */
    method PerformWearLeveling(drawn: nat, ghost from: St) returns (ghost org: nat, ghost row: seq<Cell>)
      requires Arrays() && Core(Settled()) && Recl(Settled()) && drawn < g.slots && Leaves(from, Settled()) && from.nSegs == nSegs
      modifies `newSlot, cells, segToSlot
      ensures Core(Settled()) && Recl(Settled()) && Logical(Settled()) == old(Logical(Settled()))
      ensures IsLeveling(old(Settled()), drawn, org, row) && Settled() == LevelsOut(old(Settled()), drawn, org, row)
      ensures Leaves(from, Settled())
    {
      hide Leaves, Logical, SpareSlot, AllocMap, FlagsOk, PagesOk, MapDistinct, Recl;
      hide SlotCopy, IsLeveling, LevelsOut;
      ghost var s := Settled();
      var rnd := if drawn == newSlot then g.slots - 1 - drawn else drawn;
      var owner := FindOwner(rnd);
      org := owner;
      row := MoveSlot(rnd, owner);
      LevelImage(s, rnd, org, row);
      LevelLeaves(from, s, rnd, org, row);
      Relabel(rnd, owner);
      LevelsIs(s, drawn, rnd, org, row);
    }

    /** The slot to be leveled: the one drawn, or its mirror image if that is the spare slot. */
    static ghost function Chosen(s: St, drawn: nat): int {
      if drawn == s.newSlot then s.g.slots - 1 - drawn else drawn
    }

    /** The segment on the chosen slot, and what becomes of the spare slot: a copy of it. */
    static ghost predicate IsLeveling(s: St, drawn: nat, org: nat, row: seq<Cell>)
      requires Shape(s)
    {
      && 0 <= Chosen(s, drawn) < s.g.slots && Chosen(s, drawn) != s.newSlot && s.g.euPages > 0
      && Mapped(s, org) && s.map_[org] == Chosen(s, drawn)
      && SlotCopy(row, s.cells[Chosen(s, drawn)], s.g.euPages, org >= s.g.FirstReserve())
    }

    static lemma LevelsIs(s: St, drawn: nat, rnd: nat, org: nat, row: seq<Cell>)
      requires Shape(s) && rnd < s.g.slots && rnd != s.newSlot && s.g.euPages > 0 && Mapped(s, org) && s.map_[org] == rnd
      requires rnd == if drawn == s.newSlot then s.g.slots - 1 - drawn else drawn
      requires SlotCopy(row, s.cells[rnd], s.g.euPages, org >= s.g.FirstReserve())
      ensures IsLeveling(s, drawn, org, row) && LevelsOut(s, drawn, org, row) == SeqSegments.Level(s, rnd, org, row)
    {
      hide SlotCopy;
    }

    /** The segment has moved to the spare slot, and its own one is erased and is the spare slot. */
    static ghost function LevelsOut(s: St, drawn: nat, org: nat, row: seq<Cell>): St
      requires Shape(s) && IsLeveling(s, drawn, org, row)
    {
      SeqSegments.Level(s, Chosen(s, drawn), org, row)
    }

    method Relabel(rnd: nat, org: nat)
      requires Arrays() && rnd < g.slots && org < g.slots
      modifies `newSlot, segToSlot
      ensures var s := old(Settled());
              Settled() == s.(newSlot := rnd, map_ := s.map_[g.Segments() := rnd][org := s.newSlot])
    {
      segToSlot[g.Segments()] := rnd;
      segToSlot[org] := newSlot;
      newSlot := rnd;
    }

    method MoveSlot(rnd: nat, org: nat) returns (ghost row: seq<Cell>)
      requires Arrays() && Core(Settled()) && Recl(Settled()) && rnd < g.slots && rnd != newSlot
      requires Mapped(Settled(), org)
      modifies cells
      ensures |row| == g.pages && (forall j :: 0 <= j < |row| ==> CellOk(row[j]))
      ensures org < nSegs ==> CopyOfRow(row, old(Rows())[rnd])
      ensures SlotCopy(row, old(Rows())[rnd], g.euPages, org >= g.FirstReserve())
      ensures Rows() == old(Rows())[newSlot := row][rnd := FreshRow(g)]
    {
      ghost var s := Settled();
      assert forall j :: 0 <= j < g.pages ==> s.cells[newSlot][j] == FreshCell;
      CopySlot(rnd, org >= g.FirstReserve());
      row := Rows()[newSlot];
      LevelRow(s, rnd, org, row);
      TruncateSlot(rnd);
    }

    lemma LevelRow(s: St, rnd: nat, org: nat, row: seq<Cell>)
      requires Shape(s) && s.g == g && Mapped(s, org) && rnd < g.slots
      requires SlotCopy(row, s.cells[rnd], g.euPages, org >= g.FirstReserve())
      ensures |row| == g.pages && forall j :: 0 <= j < |row| ==> CellOk(row[j])
      ensures org < s.nSegs ==> CopyOfRow(row, s.cells[rnd])
    {
    }

    // ----- segment headers

    /** writeSegmentHeader: the header page and the checkpoint pages that belong
        to it, programmed directly. They are the writer's, in their order. */
    method WriteSegmentHeader(cp: Writer, ghost from: St)
      requires Arrays() && Core(Snap()) && rec.off == 0 && Writes(cp, g.cpPages)
      modifies `rec, cells
      ensures Core(Snap()) && rec == LogAddr(old(rec.seg), g.Header())
      ensures Logical(Snap()) == old(Logical(Snap())) && (Recl(Snap()) <==> old(Recl(Snap())))
      ensures Others(old(Rows()))
      ensures EndOk(Snap(), g.Header() - 1) && Draft(Snap()) == cp(Counts()) && cells[newSlot, 0].page == HEADER
      ensures forall i :: 0 <= i < g.cpPages ==> cells[newSlot, i + 1].page == HeaderPage(cp(Counts())[i], i)
    {
      hide EndOk, Arrays, FlagsOk, PagesOk, Underway, Draft, HeaderPage, Begun, Logical, EndMark, Program, Unfinished, Recl,
        MapDistinct, SpareSlot, AllocMap, Others;
      ghost var image, recl := Logical(Snap()), Recl(Snap());
      var bytes := cp(Counts());
      HeaderBegun(Snap(), bytes);
      SameOthers();
      WriteHeaderPage(HEADER, from);
      var i := 0;
      while i < |bytes|
        invariant i <= |bytes| && Core(Snap()) && rec == LogAddr(old(rec.seg), i + 1)
        invariant Logical(Snap()) == image && (Recl(Snap()) <==> recl)
        invariant i == |bytes| ==> EndOk(Snap(), g.Header() - 1)
        invariant i < |bytes| ==> Unfinished(Snap())
        invariant old(Underway(from, Snap())) ==> Underway(from, Snap())
        invariant Begun(Snap(), bytes, i) && Others(old(Rows()))
      {
        ghost var s := Snap();
        HeaderPageIs(bytes[i], i);
        WriteHeaderPage(HeaderPage(bytes[i], i), from);
        HeaderMore(s, bytes, i);
        i := i + 1;
      }
      HeaderDone(bytes);
    }

    /** No slot but the one being written has changed. */
    ghost predicate Others(before: seq<seq<Cell>>)
      reads `newSlot, cells
      requires Arrays()
    {
      |before| == g.slots && forall i :: 0 <= i < g.slots && i != newSlot ==> Rows()[i] == before[i]
    }

    lemma SameOthers()
      requires Arrays()
      ensures Others(Rows())
    {
    }

    /** Page i of the checkpoint in a header. */
    function HeaderPage(data: Block, i: nat): Page {
      Used(data, None, false, CpMarkOf(i, g.cpPages - 1), false, false)
    }

    lemma HeaderPageIs(data: Block, i: nat)
      requires i < g.cpPages
      ensures HeaderPage(data, i).Used? && !HeaderPage(data, i).obs && (HeaderPage(data, i).cp == EndMark(g) <==> i == g.cpPages - 1)
    {
    }

    /** The first k pages of the checkpoint are behind the header page. */
    ghost predicate Begun(s: St, bytes: seq<Block>, k: nat) {
      && |bytes| == g.cpPages && k <= |bytes| && Shape(s) && s.g == g && s.rec.off == k + 1
      && Draft(s) == bytes[..k] && s.cells[s.newSlot][0].page == HEADER
      && forall i :: 0 <= i < k ==> s.cells[s.newSlot][i + 1].page == HeaderPage(bytes[i], i)
    }

    lemma HeaderBegun(s: St, bytes: seq<Block>)
      requires Core(s) && s.g == g && |bytes| == g.cpPages && s.rec.off == 0
      ensures Begun(Program(s, HEADER), bytes, 0) && Unfinished(s) && EndMark(g) != NotCp
    {
      ProgramDraft(s, HEADER);
    }

    lemma HeaderMore(s: St, bytes: seq<Block>, k: nat)
      requires Core(s) && Begun(s, bytes, k) && k < |bytes|
      ensures Begun(Program(s, HeaderPage(bytes[k], k)), bytes, k + 1)
    {
      ProgramDraft(s, HeaderPage(bytes[k], k));
    }

    lemma HeaderDone(bytes: seq<Block>)
      requires Arrays() && Begun(Snap(), bytes, g.cpPages)
      ensures Draft(Snap()) == bytes && |bytes| == g.cpPages && cells[newSlot, 0].page == HEADER
      ensures forall i :: 0 <= i < g.cpPages ==> cells[newSlot, i + 1].page == HeaderPage(bytes[i], i)
    {
      assert Rows()[newSlot][0] == cells[newSlot, 0];
      forall i | 0 <= i < g.cpPages ensures cells[newSlot, i + 1].page == HeaderPage(bytes[i], i) {
        assert Rows()[newSlot][i + 1] == cells[newSlot, i + 1];
      }
    }

    /** Boot can still go back to the segment that was left. */
    ghost predicate Underway(from: St, t: St)
    {
      Leaves(from, t) && Apart(from, t)
    }

    /** The slot being written holds none of the segments that there were. */
    ghost predicate Apart(from: St, t: St)
    {
      forall i :: 0 <= i < from.nSegs && i < |t.map_| ==> t.map_[i] != t.newSlot
    }

    method WriteHeaderPage(p: Page, ghost from: St)
      requires Arrays() && Core(Snap()) && rec.off < g.Header() && p.Used? && !p.obs
      modifies `rec, cells
      ensures Snap() == Program(old(Snap()), p)
      ensures forall before {:trigger Others(before)} :: old(Others(before)) ==> Others(before)
      ensures Core(Snap()) && rec == LogAddr(old(rec.seg), old(rec.off) + 1)
      ensures Logical(Snap()) == old(Logical(Snap())) && (Recl(Snap()) <==> old(Recl(Snap())))
      ensures p.cp == EndMark(g) && old(rec.off) > 0 ==> EndOk(Snap(), old(rec.off))
      ensures p.cp != EndMark(g) && old(Unfinished(Snap())) ==> Unfinished(Snap())
      ensures old(Underway(from, Snap())) ==> Underway(from, Snap())
    {
      hide EndMark, Underway;
      ghost var s := Snap();
      ProgramImage(s, p);
      ProgramEnd(s, p, 0);
      if p.cp != EndMark(g) && Unfinished(s) {
        HeaderUnfinished(s, p);
      }
      if Underway(from, s) {
        StillUnderway(from, s, p);
      }
      hide Unfinished, EndOk, Logical, MapOk, FlagsOk, PagesOk;
      ProgramNext(p);
      assert forall i :: 0 <= i < g.slots && i != newSlot ==> Rows()[i] == s.cells[i];
    }

    lemma StillUnderway(from: St, s: St, p: Page)
      requires Underway(from, s) && Core(s) && s.rec.off < s.g.pages && p.Used?
      ensures Core(Program(s, p)) && Underway(from, Program(s, p))
    {
      HeaderLeaves(from, s, p);
    }

    /** Program the reclaimed address and advance it. */
    method ProgramNext(p: Page)
      requires Arrays() && Core(Snap()) && rec.off < g.pages && p.Used? && !p.obs
      modifies `rec, cells
      ensures Snap() == Program(old(Snap()), p)
    {
      ghost var s := Snap();
      assert PagesOk(s) && s.cells[newSlot][rec.off] == FreshCell;
      ProgramPage(newSlot, rec.off, p);
      rec := rec.(off := rec.off + 1);
    }

    // ----- the next segment

    /** Retire the finished segment: in reclamation its old slot is erased and
        becomes the spare slot, otherwise the never allocated slot does. */
    method LeaveSegment()
      requires Arrays() && Core(Snap()) && nSegs == g.Segments() && rec.off == g.pages
      modifies `newSlot, cells, segToSlot
      ensures Core(Settled()) && Recl(Settled()) && Logical(Settled()) == old(Logical(Snap()))
      ensures Leaves(old(Snap()), Settled()) && Settled() == Left(old(Snap()))
    {
      hide Leaves;
      ghost var s := Snap();
      assert Mapped(s, rec.seg);
      var res := segToSlot[rec.seg];
      var next := g.Segments();
      var r := InReclamation();
      if r {
        RetireImage(s);
        RetireLeaves(s);
        TruncateSlot(res);
        next := res;
        segToSlot[rec.seg] := newSlot;
      } else {
        StopAllocatingImage(s);
        StopLeaves(s);
      }
      newSlot := next;
    }

    /** What becomes of a finished segment when there are no more slots to allocate. */
    static ghost function Left(s: St): St
      requires Core(s)
    {
      if Recl(s) then Retire(s) else StopAllocating(s)
    }

    /** gen_rand_bit and get_random_num: any outcome. */
    method Draw() returns (level: bool, slot: nat)
      requires g.Valid()
      ensures slot < g.slots
    {
      level := *;
      slot :| 0 <= slot < g.slots;
    }

    /** The reclamation branch of moveToNextSegment. On success a different
        segment is about to be reclaimed into the spare slot; it fails exactly
        when no other segment has a counted obsolete page. */
    method ReclaimNext() returns (found: bool, ghost level: bool, ghost slot: nat, ghost org: nat, ghost row: seq<Cell>)
      requires Arrays() && Core(Snap()) && nSegs == g.Segments() && rec.off == g.pages
      modifies `rec, `newSlot, cells, segToSlot
      ensures Core(Settled()) && Recl(Settled()) && Logical(Settled()) == old(Logical(Snap()))
      ensures Leaves(old(Snap()), Settled())
      ensures found ==> rec.off == 0 && IsBest(g, counters[..], old(rec).seg, rec.seg)
      ensures !found ==> rec == old(rec)
      ensures found <==> exists i :: 0 <= i < g.Segments() && i != old(rec).seg && counters[i] > 0
      ensures LeftAs(old(Snap()), level, slot, org, row) && Settled() == Begin(Leveled(old(Snap()), level, slot, org, row), rec.seg)
    {
      hide Leaves, Leveled, LeftAs;
      ghost var from := Snap();
      level, slot, org, row := LeaveAndLevel();
      ghost var s := Settled();
      found := FindSegmentToReclaim();
      BeginImage(s, rec.seg);
      BeginLeaves(from, s, rec.seg);
      assert Settled() == Begin(s, rec.seg);
    }

    method LeaveAndLevel() returns (ghost level: bool, ghost slot: nat, ghost org: nat, ghost row: seq<Cell>)
      requires Arrays() && Core(Snap()) && nSegs == g.Segments() && rec.off == g.pages
      modifies `newSlot, cells, segToSlot
      ensures Core(Settled()) && Recl(Settled()) && Logical(Settled()) == old(Logical(Snap()))
      ensures Leaves(old(Snap()), Settled()) && LeftAs(old(Snap()), level, slot, org, row) && Settled() == Leveled(old(Snap()), level, slot, org, row)
    {
      hide Leaves, Retire, StopAllocating;
      ghost var from := Snap();
      LeaveSegment();
      var coin, drawn := Draw();
      level, slot, org, row := coin, drawn, 0, [];
      if coin {
        org, row := PerformWearLeveling(drawn, from);
      }
    }

    static ghost predicate LeftAs(s: St, level: bool, slot: nat, org: nat, row: seq<Cell>)
      requires Core(s)
    {
      Shape(Left(s)) && (level ==> IsLeveling(Left(s), slot, org, row))
    }

    /** When the coin says so, a slot is leveled before the next segment is begun. */
    static ghost function Leveled(s: St, level: bool, slot: nat, org: nat, row: seq<Cell>): St
      requires Core(s) && LeftAs(s, level, slot, org, row)
    {
      if level then LevelsOut(Left(s), slot, org, row) else Left(s)
    }

    /** The allocation branch of moveToNextSegment. */
    method AllocateNext()
      requires Arrays() && Core(Snap()) && nSegs < g.Segments() && rec.off == g.pages
      modifies `rec, `newSlot, `nSegs, segToSlot
      ensures Core(Snap()) && !Recl(Snap()) && Logical(Snap()) == old(Logical(Snap()))
      ensures rec == LogAddr(old(rec.seg) + 1, 0) && nSegs == old(nSegs) + 1
      ensures Leaves(old(Snap()), Snap()) && Apart(old(Snap()), Snap()) && Snap() == NextSlot(old(Snap()))
    {
      hide Leaves;
      ghost var s := Snap();
      NextSlotImage(s);
      NextLeaves(s);
      assert Mapped(s, rec.seg);
      newSlot := newSlot + 1;
      nSegs := nSegs + 1;
      rec := LogAddr(rec.seg + 1, 0);
      segToSlot[rec.seg] := rec.seg;
      assert Snap() == NextSlot(s);
    }

    method ResetCounter()
      requires Arrays() && Shape(Snap())
      modifies counters
      ensures Snap() == old(Snap())
      ensures Counts() == old(Counts()).(perSeg := if Recl(Snap()) then old(counters[..])[rec.seg := 0] else old(counters[..]))
    {
      var r := InReclamation();
      if r {
        counters[rec.seg] := 0;
      }
    }

    /** moveToNextSegment without the counters. */
    method OpenSegment(cp: Writer) returns (found: bool)
      requires Arrays() && Core(Snap()) && rec.off == g.pages && Writes(cp, g.cpPages)
      modifies `rec, `newSlot, `nSegs, cells, segToSlot
      ensures found ==> Core(Snap()) && Logical(Snap()) == old(Logical(Snap())) && rec.off == g.Header() && EndOk(Snap(), g.Header() - 1)
      ensures found ==> Draft(Snap()) == cp(Counts())
      ensures found && old(nSegs) < g.Segments() ==> rec.seg == old(rec.seg) + 1 && nSegs == old(nSegs) + 1 && !Recl(Snap())
      ensures found && old(nSegs) == g.Segments() ==> IsBest(g, counters[..], old(rec).seg, rec.seg) && nSegs == old(nSegs) && Recl(Snap())
      ensures !found ==> Core(Settled()) && Recl(Settled()) && Logical(Settled()) == old(Logical(Snap()))
      ensures !found ==> rec == old(rec) && nSegs == old(nSegs)
      ensures found <==> old(nSegs) < g.Segments() || exists i :: 0 <= i < g.Segments() && i != old(rec).seg && counters[i] > 0
    {
      hide EndOk, Logical, Leaves, Draft;
      ghost var from := Snap();
      if nSegs == g.Segments() {
        ghost var level, slot, org, row;
        found, level, slot, org, row := ReclaimNext();
        if !found {
          return;
        }
        assert Settled() == Snap();
        SpareApart(from, Snap());
      } else {
        AllocateNext();
      }
      assert Underway(from, Snap());
      WriteSegmentHeader(cp, from);
      return true;
    }

    method NextSegment(cp: Writer) returns (found: bool)
      requires Valid() && rec.off == g.pages && Writes(cp, g.cpPages)
      modifies `rec, `newSlot, `nSegs, cells, segToSlot
      ensures old(Core(Snap())) && old(rec.seg) < old(nSegs) <= g.Segments()
      ensures found ==> Core(Snap()) && Logical(Snap()) == old(Logical(Snap())) && rec.off == g.Header() && EndOk(Snap(), g.Header() - 1)
      ensures found ==> Draft(Snap()) == cp(Counts())
      ensures found && old(nSegs) < g.Segments() ==> rec.seg == old(rec.seg) + 1 && nSegs == old(nSegs) + 1 && !Recl(Snap())
      ensures found && old(nSegs) == g.Segments() ==> IsBest(g, counters[..], old(rec).seg, rec.seg) && nSegs == old(nSegs) && Recl(Snap())
      ensures !found ==> Core(Settled()) && Recl(Settled()) && Logical(Settled()) == old(Logical(Snap()))
      ensures !found ==> rec == old(rec) && nSegs == old(nSegs)
      ensures found <==> old(nSegs) < g.Segments() || exists i :: 0 <= i < g.Segments() && i != old(rec).seg && counters[i] > 0
    {
      Look(Now());
      hide Logical, EndOk, MapOk, FlagsOk, PagesOk, Draft;
      found := OpenSegment(cp);
    }

    /** The end of moveToNextSegment, after the header is written. */
    method Adopt(ghost w: World)
      requires Good(w) && !w.claimed && w.s.rec.off == w.s.g.pages && w.s.g == g
      requires Arrays() && Core(Snap()) && rec.off == g.Header() && EndOk(Snap(), g.Header() - 1) && Counts() == w.c && !claimed
      requires |Draft(Snap())| == g.cpPages
      requires Core(w.s) ==> Logical(Snap()) == Logical(w.s)
      modifies counters, `durable, `image
      ensures Valid() && image == w.image && durable == Durable(g.Header() - 1, image, {}, w.c.perSeg, old(Draft(Snap())))
      ensures KeepsCounts(w, Now())
      ensures counters[..] == if Recl(Snap()) then w.c.perSeg[rec.seg := 0] else w.c.perSeg
    {
      ghost var v := Opened(w, Snap());
      ResetCounter();
      Record(v.d, v.image);
      assert Now() == v;
    }

    /** The last checkpoint is of the present contents and holds the counters as they are, but for
        that of the segment being reclaimed. Its pages are the writer's. */
    ghost predicate Saved(off: nat, cp: Writer)
      reads this, cells, segToSlot, counters
      requires Arrays()
    {
      && durable == Durable(off, image, {}, durable.perSeg, durable.bytes) && |durable.perSeg| == counters.Length
      && Taken(cp, durable.bytes, durable.perSeg, g.cpPages) && |durable.bytes| == g.cpPages
      && (forall i :: 0 <= i < counters.Length && i != rec.seg ==> durable.perSeg[i] == counters[i])
      && (!Recl(Snap()) ==> durable.perSeg == counters[..])
    }

    /** moveToNextSegment: the next segment is allocated or chosen, its header
        and checkpoint are written, and everything readable stays as it was. It
        reports a full flash exactly when all segments are allocated and no other
        one has a counted obsolete page. */
    method MoveToNextSegment(cp: Writer) returns (st: Status)
      requires Valid() && !claimed && rec.off == g.pages && Writes(cp, g.cpPages)
      modifies this, cells, segToSlot, counters
      ensures st.FlashFull? <==>
        old(nSegs) == g.Segments() && forall i :: 0 <= i < g.Segments() && i != old(rec).seg ==> old(counters[i]) == 0
      ensures old(Where()).Ok(g)
      ensures Moved(old(Where()), st, if st.Ok? then Where() else old(Where()))
      ensures image == old(image) && KeepsCounters() && !claimed && obsCount == old(obsCount) && freeCount == old(freeCount)
      ensures st.Ok? ==> Valid() && Saved(g.Header() - 1, cp) && durable.bytes == cp(old(Counts()))
      ensures st.FlashFull? ==> Stuck() && Where() == old(Where()).(recl := Recl(Snap()))
      ensures st.FlashFull? && old(Covering()) ==> NothingToReclaim()
    {
      hide Good, Exact, Covers, Logical, EndOk, Recl, MapOk, FlagsOk, PagesOk, IsBest, Stuck, NothingToReclaim, SeqRoom.Move, Draft, Taken;
      Bounds();
      ghost var w, k := Now(), Where();
      TakenAtOnce(cp, Counts());
      var found := NextSegment(cp);
      if found {
        Adopt(w);
        SameKept(w, Now());
        MoveIs(k, Where());
        return Ok;
      } else {
        MoveFails(k);
        StuckHere(w);
        SameKeptStuck(w);
        return FlashFull;
      }
    }

    /** st and k2 are what Move says of k. */
    ghost predicate Moved(k: Control, st: Status, k2: Control)
      requires g.Valid() && k.Ok(g)
    {
      SeqRoom.Move(g, k) == if st.Ok? then Some(k2) else None
    }

    lemma MoveIs(k: Control, m: Control)
      requires g.Valid() && k.Ok(g) && m.rec.off == g.Header()
      requires k.nSegs < g.Segments() ==> m == Control(LogAddr(k.rec.seg + 1, g.Header()), k.nSegs + 1, false, k.counters)
      requires k.nSegs == g.Segments() ==> IsBest(g, k.counters, k.rec.seg, m.rec.seg)
      requires k.nSegs == g.Segments() ==> m.nSegs == k.nSegs && m.recl && m.counters == k.counters[m.rec.seg := 0]
      ensures SeqRoom.Move(g, k) == Some(m)
    {
      if k.nSegs == g.Segments() {
        BestUnique(g, k.counters, k.rec.seg, m.rec.seg);
      }
    }

    lemma MoveFails(k: Control)
      requires g.Valid() && k.Ok(g) && k.nSegs == g.Segments()
      requires forall i :: 0 <= i < g.Segments() && i != k.rec.seg ==> k.counters[i] == 0
      ensures SeqRoom.Move(g, k) == None
    {
    }

    /** What is left when no segment can be reclaimed: nothing is lost, but the
        reclaimed address was not moved. */
    ghost predicate Stuck()
      reads this, cells, segToSlot, counters
    {
      && Arrays() && Core(Settled()) && Recl(Settled()) && rec.off == g.pages
      && image == Logical(Settled())
    }

    /** No other segment has an obsolete page. */
    ghost predicate NothingToReclaim()
      reads `image, `rec
    {
      forall i :: 0 <= i < g.Segments() && i != rec.seg ==> ObsOffs(image, i, g.pages) == {}
    }

    /** In that state a stored page still reads back exactly when it is not in
        the finished segment: for that one, the stale reclaimed address makes the
        translation answer with the slot that was just erased. */
    lemma StuckReads(a: LogAddr)
      requires Stuck() && a in Contents()
      ensures Shape(Snap()) && MapDistinct(Snap()) && IsPos(g, a)
      ensures PageAt(Snap(), a) == if a.seg == rec.seg then Erased else PageAt(Settled(), a)
      ensures LivePage(PageAt(Snap(), a)) <==> a.seg != rec.seg
    {
      StuckPage(Settled(), Snap(), a);
    }

    static lemma StuckPage(s: St, t: St, a: LogAddr)
      requires Core(s) && Recl(s) && s.rec.off == 0 && t == s.(rec := s.rec.(off := s.g.pages))
      requires a in View(Logical(s))
      ensures Shape(t) && MapDistinct(t) && IsPos(t.g, a)
      ensures PageAt(t, a) == if a.seg == s.rec.seg then Erased else PageAt(s, a)
      ensures LivePage(PageAt(s, a))
    {
      assert a in Positions(s.g) && Logical(s)[a] == Bare(CellAt(s, a).page);
      assert MapDistinct(t) by {
        assert forall i :: Mapped(t, i) <==> Mapped(s, i);
      }
      if a.seg == s.rec.seg {
        assert s.cells[s.newSlot][a.off] == FreshCell;
      }
    }

    lemma StuckHere(w: World)
      requires Arrays() && Core(Settled()) && Recl(Settled()) && rec.off == g.pages
      requires Good(w) && !w.claimed && w.c.perSeg == counters[..] && w.s.g == g && w.s.nSegs == nSegs
      requires w.s.rec == rec && (Core(w.s) ==> Logical(Settled()) == Logical(w.s)) && image == w.image
      requires nSegs == g.Segments() && forall i :: 0 <= i < g.Segments() && i != rec.seg ==> counters[i] == 0
      ensures Stuck() && (Covers(w) ==> NothingToReclaim())
    {
      Look(w);
      if Covers(w) {
        forall i | 0 <= i < g.Segments() && i != rec.seg ensures ObsOffs(image, i, g.pages) == {} {
          NoObsLeft(w.s, w.c, i);
        }
      }
    }

    /** Neither the counters nor the pages they count have changed. */
    lemma SameKeptStuck(w: World)
      requires Arrays() && Good(w) && w.s.g == g && w.s.nSegs == nSegs && w.s.rec == rec && rec.off == g.pages
      requires Core(Settled()) && image == w.image && claimed == w.claimed && !w.claimed && Counts() == w.c
      ensures Exact(w.(c := w.c.(free := w.c.free - 0))) ==> CountedBut(0)
      ensures Covers(w) ==> Covering()
    {
      Look(w);
      if Covers(w) {
        assert forall i :: 0 <= i < nSegs ==> Reached(Snap(), i) == g.pages == Reached(w.s, i);
      }
    }

    static lemma NoObsLeft(s: St, c: Counters, i: nat)
      requires Core(s) && CountersCover(s, c) && i < s.nSegs && i != s.rec.seg && c.perSeg[i] == 0
      ensures ObsOffs(Logical(s), i, s.g.pages) == {}
    {
      assert |ObsOffs(Logical(s), i, Reached(s, i))| <= c.perSeg[i];
    }

    // ----- finding the next free page

    /** copyValidBlock */
    method CopyForward(p: Page)
      requires Valid() && !claimed && IsPos(g, rec) && Recl(Snap()) && LivePage(p) && p == PageAt(Snap(), rec)
      modifies `rec, cells
      ensures Valid() && KeepsCounters() && Where() == old(Where()).(rec := LogAddr(old(rec.seg), old(rec.off) + 1))
      ensures Draft(Snap()) == old(Draft(Snap())) && old(Copies(Snap())) && Snap() == CopyStep(old(Snap()))
    {
      hide Draft, Good, Exact, Covers, Recl, Core, PageAt, LivePage, IsPos, Copies;
      ghost var w := Now();
      ghost var v := CopiedAt(w, p);
      ProgramNext(p.(copied := true));
      assert Now() == v;
      SameKept(w, v);
    }

    static lemma CopiedAt(w: World, p: Page) returns (v: World)
      requires Good(w) && !w.claimed && IsPos(w.s.g, w.s.rec) && Recl(w.s) && LivePage(p) && p == PageAt(w.s, w.s.rec)
      ensures p.Used? && !p.obs && Core(w.s) && w.s.rec.off < w.s.g.pages && v == w.(s := Program(w.s, p.(copied := true)))
      ensures Good(v) && KeepsCounts(w, v) && Draft(v.s) == Draft(w.s) && (Recl(v.s) <==> Recl(w.s))
      ensures Copies(w.s) && v.s == CopyStep(w.s)
    {
      hide Good, Draft, KeepsCounts, Exact, Covers, Logical;
      v := Copied(w);
      CopyLogical(w.s);
    }

    method DropFromCounters(p: Page)
      requires Arrays()
      modifies `obsCount, `freeCount, `claimed
      ensures Counts() == ClaimCounts(p, old(Counts())) && claimed && Snap() == old(Snap())
    {
      if p.Used? && p.obs {
        obsCount := obsCount - 1;
      } else {
        freeCount := freeCount - 1;
      }
      claimed := true;
    }

    /** A position that has been claimed is no longer counted, everything else is. */
    ghost predicate ClaimedFrom(obs: int, free: int)
      reads this
    {
      if !claimed then obsCount == obs && freeCount == free
      else rec in image && if ObsPage(image[rec]) then obsCount == obs - 1 && freeCount == free else obsCount == obs && freeCount == free - 1
    }

    lemma NotClaimed(obs: int, free: int)
      requires ClaimedFrom(obs, free)
      ensures !claimed ==> obsCount == obs && freeCount == free
    {
    }

    lemma NothingClaimed()
      ensures !claimed ==> ClaimedFrom(obsCount, freeCount)
    {
    }

    /** is_page_to_copy, and the copy: one step of the search in reclamation. */
    method CopyOrClaim() returns (taken: bool)
      requires Valid() && !claimed && IsPos(g, rec) && rec.seg < nSegs && Recl(Snap())
      modifies `rec, `obsCount, `freeCount, `claimed, cells
      ensures Valid() && claimed == taken && KeepsCounters()
      ensures taken <==> old(rec) !in Contents()
      ensures Where() == if taken then old(Where()) else old(Where()).(rec := LogAddr(old(rec.seg), old(rec.off) + 1))
      ensures Draft(Snap()) == old(Draft(Snap()))
      ensures if taken then Snap() == old(Snap()) else old(Copies(Snap())) && Snap() == CopyStep(old(Snap()))
      ensures ClaimedFrom(old(obsCount), old(freeCount))
    {
      hide Good, Recl, PageAt, Exact, Covers, KeepsCounts, Draft, Copies;
      var p := ValidPage(rec);
      InView(Now(), rec);
      if p.Used? && !p.obs && p.cp.NotCp? {
        CopyForward(p);
        taken := false;
      } else {
        ghost var w := Now();
        ghost var v := Claimed(w);
        DropFromCounters(p);
        assert Now() == v;
        SameKept(w, v);
        taken := true;
      }
    }

    /** The walk through one segment: it stops at the first page that need not be copied. */
    method SearchSegment() returns (taken: bool)
      requires Valid() && !claimed && g.Header() <= rec.off
      modifies `rec, `obsCount, `freeCount, `claimed, cells
      ensures Valid() && KeepsCounters() && old(Where()).Ok(g)
      ensures taken <==> Here(Contents().Keys, g, old(Where()))
      ensures Where() == if taken then Stop(Contents().Keys, g, old(Where())) else old(Where()).(rec := LogAddr(old(rec.seg), g.pages))
      ensures taken ==> Ready(Snap(), claimed)
      ensures !taken ==> !claimed
      ensures Draft(Snap()) == old(Draft(Snap())) && Snap() == Forwarded(old(Snap()), rec.off)
      ensures ClaimedFrom(old(obsCount), old(freeCount))
    {
      hide Good, Recl, PageAt, Exact, Covers, View, NextFree, Draft, Copies, ClaimedFrom;
      Bounds();
      ghost var k, live := Where(), Contents().Keys;
      NothingClaimed();
      while rec.off < g.pages
        invariant Valid() && !claimed && g.Header() <= rec.off <= g.pages && KeepsCounters()
        invariant Where() == k.(rec := k.rec.(off := rec.off)) && Draft(Snap()) == old(Draft(Snap()))
        invariant Snap() == Forwarded(old(Snap()), rec.off) && obsCount == old(obsCount) && freeCount == old(freeCount)
        invariant k.recl || rec.off == k.rec.off
        invariant NextFree(live, g, k.rec.seg, k.rec.off) == NextFree(live, g, k.rec.seg, rec.off)
        decreases g.pages - rec.off
      {
        Bounds();
        var r := InReclamation();
        NothingClaimed();
        if !r {
          return true;
        }
        NextFreeIs(live, k.rec.seg, rec.off);
        taken := CopyOrClaim();
        NotClaimed(old(obsCount), old(freeCount));
        if taken {
          return;
        }
      }
      NothingClaimed();
      NextFreeIs(live, k.rec.seg, g.pages);
      return false;
    }

    lemma NextFreeIs(live: set<LogAddr>, seg: nat, off: nat)
      requires off <= g.pages
      ensures off < g.pages && LogAddr(seg, off) !in live ==> NextFree(live, g, seg, off) == off
      ensures off < g.pages && LogAddr(seg, off) in live ==> NextFree(live, g, seg, off) == NextFree(live, g, seg, off + 1)
      ensures off == g.pages ==> NextFree(live, g, seg, off) == g.pages
    {
    }

    lemma Bounds()
      requires Valid()
      ensures rec.seg < nSegs <= g.Segments() && rec.off <= g.pages && (Recl(Snap()) ==> nSegs == g.Segments())
      ensures g.Header() <= rec.off ==> Where().Ok(g)
    {
      Look(Now());
    }

    /** The search for a page has given up, either because no other segment has
        a counted obsolete page, or at the end of a segment after as many rounds
        as there are segments. Nothing the clients stored has left the flash. */
    ghost predicate Exhausted()
      reads this, cells, segToSlot, counters
    {
      Stuck() || (Valid() && !claimed && rec.off == g.pages)
    }

    /** One round of findNextFreePage. */
    method SearchRound(cp: Writer, ghost n: nat) returns (st: Status, taken: bool, moved: bool)
      requires Valid() && !claimed && g.Header() <= rec.off && Writes(cp, g.cpPages) && n > 0
      modifies this, cells, segToSlot, counters
      ensures old(Where()).Ok(g) && image == old(image) && KeepsCounters()
      ensures var r := Seek(Contents().Keys, g, old(Where()), n);
        if st.FlashFull? then r == None else if taken then r == Some(Where())
        else Where().Ok(g) && r == Seek(Contents().Keys, g, Where(), n - 1)
      ensures st.Ok? ==> Valid()
      ensures st.Ok? && taken ==> Ready(Snap(), claimed)
      ensures st.Ok? && !taken ==> !claimed && rec.off == g.pages
      ensures st.Ok? ==> (if moved then Saved(g.Header() - 1, cp) else durable == old(durable))
      ensures st.Ok? && !moved ==> rec.seg == old(rec.seg) && counters[..] == old(counters[..]) && Draft(Snap()) == old(Draft(Snap()))
      ensures st.Ok? && !moved ==> Snap() == Forwarded(old(Snap()), rec.off)
      ensures ClaimedFrom(old(obsCount), old(freeCount))
      ensures st.Ok? ==> (moved <==> old(rec).off == g.pages)
      ensures st.Ok? && !moved ==> (taken <==> Here(Contents().Keys, g, old(Where())))
      ensures st.FlashFull? ==> Exhausted()
    {
      hide Good, Recl, Exact, Covers, View, SeqState.Ready, Stuck, NextFree, Draft, Taken, Forwarded, ClaimedFrom;
      Bounds();
      st, taken, moved := Ok, false, false;
      if rec.off >= g.pages {
        st := MoveToNextSegment(cp);
        moved := true;
        NothingClaimed();
      }
      if st.Ok? {
        taken := SearchSegment();
      }
    }

    /** findNextFreePage: copies live pages forward, changes segments and claims
        a position without any client address changing what it holds. Whether it
        finds one, and which, follows from the contents, the position and the
        counters alone. */
    method FindNextFreePage(cp: Writer) returns (st: Status, cpWritten: bool)
      requires Valid() && !claimed && g.Header() <= rec.off && Writes(cp, g.cpPages)
      modifies this, cells, segToSlot, counters
      ensures old(Where()).Ok(g) && image == old(image) && KeepsCounters()
      ensures Seek(Contents().Keys, g, old(Where()), g.Segments()) == if st.Ok? then Some(Where()) else None
      ensures st.Ok? ==> Valid() && Ready(Snap(), claimed)
      ensures st.Ok? ==> (if cpWritten then Saved(g.Header() - 1, cp) else durable == old(durable))
      ensures st.Ok? && !cpWritten ==> rec.seg == old(rec.seg) && counters[..] == old(counters[..]) && Draft(Snap()) == old(Draft(Snap()))
      ensures st.Ok? ==> (!cpWritten <==> Here(Contents().Keys, g, old(Where())))
      ensures st.Ok? && !cpWritten ==> Snap() == Forwarded(old(Snap()), rec.off)
      ensures ClaimedFrom(old(obsCount), old(freeCount))
      ensures st.FlashFull? ==> Exhausted()
    {
      hide Good, Recl, Exact, Covers, View, SeqState.Ready, Stuck, NextFree, Scan, Stop, Draft, Taken, Forwarded, ClaimedFrom;
      Bounds();
      cpWritten := false;
      ghost var k, live := Where(), Contents().Keys;
      var n := g.Segments();
      while n > 0
        invariant Valid() && !claimed && g.Header() <= rec.off && image == old(image) && KeepsCounters() && Where().Ok(g)
        invariant 0 <= n <= g.Segments() && Seek(live, g, k, g.Segments()) == Seek(live, g, Where(), n)
        invariant n == g.Segments() ==> Where() == k && durable == old(durable) && !cpWritten && Snap() == old(Snap())
        invariant n < g.Segments() ==> rec.off == g.pages && !Here(live, g, k)
        invariant if cpWritten then n < g.Segments() && Saved(g.Header() - 1, cp) else durable == old(durable) && rec.seg == k.rec.seg && counters[..] == k.counters
        invariant cpWritten || Draft(Snap()) == old(Draft(Snap()))
        invariant obsCount == old(obsCount) && freeCount == old(freeCount)
      {
        var taken, moved;
        st, taken, moved := SearchRound(cp, n);
        NotClaimed(old(obsCount), old(freeCount));
        cpWritten := cpWritten || moved;
        if st.FlashFull? || taken {
          return;
        }
        n := n - 1;
      }
      NothingClaimed();
      return FlashFull, cpWritten;
    }

    // ----- writing a block

    /** is_flash_full */
    method IsFlashFull() returns (full: bool)
      requires Arrays()
      ensures full <==> AllFull(g, counters[..])
    {
      var i := 0;
      while i < g.Segments()
        invariant 0 <= i <= g.Segments()
        invariant forall k :: 0 <= k < i ==> counters[k] == g.pages
      {
        if counters[i] != g.pages {
          return false;
        }
        i := i + 1;
      }
      return true;
    }

    method ChargePage(reclaiming: bool)
      requires Arrays()
      modifies `freeCount, `claimed
      ensures Snap() == old(Snap()) && !claimed
      ensures Counts() == old(Counts()).(free := old(freeCount) - if reclaiming then 0 else 1)
    {
      if !reclaiming {
        freeCount := freeCount - 1;
      }
      claimed := false;
    }

    method WritePage(p: Page)
      requires Valid() && Ready(Snap(), claimed) && p.Used? && !p.obs && CompletedBy(Snap(), p)
      modifies `rec, `freeCount, `claimed, `durable, `image, cells
      ensures Valid() && !claimed
      ensures old(CountedBut(Credit(p))) ==> Counted()
      ensures old(Covering()) ==> Covering()
      ensures Snap() == After(old(Snap()), p, rec.off)
      ensures Draft(Snap()) == NextBytes(old(Draft(Snap())), p)
      ensures durable == if p.cp == EndMark(g) then Durable(old(rec).off, image, {}, counters[..], Draft(Snap())) else old(durable)
      ensures Counts() == if Recl(Snap()) then old(Counts()) else old(Counts()).(free := old(freeCount) - 1)
      ensures old(rec) in old(image) && !LivePage(old(image)[old(rec)])
      ensures Where() == old(Where()).(rec := LogAddr(old(rec.seg), old(rec.off) + 1)) && old(Where()).Ok(g) && rec.off <= g.pages
      ensures image == old(image)[old(rec) := Bare(p)]
    {
      hide Exact, Covers, Good, SeqState.Ready, Core, LivePage, Bare, Recl, Draft, NextBytes, CompletedBy, After;
      ghost var w := Now();
      ghost var v := Written(w, p);
      ReadyPlace(w);
      Programs(w.s, p);
      AfterIs(w.s, p);
      var r := InReclamation();
      ProgramNext(p);
      ChargePage(r);
      Record(v.d, v.image);
      assert Now() == v;
      WrittenKeeps(w, p, v);
    }

    lemma ReadyPlace(w: World)
      requires Good(w) && Ready(w.s, w.claimed)
      ensures Core(w.s) && w.s.rec.seg < w.s.nSegs <= w.s.g.Segments() && w.s.g.Header() <= w.s.rec.off < w.s.g.pages
      ensures Recl(w.s) ==> w.s.nSegs == w.s.g.Segments()
    {
      Look(w);
    }

    static lemma Programs(s: St, p: Page)
      requires Core(s) && s.rec.off < s.g.pages && p.Used?
      ensures Core(Program(s, p)) && (Recl(Program(s, p)) <==> Recl(s))
    {
      ProgramCore(s, p);
    }

    static lemma WrittenKeeps(w: World, p: Page, v: World)
      requires p.Used? && KeepsCounts(w.(c := w.c.(free := w.c.free - Credit(p))), v)
      ensures Exact(w.(c := w.c.(free := w.c.free - Credit(p)))) ==> Exact(v.(c := v.c.(free := v.c.free - 0)))
      ensures Covers(w) ==> Covers(v)
    {
      assert v.(c := v.c.(free := v.c.free - 0)) == v;
      if Covers(w) {
        assert Covers(w.(c := w.c.(free := w.c.free - Credit(p))));
      }
    }

    /** allocAndWriteBlock, for client pages and for checkpoint pages that
        commit() writes. The page goes to an address that was not live, reads
        back as written, and no other address is affected; the next position is
        then made ready, except after the last page of a checkpoint. Whether there
        is one follows from the position, the counters and the contents with the
        page. A segment header written on the way makes the whole new contents
        durable, and so does the last page of a checkpoint. */
    method AllocAndWriteBlock(p: Page, lastOfCheckpoint: bool, cp: Writer)
      returns (st: Status, written: bool, addr: LogAddr, cpWritten: bool)
      requires Valid() && Ready(Snap(), claimed) && p.Used? && !p.obs && Writes(cp, g.cpPages)
      requires (lastOfCheckpoint <==> p.cp == EndMark(g)) && CompletedBy(Snap(), p)
      modifies this, cells, segToSlot, counters
      ensures old(Where()).Ok(g) && old(rec).off < g.pages
      ensures !written <==> AllFull(g, old(counters[..]))
      ensures !written ==> st.FlashFull? && Now() == old(Now())
      ensures written ==> addr == old(rec) && addr !in old(Contents()) && addr in old(image) && !LivePage(old(image)[addr])
      ensures written ==> image == old(image)[addr := Bare(p)]
      ensures written ==> Contents() == if p.cp.NotCp? then old(Contents())[addr := EntryOf(p)] else old(Contents())
      ensures written ==> (old(CountedBut(Credit(p))) ==> Counted()) && (old(Covering()) ==> Covering())
      ensures written && !lastOfCheckpoint ==>
        Seek(Contents().Keys, g, Behind(old(Where())), g.Segments()) == if st.Ok? then Some(Where()) else None
      ensures written && lastOfCheckpoint ==> st.Ok? && Where() == Behind(old(Where()))
      ensures st.Ok? ==> Valid() && (lastOfCheckpoint || Ready(Snap(), claimed))
      ensures st.Ok? && lastOfCheckpoint ==> !claimed && !cpWritten && durable == Durable(addr.off, image, {}, counters[..], Draft(Snap()))
      ensures written ==> ClaimedFrom(old(obsCount), old(freeCount) - if old(Recl(Snap())) then 0 else 1)
      ensures st.Ok? && !cpWritten ==> Draft(Snap()) == NextBytes(old(Draft(Snap())), p)
      ensures st.Ok? && !cpWritten ==> Snap() == After(old(Snap()), p, rec.off)
      ensures st.Ok? && !lastOfCheckpoint ==> (if cpWritten then Saved(g.Header() - 1, cp) else durable == old(durable))
      ensures st.Ok? && !cpWritten ==> rec.seg == old(rec.seg) && counters[..] == old(counters[..])
      ensures st.Ok? && !lastOfCheckpoint ==> (!cpWritten <==> Here(Contents().Keys, g, Behind(old(Where()))))
      ensures st.FlashFull? && written ==> Exhausted()
    {
      hide Good, Recl, Exact, Covers, View, SeqState.Ready, Exhausted, NextFree, Seek, Here, LivePage, EndMark, Saved, AllFull, Bare,
        Draft, NextBytes, CompletedBy, Taken, Forwarded, After, Core, ClaimedFrom;
      ghost var w := Now();
      ReadyPlace(w);
      addr, cpWritten := rec, false;
      var full := IsFlashFull();
      if full {
        return FlashFull, false, addr, false;
      }
      ghost var m := image;
      WritePage(p);
      PageView(m, addr, p);
      NothingClaimed();
      written := true;
      if lastOfCheckpoint {
        return Ok, true, addr, false;
      }
      ghost var t := Snap();
      st, cpWritten := FindNextFreePage(cp);
      AfterMore(w.s, p, t, rec.off);
    }

    static lemma PageView(m: Image, a: LogAddr, p: Page)
      requires a in m && !LivePage(m[a]) && p.Used? && !p.obs
      ensures a !in View(m)
      ensures View(m[a := Bare(p)]) == if p.cp.NotCp? then View(m)[a := EntryOf(p)] else View(m)
    {
      WriteView(m, a, Bare(p));
    }

    /** The position after the one at k. */
    function Behind(k: Control): (r: Control)
      requires k.Ok(g) && k.rec.off < g.pages
      ensures r.Ok(g)
    {
      k.(rec := k.rec.(off := k.rec.off + 1))
    }

    /** commit(): writes a checkpoint page by page, each first credited to the
        free count. It leaves the contents alone and makes them durable, either
        with its own last page or through a segment header written on the way; the
        pages of the last checkpoint are then the writer's, in their order. It
        fails exactly when every counter is at its maximum, and then leaves the
        free count one too high, or when the search for a page behind one of its
        own fails, and then it does not. */
    method Commit(cp: Writer) returns (st: Status)
      requires Valid() && Ready(Snap(), claimed) && Writes(cp, g.cpPages)
      modifies this, cells, segToSlot, counters
      ensures old(Where()).Ok(g) && old(rec).off < g.pages
      ensures st.Ok? <==> !AllFull(g, old(counters[..])) && Fits(old(Contents()).Keys, g, old(Where()), g.cpPages)
      ensures AllFull(g, old(counters[..])) ==> Now() == old(Now()).(c := old(Now()).c.(free := old(freeCount) + 1))
      ensures !AllFull(g, old(counters[..])) ==> KeepsCounters()
      ensures Overwrites(old(image), image) && Contents() == old(Contents())
      ensures st.Ok? ==> Valid() && (Saved(durable.off, cp) || Finished(cp))
      ensures st.Ok? ==> Ready(Snap(), claimed) || (!claimed && g.Header() <= rec.off)
      ensures st.FlashFull? ==> Exhausted() || AllFull(g, old(counters[..]))
    {
      hide Good, SeqState.Ready, Overwrites, View, Exhausted, Exact, Covers, Fits, Recl, Saved, Finished;
      st := CommitPages(cp);
      OverwritesView(old(image), image);
    }

    /** commit() has written the last page of its own checkpoint: it is of the present contents and
        counters. The last page has the global counts too, but for the page itself, which was credited
        and then, unless it was claimed, is taken off the free count again. */
    ghost predicate Finished(cp: Writer)
      reads this, cells, segToSlot, counters
      requires Arrays()
    {
      && durable == Durable(durable.off, image, {}, counters[..], durable.bytes)
      && Taken(cp, durable.bytes, counters[..], g.cpPages) && |durable.bytes| == g.cpPages > 0
      && var c := Counts().(free := freeCount + if Recl(Snap()) then 0 else 1);
         |cp(c)| == g.cpPages && durable.bytes[g.cpPages - 1] == cp(c)[g.cpPages - 1]
    }

    method CommitPages(cp: Writer) returns (st: Status)
      requires Valid() && Ready(Snap(), claimed) && Writes(cp, g.cpPages)
      modifies this, cells, segToSlot, counters
      ensures old(Where()).Ok(g) && old(rec).off < g.pages
      ensures st.Ok? <==> !AllFull(g, old(counters[..])) && Fits(old(Contents()).Keys, g, old(Where()), g.cpPages)
      ensures AllFull(g, old(counters[..])) ==> Now() == old(Now()).(c := old(Now()).c.(free := old(freeCount) + 1))
      ensures !AllFull(g, old(counters[..])) ==> KeepsCounters()
      ensures Overwrites(old(image), image)
      ensures st.Ok? ==> Valid() && (Saved(durable.off, cp) || Finished(cp))
      ensures st.Ok? ==> Ready(Snap(), claimed) || (!claimed && g.Header() <= rec.off)
      ensures st.FlashFull? ==> Exhausted() || AllFull(g, old(counters[..]))
    {
      hide Good, SeqState.Ready, Overwrites, View, Exhausted, Exact, Covers, Recl, Here, Seek, Stop, Fits, AllFull, EndMark, Saved, Finished,
        Draft, Drafted, Behind, FitsAs;
      ReadyPlace(Now());
      ghost var k, live := Where(), Contents().Keys;
      SameOverwrites(image);
      var i := 0;
      NothingDrafted(cp, counters[..]);
      SameFit(live, k);
      while i < g.cpPages
        invariant i <= g.cpPages && Overwrites(old(image), image) && Valid()
        invariant if i < g.cpPages then Ready(Snap(), claimed) else !claimed && g.Header() <= rec.off
        invariant if i < g.cpPages then Drafted(cp, counters[..], if i == 0 then [] else Draft(Snap()), i) else Finished(cp)
        invariant i > 0 ==> !AllFull(g, k.counters) && KeepsCounters()
        invariant i == 0 ==> Now() == old(Now())
        invariant counters[..] == k.counters
        invariant i < g.cpPages ==> FitsAs(live, k, Where(), g.cpPages - i)
        invariant i == g.cpPages ==> Fits(live, g, k, g.cpPages)
      {
        var cpWritten;
        ghost var m, at := image, Where();
        OverwritesView(old(image), m);
        FitsStep(live, k, at, g.cpPages - i);
        st, cpWritten := CommitPage(cp, i);
        OverwritesMore(old(image), m, image);
        if st.FlashFull? {
          return;
        }
        if cpWritten {
          SavedAt(g.Header() - 1, cp);
          return;
        }
        i := i + 1;
      }
      return Ok;
    }

    lemma SavedAt(off: nat, cp: Writer)
      requires Arrays() && Saved(off, cp)
      ensures durable.off == off
    {
    }

    /** A checkpoint fits from k on exactly when m more pages fit from at on. */
    ghost predicate FitsAs(live: set<LogAddr>, k: Control, at: Control, m: nat)
      requires g.Valid() && k.Ok(g) && k.rec.off < g.pages
    {
      at.Ok(g) && at.rec.off < g.pages && m > 0 && (Fits(live, g, k, g.cpPages) <==> Fits(live, g, at, m))
    }

    lemma SameFit(live: set<LogAddr>, k: Control)
      requires g.Valid() && k.Ok(g) && k.rec.off < g.pages
      ensures FitsAs(live, k, k, g.cpPages)
    {
    }

    lemma FitsStep(live: set<LogAddr>, k: Control, at: Control, m: nat)
      requires g.Valid() && k.Ok(g) && k.rec.off < g.pages && FitsAs(live, k, at, m)
      ensures at.Ok(g) && at.rec.off < g.pages && (m == 1 ==> Fits(live, g, k, g.cpPages))
      ensures m > 1 && !Here(live, g, Behind(at)) ==> (Fits(live, g, k, g.cpPages) <==> Seek(live, g, Behind(at), g.Segments()).Some?)
      ensures m > 1 && Here(live, g, Behind(at)) ==> var r := Seek(live, g, Behind(at), g.Segments());
        r.Some? && FitsAs(live, k, r.value, m - 1)
    {
    }

    /** The first pages of a checkpoint, each as the writer has it when it is its turn. */
    ghost predicate Drafted(cp: Writer, perSeg: seq<nat>, bytes: seq<Block>, i: nat) {
      |bytes| == i <= g.cpPages && Taken(cp, bytes, perSeg, g.cpPages)
    }

    lemma NothingDrafted(cp: Writer, perSeg: seq<nat>)
      ensures Drafted(cp, perSeg, [], 0)
    {
    }

    lemma OneMore(cp: Writer, c: Counters, bytes: seq<Block>, i: nat)
      requires Drafted(cp, c.perSeg, bytes, i) && Writes(cp, g.cpPages) && i < g.cpPages
      ensures |cp(c)| == g.cpPages && Drafted(cp, c.perSeg, bytes + [cp(c)[i]], i + 1)
    {
    }

    /** One page of a checkpoint. */
    method CommitPage(cp: Writer, i: nat) returns (st: Status, cpWritten: bool)
      requires Valid() && Ready(Snap(), claimed) && i < g.cpPages && Writes(cp, g.cpPages)
      requires Drafted(cp, counters[..], if i == 0 then [] else Draft(Snap()), i)
      modifies this, cells, segToSlot, counters
      ensures old(Where()).Ok(g) && old(rec).off < g.pages
      ensures Overwrites(old(image), image)
      ensures AllFull(g, old(counters[..])) ==>
        st.FlashFull? && Now() == old(Now()).(c := old(Now()).c.(free := old(freeCount) + 1))
      ensures !AllFull(g, old(counters[..])) ==> KeepsCounters()
      ensures !AllFull(g, old(counters[..])) && i + 1 < g.cpPages ==>
        Seek(old(Contents()).Keys, g, Behind(old(Where())), g.Segments()) == if st.Ok? then Some(Where()) else None
      ensures !AllFull(g, old(counters[..])) && i + 1 == g.cpPages ==> st.Ok?
      ensures st.Ok? ==> Valid()
      ensures st.Ok? && i + 1 < g.cpPages ==> Ready(Snap(), claimed) && (!cpWritten <==> Here(old(Contents()).Keys, g, Behind(old(Where()))))
      ensures st.Ok? && i + 1 == g.cpPages ==> !claimed && g.Header() <= rec.off && !cpWritten && Finished(cp)
      ensures st.Ok? && !cpWritten ==> counters[..] == old(counters[..])
      ensures st.Ok? && !cpWritten && i + 1 < g.cpPages ==> Drafted(cp, counters[..], Draft(Snap()), i + 1)
      ensures st.Ok? && cpWritten ==> Saved(g.Header() - 1, cp)
      ensures st.FlashFull? ==> Exhausted() || AllFull(g, old(counters[..]))
    {
      hide Overwrites, Good, Exhausted, EndMark, CpMarkOf, SeqState.Ready, View, LivePage, Bare, Exact, Covers, Here, Seek, Recl, AllFull,
        Draft, NextBytes, Drafted, CompletedBy, Saved, Finished, After;
      ghost var bytes := if i == 0 then [] else Draft(Snap());
      CreditPage();
      OneMore(cp, Counts(), bytes, i);
      var p := CheckpointPage(cp(Counts())[i], i);
      NextPage(Snap(), p, bytes, i);
      ghost var m, c := image, Counts();
      SameOverwrites(m);
      var written, addr;
      st, written, addr, cpWritten := AllocAndWriteBlock(p, i + 1 == g.cpPages, cp);
      if written {
        OverwritesAt(m, addr, p);
        if i + 1 == g.cpPages {
          LastPage(cp, c, bytes);
        }
      }
    }

    /** The pages of a checkpoint carry its marks, and only the last one the mark that boot looks for. */
    function CheckpointPage(data: Block, i: nat): (p: Page)
      requires i < g.cpPages
      ensures p.Used? && !p.obs && !p.cp.NotCp? && p.data == data && Credit(p) == 1
      ensures i + 1 == g.cpPages <==> p.cp == EndMark(g)
    {
      Used(data, None, false, CpMarkOf(i, g.cpPages - 1), false, false)
    }

    lemma NextPage(s: St, p: Page, bytes: seq<Block>, i: nat)
      requires i < g.cpPages && p.Used? && p.cp == CpMarkOf(i, g.cpPages - 1) && s.g == g
      requires bytes == (if i == 0 then [] else Draft(s)) && |bytes| == i
      ensures NextBytes(Draft(s), p) == bytes + [p.data] && CompletedBy(s, p)
    {
    }

    lemma LastPage(cp: Writer, c: Counters, bytes: seq<Block>)
      requires Arrays() && g.cpPages > 0 && |cp(c)| == g.cpPages && counters[..] == c.perSeg
      requires Drafted(cp, c.perSeg, bytes + [cp(c)[g.cpPages - 1]], g.cpPages)
      requires durable == Durable(durable.off, image, {}, counters[..], bytes + [cp(c)[g.cpPages - 1]])
      requires Counts() == if Recl(Snap()) then c else c.(free := c.free - 1)
      ensures Finished(cp)
    {
    }

    static lemma SameOverwrites(m: Image)
      ensures Overwrites(m, m)
    {
    }

    /** INCREMENT_FREE_COUNT */
    method CreditPage()
      requires Valid()
      modifies `freeCount
      ensures Valid() && Snap() == old(Snap()) && Now() == old(Now()).(c := old(Now()).c.(free := old(freeCount) + 1))
      ensures old(Counted()) ==> CountedBut(1)
      ensures old(Covering()) ==> Covering()
    {
      ghost var w := Now();
      Look(w);
      freeCount := freeCount + 1;
      assert Now() == w.(c := w.c.(free := w.c.free + 1));
      Conclude(Now());
      assert Now().(c := Now().c.(free := Now().c.free - 1)) == w;
      assert w.(c := w.c.(free := w.c.free - 0)) == w;
    }

    // ----- boot

    /** findCheckpointInSegment in the slot being written: the last page that ends a checkpoint. */
    method FindEnd(mark: CpMark) returns (off: nat)
      requires Valid() && mark == EndMark(g)
      ensures off == durable.off && off < rec.off
    {
      InOrder(Now());
      EndsAt(Now());
      off := rec.off - 1;
      while !(cells[newSlot, off].page.Used? && cells[newSlot, off].page.cp == mark)
        invariant durable.off <= off < rec.off
        decreases off
      {
        assert Rows()[newSlot][off] == cells[newSlot, off];
        off := off - 1;
      }
      assert Rows()[newSlot][off] == cells[newSlot, off];
    }

    static lemma EndsAt(w: World)
      requires Good(w)
      ensures Core(w.s) && EndOk(w.s, w.d.off) && DurableOk(w.s, w.d) && w.image == Logical(w.s)
    {
      Look(w);
    }

    /** The end of findCheckpointAndTruncate: erase units behind off are erased from the last one
        written down, and the unit of off itself is copied back without the pages behind it. */
    method DropBehind(off: nat)
      requires Arrays() && Core(Snap()) && off < rec.off
      modifies `rec, cells
      ensures Snap() == SeqCrash.Boot(old(Snap()), off)
    {
      ghost var s := Snap();
      var end := EraseBehind(off);
      CopyBack(off, end);
      rec := rec.(off := off + 1);
      RowsAre(SeqCrash.Boot(s, off).cells);
    }

    /** Ends at the first page behind the unit of off. */
    method EraseBehind(off: nat) returns (end: nat)
      requires Arrays() && Core(Snap()) && off < rec.off
      modifies cells
      ensures off < end <= g.pages && newSlot == old(newSlot)
      ensures forall i, j :: 0 <= i < g.slots && 0 <= j < g.pages ==>
        cells[i, j] == if i == newSlot && j >= end then FreshCell else old(Rows())[i][j]
    {
      ghost var s := Snap();
      FreshBehind(s);
      var start, unit := UnitStart(rec.off - 1);
      hide Core;
      while off < start
        invariant start == g.euPages * unit && start + g.euPages <= g.pages && off < start + g.euPages
        invariant ErasedFrom(s, start + g.euPages)
        decreases start
      {
        UnitBelow(g.euPages, unit);
        UnitAbove(g.euPages, unit, off);
        EraseUnit(newSlot, start, start);
        start, unit := start - g.euPages, unit - 1;
      }
      end := start + g.euPages;
    }

    /** The slot being written is erased from off on, all else is as in s. */
    ghost predicate ErasedFrom(s: St, off: nat)
      reads `newSlot, cells
      requires Arrays() && Shape(s) && s.g == g
    {
      forall i, j :: 0 <= i < g.slots && 0 <= j < g.pages ==>
        cells[i, j] == if i == newSlot && j >= off then FreshCell else s.cells[i][j]
    }

    /** The first page of the unit of off, and the number of the unit. */
    method UnitStart(off: nat) returns (start: nat, ghost unit: nat)
      requires Arrays() && off < g.pages
      ensures start == g.euPages * unit && start <= off < start + g.euPages <= g.pages
    {
      UnitOf(off, g.euPages);
      UnitFits(off / g.euPages);
      start, unit := g.euPages * (off / g.euPages), off / g.euPages;
    }

    static lemma FreshBehind(s: St)
      requires Core(s)
      ensures s.newSlot < s.g.slots && s.rec.off <= s.g.pages
      ensures forall j :: s.rec.off <= j < s.g.pages ==> s.cells[s.newSlot][j] == FreshCell
    {
    }

    /** A unit that starts behind off does not start at the first page. */
    static lemma UnitAbove(n: nat, unit: nat, off: nat)
      requires off < n * unit
      ensures unit > 0
    {
    }

    static lemma UnitOf(x: nat, n: nat)
      requires n > 0
      ensures n * (x / n) <= x < n * (x / n) + n
    {
    }

    lemma UnitFits(unit: nat)
      requires Arrays() && g.euPages * unit < g.pages
      ensures g.euPages * unit + g.euPages <= g.pages
    {
      assert g.pages == g.euPages * g.eus;
      if unit >= g.eus {
        TimesMore(g.euPages, g.eus, unit);
      } else {
        TimesMore(g.euPages, unit + 1, g.eus);
      }
    }

    static lemma TimesMore(n: nat, a: nat, b: nat)
      requires a <= b
      ensures n * a <= n * b
    {
    }

    /** copyBackEU: what remains of the unit that ends before end. */
    method CopyBack(off: nat, end: nat)
      requires Arrays() && newSlot < g.slots && off < end <= g.pages
      modifies cells
      ensures forall i, j :: 0 <= i < g.slots && 0 <= j < g.pages ==>
        cells[i, j] == if i == newSlot && off < j < end then FreshCell else old(cells[i, j])
    {
      for j := off + 1 to end
        invariant forall i, k :: 0 <= i < g.slots && 0 <= k < g.pages ==>
          cells[i, k] == if i == newSlot && off < k < j then FreshCell else old(cells[i, k])
      {
        cells[newSlot, j] := FreshCell;
      }
    }

    /** findCheckpointStart: the last first page before off. */
    method FindStart(off: nat) returns (start: nat)
      requires Arrays() && newSlot < g.slots && off < g.pages
      ensures start <= off && (start > 0 ==> MarkAt(Rows()[newSlot][start].page) == CpFirst)
      ensures forall j :: start < j <= off ==> MarkAt(Rows()[newSlot][j].page) != CpFirst
    {
      start := off;
      while start > 0 && !(cells[newSlot, start].page.Used? && cells[newSlot, start].page.cp == CpFirst)
        invariant start <= off && forall j :: start < j <= off ==> MarkAt(Rows()[newSlot][j].page) != CpFirst
        decreases start
      {
        assert Rows()[newSlot][start] == cells[newSlot, start];
        start := start - 1;
      }
      assert Rows()[newSlot][start] == cells[newSlot, start];
    }

    /** readCheckpointToMemory: the pages of the checkpoint that ends at off, in their order. Pages
        copied in between are skipped. */
    method ReadCheckpoint(off: nat, ghost all: seq<Block>) returns (bytes: seq<Block>)
      requires Arrays() && EndsWith(Snap(), off, all)
      ensures bytes == all
    {
      hide CpBytes, ReadTo, EndsWith;
      CheckpointAt(Snap(), off, all);
      var start := off;
      if g.cpPages > 1 {
        start := FindStart(off);
      }
      ReadNothing(Rows()[newSlot], off, start);
      bytes := ReadFrom(off, start);
    }

    method ReadFrom(off: nat, start: nat) returns (bytes: seq<Block>)
      requires Arrays() && newSlot < g.slots && start <= off < g.pages && ReadTo(Rows()[newSlot], off, start, start, [])
      requires |CpBytes(Rows()[newSlot], off + 1)| == g.cpPages > 0 && MarkAt(Rows()[newSlot][off].page) != NotCp
      ensures bytes == CpBytes(Rows()[newSlot], off + 1)
    {
      hide CpBytes, ReadTo;
      ghost var row := Rows()[newSlot];
      var k := start;
      bytes := [];
      while |bytes| < g.cpPages
        invariant k <= off + 1 && ReadTo(row, off, start, k, bytes) && (k > off ==> |bytes| == g.cpPages)
        decreases off + 1 - k
      {
        ReadNext(row, off, start, k, bytes);
        var p := cells[newSlot, k].page;
        assert row[k].page == p;
        if p.Used? && !p.cp.NotCp? {
          bytes := bytes + [p.data];
        }
        k := k + 1;
      }
      ReadAll(row, off, start, k, bytes);
    }

    /** A checkpoint of these pages ends at off in the slot being written. */
    static ghost predicate EndsWith(s: St, off: nat, bytes: seq<Block>) {
      && Shape(s) && off < s.g.pages && |bytes| == s.g.cpPages
      && CpBytes(s.cells[s.newSlot], off + 1) == bytes && MarkAt(s.cells[s.newSlot][off].page) == EndMark(s.g)
    }

    lemma CheckpointAt(s: St, off: nat, bytes: seq<Block>)
      requires s.g == g && EndsWith(s, off, bytes)
      ensures s.newSlot < g.slots == |s.cells| && off + 1 <= g.pages == |s.cells[s.newSlot]| && |bytes| == g.cpPages > 0
      ensures CpBytes(s.cells[s.newSlot], off + 1) == bytes
      ensures MarkAt(s.cells[s.newSlot][off].page) != NotCp && (g.cpPages == 1 ==> MarkAt(s.cells[s.newSlot][off].page) == CpFirst)
      ensures g.cpPages > 1 ==> MarkAt(s.cells[s.newSlot][off].page) == CpLast
    {
    }

    /** The pages of the checkpoint from its start to before k. */
    static ghost predicate ReadTo(row: seq<Cell>, off: nat, start: nat, k: nat, bytes: seq<Block>) {
      && start <= off && start <= k <= off + 1 <= |row| && (start > 0 ==> MarkAt(row[start].page) == CpFirst)
      && (forall j :: start < j <= off ==> MarkAt(row[j].page) != CpFirst)
      && bytes == if k == start then [] else CpBytes(row, k)
    }

    static lemma ReadNothing(row: seq<Cell>, off: nat, start: nat)
      requires start <= off < |row| && (start > 0 ==> MarkAt(row[start].page) == CpFirst)
      requires forall j :: start < j <= off ==> MarkAt(row[j].page) != CpFirst
      ensures ReadTo(row, off, start, start, [])
    {
    }

    static lemma ReadNext(row: seq<Cell>, off: nat, start: nat, k: nat, bytes: seq<Block>)
      requires k <= off && ReadTo(row, off, start, k, bytes)
      ensures k < |row| && ReadTo(row, off, start, k + 1, if MarkAt(row[k].page) == NotCp then bytes else bytes + [row[k].page.data])
      ensures k == off ==> CpBytes(row, off + 1) == if MarkAt(row[k].page) == NotCp then bytes else bytes + [row[k].page.data]
    {
      if k == start == 0 {
        assert CpBytes(row, 0) == [];
      }
    }

    /** All the pages have been read only when the one at off has. */
    static lemma ReadAll(row: seq<Cell>, off: nat, start: nat, k: nat, bytes: seq<Block>)
      requires ReadTo(row, off, start, k, bytes) && |bytes| >= |CpBytes(row, off + 1)| > 0 && MarkAt(row[off].page) != NotCp
      ensures bytes == CpBytes(row, off + 1)
    {
      if start < k <= off {
        CpBytesGrow(row, k, off);
      }
    }

    /** readCheckpointToMemory restores the counters; the free count is one less when the checkpoint
        was not a header's and no segment is reclaimed. */
    method RestoreCounters(ck: Counters, off: nat)
      requires Arrays() && |ck.perSeg| == counters.Length
      modifies `obsCount, `freeCount, counters
      ensures Snap() == old(Snap())
      ensures Counts() == ck.(free := ck.free - if !Recl(Snap()) && off >= g.Header() then 1 else 0)
    {
      var i := 0;
      while i < counters.Length
        invariant i <= counters.Length && counters[..i] == ck.perSeg[..i] && Snap() == old(Snap())
      {
        counters[i] := ck.perSeg[i];
        i := i + 1;
      }
      var r := InReclamation();
      obsCount, freeCount := ck.obs, ck.free - if !r && off >= g.Header() then 1 else 0;
      assert counters[..] == ck.perSeg;
    }

    /** sequencingBooting from the search for the last checkpoint on; the counters are loaded from the
        pages of the checkpoint. The contents are those of the checkpoint but for marks made since, and
        the store goes on from there. Whether the counters of the segments still suffice depends on
        those marks. */
    method Boot(mark: CpMark, load: seq<Block> -> Counters) returns (bytes: seq<Block>)
      requires Valid() && mark == EndMark(g) && load(durable.bytes).perSeg == durable.perSeg
      modifies this, cells, counters
      ensures bytes == durable.bytes
      ensures Valid() && !claimed && durable == old(durable) && KeepsDurable(image, durable)
      ensures image == old(Booted()) && Snap() == old(Rebooted()) && old(durable).off < old(rec).off
      ensures Where() == Control(LogAddr(old(rec.seg), durable.off + 1), old(nSegs), old(Recl(Snap())), durable.perSeg)
      ensures Shape(Snap()) && (Covering() <==> SavedSuffice(Snap(), image, durable))
      ensures obsCount == load(bytes).obs
      ensures freeCount == load(bytes).free - if !Recl(Snap()) && durable.off >= g.Header() then 1 else 0
    {
      hide Good, Exact, Covers, Core, Rewound, Logical, DurableOk, EndOk, KeepsDurable, SavedSuffice, Recl, EndMark, SeqCrash.Boot, Holds, EndsWith;
      ghost var w := Now();
      EndsAt(w);
      var off := FindEnd(mark);
      ghost var m := Rewound(w.s, off);
      BootKeeps(w.s, off);
      DropBehind(off);
      BootReads(w.s, w.d);
      bytes := ReadCheckpoint(off, w.d.bytes);
      RestoreCounters(load(bytes), off);
      claimed := false;
      Record(w.d, m);
      BootGood(w, Now());
    }

    /** The pages of the checkpoint are where they were. */
    static lemma BootReads(s: St, d: Durable)
      requires Core(s) && DurableOk(s, d)
      ensures d.off < s.rec.off && EndsWith(SeqCrash.Boot(s, d.off), d.off, d.bytes) && SeqCrash.Boot(s, d.off).g == s.g
    {
      hide Rewound, KeepsDurable, Logical, MapOk, FlagsOk, PagesOk, CpBytes;
      CrashRecovers(s, d);
      BootOff(s, d.off);
    }

    static lemma BootGood(w: World, v: World)
      requires Good(w) && Core(w.s) && w.d.off < w.s.rec.off && v.s == SeqCrash.Boot(w.s, w.d.off) && !v.claimed
      requires v.d == w.d && v.image == Rewound(w.s, w.d.off) && v.c.perSeg == w.d.perSeg
      ensures Good(v) && KeepsDurable(v.image, v.d) && Shape(v.s)
      ensures Covers(v) <==> SavedSuffice(v.s, v.image, v.d)
    {
      EndsAt(w);
      hide Rewound, KeepsDurable, SeqCrash.Boot, EndOk, SavedSuffice;
      CrashRecovers(w.s, w.d);
      BootIsRewound(w.s, w.d.off);
      BootCover(w.s, w.d, v.c);
      CoversIs(v);
      Conclude(v);
    }

    static lemma CoversIs(w: World)
      requires Core(w.s) && w.image == Logical(w.s)
      ensures Covers(w) <==> CountersCover(w.s, w.c)
    {
    }

    /** What boot leaves of the flash ... */
    ghost function Rebooted(): St
      reads this, cells, segToSlot, counters
      requires Valid()
    {
      EndsAt(Now());
      SeqCrash.Boot(Snap(), durable.off)
    }

    /** ... and of the pages. */
    ghost function Booted(): Image
      reads this, cells, segToSlot, counters
      requires Valid()
    {
      EndsAt(Now());
      Rewound(Snap(), durable.off)
    }

    static lemma BootKeeps(s: St, off: nat)
      requires Core(s) && off < s.rec.off
      ensures var t := SeqCrash.Boot(s, off); t.rec == LogAddr(s.rec.seg, off + 1) && t.nSegs == s.nSegs && (Recl(t) <==> Recl(s))
    {
      BootCore(s, off);
    }
  }
}

/** Crashes while one segment gives way to the next: between the last page of a segment and the end
    of the next one's header. */
module SeqTurn {
  import opened Flash
  import opened SeqState
  import opened SeqSteps
  import opened SeqSegments
  import opened SeqCrash

  // ----- what is lost

  /** What is left of the checkpoint when the old slot of the segment being written is erased from
      an offset on. Positions behind the checkpoint fall back to that slot. */
  ghost function WindowImage(s: St, cpOff: nat, from: nat): Image
    requires Core(s)
  {
    map a | a in Positions(s.g) ::
      if a.seg == s.rec.seg && a.off > cpOff && a.off >= from then Erased else Bare(RewoundPage(s, cpOff, a))
  }

  /** Pages of the checkpoint's view that were copied forward after it. */
  ghost predicate CopiedSince(s: St, d: Durable, a: LogAddr)
    requires Core(s)
  {
    a in View(Rewound(s, d.off)) && a.seg == s.rec.seg && a.off > d.off
  }

  lemma WindowView(s: St, d: Durable, from: nat)
    requires Core(s)
    ensures var v, w := View(Rewound(s, d.off)), View(WindowImage(s, d.off, from));
            forall a :: (a in w <==> a in v && !(CopiedSince(s, d, a) && a.off >= from)) && (a in w ==> w[a] == v[a])
  {
    var m, n := Rewound(s, d.off), WindowImage(s, d.off, from);
    var gone := set a | a in m && a.seg == s.rec.seg && a.off > d.off && a.off >= from;
    assert forall a :: a in m ==> n[a] == if a in gone then Erased else m[a];
    hide Rewound, WindowImage, View, Core;
    ErasedView(m, n, gone);
  }

  /** Erasing pages takes exactly them out of the view. */
  lemma ErasedView(m: Image, n: Image, gone: set<LogAddr>)
    requires n.Keys == m.Keys && forall a :: a in m ==> n[a] == if a in gone then Erased else m[a]
    ensures forall a :: (a in View(n) <==> a in View(m) && a !in gone) && (a in View(n) ==> View(n)[a] == View(m)[a])
  {
  }

  /** In that window boot recovers the durable view exactly when no page behind the offset was
      carried over in the segment after its last checkpoint; otherwise it loses each such page. */
  lemma TruncationWindow(s: St, d: Durable, from: nat)
    requires Core(s) && s.rec.off == s.g.pages && DurableOk(s, d)
    ensures KeepsView(View(WindowImage(s, d.off, from)), d)
       <==> (forall a :: CopiedSince(s, d, a) && a.off >= from ==> a in d.marks)
    ensures forall a :: CopiedSince(s, d, a) && a.off >= from ==> a !in View(WindowImage(s, d.off, from))
  {
    var v, w := View(Rewound(s, d.off)), View(WindowImage(s, d.off, from));
    WindowView(s, d, from);
    DurableView(Rewound(s, d.off), d);
    hide Core, Rewound, WindowImage, EndOk, View, KeepsView;
    ErasedKeeps(v, w, d, set a | a in v && CopiedSince(s, d, a) && a.off >= from);
  }

  lemma ErasedKeeps(v: map<LogAddr, Entry>, w: map<LogAddr, Entry>, d: Durable, gone: set<LogAddr>)
    requires KeepsView(v, d) && gone <= v.Keys
    requires forall a :: (a in w <==> a in v && a !in gone) && (a in w ==> w[a] == v[a])
    ensures KeepsView(w, d) <==> forall a :: a in gone ==> a in d.marks
  {
    hide View;
    if a :| a in gone && a !in d.marks {
      assert a in View(d.image) && a !in w;
    }
  }

  // ----- between the erases of truncateSlot

  /** The old slot of the segment is erased from an offset on. */
  ghost function PartErased(s: St, slot: nat, from: nat): St
    requires Shape(s) && slot < s.g.slots
  {
    EraseSlot(s, slot, seq(s.g.pages, j requires 0 <= j < s.g.pages => if j >= from then FreshCell else s.cells[slot][j]))
  }

  ghost function OldSlot(s: St): (slot: nat)
    requires Core(s)
    ensures slot < s.g.slots
  {
    assert Mapped(s, s.rec.seg);
    s.map_[s.rec.seg]
  }

  /** Boot then finds both slots of the segment, and the last checkpoint in the newer one. */
  ghost function PartBoot(s: St, cpOff: nat, from: nat): St
    requires Core(s) && cpOff < s.g.pages
  {
    var t := PartErased(s, OldSlot(s), from);
    var row := seq(s.g.pages, j requires 0 <= j < s.g.pages => if j <= cpOff then s.cells[s.newSlot][j] else FreshCell);
    t.(cells := t.cells[s.newSlot := row], rec := s.rec.(off := cpOff + 1))
  }

  lemma PartBootMap(s: St, cpOff: nat, from: nat)
    requires Core(s) && Recl(s) && cpOff < s.g.pages
    ensures Shape(PartBoot(s, cpOff, from)) && MapDistinct(PartBoot(s, cpOff, from)) && Recl(PartBoot(s, cpOff, from))
  {
    var t := PartBoot(s, cpOff, from);
    assert forall i :: Mapped(t, i) <==> Mapped(s, i);
  }

  lemma PartBootCell(s: St, cpOff: nat, from: nat, a: LogAddr)
    requires Core(s) && Recl(s) && cpOff < s.g.pages && IsPos(s.g, a)
    requires Shape(PartBoot(s, cpOff, from)) && MapDistinct(PartBoot(s, cpOff, from)) && Recl(PartBoot(s, cpOff, from))
    ensures CellAt(PartBoot(s, cpOff, from), a).page
         == if a.seg == s.rec.seg && a.off > cpOff && a.off >= from then Erased else RewoundPage(s, cpOff, a)
  {
    if a.seg < s.nSegs { assert Mapped(s, a.seg) && Mapped(s, s.rec.seg); }
  }

  /** It shows the checkpoint without the pages behind it that were erased. */
  lemma PartBootIs(s: St, cpOff: nat, from: nat)
    requires Core(s) && Recl(s) && cpOff < s.g.pages
    ensures Shape(PartBoot(s, cpOff, from)) && MapDistinct(PartBoot(s, cpOff, from))
    ensures Logical(PartBoot(s, cpOff, from)) == WindowImage(s, cpOff, from)
  {
    PartBootMap(s, cpOff, from);
    var t := PartBoot(s, cpOff, from);
    hide PartBoot, Core, RewoundPage, CellAt, MapDistinct, Shape;
    forall a | a in Positions(s.g)
      ensures CellAt(t, a).page == if a.seg == s.rec.seg && a.off > cpOff && a.off >= from then Erased else RewoundPage(s, cpOff, a)
    {
      PartBootCell(s, cpOff, from, a);
    }
  }

  // ----- from the end of truncateSlot to the end of the next header

  /** The segment of s has been left, and the next one's header is not complete: the segment now sits
      on the slot it was written to, and every segment has the pages it had. */
  ghost predicate Leaves(s: St, t: St) {
    && Shape(s) && Shape(t) && t.g == s.g && s.nSegs <= t.nSegs && MapDistinct(s) && MapDistinct(t)
    && SameRow(s, s.newSlot, t, t.map_[s.rec.seg])
    && forall i :: 0 <= i < s.nSegs && i != s.rec.seg ==> SameRow(s, s.map_[i], t, t.map_[i])
  }

  ghost predicate SameRow(s: St, k: nat, t: St, l: nat)
    requires Shape(s) && Shape(t) && t.g == s.g
  {
    && k < s.g.slots && l < s.g.slots
    && forall j :: 0 <= j < s.g.pages ==> t.cells[l][j].page == s.cells[k][j].page
  }

  lemma RetireLeaves(s: St)
    requires Core(s) && Recl(s) && s.rec.off == s.g.pages
    ensures Leaves(s, Retire(s))
  {
    RetireCore(s);
    var t := Retire(s);
    assert forall i :: Mapped(t, i) <==> Mapped(s, i);
    assert Mapped(s, s.rec.seg);
    forall i | 0 <= i < s.nSegs && i != s.rec.seg ensures SameRow(s, s.map_[i], t, t.map_[i]) {
      assert Mapped(s, i);
    }
  }

  lemma StopLeaves(s: St)
    requires Core(s) && !Recl(s) && s.nSegs == s.g.Segments() && s.rec.off == s.g.pages
    ensures Leaves(s, StopAllocating(s))
  {
    StopAllocatingImage(s);
    var t := StopAllocating(s);
    assert forall i :: 0 <= i < s.nSegs ==> Mapped(s, i);
  }

  lemma NextLeaves(s: St)
    requires Core(s) && s.nSegs < s.g.Segments() && s.rec.off == s.g.pages
    ensures Leaves(s, NextSlot(s)) && forall i :: 0 <= i < s.nSegs ==> NextSlot(s).map_[i] != NextSlot(s).newSlot
  {
    NextSlotImage(s);
    var t := NextSlot(s);
    assert forall i :: 0 <= i < s.nSegs ==> Mapped(s, i) && Mapped(t, i);
  }

  /** Wear leveling moves a segment with all its pages. */
  lemma LevelLeaves(s: St, t: St, rnd: nat, org: nat, row: seq<Cell>)
    requires Leaves(s, t) && Core(t) && Recl(t) && t.rec.off == 0 && s.nSegs == t.nSegs
    requires rnd < t.g.slots && rnd != t.newSlot && Mapped(t, org) && t.map_[org] == rnd
    requires |row| == t.g.pages && (forall j :: 0 <= j < |row| ==> CellOk(row[j]))
    requires org < t.nSegs ==> CopyOfRow(row, t.cells[rnd])
    ensures Leaves(s, Level(t, rnd, org, row))
  {
    LevelCore(t, rnd, org, row);
    var u := Level(t, rnd, org, row);
    forall i | 0 <= i < s.nSegs ensures SameRow(t, t.map_[i], u, u.map_[i]) {
      assert Mapped(t, i) && Mapped(u, i);
      if i != org { assert t.map_[i] != rnd; }
    }
    SameRows(s, t, u);
  }

  lemma SameRows(s: St, t: St, u: St)
    requires Leaves(s, t) && Shape(u) && u.g == t.g && u.nSegs == t.nSegs && MapDistinct(u)
    requires forall i :: 0 <= i < s.nSegs ==> SameRow(t, t.map_[i], u, u.map_[i])
    ensures Leaves(s, u)
  {
    assert s.rec.seg < s.nSegs;
  }

  lemma BeginLeaves(s: St, t: St, seg: nat)
    requires Leaves(s, t) && seg < t.nSegs
    ensures Leaves(s, Begin(t, seg))
  {
    var u := Begin(t, seg);
    assert forall i :: Mapped(u, i) <==> Mapped(t, i);
    SameRows(s, t, u);
  }

  /** Pages of the next header go to a slot of their own. */
  lemma HeaderLeaves(s: St, t: St, p: Page)
    requires Leaves(s, t) && Core(t) && t.rec.off < t.g.pages && p.Used?
    requires forall i :: 0 <= i < s.nSegs ==> t.map_[i] != t.newSlot
    ensures Core(Program(t, p)) && Leaves(s, Program(t, p))
    ensures forall i :: 0 <= i < s.nSegs ==> Program(t, p).map_[i] != Program(t, p).newSlot
  {
    ProgramCore(t, p);
    var u := Program(t, p);
    forall i | 0 <= i < s.nSegs ensures SameRow(t, t.map_[i], u, u.map_[i]) {
      assert Mapped(t, i);
    }
    SameRows(s, t, u);
  }

  lemma SpareApart(s: St, t: St)
    requires Leaves(s, t) && Core(t) && Recl(t)
    ensures forall i :: 0 <= i < s.nSegs ==> t.map_[i] != t.newSlot
  {
    assert forall i :: 0 <= i < s.nSegs ==> Mapped(t, i);
  }

  /** No page of the slot being written ends a checkpoint. */
  ghost predicate Unfinished(t: St)
    requires Shape(t)
  {
    forall j :: 0 <= j < t.rec.off ==> MarkAt(t.cells[t.newSlot][j].page) != EndMark(t.g)
  }

  lemma HeaderUnfinished(t: St, p: Page)
    requires Core(t) && t.rec.off < t.g.pages && p.Used? && p.cp != EndMark(t.g) && Unfinished(t)
    ensures Core(Program(t, p)) && Unfinished(Program(t, p))
  {
    ProgramCore(t, p);
  }

  /** Boot drops the unfinished segment and goes back to segment seg, of n, where it drops what
      follows its last checkpoint. */
  ghost function BackTo(t: St, seg: nat, n: nat, cpOff: nat): St
    requires Shape(t) && seg < |t.map_| && t.map_[seg] < t.g.slots && cpOff < t.g.pages
  {
    var k := t.map_[seg];
    var row := seq(t.g.pages, j requires 0 <= j < t.g.pages => if j <= cpOff then t.cells[k][j] else FreshCell);
    t.(cells := t.cells[k := row], newSlot := k, nSegs := n, rec := LogAddr(seg, cpOff + 1))
  }

  lemma BackToMap(s: St, t: St, cpOff: nat)
    requires Core(s) && Leaves(s, t) && cpOff < s.g.pages
    ensures var u := BackTo(t, s.rec.seg, s.nSegs, cpOff); Shape(u) && MapDistinct(u) && !Recl(u)
  {
    var u := BackTo(t, s.rec.seg, s.nSegs, cpOff);
    assert forall i :: Mapped(u, i) ==> Mapped(t, i);
  }

  lemma BackToCell(s: St, t: St, cpOff: nat, a: LogAddr)
    requires Core(s) && Leaves(s, t) && s.rec.off == s.g.pages && cpOff < s.g.pages && IsPos(s.g, a)
    requires var u := BackTo(t, s.rec.seg, s.nSegs, cpOff); Shape(u) && MapDistinct(u) && !Recl(u)
    ensures CellAt(BackTo(t, s.rec.seg, s.nSegs, cpOff), a).page
         == if a.seg == s.rec.seg && a.off > cpOff then Erased else RewoundPage(s, cpOff, a)
  {
    if a.seg < s.nSegs {
      assert Mapped(s, a.seg) && Mapped(t, a.seg) && Mapped(t, s.rec.seg);
      if a.seg != s.rec.seg {
        assert SameRow(s, s.map_[a.seg], t, t.map_[a.seg]);
      }
    }
  }

  /** What it shows: when segments are reclaimed, the checkpoint without the pages copied since;
      while they are allocated, the whole checkpoint. */
  lemma BackToIs(s: St, t: St, cpOff: nat)
    requires Core(s) && Leaves(s, t) && s.rec.off == s.g.pages && cpOff < s.g.pages
    ensures var u := BackTo(t, s.rec.seg, s.nSegs, cpOff);
      && Shape(u) && MapDistinct(u) && Logical(u) == WindowImage(s, cpOff, 0)
      && (!Recl(s) ==> Logical(u) == Rewound(s, cpOff))
  {
    BackToMap(s, t, cpOff);
    WindowWhole(s, cpOff);
    var u := BackTo(t, s.rec.seg, s.nSegs, cpOff);
    hide BackTo, Core, CellAt, MapDistinct, Shape, Leaves, Recl, WindowImage, Logical, Rewound;
    forall a | IsPos(s.g, a)
      ensures CellAt(u, a).page == if a.seg == s.rec.seg && a.off > cpOff then Erased else RewoundPage(s, cpOff, a)
    {
      BackToCell(s, t, cpOff, a);
    }
    ShowsWindow(s, u, cpOff);
  }

  lemma ShowsWindow(s: St, u: St, cpOff: nat)
    requires Core(s) && Shape(u) && MapDistinct(u) && u.g == s.g
    requires forall a :: IsPos(s.g, a) ==>
      CellAt(u, a).page == if a.seg == s.rec.seg && a.off > cpOff then Erased else RewoundPage(s, cpOff, a)
    ensures Logical(u) == WindowImage(s, cpOff, 0)
  {
    hide Core, CellAt, MapDistinct, Shape, RewoundPage;
  }

  lemma WindowWhole(s: St, cpOff: nat)
    requires Core(s) && s.rec.off == s.g.pages && cpOff < s.g.pages
    ensures !Recl(s) ==> WindowImage(s, cpOff, 0) == Rewound(s, cpOff)
  {
    if !Recl(s) {
      assert forall a :: a in Positions(s.g) && a.seg == s.rec.seg && a.off > cpOff ==> RewoundPage(s, cpOff, a) == Erased;
    }
  }

  /** In the slot it goes back to, boot finds the last checkpoint of the segment. */
  lemma BackEnd(s: St, t: St, off: nat)
    requires Core(s) && Leaves(s, t) && s.rec.off == s.g.pages && EndOk(s, off)
    ensures off < s.g.pages && MarkAt(t.cells[t.map_[s.rec.seg]][off].page) == EndMark(s.g)
    ensures forall j :: off < j < s.g.pages ==> MarkAt(t.cells[t.map_[s.rec.seg]][j].page) != EndMark(s.g)
  {
  }

  /** There it reads the pages of that checkpoint. */
  lemma BackHolds(s: St, t: St, off: nat, bytes: seq<Block>)
    requires Core(s) && Leaves(s, t) && Holds(s, off, bytes)
    ensures CpBytes(t.cells[t.map_[s.rec.seg]], off + 1) == bytes
  {
    CpBytesSame(s.cells[s.newSlot], t.cells[t.map_[s.rec.seg]], off + 1);
  }
}

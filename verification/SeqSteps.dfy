/** What each primitive change of the sequencing layer does to the invariant,
    the logical view and the counters. */
module SeqSteps {
  import opened Flash
  import opened SeqState

  function Programmed(p: Page): Cell
    requires p.Used?
  {
    Cell(p, 1, if p.obs then 1 else 0)
  }

  function Put(s: St, slot: nat, off: nat, c: Cell): St
    requires slot < |s.cells| && off < |s.cells[slot]|
  {
    s.(cells := s.cells[slot := s.cells[slot][off := c]])
  }

  /** Core(t) follows from its parts; keeps the quantifiers of each proof small. */
  lemma MakeCore(t: St)
    requires Shape(t) && MapOk(t) && FlagsOk(t)
    requires forall j :: 0 <= j < t.rec.off ==> t.cells[t.newSlot][j].page.Used?
    requires forall j :: t.rec.off <= j < t.g.pages ==> t.cells[t.newSlot][j] == FreshCell
    requires forall i :: 0 <= i < t.nSegs && t.map_[i] != t.newSlot ==> FullSlot(t, t.map_[i])
    requires !Recl(t) ==> forall i :: t.nSegs <= i <= t.g.Segments() ==> FreshSlot(t, i)
    ensures Core(t)
  {
  }

  /** Replacing a programmed page by a programmed page. */
  lemma PutCore(s: St, slot: nat, off: nat, c: Cell)
    requires Core(s) && slot < s.g.slots && off < s.g.pages
    requires s.cells[slot][off].page.Used? && c.page.Used? && CellOk(c)
    ensures Core(Put(s, slot, off, c)) && (Recl(Put(s, slot, off, c)) <==> Recl(s))
  {
    var t := Put(s, slot, off, c);
    assert forall i :: Mapped(t, i) <==> Mapped(s, i);
    forall i | 0 <= i < t.nSegs && t.map_[i] != t.newSlot
      ensures FullSlot(t, t.map_[i])
    {
      assert FullSlot(s, s.map_[i]);
    }
    if !Recl(t) {
      forall i | t.nSegs <= i <= t.g.Segments() ensures FreshSlot(t, i) { assert FreshSlot(s, i); }
    }
    MakeCore(t);
  }

  /** Program p at the reclaimed offset of the slot being written. */
  ghost function Program(s: St, p: Page): St
    requires Shape(s) && s.rec.off < s.g.pages && p.Used?
  {
    Put(s, s.newSlot, s.rec.off, Programmed(p)).(rec := s.rec.(off := s.rec.off + 1))
  }

  lemma ProgramCore(s: St, p: Page)
    requires Core(s) && s.rec.off < s.g.pages && p.Used?
    ensures Core(Program(s, p)) && (Recl(Program(s, p)) <==> Recl(s))
  {
    var t := Program(s, p);
    assert Shape(t);
    assert forall i :: Mapped(t, i) <==> Mapped(s, i);
    assert MapOk(t);
    assert FlagsOk(t);
    assert forall i :: 0 <= i < s.g.slots && i != s.newSlot ==> t.cells[i] == s.cells[i];
    forall i | 0 <= i < t.nSegs && t.map_[i] != t.newSlot
      ensures FullSlot(t, t.map_[i])
    {
      assert FullSlot(s, s.map_[i]);
    }
    if !Recl(t) {
      forall i | t.nSegs <= i <= t.g.Segments() ensures FreshSlot(t, i) { assert FreshSlot(s, i); }
    }
  }

  lemma ProgramCell(s: St, p: Page, a: LogAddr)
    requires Core(s) && s.rec.off < s.g.pages && p.Used? && IsPos(s.g, a)
    requires Core(Program(s, p)) && (Recl(Program(s, p)) <==> Recl(s))
    ensures CellAt(Program(s, p), a) == if a == s.rec then Programmed(p) else CellAt(s, a)
  {
    if a.seg < s.nSegs {
      assert Mapped(s, a.seg) && Mapped(s, s.rec.seg);
    }
  }

  /** Two states that differ at one position only. */
  lemma ImageDiffers(s: St, t: St, x: LogAddr, p: Page)
    requires Shape(s) && MapDistinct(s) && Shape(t) && MapDistinct(t) && s.g == t.g
    requires forall a :: IsPos(s.g, a) ==> CellAt(t, a).page == if a == x then p else CellAt(s, a).page
    ensures Logical(t) == if IsPos(s.g, x) then Logical(s)[x := Bare(p)] else Logical(s)
  {
  }

  /** Programming the next page changes the page image at the reclaimed
      address and at no other position. */
  lemma ProgramImage(s: St, p: Page)
    requires Core(s) && s.rec.off < s.g.pages && p.Used?
    ensures Core(Program(s, p)) && (Recl(Program(s, p)) <==> Recl(s))
    ensures Logical(Program(s, p)) == (if IsPos(s.g, s.rec) then Logical(s)[s.rec := Bare(p)] else Logical(s))
  {
    ProgramCore(s, p);
    var t := Program(s, p);
    forall a | IsPos(s.g, a) ensures CellAt(t, a).page == if a == s.rec then p else CellAt(s, a).page {
      ProgramCell(s, p, a);
    }
    ImageDiffers(s, t, s.rec, p);
  }

  // ----- the page image

  /** Changing one page changes each set of addresses at that page only. */
  lemma ImageUpdate(m: Image, x: LogAddr, p: Page)
    requires x in m
    ensures var n := m[x := p];
            && ObsSet(n) == (if ObsPage(p) then ObsSet(m) + {x} else ObsSet(m) - {x})
            && FreeSet(n) == (if FreePage(p) then FreeSet(m) + {x} else FreeSet(m) - {x})
            && View(n) == (if LivePage(p) then View(m)[x := EntryOf(p)] else View(m) - {x})
  {
  }

  lemma SubsetCard<T>(a: set<T>, b: set<T>)
    requires a <= b
    ensures |a| <= |b|
  {
    if a != {} {
      var x :| x in a;
      SubsetCard(a - {x}, b - {x});
    }
  }

  // ----- writing a page

  /** Free pages charged by a write: none in reclamation. */
  ghost function Charge(s: St, c: Counters): Counters
    requires Shape(s)
  {
    if Recl(s) then c else c.(free := c.free - 1)
  }

  /** commit() adds a free page before it writes a checkpoint page. */
  function Credit(p: Page): int {
    if p.Used? && !p.cp.NotCp? then 1 else 0
  }

  /** One write: the address was not live, afterwards it reads back what was
      written, every other address is untouched, and counters that were right stay right. */
  lemma WriteStepOk(s: St, p: Page, claimed: bool, c: Counters)
    requires Core(s) && ClaimOk(s, claimed) && Ready(s, claimed)
    requires p.Used? && !p.obs
    ensures var t := Program(s, p);
            && Core(t) && ClaimOk(t, false)
            && s.rec in Logical(s) && !LivePage(Logical(s)[s.rec])
            && Logical(t) == Logical(s)[s.rec := Bare(p)]
            && (CountsOk(Logical(s), Claim(s, claimed), c.(free := c.free - Credit(p))) ==> CountsOk(Logical(t), {}, Charge(s, c)))
            && (CountersCover(s, c) ==> CountersCover(t, c))
  {
    hide CountsOk, CountersCover;
    ProgramImage(s, p);
    NotLiveYet(s, claimed);
    if CountsOk(Logical(s), Claim(s, claimed), c.(free := c.free - Credit(p))) {
      WriteCounts(s, p, claimed, c);
    }
    if CountersCover(s, c) {
      WriteCover(s, p, c);
    }
  }

  /** The arithmetic of a write on the two counted sets. */
  lemma WriteSets(o: set<LogAddr>, f: set<LogAddr>, o': set<LogAddr>, f': set<LogAddr>,
                  x: LogAddr, claim: set<LogAddr>, cp: bool, obs: int, free: int)
    requires o' == o - {x} && f' == if cp then f + {x} else f - {x}
    requires claim == {x} || (claim == {} && x in f && x !in o)
    requires obs == |o - claim| && free == |f - claim|
    ensures |o' - {}| == obs
    ensures |f' - {}| == free + (if cp then 1 else 0) - (if claim == {} then 1 else 0)
  {
    assert o' - {} == o - claim;
    assert f' - {} == f';
    if claim == {} { assert f - claim == f; }
  }

  /** Writing p over a position that is not live, in the image alone: either
      the position was claimed and so already left the counters, or it was
      free and free is charged. */
  lemma WriteImage(m: Image, x: LogAddr, p: Page, claim: set<LogAddr>, c: Counters)
    requires x in m && !LivePage(m[x]) && p.Used? && !p.obs
    requires claim == {x} || (claim == {} && FreePage(m[x]))
    requires CountsOk(m, claim, c.(free := c.free - Credit(p)))
    ensures CountsOk(m[x := p], {}, if claim == {} then c.(free := c.free - 1) else c)
  {
    ImageUpdate(m, x, p);
    var o, f := ObsSet(m), FreeSet(m);
    assert claim == {} ==> x in f && x !in o;
    WriteSets(o, f, ObsSet(m[x := p]), FreeSet(m[x := p]), x, claim, !p.cp.NotCp?, c.obs, c.free - Credit(p));
  }

  /** What a write means for clients. */
  lemma WriteView(m: Image, x: LogAddr, p: Page)
    requires x in m && !LivePage(m[x]) && p.Used? && !p.obs
    ensures View(m[x := p]) == (if p.cp.NotCp? then View(m)[x := EntryOf(p)] else View(m))
  {
    ImageUpdate(m, x, p);
  }

  lemma NotLiveYet(s: St, claimed: bool)
    requires Core(s) && ClaimOk(s, claimed) && Ready(s, claimed)
    ensures s.rec in Logical(s) && !LivePage(Logical(s)[s.rec]) && s.rec !in View(Logical(s))
    ensures !claimed ==> FreePage(Logical(s)[s.rec])
  {
    assert s.rec in Positions(s.g);
    if !Recl(s) {
      assert CellAt(s, s.rec) == FreshCell;
    }
  }

  lemma WriteCounts(s: St, p: Page, claimed: bool, c: Counters)
    requires Core(s) && ClaimOk(s, claimed) && Ready(s, claimed)
    requires CountsOk(Logical(s), Claim(s, claimed), c.(free := c.free - Credit(p)))
    requires p.Used? && !p.obs
    ensures s.rec in Logical(s) && !LivePage(Logical(s)[s.rec])
    ensures CountsOk(Logical(s)[s.rec := Bare(p)], {}, Charge(s, c))
  {
    NotLiveYet(s, claimed);
    WriteImage(Logical(s), s.rec, Bare(p), Claim(s, claimed), c);
  }

  lemma WriteObsOffs(m: Image, x: LogAddr, p: Page, i: nat, before: nat, after: nat)
    requires !ObsPage(p) && (after == before || (i == x.seg && before == x.off && after == before + 1))
    ensures |ObsOffs(if x in m then m[x := p] else m, i, after)| <= |ObsOffs(m, i, before)|
  {
    SubsetCard(ObsOffs(if x in m then m[x := p] else m, i, after), ObsOffs(m, i, before));
  }

  lemma WriteCover(s: St, p: Page, c: Counters)
    requires Core(s) && CountersCover(s, c) && s.rec.off < s.g.pages && p.Used? && !p.obs
    ensures Core(Program(s, p)) && CountersCover(Program(s, p), c)
  {
    var t := Program(s, p);
    ProgramImage(s, p);
    forall i | 0 <= i < t.nSegs ensures |ObsOffs(Logical(t), i, Reached(t, i))| <= c.perSeg[i] {
      WriteObsOffs(Logical(s), s.rec, Bare(p), i, Reached(s, i), Reached(t, i));
    }
  }

  // ----- copying a live page forward

  /** copyValidBlock: the page of the old generation is programmed into the
      slot being written, marked as a copy. */
  ghost function CopyStep(s: St): St
    requires Core(s) && IsPos(s.g, s.rec) && Recl(s) && LivePage(CellAt(s, s.rec).page)
  {
    Program(s, CellAt(s, s.rec).page.(copied := true))
  }

  ghost predicate Copies(s: St) {
    Core(s) && IsPos(s.g, s.rec) && Recl(s) && LivePage(CellAt(s, s.rec).page)
  }

  /** The obsolete flag of the page at a has been programmed where the page is. */
  ghost function MarkedAt(s: St, a: LogAddr): St {
    if Core(s) && IsPos(s.g, a) && a.seg < s.nSegs && LivePage(CellAt(s, a).page) then MarkStep(s, a) else s
  }

  /** The pages before offset n have been copied forward. */
  ghost function Forwarded(s: St, n: nat): St
    decreases n
  {
    if n <= s.rec.off then s
    else
      var t := Forwarded(s, n - 1);
      if Copies(t) then CopyStep(t) else t
  }

  /** The page p has been written, and the live pages behind it up to offset n copied forward. */
  ghost function After(s: St, p: Page, n: nat): St {
    if Core(s) && s.rec.off < s.g.pages && p.Used? then Forwarded(Program(s, p), n) else s
  }

  lemma AfterIs(s: St, p: Page)
    requires Core(s) && s.rec.off < s.g.pages && p.Used?
    ensures After(s, p, s.rec.off + 1) == Program(s, p)
  {
  }

  lemma AfterMore(s: St, p: Page, t: St, n: nat)
    requires Core(s) && s.rec.off < s.g.pages && p.Used? && t == After(s, p, s.rec.off + 1)
    ensures Forwarded(t, n) == After(s, p, n)
  {
  }

  lemma CopyStepOk(s: St, c: Counters)
    requires Core(s) && IsPos(s.g, s.rec) && Recl(s) && LivePage(CellAt(s, s.rec).page)
    ensures Core(CopyStep(s)) && Logical(CopyStep(s)) == Logical(s)
    ensures CountersCover(s, c) ==> CountersCover(CopyStep(s), c)
  {
    CopyLogical(s);
    if CountersCover(s, c) {
      WriteCover(s, CellAt(s, s.rec).page.(copied := true), c);
    }
  }

  /** Not even the image of obsolete pages changes. */
  lemma CopyLogical(s: St)
    requires Core(s) && IsPos(s.g, s.rec) && Recl(s) && LivePage(CellAt(s, s.rec).page)
    ensures Core(CopyStep(s)) && (Recl(CopyStep(s)) <==> Recl(s)) && Logical(CopyStep(s)) == Logical(s)
  {
    var p := CellAt(s, s.rec).page.(copied := true);
    assert s.rec in Positions(s.g) && Bare(p) == Logical(s)[s.rec];
    ProgramImage(s, p);
  }

  // ----- claiming a position

  /** is_page_to_copy on a page that is not copied: its position leaves the
      counters and becomes the next one to write. */
  ghost function ClaimCounts(p: Page, c: Counters): Counters {
    if ObsPage(p) then c.(obs := c.obs - 1) else c.(free := c.free - 1)
  }

  lemma ClaimStepOk(s: St, c: Counters)
    requires Core(s) && IsPos(s.g, s.rec) && Recl(s) && !LivePage(CellAt(s, s.rec).page)
    ensures ClaimOk(s, true) && Ready(s, true)
    ensures CountsOk(Logical(s), {}, c) ==> CountsOk(Logical(s), Claim(s, true), ClaimCounts(CellAt(s, s.rec).page, c))
    ensures CountersCover(s, c) ==> CountersCover(s, ClaimCounts(CellAt(s, s.rec).page, c))
  {
    assert s.rec in Positions(s.g);
    if CountsOk(Logical(s), {}, c) {
      ClaimImage(Logical(s), s.rec, c);
    }
  }

  lemma ClaimImage(m: Image, x: LogAddr, c: Counters)
    requires x in m && !LivePage(m[x]) && CountsOk(m, {}, c)
    ensures CountsOk(m, {x}, ClaimCounts(m[x], c))
  {
    var o, f := ObsSet(m), FreeSet(m);
    assert x in o <==> ObsPage(m[x]);
    assert x in f <==> FreePage(m[x]);
    assert o - {} == o && f - {} == f;
    if x in o { assert f - {x} == f; } else { assert o - {x} == o; }
  }

  // ----- marking a page obsolete

  /** The second write to a page's spare area. */
  ghost function MarkStep(s: St, a: LogAddr): St
    requires Core(s) && IsPos(s.g, a) && a.seg < s.nSegs && LivePage(CellAt(s, a).page)
  {
    var c := CellAt(s, a);
    Put(s, SlotOf(s, a), a.off, Cell(c.page.(obs := true), c.mainWrites, 1))
  }

  ghost function MarkCounts(a: LogAddr, c: Counters): Counters
    requires a.seg < |c.perSeg|
  {
    c.(obs := c.obs + 1, perSeg := c.perSeg[a.seg := c.perSeg[a.seg] + 1])
  }

  lemma MarkCore(s: St, a: LogAddr)
    requires Core(s) && IsPos(s.g, a) && a.seg < s.nSegs && LivePage(CellAt(s, a).page)
    ensures Core(MarkStep(s, a)) && (Recl(MarkStep(s, a)) <==> Recl(s))
  {
    assert Mapped(s, a.seg);
    var c := CellAt(s, a);
    PutCore(s, SlotOf(s, a), a.off, Cell(c.page.(obs := true), c.mainWrites, 1));
  }

  lemma MarkCell(s: St, a: LogAddr, b: LogAddr)
    requires Core(s) && IsPos(s.g, a) && a.seg < s.nSegs && LivePage(CellAt(s, a).page) && IsPos(s.g, b)
    requires Core(MarkStep(s, a)) && (Recl(MarkStep(s, a)) <==> Recl(s))
    ensures CellAt(MarkStep(s, a), b).page == if b == a then CellAt(s, a).page.(obs := true) else CellAt(s, b).page
  {
    if b.seg < s.nSegs {
      assert Mapped(s, a.seg) && Mapped(s, b.seg) && Mapped(s, s.rec.seg);
    }
  }

  lemma MarkImage(s: St, a: LogAddr)
    requires Core(s) && IsPos(s.g, a) && a.seg < s.nSegs && LivePage(CellAt(s, a).page)
    ensures Core(MarkStep(s, a)) && (Recl(MarkStep(s, a)) <==> Recl(s))
    ensures Logical(MarkStep(s, a)) == Logical(s)[a := Bare(CellAt(s, a).page.(obs := true))]
  {
    MarkCore(s, a);
    var t, p := MarkStep(s, a), CellAt(s, a).page.(obs := true);
    forall b | IsPos(s.g, b) ensures CellAt(t, b).page == if b == a then p else CellAt(s, b).page {
      MarkCell(s, a, b);
    }
    ImageDiffers(s, t, a, p);
  }

  lemma MarkSets(m: Image, a: LogAddr, claim: set<LogAddr>, c: Counters)
    requires a in m && LivePage(m[a]) && a !in claim && a.seg < |c.perSeg|
    requires CountsOk(m, claim, c)
    ensures CountsOk(m[a := m[a].(obs := true)], claim, MarkCounts(a, c))
  {
    var n := m[a := m[a].(obs := true)];
    ImageUpdate(m, a, m[a].(obs := true));
    assert ObsSet(n) - claim == (ObsSet(m) - claim) + {a};
    assert FreeSet(n) == FreeSet(m);
  }

  lemma MarkCover(s: St, a: LogAddr, c: Counters)
    requires Core(s) && IsPos(s.g, a) && a.seg < s.nSegs && LivePage(CellAt(s, a).page) && CountersCover(s, c)
    ensures Core(MarkStep(s, a)) && CountersCover(MarkStep(s, a), MarkCounts(a, c))
  {
    MarkImage(s, a);
    var t, d := MarkStep(s, a), MarkCounts(a, c);
    forall i | 0 <= i < t.nSegs ensures |ObsOffs(Logical(t), i, Reached(t, i))| <= d.perSeg[i] {
      MarkObsOffs(Logical(s), a, i, Reached(s, i));
    }
  }

  lemma MarkObsOffs(m: Image, a: LogAddr, i: nat, bound: nat)
    requires a in m && LivePage(m[a])
    ensures |ObsOffs(m[a := m[a].(obs := true)], i, bound)| <= |ObsOffs(m, i, bound)| + (if i == a.seg then 1 else 0)
  {
    var before, after := ObsOffs(m, i, bound), ObsOffs(m[a := m[a].(obs := true)], i, bound);
    if i == a.seg {
      assert after <= before + {a.off};
      SubsetCard(after, before + {a.off});
    } else {
      assert after <= before;
      SubsetCard(after, before);
    }
  }

  /** What a mark means for clients. */
  lemma MarkView(m: Image, a: LogAddr)
    requires a in m && LivePage(m[a])
    ensures View(m[a := m[a].(obs := true)]) == View(m) - {a} && a in View(m)
  {
    ImageUpdate(m, a, m[a].(obs := true));
  }

  /** markAsObsolete changes that page only, and counters that were right stay right. */
  lemma MarkStepOk(s: St, a: LogAddr, claimed: bool, c: Counters)
    requires Core(s) && ClaimOk(s, claimed) && IsPos(s.g, a) && a.seg < s.nSegs && LivePage(CellAt(s, a).page)
    requires a.seg < |c.perSeg|
    ensures Core(MarkStep(s, a)) && ClaimOk(MarkStep(s, a), claimed)
    ensures a in Logical(s) && LivePage(Logical(s)[a])
    ensures Logical(MarkStep(s, a)) == Logical(s)[a := Logical(s)[a].(obs := true)]
    ensures Ready(s, claimed) ==> Ready(MarkStep(s, a), claimed)
    ensures CountsOk(Logical(s), Claim(s, claimed), c) ==>
      CountsOk(Logical(MarkStep(s, a)), Claim(MarkStep(s, a), claimed), MarkCounts(a, c))
    ensures CountersCover(s, c) ==> CountersCover(MarkStep(s, a), MarkCounts(a, c))
  {
    var m := Logical(s);
    MarkedImage(s, a);
    hide Logical, ObsSet, FreeSet, Core, CountsOk, CountersCover;
    MarkClaim(s, a, claimed);
    if CountsOk(m, Claim(s, claimed), c) {
      MarkSets(m, a, Claim(s, claimed), c);
    }
    if CountersCover(s, c) {
      MarkCover(s, a, c);
    }
  }

  lemma MarkedImage(s: St, a: LogAddr)
    requires Core(s) && IsPos(s.g, a) && a.seg < s.nSegs && LivePage(CellAt(s, a).page)
    ensures Core(MarkStep(s, a)) && (Recl(MarkStep(s, a)) <==> Recl(s))
    ensures a in Logical(s) && LivePage(Logical(s)[a])
    ensures Logical(MarkStep(s, a)) == Logical(s)[a := Logical(s)[a].(obs := true)]
  {
    assert a in Positions(s.g);
    MarkImage(s, a);
  }

  lemma MarkClaim(s: St, a: LogAddr, claimed: bool)
    requires Core(s) && IsPos(s.g, a) && a.seg < s.nSegs && LivePage(CellAt(s, a).page) && ClaimOk(s, claimed)
    ensures Core(MarkStep(s, a)) && ClaimOk(MarkStep(s, a), claimed) && a !in Claim(s, claimed)
    ensures Claim(MarkStep(s, a), claimed) == Claim(s, claimed)
  {
    MarkedImage(s, a);
    MarkView(Logical(s), a);
    ClaimStays(s, MarkStep(s, a), a, claimed);
  }

  lemma ClaimStays(s: St, t: St, a: LogAddr, claimed: bool)
    requires Core(s) && Core(t) && t.g == s.g && t.rec == s.rec && (Recl(t) <==> Recl(s)) && ClaimOk(s, claimed)
    requires a in View(Logical(s)) && View(Logical(t)) == View(Logical(s)) - {a}
    ensures ClaimOk(t, claimed) && a !in Claim(s, claimed) && Claim(t, claimed) == Claim(s, claimed)
  {
    hide Logical, View, FlagsOk, PagesOk, Recl;
  }

  // ----- checkpoint pages

  /** Some positions without live pages now hold checkpoint pages; nothing else has changed. */
  ghost predicate Overwrites(m: Image, n: Image) {
    && n.Keys == m.Keys
    && forall a :: a in m ==> n[a] == m[a] || (!LivePage(m[a]) && n[a].Used? && !n[a].cp.NotCp? && !n[a].obs)
  }

  lemma OverwritesMore(m: Image, n: Image, o: Image)
    requires Overwrites(m, n) && Overwrites(n, o)
    ensures Overwrites(m, o)
  {
  }

  lemma OverwritesAt(m: Image, a: LogAddr, p: Page)
    requires a in m && !LivePage(m[a]) && p.Used? && !p.cp.NotCp? && !p.obs
    ensures Overwrites(m, m[a := Bare(p)])
  {
  }

  /** Checkpoints do not show to clients. */
  lemma OverwritesView(m: Image, n: Image)
    requires Overwrites(m, n)
    ensures View(n) == View(m)
  {
  }
}

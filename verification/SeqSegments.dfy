/** Moving to the next segment: truncation, slot swaps, wear leveling and
    header writing leave every logical position as it was. */
module SeqSegments {
  import opened Flash
  import opened SeqState
  import opened SeqSteps

  ghost function FreshRow(g: Geometry): seq<Cell> {
    seq(g.pages, j => FreshCell)
  }

  function EraseSlot(s: St, slot: nat, row: seq<Cell>): St
    requires slot < |s.cells|
  {
    s.(cells := s.cells[slot := row])
  }

  lemma SameImage(s: St, t: St)
    requires Core(s) && Core(t) && s.g == t.g
    requires forall a :: IsPos(s.g, a) ==> CellAt(t, a).page == CellAt(s, a).page
    ensures Logical(t) == Logical(s)
  {
  }

  // ----- leaving a finished segment

  /** After the last page of a reclaimed segment: the old slot is erased and
      becomes the spare slot, the segment moves to the slot just filled. */
  ghost function Retire(s: St): St
    requires Core(s)
  {
    var old_ := s.map_[s.rec.seg];
    assert Mapped(s, s.rec.seg);
    EraseSlot(s, old_, FreshRow(s.g)).(map_ := s.map_[s.rec.seg := s.newSlot], newSlot := old_, rec := s.rec.(off := 0))
  }

  lemma RetireCore(s: St)
    requires Core(s) && Recl(s) && s.rec.off == s.g.pages
    ensures Core(Retire(s)) && Recl(Retire(s))
  {
    var t := Retire(s);
    var k := s.rec.seg;
    assert Mapped(s, k);
    assert forall i :: Mapped(t, i) <==> Mapped(s, i);
    assert Shape(t) && MapDistinct(t);
    assert SpareSlot(t);
    assert FlagsOk(t);
    hide MapOk, FlagsOk, Core;
    forall i | 0 <= i < t.nSegs && t.map_[i] != t.newSlot ensures FullSlot(t, t.map_[i]) {
      RetireFull(s, i);
    }
    MakeCore(t);
  }

  lemma RetireFull(s: St, i: nat)
    requires Core(s) && Recl(s) && s.rec.off == s.g.pages && i < s.nSegs && Retire(s).map_[i] != Retire(s).newSlot
    ensures Shape(Retire(s)) && Retire(s).map_[i] < s.g.slots && FullSlot(Retire(s), Retire(s).map_[i])
  {
    assert Mapped(s, i) && Mapped(s, s.rec.seg);
    if i != s.rec.seg { assert FullSlot(s, s.map_[i]); }
  }

  lemma RetireImage(s: St)
    requires Core(s) && Recl(s) && s.rec.off == s.g.pages
    ensures Core(Retire(s)) && Recl(Retire(s)) && Logical(Retire(s)) == Logical(s)
  {
    RetireCore(s);
    var t := Retire(s);
    forall a | IsPos(s.g, a) ensures CellAt(t, a).page == CellAt(s, a).page {
      assert Mapped(s, a.seg) && Mapped(s, s.rec.seg);
    }
    SameImage(s, t);
  }

  /** After the last page of the last allocated segment: the slot that no
      segment was allocated on becomes the spare slot. */
  ghost function StopAllocating(s: St): St
    requires Shape(s)
  {
    s.(newSlot := s.g.Segments(), rec := s.rec.(off := 0))
  }

  lemma StopAllocatingImage(s: St)
    requires Core(s) && !Recl(s) && s.nSegs == s.g.Segments() && s.rec.off == s.g.pages
    ensures var t := StopAllocating(s); Core(t) && Recl(t) && Logical(t) == Logical(s)
  {
    var t := StopAllocating(s);
    assert forall i :: Mapped(t, i) <==> Mapped(s, i);
    assert Mapped(s, s.rec.seg);
    assert FreshSlot(s, s.g.Segments());
    forall i | 0 <= i < t.nSegs && t.map_[i] != t.newSlot ensures FullSlot(t, t.map_[i]) {
      assert Mapped(s, i);
      if i != s.rec.seg { assert FullSlot(s, s.map_[i]); }
    }
    MakeCore(t);
    forall a | IsPos(s.g, a) ensures CellAt(t, a).page == CellAt(s, a).page {
      assert Mapped(s, a.seg);
    }
    SameImage(s, t);
  }

  /** While segments remain: the next segment is allocated on the next slot. */
  ghost function NextSlot(s: St): St
    requires Shape(s) && s.nSegs < s.g.Segments()
  {
    var k := s.rec.seg + 1;
    s.(newSlot := s.newSlot + 1, nSegs := s.nSegs + 1, rec := LogAddr(k, 0),
       map_ := if k < |s.map_| then s.map_[k := k] else s.map_)
  }

  lemma NextSlotMap(s: St)
    requires Core(s) && s.nSegs < s.g.Segments() && s.rec.off == s.g.pages
    ensures Shape(NextSlot(s)) && MapOk(NextSlot(s)) && !Recl(NextSlot(s)) && FlagsOk(NextSlot(s))
  {
    assert forall i :: Mapped(NextSlot(s), i) <==> Mapped(s, i) || i == s.nSegs;
  }

  lemma NextSlotCore(s: St)
    requires Core(s) && s.nSegs < s.g.Segments() && s.rec.off == s.g.pages
    ensures Core(NextSlot(s)) && !Recl(NextSlot(s))
  {
    var t := NextSlot(s);
    NextSlotMap(s);
    assert FreshSlot(s, s.nSegs);
    forall i | 0 <= i < t.nSegs && t.map_[i] != t.newSlot ensures FullSlot(t, t.map_[i]) {
      assert Mapped(s, i);
      if i != s.rec.seg { assert FullSlot(s, s.map_[i]); }
    }
    forall i | t.nSegs <= i <= t.g.Segments() ensures FreshSlot(t, i) { assert FreshSlot(s, i); }
    MakeCore(t);
  }

  lemma NextSlotImage(s: St)
    requires Core(s) && s.nSegs < s.g.Segments() && s.rec.off == s.g.pages
    ensures Core(NextSlot(s)) && !Recl(NextSlot(s)) && Logical(NextSlot(s)) == Logical(s)
  {
    var t := NextSlot(s);
    NextSlotCore(s);
    assert FreshSlot(s, s.nSegs);
    forall a | IsPos(s.g, a) ensures CellAt(t, a).page == CellAt(s, a).page {
      if a.seg < s.nSegs { assert Mapped(s, a.seg); }
    }
    SameImage(s, t);
  }

  // ----- choosing the next segment to reclaim

  ghost function Begin(s: St, seg: nat): St { s.(rec := LogAddr(seg, 0)) }

  lemma BeginImage(s: St, seg: nat)
    requires Core(s) && Recl(s) && s.rec.off == 0 && seg < s.nSegs
    ensures Core(Begin(s, seg)) && Recl(Begin(s, seg)) && Logical(Begin(s, seg)) == Logical(s)
  {
    var t := Begin(s, seg);
    assert Mapped(s, seg);
    assert forall i :: Mapped(t, i) <==> Mapped(s, i);
    forall i | 0 <= i < t.nSegs && t.map_[i] != t.newSlot ensures FullSlot(t, t.map_[i]) {
      assert FullSlot(s, s.map_[i]);
    }
    MakeCore(t);
    forall a | IsPos(s.g, a) ensures CellAt(t, a).page == CellAt(s, a).page {
      assert Mapped(s, a.seg);
    }
    SameImage(s, t);
  }

  // ----- wear leveling

  /** The copied row holds the same pages, each programmed once. */
  ghost predicate CopyOfRow(row: seq<Cell>, from: seq<Cell>) {
    && |row| == |from|
    && forall j :: 0 <= j < |row| ==> row[j].page == from[j].page && CellOk(row[j])
  }

  /** The erase unit of a page is in use when its first page is. */
  predicate InUsedUnit(row: seq<Cell>, eu: nat, j: nat)
    requires j < |row| && eu > 0
  {
    !row[j - j % eu].page.Erased?
  }

  /** The first n pages of a slot without those of unused erase units. */
  function Packed(row: seq<Cell>, eu: nat, n: nat): (r: seq<Page>)
    requires n <= |row| && eu > 0
    ensures |r| <= n
  {
    if n == 0 then [] else Packed(row, eu, n - 1) + if InUsedUnit(row, eu, n - 1) then [row[n - 1].page] else []
  }

  /** An unused unit adds nothing. */
  lemma {:induction false} PackedSkip(row: seq<Cell>, eu: nat, at: nat, k: nat)
    requires 0 < eu && k <= eu && at + k <= |row| && at % eu == 0 && at < |row| && row[at].page.Erased?
    ensures Packed(row, eu, at + k) == Packed(row, eu, at)
  {
    if k > 0 {
      PackedSkip(row, eu, at, k - 1);
      InUnit(at, k - 1, eu);
    }
  }

  lemma InUnit(at: nat, k: nat, eu: nat)
    requires k < eu && at % eu == 0
    ensures (at + k) % eu == k && (at + k) - (at + k) % eu == at
  {
    var q := at / eu;
    assert at + k == eu * q + k;
    SameRest(q, k, eu);
  }

  lemma SameRest(q: nat, k: nat, eu: nat)
    requires k < eu
    ensures (eu * q + k) % eu == k
  {
    var n := eu * q + k;
    var p := n / eu;
    assert n == eu * p + n % eu;
    if p != q {
      Farther(eu, p, q);
      Farther(eu, q, p);
    }
  }

  lemma Farther(eu: nat, p: nat, q: nat)
    ensures p < q ==> eu * p + eu <= eu * q
  {
    if p < q {
      assert eu * q == eu * (p + 1) + eu * (q - p - 1);
    }
  }

  lemma RestNext(q: nat, r: nat, eu: nat)
    requires r < eu
    ensures (eu * q + r + 1) % eu == if r == eu - 1 then 0 else r + 1
  {
    if r == eu - 1 {
      assert eu * q + eu == eu * (q + 1) + 0;
      SameRest(q + 1, 0, eu);
    } else {
      assert eu * q + r + 1 == eu * q + (r + 1);
      SameRest(q, r + 1, eu);
    }
  }

  lemma NextRest(a: nat, eu: nat)
    requires eu > 0
    ensures (a + 1) % eu == if a % eu == eu - 1 then 0 else a % eu + 1
  {
    RestNext(a / eu, a % eu, eu);
    assert a + 1 == eu * (a / eu) + a % eu + 1;
  }

  /** The copy loop has come to page src of the slot and page to of the copy. */
  ghost predicate Copying(from: seq<Cell>, row: seq<Cell>, eu: nat, isReserve: bool, src: nat, to: nat)
    requires eu > 0
  {
    && |row| == |from| && to <= src <= |from|
    && (forall j :: 0 <= j < to ==> CellOk(row[j])) && (forall j :: to <= j < |row| ==> row[j] == FreshCell)
    && if !isReserve then to == src && forall j :: 0 <= j < to ==> row[j].page == from[j].page
       else
         var p := Packed(from, eu, src);
         && to == |p| && to % eu == src % eu && (src < |from| && src % eu != 0 ==> InUsedUnit(from, eu, src))
         && forall j :: 0 <= j < to ==> row[j].page == p[j]
  }

  lemma CopyOne(from: seq<Cell>, row: seq<Cell>, eu: nat, isReserve: bool, src: nat, to: nat, c: Cell)
    requires eu > 0 && Copying(from, row, eu, isReserve, src, to) && src < |from|
    requires CellOk(c) && c.page == from[src].page && !(isReserve && src % eu == 0 && from[src].page.Erased?)
    ensures to < |row| && Copying(from, row[to := c], eu, isReserve, src + 1, to + 1)
  {
    if isReserve {
      NextRest(src, eu);
      NextRest(to, eu);
      assert InUsedUnit(from, eu, src);
      if src + 1 < |from| && (src + 1) % eu != 0 {
        assert src + 1 - (src + 1) % eu == src - src % eu;
      }
    }
  }

  /** Before the end there is a whole erase unit left. */
  lemma UnitFits(src: nat, eu: nat, eus: nat)
    requires eu > 0 && src < eu * eus && src % eu == 0
    ensures src + eu <= eu * eus && (src + eu) % eu == 0
  {
    var q := src / eu;
    Farther(eu, q, eus);
    Farther(eu, eus, q);
    SameRest(q + 1, 0, eu);
  }

  lemma CopySkip(from: seq<Cell>, row: seq<Cell>, eu: nat, eus: nat, src: nat, to: nat)
    requires eu > 0 && |from| == eu * eus && Copying(from, row, eu, true, src, to)
    requires src < |from| && src % eu == 0 && from[src].page.Erased?
    ensures src + eu <= |from| && Copying(from, row, eu, true, src + eu, to)
  {
    UnitFits(src, eu, eus);
    PackedSkip(from, eu, src, eu);
    hide Packed, InUsedUnit;
  }

  lemma CopyDone(from: seq<Cell>, row: seq<Cell>, eu: nat, isReserve: bool, src: nat, to: nat)
    requires eu > 0 && Copying(from, row, eu, isReserve, src, to) && src == |from|
    ensures SlotCopy(row, from, eu, isReserve)
  {
  }

  /** A slot that has been copied: of a reserve segment the units in use, one behind the other. */
  ghost predicate SlotCopy(row: seq<Cell>, from: seq<Cell>, eu: nat, isReserve: bool)
    requires eu > 0
  {
    if !isReserve then CopyOfRow(row, from)
    else
      && |row| == |from| && (forall j :: 0 <= j < |row| ==> CellOk(row[j]))
      && var p := Packed(from, eu, |from|);
         forall j :: 0 <= j < |row| ==> row[j].page == if j < |p| then p[j] else Erased
  }

  /** performWearLeveling: segment org moves from slot rnd to the spare slot,
      and rnd is erased and becomes the spare slot. */
  ghost function Level(s: St, rnd: nat, org: nat, row: seq<Cell>): St
    requires Shape(s) && rnd < s.g.slots && org < s.g.slots
  {
    s.(cells := s.cells[s.newSlot := row][rnd := FreshRow(s.g)],
       newSlot := rnd,
       map_ := s.map_[s.g.Segments() := rnd][org := s.newSlot])
  }

  lemma LevelMap(s: St, rnd: nat, org: nat, row: seq<Cell>)
    requires Core(s) && Recl(s) && s.rec.off == 0
    requires rnd < s.g.slots && rnd != s.newSlot && Mapped(s, org) && s.map_[org] == rnd
    requires |row| == s.g.pages
    ensures Shape(Level(s, rnd, org, row)) && MapOk(Level(s, rnd, org, row)) && Recl(Level(s, rnd, org, row))
  {
    var t := Level(s, rnd, org, row);
    assert forall i :: Mapped(t, i) <==> Mapped(s, i);
    assert forall i :: Mapped(t, i) ==> t.map_[i] == if i == org then s.newSlot else s.map_[i];
    assert Mapped(t, t.rec.seg);
    forall i | Mapped(t, i) ensures t.map_[i] != rnd {
      if i != org { assert s.map_[i] != s.map_[org]; }
    }
    assert MapDistinct(t) && SpareSlot(t);
  }

  lemma LevelCore(s: St, rnd: nat, org: nat, row: seq<Cell>)
    requires Core(s) && Recl(s) && s.rec.off == 0
    requires rnd < s.g.slots && rnd != s.newSlot && Mapped(s, org) && s.map_[org] == rnd
    requires |row| == s.g.pages && (forall j :: 0 <= j < |row| ==> CellOk(row[j]))
    requires org < s.nSegs ==> CopyOfRow(row, s.cells[rnd])
    ensures Core(Level(s, rnd, org, row)) && Recl(Level(s, rnd, org, row))
  {
    var t := Level(s, rnd, org, row);
    LevelMap(s, rnd, org, row);
    assert FlagsOk(t);
    forall i | 0 <= i < t.nSegs && t.map_[i] != t.newSlot ensures FullSlot(t, t.map_[i]) {
      assert Mapped(s, i);
      assert FullSlot(s, s.map_[i]);
      if i == org {
        forall j | 0 <= j < t.g.pages ensures t.cells[t.map_[i]][j].page.Used? {
          assert row[j].page == s.cells[rnd][j].page;
        }
      }
    }
    MakeCore(t);
  }

  /** Wear leveling is invisible, whichever slot is drawn. */
  lemma LevelImage(s: St, rnd: nat, org: nat, row: seq<Cell>)
    requires Core(s) && Recl(s) && s.rec.off == 0
    requires rnd < s.g.slots && rnd != s.newSlot && Mapped(s, org) && s.map_[org] == rnd
    requires |row| == s.g.pages && (forall j :: 0 <= j < |row| ==> CellOk(row[j]))
    requires org < s.nSegs ==> CopyOfRow(row, s.cells[rnd])
    ensures Core(Level(s, rnd, org, row)) && Recl(Level(s, rnd, org, row))
    ensures Logical(Level(s, rnd, org, row)) == Logical(s)
  {
    var t := Level(s, rnd, org, row);
    LevelCore(s, rnd, org, row);
    forall a | IsPos(s.g, a) ensures CellAt(t, a).page == CellAt(s, a).page {
      assert Mapped(s, a.seg);
      if a.seg != org { assert s.map_[a.seg] != s.map_[org]; }
    }
    SameImage(s, t);
  }

  // ----- the slots form a permutation

  /** Once every segment is allocated, data segments, reserve segments and the
      spare slot use each slot exactly once. */
  lemma {:induction false} SlotPermutation(s: St, slot: nat)
    requires Core(s) && Recl(s) && slot < s.g.slots
    ensures slot == s.newSlot || exists i :: Mapped(s, i) && s.map_[i] == slot
  {
    var idx := UpTo(s.g.slots) - {s.g.Segments()};
    assert forall i :: i in idx <==> Mapped(s, i);
    Pigeonhole(s.map_, idx, s.newSlot, s.g.slots);
    assert slot in UpTo(s.g.slots);
  }

  lemma Pigeonhole(m: seq<nat>, idx: set<nat>, spare: nat, n: nat)
    requires forall i :: i in idx ==> i < |m| && m[i] < n && m[i] != spare
    requires forall i, j :: i in idx && j in idx && i != j ==> m[i] != m[j]
    requires spare < n && |idx| + 1 == n
    ensures forall slot :: slot in UpTo(n) ==> slot == spare || exists i :: i in idx && m[i] == slot
  {
    var used := set i | i in idx :: m[i];
    ImageCard(m, idx);
    SubsetFull(used + {spare}, UpTo(n));
  }

  lemma {:induction false} ImageCard(m: seq<nat>, idx: set<nat>)
    requires forall i :: i in idx ==> i < |m|
    requires forall i, j :: i in idx && j in idx && i != j ==> m[i] != m[j]
    ensures |set i | i in idx :: m[i]| == |idx|
  {
    var a := set i | i in idx :: m[i];
    if idx == {} {
      assert a == {};
    } else {
      var k :| k in idx;
      ImageCard(m, idx - {k});
      var b := set i | i in idx - {k} :: m[i];
      assert a == b + {m[k]};
      assert m[k] !in b;
    }
  }

  lemma {:induction false} SubsetFull(a: set<nat>, b: set<nat>)
    requires a <= b && |a| == |b|
    ensures a == b
  {
    SubsetCard(b - a, b);
    assert b == a + (b - a);
  }

  // ----- counters across a segment change

  lemma NoObsBelowHeader(m: Image, g: Geometry, i: nat, bound: nat)
    requires g.Valid() && m.Keys == Positions(g) && bound <= g.Header()
    ensures ObsOffs(m, i, bound) == {}
  {
  }

  lemma ObsOffsMonotone(m: Image, i: nat, a: nat, b: nat)
    requires a <= b
    ensures |ObsOffs(m, i, a)| <= |ObsOffs(m, i, b)|
  {
    SubsetCard(ObsOffs(m, i, a), ObsOffs(m, i, b));
  }

  lemma NoObsUnallocated(s: St, i: nat)
    requires Core(s) && s.nSegs <= i
    ensures ObsOffs(Logical(s), i, s.g.pages) == {}
  {
  }

  /** A full segment keeps its count; the segment about to be written starts
      from zero. */
  lemma CoverNextSegment(s: St, t: St, c: Counters, d: Counters)
    requires Core(s) && Core(t) && s.g == t.g && Logical(t) == Logical(s)
    requires CountersCover(s, c) && s.rec.off == s.g.pages && t.rec.off <= t.g.Header()
    requires d.perSeg == c.perSeg || (Recl(t) && d.perSeg == c.perSeg[t.rec.seg := 0])
    ensures CountersCover(t, d)
  {
    var m := Logical(s);
    forall i | 0 <= i < t.nSegs ensures |ObsOffs(m, i, Reached(t, i))| <= d.perSeg[i] {
      if Recl(t) && i == t.rec.seg {
        NoObsBelowHeader(m, t.g, i, t.rec.off);
      } else if i < s.nSegs {
        ObsOffsMonotone(m, i, Reached(t, i), Reached(s, i));
      } else {
        NoObsUnallocated(s, i);
      }
    }
  }

  // ----- an empty flash

  function FirstMap(g: Geometry): (m: seq<nat>)
    ensures |m| == g.slots
    ensures forall i :: 0 <= i < |m| ==> m[i] == if i == 0 || g.FirstReserve() <= i then i else NO_SLOT
  {
    seq(g.slots, i requires 0 <= i => if i == 0 || g.FirstReserve() <= i then i else NO_SLOT)
  }

  /** handleFlashIsEmpty before the first header is written. */
  ghost function EmptyFlash(g: Geometry): St {
    St(g, seq(g.slots, i => FreshRow(g)), FirstMap(g), LogAddr(0, 0), 0, 1)
  }

  lemma EmptyCore(g: Geometry)
    requires g.Valid()
    ensures Core(EmptyFlash(g)) && !Recl(EmptyFlash(g))
    ensures forall a :: a in Positions(g) ==> Logical(EmptyFlash(g))[a] == Erased
  {
    var s := EmptyFlash(g);
    assert forall i :: 0 <= i < g.slots ==> s.cells[i] == FreshRow(g);
    assert FirstMap(g)[g.Segments()] == NO_SLOT;
    MakeCore(s);
  }
}

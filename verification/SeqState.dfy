/** The state of the sequencing layer as a value, its invariant, and what each
    primitive change does to the logical view. */
module SeqState {
  import opened Flash

  /** Segment map, reclaimed address and flash. */
  datatype St = St(
    g: Geometry,
    cells: seq<seq<Cell>>,
    map_: seq<nat>,
    rec: LogAddr,
    newSlot: nat,
    nSegs: nat)

  /** Obsolete pages per segment, and the two global page counters. */
  datatype Counters = Counters(perSeg: seq<nat>, obs: int, free: int)

  ghost predicate Shape(s: St) {
    && s.g.Valid()
    && |s.cells| == s.g.slots
    && (forall i :: 0 <= i < |s.cells| ==> |s.cells[i]| == s.g.pages)
    && |s.map_| == s.g.slots
    && 1 <= s.nSegs <= s.g.Segments()
    && s.rec.seg < s.nSegs
    && s.rec.off <= s.g.pages
    && s.newSlot < s.g.slots
  }

  predicate Mapped(s: St, i: int) {
    0 <= i < s.nSegs || s.g.FirstReserve() <= i < s.g.slots
  }

  /** Mapped segments sit on distinct slots. */
  ghost predicate MapDistinct(s: St)
    requires Shape(s)
  {
    && (forall i :: Mapped(s, i) ==> s.map_[i] < s.g.slots)
    && (forall i, j :: Mapped(s, i) && Mapped(s, j) && i != j ==> s.map_[i] != s.map_[j])
  }

  /** The spare slot belongs to no segment, and the stale entry that wear
      leveling leaves at the index of the new segment never names a slot of a
      reserve segment. */
  ghost predicate SpareSlot(s: St)
    requires Shape(s)
  {
    && (forall i :: Mapped(s, i) ==> s.map_[i] != s.newSlot)
    && (forall i :: s.g.FirstReserve() <= i < s.g.slots ==> s.map_[i] != s.map_[s.g.Segments()])
  }

  /** IS_STATE_RECLAMATION */
  predicate Recl(s: St) {
    s.nSegs == s.g.Segments() && s.rec.seg < |s.map_| && s.newSlot != s.map_[s.rec.seg]
  }

  /** While segments are still being allocated, segment i sits on slot i. */
  ghost predicate AllocMap(s: St)
    requires Shape(s)
  {
    && s.rec.seg == s.nSegs - 1
    && s.newSlot == s.rec.seg
    && (forall i :: Mapped(s, i) ==> s.map_[i] == i)
    && s.map_[s.g.Segments()] == NO_SLOT
  }

  ghost predicate MapOk(s: St)
    requires Shape(s)
  {
    && MapDistinct(s)
    && (if Recl(s) then SpareSlot(s) else AllocMap(s))
  }

  ghost predicate FreshSlot(s: St, slot: nat)
    requires Shape(s) && slot < s.g.slots
  {
    forall j :: 0 <= j < s.g.pages ==> s.cells[slot][j] == FreshCell
  }

  ghost predicate FullSlot(s: St, slot: nat)
    requires Shape(s) && slot < s.g.slots
  {
    forall j :: 0 <= j < s.g.pages ==> s.cells[slot][j].page.Used?
  }

  /** The slot being written is programmed up to the reclaimed offset and fresh
      from there on; every other data slot is full. */
  ghost predicate PagesOk(s: St)
    requires Shape(s) && MapOk(s)
  {
    && (forall j :: 0 <= j < s.rec.off ==> s.cells[s.newSlot][j].page.Used?)
    && (forall j :: s.rec.off <= j < s.g.pages ==> s.cells[s.newSlot][j] == FreshCell)
    && (forall i :: 0 <= i < s.nSegs && s.map_[i] != s.newSlot ==> FullSlot(s, s.map_[i]))
    && (!Recl(s) ==> forall i :: s.nSegs <= i <= s.g.Segments() ==> FreshSlot(s, i))
  }

  ghost predicate FlagsOk(s: St)
    requires Shape(s)
  {
    forall i, j :: 0 <= i < s.g.slots && 0 <= j < s.g.pages ==> CellOk(s.cells[i][j])
  }

  /** The structural invariant. */
  ghost predicate Core(s: St) {
    Shape(s) && MapOk(s) && FlagsOk(s) && PagesOk(s)
  }

  // ----- the logical view

  /** Logical positions that can hold client pages. */
  predicate IsPos(g: Geometry, a: LogAddr) {
    a.seg < g.Segments() && g.Header() <= a.off < g.pages
  }

  function UpTo(n: nat): (r: set<nat>)
    ensures forall i :: i in r <==> 0 <= i < n
    ensures |r| == n
  {
    if n == 0 then {} else UpTo(n - 1) + {n - 1}
  }

  ghost function Positions(g: Geometry): (r: set<LogAddr>)
    requires g.Valid()
    ensures forall a :: a in r <==> IsPos(g, a)
  {
    set i, j | i in UpTo(g.Segments()) && j in UpTo(g.pages) && g.Header() <= j :: LogAddr(i, j)
  }

  /** logicalAddressToPhysical on good erase units: the slot holding a. */
  ghost function SlotOf(s: St, a: LogAddr): nat
    requires Shape(s) && a.seg < s.nSegs
  {
    if Recl(s) && a.seg == s.rec.seg && a.off < s.rec.off then s.newSlot else s.map_[a.seg]
  }

  ghost function CellAt(s: St, a: LogAddr): Cell
    requires Shape(s) && MapDistinct(s) && IsPos(s.g, a)
  {
    if a.seg < s.nSegs then s.cells[SlotOf(s, a)][a.off] else FreshCell
  }

  ghost function PageAt(s: St, a: LogAddr): Page {
    if Shape(s) && MapDistinct(s) && IsPos(s.g, a) then CellAt(s, a).page else Erased
  }

  /** The page image of logical positions to pages. */
  type Image = map<LogAddr, Page>

  ghost function Logical(s: St): Image
    requires Shape(s) && MapDistinct(s)
  {
    map a | a in Positions(s.g) :: Bare(CellAt(s, a).page)
  }

  /** The abstract store: live logical addresses with what clients stored. */
  ghost function View(m: Image): map<LogAddr, Entry> {
    map a | a in m && LivePage(m[a]) :: EntryOf(m[a])
  }

  // ----- counters

  ghost function ObsSet(m: Image): set<LogAddr> {
    set a | a in m && ObsPage(m[a])
  }

  ghost function FreeSet(m: Image): set<LogAddr> {
    set a | a in m && FreePage(m[a])
  }

  /** The global counters are exact, apart from the position that
      findNextFreePage has claimed for the next write. */
  ghost predicate CountsOk(m: Image, claim: set<LogAddr>, c: Counters) {
    && c.obs == |ObsSet(m) - claim|
    && c.free == |FreeSet(m) - claim|
  }

  /** Obsolete pages of segment i below offset bound. */
  ghost function ObsOffs(m: Image, i: nat, bound: nat): set<nat> {
    set j | j in UpTo(bound) && LogAddr(i, j) in m && ObsPage(m[LogAddr(i, j)])
  }

  /** How far segment i has been written in its newest generation. */
  ghost function Reached(s: St, i: nat): nat
    requires Shape(s)
  {
    if Recl(s) && i == s.rec.seg then s.rec.off else s.g.pages
  }

  /** No segment's counter falls short of its reached obsolete pages. */
  ghost predicate CountersCover(s: St, c: Counters)
    requires Core(s)
  {
    && |c.perSeg| == s.g.slots
    && forall i :: 0 <= i < s.nSegs ==> |ObsOffs(Logical(s), i, Reached(s, i))| <= c.perSeg[i]
  }

  /** The claimed position, if any. */
  ghost function Claim(s: St, claimed: bool): set<LogAddr> {
    if claimed then {s.rec} else {}
  }

  ghost predicate ClaimOk(s: St, claimed: bool)
    requires Core(s)
  {
    claimed ==> Recl(s) && IsPos(s.g, s.rec) && s.rec !in View(Logical(s))
  }

  ghost predicate Inv(s: St, claimed: bool, c: Counters) {
    && Core(s)
    && ClaimOk(s, claimed)
    && CountsOk(Logical(s), Claim(s, claimed), c)
    && CountersCover(s, c)
  }

  /** A position is ready for the next write. */
  predicate Ready(s: St, claimed: bool) {
    IsPos(s.g, s.rec) && (Recl(s) ==> claimed)
  }
}

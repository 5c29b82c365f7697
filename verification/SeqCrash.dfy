/** What a crash leaves behind: the last complete checkpoint, with every later
    page of the slot being written dropped. */
module SeqCrash {
  import opened Flash
  import opened SeqState
  import opened SeqSteps
  import opened SeqSegments

  /** The last complete checkpoint: the offset of its last page in the slot
      being written, the pages it was taken of, the addresses marked obsolete
      since, the counters of the segments that it holds, and its own pages. */
  datatype Durable = Durable(off: nat, image: Image, marks: set<LogAddr>, perSeg: seq<nat>, bytes: seq<Block>)

  // ----- the pages of a checkpoint

  /** fsCheckpointWriter: the pages of a checkpoint of the file system, given the counters. */
  type Writer = Counters -> seq<Block>

  ghost predicate Writes(cp: Writer, n: nat) {
    forall c :: |cp(c)| == n
  }

  /** Pages of a checkpoint of n pages, each the writer's in its place. The global counters may have
      changed from one page to the next, those of the segments have not. */
  ghost predicate Taken(cp: Writer, bytes: seq<Block>, perSeg: seq<nat>, n: nat) {
    forall i :: 0 <= i < |bytes| ==> exists c: Counters :: c.perSeg == perSeg && i < |cp(c)| == n && bytes[i] == cp(c)[i]
  }

  lemma TakenAtOnce(cp: Writer, c: Counters)
    ensures Taken(cp, cp(c), c.perSeg, |cp(c)|)
  {
  }

  /** The checkpoint pages of a slot from the last first page below offset n on. Copied pages in
      between do not belong to them. */
  ghost function CpBytes(row: seq<Cell>, n: nat): seq<Block>
    requires n <= |row|
  {
    if n == 0 then [] else NextBytes(CpBytes(row, n - 1), row[n - 1].page)
  }

  ghost function NextBytes(bytes: seq<Block>, p: Page): seq<Block> {
    match MarkAt(p)
    case NotCp => bytes
    case CpFirst => [p.data]
    case _ => bytes + [p.data]
  }

  /** Those in the slot being written. */
  ghost function Draft(s: St): seq<Block> {
    if s.newSlot < |s.cells| && s.rec.off <= |s.cells[s.newSlot]| then CpBytes(s.cells[s.newSlot], s.rec.off) else []
  }

  /** The checkpoint that ends at off. */
  ghost predicate Holds(s: St, off: nat, bytes: seq<Block>)
    requires Shape(s)
  {
    off < s.g.pages && |bytes| == s.g.cpPages && CpBytes(s.cells[s.newSlot], off + 1) == bytes
  }

  predicate SameBytes(p: Page, q: Page) {
    MarkAt(p) == MarkAt(q) && (p.Used? && q.Used? ==> p.data == q.data)
  }

  lemma {:induction false} CpBytesSame(row: seq<Cell>, row2: seq<Cell>, n: nat)
    requires n <= |row| && n <= |row2| && forall j :: 0 <= j < n ==> SameBytes(row[j].page, row2[j].page)
    ensures CpBytes(row, n) == CpBytes(row2, n)
  {
    if n > 0 {
      CpBytesSame(row, row2, n - 1);
      assert SameBytes(row[n - 1].page, row2[n - 1].page);
    }
  }

  lemma ProgramDraft(s: St, p: Page)
    requires Core(s) && s.rec.off < s.g.pages && p.Used?
    ensures Draft(Program(s, p)) == NextBytes(Draft(s), p)
  {
    var t := Program(s, p);
    CpBytesSame(s.cells[s.newSlot], t.cells[t.newSlot], s.rec.off);
  }

  lemma ProgramHolds(s: St, p: Page, off: nat, bytes: seq<Block>)
    requires Core(s) && s.rec.off < s.g.pages && p.Used? && Core(Program(s, p)) && off < s.rec.off && Holds(s, off, bytes)
    ensures Holds(Program(s, p), off, bytes)
  {
    CpBytesSame(s.cells[s.newSlot], Program(s, p).cells[s.newSlot], off + 1);
  }

  lemma DraftHolds(s: St)
    requires Core(s) && s.rec.off > 0 && |Draft(s)| == s.g.cpPages
    ensures Holds(s, s.rec.off - 1, Draft(s))
  {
  }

  /** Between two first pages, pages are added only. */
  lemma {:induction false} CpBytesGrow(row: seq<Cell>, k: nat, n: nat)
    requires 0 < k <= n <= |row| && forall j :: k <= j < n ==> MarkAt(row[j].page) != CpFirst
    ensures CpBytes(row, k) <= CpBytes(row, n)
    decreases n
  {
    if k < n {
      CpBytesGrow(row, k, n - 1);
      assert MarkAt(row[n - 1].page) != CpFirst;
    }
  }

  // ----- falling back to it

  /** The page at a once everything after offset cpOff is dropped: positions of
      the current segment beyond the checkpoint fall back to the old slot. */
  ghost function RewoundPage(s: St, cpOff: nat, a: LogAddr): Page
    requires Core(s) && IsPos(s.g, a)
  {
    if a.seg >= s.nSegs then Erased
    else if a.seg != s.rec.seg then (assert Mapped(s, a.seg); s.cells[s.map_[a.seg]][a.off].page)
    else if a.off <= cpOff then s.cells[s.newSlot][a.off].page
    else if Recl(s) then (assert Mapped(s, a.seg); s.cells[s.map_[a.seg]][a.off].page)
    else Erased
  }

  ghost function Rewound(s: St, cpOff: nat): Image
    requires Core(s)
  {
    map a | a in Positions(s.g) :: Bare(RewoundPage(s, cpOff, a))
  }

  /** Rewinding brings back the pages of the checkpoint, readable as they were;
      only pages marked since may be found obsolete. */
  ghost predicate DurableOk(s: St, d: Durable)
    requires Core(s)
  {
    && EndOk(s, d.off)
    && Holds(s, d.off, d.bytes) && |d.perSeg| == s.g.slots
    && KeepsDurable(Rewound(s, d.off), d)
  }

  /** The mark of the last page of a checkpoint. */
  function EndMark(g: Geometry): CpMark { CpMarkOf(g.cpPages - 1, g.cpPages - 1) }

  function MarkAt(p: Page): CpMark { if p.Used? then p.cp else NotCp }

  /** In the slot being written, the page at off ends a checkpoint and none behind it does. */
  ghost predicate EndOk(s: St, off: nat)
    requires Shape(s)
  {
    && 0 < off < s.rec.off && MarkAt(s.cells[s.newSlot][off].page) == EndMark(s.g)
    && forall j :: off < j < s.rec.off ==> MarkAt(s.cells[s.newSlot][j].page) != EndMark(s.g)
  }

  lemma ProgramEnd(s: St, p: Page, off: nat)
    requires Core(s) && s.rec.off < s.g.pages && p.Used? && Core(Program(s, p))
    ensures EndOk(s, off) && p.cp != EndMark(s.g) ==> EndOk(Program(s, p), off)
    ensures p.cp == EndMark(s.g) && s.rec.off > 0 ==> EndOk(Program(s, p), s.rec.off)
  {
  }

  ghost predicate KeepsDurable(m: Image, d: Durable) {
    && m.Keys == d.image.Keys
    && forall a :: a in m ==> m[a] == d.image[a] || (a in d.marks && LivePage(d.image[a]) && m[a] == d.image[a].(obs := true))
  }

  /** Boot: drop the pages after the checkpoint and continue behind it. */
  ghost function Boot(s: St, cpOff: nat): St
    requires Core(s) && cpOff < s.rec.off
  {
    var row := seq(s.g.pages, j requires 0 <= j < s.g.pages => if j <= cpOff then s.cells[s.newSlot][j] else FreshCell);
    s.(cells := s.cells[s.newSlot := row], rec := s.rec.(off := cpOff + 1))
  }

  lemma BootCore(s: St, cpOff: nat)
    requires Core(s) && cpOff < s.rec.off
    ensures Core(Boot(s, cpOff)) && (Recl(Boot(s, cpOff)) <==> Recl(s))
  {
    var t := Boot(s, cpOff);
    assert forall i :: Mapped(t, i) <==> Mapped(s, i);
    assert FlagsOk(t);
    forall i | 0 <= i < t.nSegs && t.map_[i] != t.newSlot ensures FullSlot(t, t.map_[i]) {
      assert FullSlot(s, s.map_[i]);
    }
    if !Recl(t) {
      forall i | t.nSegs <= i <= t.g.Segments() ensures FreshSlot(t, i) { assert FreshSlot(s, i); }
    }
    MakeCore(t);
  }

  /** Booting yields a well-formed flash whose view is the rewound one. */
  lemma BootIsRewound(s: St, cpOff: nat)
    requires Core(s) && cpOff < s.rec.off
    ensures Core(Boot(s, cpOff)) && Logical(Boot(s, cpOff)) == Rewound(s, cpOff)
  {
    BootCore(s, cpOff);
    var t := Boot(s, cpOff);
    hide Boot, RewoundPage, CellAt, Core;
    forall a | a in Positions(s.g) ensures Bare(CellAt(t, a).page) == Bare(RewoundPage(s, cpOff, a)) {
      BootCell(s, cpOff, a);
    }
  }

  lemma BootCell(s: St, cpOff: nat, a: LogAddr)
    requires Core(s) && cpOff < s.rec.off && IsPos(s.g, a) && Core(Boot(s, cpOff))
    ensures CellAt(Boot(s, cpOff), a).page == RewoundPage(s, cpOff, a)
  {
    if a.seg < s.nSegs { assert Mapped(s, a.seg) && Mapped(s, s.rec.seg); }
  }

  /** After a crash, boot finds a well-formed flash that holds the pages of the
      last checkpoint, with at most the marks made since. */
  lemma CrashRecovers(s: St, d: Durable)
    requires Core(s) && DurableOk(s, d)
    ensures Core(Boot(s, d.off)) && KeepsDurable(Logical(Boot(s, d.off)), d) && DurableOk(Boot(s, d.off), d)
  {
    hide Core, EndOk, Holds, KeepsDurable, Logical, Rewound;
    BootOff(s, d.off);
    BootIsRewound(s, d.off);
    RewoundIsLogical(Boot(s, d.off));
    BootEnd(s, d.off);
    BootHolds(s, d.off, d.bytes);
  }

  lemma BootOff(s: St, off: nat)
    requires Core(s) && EndOk(s, off)
    ensures off < s.rec.off && Boot(s, off).rec.off == off + 1
  {
  }

  lemma BootEnd(s: St, off: nat)
    requires Core(s) && EndOk(s, off) && Core(Boot(s, off))
    ensures EndOk(Boot(s, off), off)
  {
  }

  lemma BootHolds(s: St, off: nat, bytes: seq<Block>)
    requires Core(s) && EndOk(s, off) && Holds(s, off, bytes) && Core(Boot(s, off))
    ensures Holds(Boot(s, off), off, bytes)
  {
    CpBytesSame(s.cells[s.newSlot], Boot(s, off).cells[s.newSlot], off + 1);
  }

  lemma RewoundIsCell(s: St, a: LogAddr)
    requires Core(s) && s.rec.off > 0 && IsPos(s.g, a)
    ensures CellAt(s, a).page == RewoundPage(s, s.rec.off - 1, a)
  {
    if a.seg < s.nSegs { assert Mapped(s, a.seg) && Mapped(s, s.rec.seg); }
  }

  /** Segments that are not being written are rewound to what they are. */
  lemma RewoundElsewhere(s: St, cpOff: nat, a: LogAddr)
    requires Core(s) && IsPos(s.g, a) && a.seg != s.rec.seg
    ensures a in Rewound(s, cpOff) && a in Logical(s) && Rewound(s, cpOff)[a] == Logical(s)[a]
  {
    assert a in Positions(s.g);
    if a.seg < s.nSegs { assert Mapped(s, a.seg) && Mapped(s, s.rec.seg); }
  }

  lemma RewoundIsLogical(s: St)
    requires Core(s) && s.rec.off > 0
    ensures Logical(s) == Rewound(s, s.rec.off - 1)
  {
    forall a | IsPos(s.g, a) ensures CellAt(s, a).page == RewoundPage(s, s.rec.off - 1, a) {
      RewoundIsCell(s, a);
    }
  }

  /** A checkpoint that ends at the last page written makes the whole view
      durable. */
  lemma CheckpointDurable(s: St, perSeg: seq<nat>)
    requires Core(s) && s.rec.off > 0 && EndOk(s, s.rec.off - 1) && |Draft(s)| == s.g.cpPages && |perSeg| == s.g.slots
    ensures DurableOk(s, Durable(s.rec.off - 1, Logical(s), {}, perSeg, Draft(s)))
  {
    RewoundIsLogical(s);
    hide Core, Logical, Rewound, EndOk, Holds;
    DraftHolds(s);
  }

  lemma ProgramRewoundPage(s: St, p: Page, cpOff: nat, a: LogAddr)
    requires Core(s) && s.rec.off < s.g.pages && p.Used? && cpOff < s.rec.off && IsPos(s.g, a)
    requires Core(Program(s, p)) && (Recl(Program(s, p)) <==> Recl(s))
    ensures RewoundPage(Program(s, p), cpOff, a) == RewoundPage(s, cpOff, a)
  {
    if a.seg < s.nSegs { assert Mapped(s, a.seg) && Mapped(s, s.rec.seg); }
  }

  lemma ProgramRewound(s: St, p: Page, cpOff: nat)
    requires Core(s) && s.rec.off < s.g.pages && p.Used? && cpOff < s.rec.off
    ensures Core(Program(s, p)) && Rewound(Program(s, p), cpOff) == Rewound(s, cpOff)
  {
    ProgramCore(s, p);
    forall a | IsPos(s.g, a) ensures RewoundPage(Program(s, p), cpOff, a) == RewoundPage(s, cpOff, a) {
      ProgramRewoundPage(s, p, cpOff, a);
    }
  }

  /** Programming pages after the checkpoint does not touch what is durable. */
  lemma ProgramDurable(s: St, p: Page, d: Durable)
    requires Core(s) && s.rec.off < s.g.pages && p.Used? && p.cp != EndMark(s.g) && DurableOk(s, d)
    ensures Core(Program(s, p)) && DurableOk(Program(s, p), d)
  {
    ProgramRewound(s, p, d.off);
    ProgramEnd(s, p, d.off);
    ProgramHolds(s, p, d.off, d.bytes);
  }

  /** The page that completes a checkpoint makes everything durable. */
  lemma ProgramLast(s: St, p: Page, perSeg: seq<nat>)
    requires Core(s) && 0 < s.rec.off < s.g.pages && p.Used? && p.cp == EndMark(s.g) && |NextBytes(Draft(s), p)| == s.g.cpPages
    requires |perSeg| == s.g.slots
    ensures Core(Program(s, p))
    ensures DurableOk(Program(s, p), Durable(s.rec.off, Logical(Program(s, p)), {}, perSeg, NextBytes(Draft(s), p)))
  {
    hide EndMark, EndOk, FlagsOk, PagesOk, MapOk, Draft, NextBytes;
    ProgramCore(s, p);
    ProgramEnd(s, p, 0);
    ProgramDraft(s, p);
    CheckpointDurable(Program(s, p), perSeg);
  }

  lemma MarkRewound(s: St, a: LogAddr, cpOff: nat, b: LogAddr)
    requires Core(s) && IsPos(s.g, a) && a.seg < s.nSegs && LivePage(CellAt(s, a).page) && IsPos(s.g, b)
    requires Core(MarkStep(s, a)) && (Recl(MarkStep(s, a)) <==> Recl(s))
    ensures b != a ==> RewoundPage(MarkStep(s, a), cpOff, b) == RewoundPage(s, cpOff, b)
    ensures var p, q := RewoundPage(s, cpOff, a), RewoundPage(MarkStep(s, a), cpOff, a);
            q == p || (LivePage(p) && q == p.(obs := true))
  {
    assert Mapped(s, a.seg) && Mapped(s, s.rec.seg);
    if b.seg < s.nSegs { assert Mapped(s, b.seg); }
  }

  /** Marking a obsolete can only mark a in what a crash recovers. */
  lemma MarkDurable(s: St, a: LogAddr, d: Durable)
    requires Core(s) && IsPos(s.g, a) && a.seg < s.nSegs && LivePage(CellAt(s, a).page) && DurableOk(s, d)
    ensures Core(MarkStep(s, a)) && DurableOk(MarkStep(s, a), d.(marks := d.marks + {a}))
  {
    MarkCore(s, a);
    var m, n := Rewound(s, d.off), Rewound(MarkStep(s, a), d.off);
    forall b | b in m ensures b != a ==> n[b] == m[b] {
      MarkRewound(s, a, d.off, b);
    }
    MarkRewound(s, a, d.off, a);
    MarkKeeps(m, n, a, d);
    MarkEnd(s, a, d.off);
    MarkHolds(s, a, d.off, d.bytes);
  }

  lemma MarkHolds(s: St, a: LogAddr, off: nat, bytes: seq<Block>)
    requires Core(s) && IsPos(s.g, a) && a.seg < s.nSegs && LivePage(CellAt(s, a).page) && Holds(s, off, bytes)
    ensures Holds(MarkStep(s, a), off, bytes)
  {
    assert Mapped(s, a.seg);
    var row, row2 := s.cells[s.newSlot], MarkStep(s, a).cells[s.newSlot];
    hide Core, CpBytes;
    forall j | 0 <= j < s.g.pages ensures SameBytes(row[j].page, row2[j].page) {}
    CpBytesSame(row, row2, off + 1);
  }

  lemma MarkEnd(s: St, a: LogAddr, off: nat)
    requires Core(s) && IsPos(s.g, a) && a.seg < s.nSegs && LivePage(CellAt(s, a).page) && EndOk(s, off)
    ensures EndOk(MarkStep(s, a), off)
  {
    assert Mapped(s, a.seg);
  }

  lemma MarkKeeps(m: Image, n: Image, a: LogAddr, d: Durable)
    requires m.Keys == n.Keys && a in m && (forall b :: b in m && b != a ==> n[b] == m[b])
    requires n[a] == m[a] || (LivePage(m[a]) && n[a] == m[a].(obs := true))
    requires KeepsDurable(m, d)
    ensures KeepsDurable(n, d.(marks := d.marks + {a}))
  {
  }

  // ----- the counters after a crash

  /** The pages that boot finds marked although the checkpoint has them live. */
  ghost function LostIn(m: Image, d: Durable): set<LogAddr> {
    set a | a in m && a in d.image && m[a] != d.image[a]
  }

  /** Those of segment i below an offset. */
  ghost function LostOffs(m: Image, d: Durable, i: nat, bound: nat): set<nat> {
    set j | j in UpTo(bound) && LogAddr(i, j) in LostIn(m, d)
  }

  /** What is obsolete then was obsolete at the checkpoint or is such a page. */
  lemma LostObsolete(m: Image, d: Durable)
    requires KeepsDurable(m, d)
    ensures ObsSet(m) == ObsSet(d.image) + LostIn(m, d) && ObsSet(d.image) !! LostIn(m, d)
    ensures FreeSet(m) == FreeSet(d.image) && LostIn(m, d) <= d.marks
  {
  }

  lemma LostCount(m: Image, d: Durable, i: nat, bound: nat)
    requires KeepsDurable(m, d)
    ensures |ObsOffs(m, i, bound)| == |ObsOffs(d.image, i, bound)| + |LostOffs(m, d, i, bound)|
  {
    var a, b := ObsOffs(d.image, i, bound), LostOffs(m, d, i, bound);
    LostObsolete(m, d);
    forall j ensures j in ObsOffs(m, i, bound) <==> j in a || j in b {
      assert LogAddr(i, j) in ObsSet(m) <==> LogAddr(i, j) in m && ObsPage(m[LogAddr(i, j)]);
      assert LogAddr(i, j) in ObsSet(d.image) <==> LogAddr(i, j) in d.image && ObsPage(d.image[LogAddr(i, j)]);
    }
    forall j | j in a ensures j !in b {
      assert LogAddr(i, j) in ObsSet(d.image);
    }
    assert ObsOffs(m, i, bound) == a + b;
  }

  /** The counters of the checkpoint, as boot restores them, suffice for every segment. */
  ghost predicate SavedSuffice(s: St, m: Image, d: Durable)
    requires Shape(s)
  {
    && |d.perSeg| == s.g.slots
    && forall i :: 0 <= i < s.nSegs ==>
         |ObsOffs(d.image, i, Reached(s, i))| + |LostOffs(m, d, i, Reached(s, i))| <= d.perSeg[i]
  }

  /** After boot no segment's counter falls short if and only if, for each segment, the pages that
      were obsolete at the checkpoint and those found marked since are no more than the counter
      in the checkpoint. */
  lemma BootCover(s: St, d: Durable, c: Counters)
    requires Core(s) && DurableOk(s, d) && c.perSeg == d.perSeg
    ensures d.off < s.rec.off && Core(Boot(s, d.off))
    ensures CountersCover(Boot(s, d.off), c) <==> SavedSuffice(Boot(s, d.off), Rewound(s, d.off), d)
  {
    BootIsRewound(s, d.off);
    var t, m := Boot(s, d.off), Rewound(s, d.off);
    hide Boot, Rewound, Core, Logical, EndOk;
    forall i | 0 <= i < t.nSegs
      ensures |ObsOffs(m, i, Reached(t, i))| == |ObsOffs(d.image, i, Reached(t, i))| + |LostOffs(m, d, i, Reached(t, i))|
    {
      LostCount(m, d, i, Reached(t, i));
    }
  }

  function SetOf(q: seq<LogAddr>): set<LogAddr> { set a | a in q }

  /** The same for the global count, which every page marked again during boot raises, marked
      before or not: with the count of the checkpoint exact, it ends up exact if and only if the
      marks made during boot are as many as the pages that have become obsolete since. */
  lemma ReplayCount(m: Image, d: Durable, todo: seq<LogAddr>, n: Image, obs: int)
    requires KeepsDurable(m, d) && obs == |ObsSet(d.image)|
    requires ObsSet(n) == ObsSet(m) + SetOf(todo)
    ensures obs + |todo| == |ObsSet(n)| <==> |todo| == |LostIn(m, d) + SetOf(todo) - ObsSet(d.image)|
  {
    LostObsolete(m, d);
    var o, new_ := ObsSet(d.image), LostIn(m, d) + SetOf(todo) - ObsSet(d.image);
    assert ObsSet(n) == o + new_ && o !! new_;
  }

  /** So it is when the marks of boot are all different, were not made before the checkpoint, and
      include those that the crash left behind. */
  lemma ReplayExact(m: Image, d: Durable, todo: seq<LogAddr>)
    requires KeepsDurable(m, d) && (forall i, j :: 0 <= i < j < |todo| ==> todo[i] != todo[j])
    requires forall a :: a in todo ==> a !in ObsSet(d.image)
    requires forall a :: a in LostIn(m, d) ==> a in todo
    ensures |todo| == |LostIn(m, d) + SetOf(todo) - ObsSet(d.image)|
  {
    DistinctCount(todo);
    assert LostIn(m, d) + SetOf(todo) - ObsSet(d.image) == SetOf(todo);
  }

  lemma {:induction false} DistinctCount(q: seq<LogAddr>)
    requires forall i, j :: 0 <= i < j < |q| ==> q[i] != q[j]
    ensures |SetOf(q)| == |q|
  {
    if q != [] {
      DistinctCount(q[1..]);
      assert SetOf(q) == SetOf(q[1..]) + {q[0]};
      assert q[0] !in q[1..];
    }
  }

  /** What is live after a crash was live in the checkpoint, with the same
      contents, and everything live then is live except what was marked. */
  ghost predicate KeepsView(v: map<LogAddr, Entry>, d: Durable) {
    var w := View(d.image);
    && (forall a :: a in v ==> a in w && v[a] == w[a])
    && (forall a :: a in w && a !in d.marks ==> a in v)
  }

  lemma DurableView(m: Image, d: Durable)
    requires KeepsDurable(m, d)
    ensures KeepsView(View(m), d)
  {
  }

  // ----- conservation of pages

  /** Offsets h..k of segment n. */
  function Column(n: nat, h: nat, k: nat): (r: set<LogAddr>)
    ensures forall a :: a in r <==> a.seg == n && h <= a.off < k
    ensures h <= k ==> |r| == k - h
  {
    if k <= h then {} else Column(n, h, k - 1) + {LogAddr(n, k - 1)}
  }

  function Times(n: nat, w: nat): nat {
    if n == 0 then 0 else Times(n - 1, w) + w
  }

  /** Offsets h..k of the first n segments. */
  function Columns(n: nat, h: nat, k: nat): (r: set<LogAddr>)
    ensures forall a :: a in r <==> a.seg < n && h <= a.off < k
    ensures h <= k ==> |r| == Times(n, k - h)
  {
    if n == 0 then {} else
    assert Columns(n - 1, h, k) !! Column(n - 1, h, k);
    Columns(n - 1, h, k) + Column(n - 1, h, k)
  }

  lemma {:induction false} TimesIsProduct(n: nat, w: nat)
    ensures Times(n, w) == n * w
  {
    if n > 0 { TimesIsProduct(n - 1, w); }
  }

  lemma Disjoint3(v: set<LogAddr>, o: set<LogAddr>, f: set<LogAddr>, claim: set<LogAddr>, all: set<LogAddr>)
    requires v !! o !! f && v + o + f == all
    requires claim <= all && claim !! v
    ensures |v| + |o - claim| + |f - claim| + |claim| == |all|
  {
    assert o == (o - claim) + (o * claim) && f == (f - claim) + (f * claim);
    assert claim == (o * claim) + (f * claim);
    assert (v + o) + f == all;
  }

  /** Live, obsolete and free pages, plus the claimed position, always add up to
      the pages that headers leave over. */
  lemma PagesConserved(s: St, claimed: bool, c: Counters)
    requires Inv(s, claimed, c)
    ensures |View(Logical(s)).Keys| + c.obs + c.free + (if claimed then 1 else 0)
         == s.g.Segments() * (s.g.pages - s.g.Header())
  {
    ClaimDisjoint(s, claimed);
    PositionsCard(s.g);
    ImageConserved(Logical(s), Claim(s, claimed), c);
  }

  lemma ClaimDisjoint(s: St, claimed: bool)
    requires Core(s) && ClaimOk(s, claimed)
    ensures Logical(s).Keys == Positions(s.g)
    ensures Claim(s, claimed) <= Logical(s).Keys && Claim(s, claimed) !! View(Logical(s)).Keys
    ensures |Claim(s, claimed)| == if claimed then 1 else 0
  {
    assert Logical(s).Keys == Positions(s.g);
  }

  lemma PositionsCard(g: Geometry)
    requires g.Valid()
    ensures |Positions(g)| == g.Segments() * (g.pages - g.Header())
  {
    TimesIsProduct(g.Segments(), g.pages - g.Header());
    assert Positions(g) == Columns(g.Segments(), g.Header(), g.pages);
  }

  lemma ImageConserved(m: Image, claim: set<LogAddr>, c: Counters)
    requires CountsOk(m, claim, c) && claim <= m.Keys && claim !! View(m).Keys
    ensures |View(m).Keys| + c.obs + c.free + |claim| == |m.Keys|
  {
    ImagePartition(m);
    Disjoint3(View(m).Keys, ObsSet(m), FreeSet(m), claim, m.Keys);
  }

  lemma ImagePartition(m: Image)
    ensures View(m).Keys !! ObsSet(m) !! FreeSet(m)
    ensures View(m).Keys + ObsSet(m) + FreeSet(m) == m.Keys
  {
  }

  /** The first counters: no page is obsolete and every client position free. */
  function FirstCounters(g: Geometry): Counters {
    Counters(seq(g.slots, i => 0), 0, g.Segments() * (g.pages - g.Header()))
  }

  lemma FirstInv(s: St)
    requires Core(s) && (forall a :: a in Positions(s.g) ==> Logical(s)[a] == Erased)
    ensures Inv(s, false, FirstCounters(s.g)) && View(Logical(s)) == map[]
  {
    PositionsCard(s.g);
    var m := Logical(s);
    assert ObsSet(m) - {} == {} && FreeSet(m) - {} == Positions(s.g);
    assert forall i, k :: ObsOffs(m, i, k) == {};
  }
}

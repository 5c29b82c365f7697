/** The whole bookkeeping of the sequencing layer in one value, with one lemma
    per operation that changes it. */
module SeqWorld {
  import opened Flash
  import opened SeqState
  import opened SeqSteps
  import opened SeqSegments
  import opened SeqCrash

  datatype World = World(s: St, claimed: bool, c: Counters, d: Durable, image: Image)

  /** The contents are in order, whatever the counters say. */
  ghost predicate GoodDef(w: World) {
    && Core(w.s)
    && ClaimOk(w.s, w.claimed)
    && DurableOk(w.s, w.d)
    && w.image == Logical(w.s)
  }

  /** The global page counters are exact ... */
  ghost predicate Exact(w: World) {
    CountsOk(w.image, Claim(w.s, w.claimed), w.c)
  }

  /** ... and no segment's counter falls short of its obsolete pages. */
  ghost predicate Covers(w: World) {
    && Shape(w.s) && |w.c.perSeg| == w.s.g.slots
    && forall i :: 0 <= i < w.s.nSegs ==> |ObsOffs(w.image, i, Reached(w.s, i))| <= w.c.perSeg[i]
  }

  /** Whatever of the two held, holds still. */
  ghost predicate KeepsCounts(w: World, v: World) {
    (Exact(w) ==> Exact(v)) && (Covers(w) ==> Covers(v))
  }

  /** Always true; mentioning it makes the verifier look inside Good. */
  predicate Seen(w: World) { true }

  ghost predicate Good(w: World) {
    forall v {:trigger Seen(v)} :: Seen(v) && v == w ==> GoodDef(v)
  }

  lemma Look(w: World)
    requires Good(w)
    ensures GoodDef(w)
  {
    assert Seen(w);
  }

  lemma Conclude(w: World)
    requires GoodDef(w)
    ensures Good(w)
  {
  }

  lemma KeptFrom(w: World, v: World)
    requires GoodDef(w) && GoodDef(v) && (CountersCover(w.s, w.c) ==> CountersCover(v.s, v.c))
    requires CountsOk(Logical(w.s), Claim(w.s, w.claimed), w.c) ==> CountsOk(Logical(v.s), Claim(v.s, v.claimed), v.c)
    ensures KeepsCounts(w, v)
  {
    hide CountsOk, DurableOk;
    if Covers(w) { assert CountersCover(w.s, w.c); }
  }

  lemma Assemble(w: World)
    requires Core(w.s) && ClaimOk(w.s, w.claimed)
    requires DurableOk(w.s, w.d)
    requires w.image == Logical(w.s)
    ensures Good(w)
  {
  }

  lemma InView(w: World, a: LogAddr)
    requires Good(w) && IsPos(w.s.g, a)
    ensures a in w.image && w.image[a] == Bare(PageAt(w.s, a))
  {
    Look(w);
    assert a in Positions(w.s.g);
  }

  lemma Marked(w: World, a: LogAddr) returns (v: World)
    requires Good(w) && IsPos(w.s.g, a) && a.seg < w.s.nSegs && LivePage(PageAt(w.s, a)) && a.seg < |w.c.perSeg|
    ensures Core(w.s) && Good(v) && KeepsCounts(w, v) && a in w.image && LivePage(w.image[a])
    ensures v == World(MarkStep(w.s, a), w.claimed, MarkCounts(a, w.c), w.d.(marks := w.d.marks + {a}),
                       w.image[a := w.image[a].(obs := true)])
  {
    hide CountsOk, CountersCover, Covers, Exact, DurableOk, ClaimOk;
    Look(w);
    MarkStepOk(w.s, a, w.claimed, w.c);
    MarkDurable(w.s, a, w.d);
    v := World(MarkStep(w.s, a), w.claimed, MarkCounts(a, w.c), w.d.(marks := w.d.marks + {a}),
                       w.image[a := w.image[a].(obs := true)]);
    Conclude(v);
    KeptFrom(w, v);
  }

  lemma Copied(w: World) returns (v: World)
    requires Good(w) && !w.claimed && IsPos(w.s.g, w.s.rec) && Recl(w.s) && LivePage(PageAt(w.s, w.s.rec))
    ensures Core(w.s) && Good(v) && KeepsCounts(w, v) && v == w.(s := CopyStep(w.s))
    ensures Draft(v.s) == Draft(w.s)
  {
    hide CountsOk, CountersCover, Covers, Exact, DurableOk, Logical, Draft;
    Look(w);
    ProgramDraft(w.s, CellAt(w.s, w.s.rec).page.(copied := true));
    CopyStepOk(w.s, w.c);
    ProgramDurable(w.s, CellAt(w.s, w.s.rec).page.(copied := true), w.d);
    v := w.(s := CopyStep(w.s));
    Conclude(v);
    KeptFrom(w, v);
  }

  lemma Claimed(w: World) returns (v: World)
    requires Good(w) && !w.claimed && IsPos(w.s.g, w.s.rec) && Recl(w.s) && !LivePage(PageAt(w.s, w.s.rec))
    ensures Good(v) && KeepsCounts(w, v) && v == w.(claimed := true, c := ClaimCounts(PageAt(w.s, w.s.rec), w.c))
  {
    hide CountsOk, CountersCover, Covers, Exact, DurableOk, ClaimOk;
    Look(w);
    ClaimStepOk(w.s, w.c);
    v := w.(claimed := true, c := ClaimCounts(PageAt(w.s, w.s.rec), w.c));
    Conclude(v);
    KeptFrom(w, v);
  }

  /** The page p goes to the reclaimed address. A checkpoint page was counted
      as one more free page beforehand. */
  lemma Written(w: World, p: Page) returns (v: World)
    requires Good(w) && Ready(w.s, w.claimed) && p.Used? && !p.obs && CompletedBy(w.s, p) && |w.c.perSeg| == w.s.g.slots
    ensures Core(w.s) && w.s.rec.off < w.s.g.pages && w.s.rec in w.image && !LivePage(w.image[w.s.rec]) && Good(v)
    ensures Draft(v.s) == NextBytes(Draft(w.s), p)
    ensures v == World(Program(w.s, p), false, Charge(w.s, w.c), NewDurable(w, p), w.image[w.s.rec := Bare(p)])
    ensures KeepsCounts(w.(c := w.c.(free := w.c.free - Credit(p))), v)
  {
    Look(w);
    hide Draft, NextBytes;
    WriteStepOk(w.s, p, w.claimed, w.c);
    ProgramDraft(w.s, p);
    if p.cp == EndMark(w.s.g) {
      ProgramLast(w.s, p, w.c.perSeg);
    } else {
      ProgramDurable(w.s, p, w.d);
    }
    v := World(Program(w.s, p), false, Charge(w.s, w.c), NewDurable(w, p), w.image[w.s.rec := Bare(p)]);
    Conclude(v);
    if Covers(w.(c := w.c.(free := w.c.free - Credit(p)))) {
      WrittenCover(w, p, v);
    }
  }

  lemma WrittenCover(w: World, p: Page, v: World)
    requires GoodDef(w) && Covers(w.(c := w.c.(free := w.c.free - Credit(p)))) && GoodDef(v)
    requires CountersCover(w.s, w.c) ==> CountersCover(v.s, w.c)
    requires v.c.perSeg == w.c.perSeg
    ensures Covers(v)
  {
  }

  /** A page that ends a checkpoint is written behind all its other pages. */
  ghost predicate CompletedBy(s: St, p: Page)
    requires p.Used?
  {
    p.cp == EndMark(s.g) ==> |NextBytes(Draft(s), p)| == s.g.cpPages
  }

  /** The page that ends a checkpoint makes the whole contents durable, other pages leave the
      last checkpoint as it is. */
  ghost function NewDurable(w: World, p: Page): Durable
    requires p.Used?
  {
    if p.cp == EndMark(w.s.g)
      then Durable(w.s.rec.off, w.image[w.s.rec := Bare(p)], {}, w.c.perSeg, NextBytes(Draft(w.s), p)) else w.d
  }

  /** The next segment has been opened and its header written; the header holds the counters from
      before the new segment's was reset. */
  lemma Opened(w: World, t: St) returns (v: World)
    requires Good(w) && !w.claimed && w.s.rec.off == w.s.g.pages
    requires Core(t) && t.g == w.s.g && t.rec.off == t.g.Header() && EndOk(t, t.g.Header() - 1) && |Draft(t)| == t.g.cpPages
    requires Core(w.s) ==> Logical(t) == Logical(w.s)
    requires t.rec.seg < |w.c.perSeg| == w.s.g.slots
    ensures Good(v) && KeepsCounts(w, v)
    ensures v == World(t, false, w.c.(perSeg := if Recl(t) then w.c.perSeg[t.rec.seg := 0] else w.c.perSeg),
                       Durable(t.g.Header() - 1, w.image, {}, w.c.perSeg, Draft(t)), w.image)
  {
    hide Draft;
    Look(w);
    var c := w.c.(perSeg := if Recl(t) then w.c.perSeg[t.rec.seg := 0] else w.c.perSeg);
    CheckpointDurable(t, w.c.perSeg);
    v := World(t, false, c, Durable(t.rec.off - 1, Logical(t), {}, w.c.perSeg, Draft(t)), w.image);
    Assemble(v);
    if Covers(w) {
      CoverNextSegment(w.s, t, w.c, c);
    }
  }

  /** The first segment's header has been written on an empty flash. */
  lemma First(t: St) returns (v: World)
    requires t.g.Valid() && Core(t) && t.rec.off > 0 && EndOk(t, t.rec.off - 1) && |Draft(t)| == t.g.cpPages
    requires Core(EmptyFlash(t.g)) ==> Logical(t) == Logical(EmptyFlash(t.g))
    ensures Good(v) && Exact(v) && Covers(v)
    ensures v.s == t && !v.claimed && v.c == FirstCounters(t.g) && View(v.image) == map[] && ObsSet(v.image) == {}
    ensures v.d == Durable(t.rec.off - 1, v.image, {}, v.c.perSeg, Draft(t))
  {
    hide Draft;
    EmptyCore(t.g);
    FirstInv(t);
    CheckpointDurable(t, FirstCounters(t.g).perSeg);
    v := World(t, false, FirstCounters(t.g), Durable(t.rec.off - 1, Logical(t), {}, FirstCounters(t.g).perSeg, Draft(t)), Logical(t));
    Assemble(v);
  }
}

/** Where the search for a free page ends, as a function of what is known before it starts. */
module SeqRoom {
  import opened Flash
  import opened SeqState

  /** The reclaimed address, how many segments are allocated, whether they are being reclaimed,
      and the counter of each segment. */
  datatype Control = Control(rec: LogAddr, nSegs: nat, recl: bool, counters: seq<nat>) {
    predicate Ok(g: Geometry) {
      && rec.seg < nSegs <= g.Segments() <= |counters| && g.Header() <= rec.off <= g.pages
      && (recl ==> nSegs == g.Segments())
    }
  }

  /** The first position of the segment from off on that holds no live page; pages if none. */
  function NextFree(live: set<LogAddr>, g: Geometry, seg: nat, off: nat): (r: nat)
    requires off <= g.pages
    ensures off <= r <= g.pages && (r < g.pages ==> LogAddr(seg, r) !in live)
    ensures forall j :: off <= j < r ==> LogAddr(seg, j) in live
    decreases g.pages - off
  {
    if off == g.pages || LogAddr(seg, off) !in live then off else NextFree(live, g, seg, off + 1)
  }

  predicate HasFree(live: set<LogAddr>, g: Geometry, seg: nat) {
    g.Header() <= g.pages && NextFree(live, g, seg, g.Header()) < g.pages
  }

  // ----- the segment that findSegmentToReclaim takes

  /** The counter as findSegmentToReclaim sees it: capped below the slot size. */
  function Capped(g: Geometry, c: seq<nat>, i: nat): nat
    requires i < |c| && g.pages > 0
  {
    if c[i] >= g.pages - 1 then g.pages - 1 else c[i]
  }

  /** The first segment of the highest level, other than cur; there must be one with a count. */
  predicate IsBest(g: Geometry, c: seq<nat>, cur: nat, s: nat)
    requires g.Segments() <= |c| && g.pages > 1
  {
    && s < g.Segments() && s != cur && c[s] > 0
    && forall i :: 0 <= i < g.Segments() && i != cur ==>
         Capped(g, c, i) <= Capped(g, c, s) && (Capped(g, c, i) == Capped(g, c, s) ==> s <= i)
  }

  function BestBelow(g: Geometry, c: seq<nat>, cur: nat, n: nat): (r: Option<nat>)
    requires n <= |c| && g.pages > 1
    ensures r.None? <==> forall i :: 0 <= i < n && i != cur ==> c[i] == 0
    ensures r.Some? ==> r.value < n && r.value != cur && c[r.value] > 0
    ensures r.Some? ==> forall i :: 0 <= i < n && i != cur ==>
      Capped(g, c, i) <= Capped(g, c, r.value) && (Capped(g, c, i) == Capped(g, c, r.value) ==> r.value <= i)
  {
    if n == 0 then None
    else
      var b := BestBelow(g, c, cur, n - 1);
      if n - 1 == cur || c[n - 1] == 0 then b
      else if b.None? || Capped(g, c, b.value) < Capped(g, c, n - 1) then Some(n - 1) else b
  }

  function Best(g: Geometry, c: seq<nat>, cur: nat): (r: Option<nat>)
    requires 0 <= g.Segments() <= |c| && g.pages > 1
    ensures r.Some? ==> IsBest(g, c, cur, r.value)
    ensures r.None? <==> forall i :: 0 <= i < g.Segments() && i != cur ==> c[i] == 0
  {
    BestBelow(g, c, cur, g.Segments())
  }

  lemma BestUnique(g: Geometry, c: seq<nat>, cur: nat, s: nat)
    requires 0 <= g.Segments() <= |c| && g.pages > 1 && IsBest(g, c, cur, s)
    ensures Best(g, c, cur) == Some(s)
  {
    assert Best(g, c, cur).Some?;
    var t := Best(g, c, cur).value;
    assert Capped(g, c, s) == Capped(g, c, t);
  }

  // ----- the search

  /** The state after the next segment has been opened; None if none can be. */
  function Move(g: Geometry, k: Control): (r: Option<Control>)
    requires g.Valid() && k.Ok(g)
    ensures r.Some? ==> r.value.Ok(g) && r.value.rec.off == g.Header()
  {
    if k.nSegs < g.Segments() then
      Some(Control(LogAddr(k.rec.seg + 1, g.Header()), k.nSegs + 1, false, k.counters))
    else
      match Best(g, k.counters, k.rec.seg)
      case None => None
      case Some(s) => Some(Control(LogAddr(s, g.Header()), k.nSegs, true, k.counters[s := 0]))
  }

  /** Is there a page to be had in the segment being written? */
  predicate Here(live: set<LogAddr>, g: Geometry, k: Control)
    requires k.Ok(g)
  {
    k.rec.off < g.pages && (k.recl ==> NextFree(live, g, k.rec.seg, k.rec.off) < g.pages)
  }

  /** The position in it. */
  function Stop(live: set<LogAddr>, g: Geometry, k: Control): (r: Control)
    requires k.Ok(g)
    ensures r.Ok(g)
  {
    if k.recl then k.(rec := k.rec.(off := NextFree(live, g, k.rec.seg, k.rec.off))) else k
  }

  /** findNextFreePage with n rounds left. */
  function Seek(live: set<LogAddr>, g: Geometry, k: Control, n: nat): (r: Option<Control>)
    requires g.Valid() && k.Ok(g)
    ensures r.Some? ==> r.value.Ok(g) && r.value.rec.off < g.pages
    decreases n, 0
  {
    if n == 0 then None
    else if k.rec.off < g.pages then Scan(live, g, k, n - 1)
    else
      match Move(g, k)
      case None => None
      case Some(m) => Scan(live, g, m, n - 1)
  }

  function Scan(live: set<LogAddr>, g: Geometry, k: Control, n: nat): (r: Option<Control>)
    requires g.Valid() && k.Ok(g) && k.rec.off < g.pages
    ensures r.Some? ==> r.value.Ok(g) && r.value.rec.off < g.pages
    decreases n, 1
  {
    if Here(live, g, k) then Some(Stop(live, g, k)) else Seek(live, g, k.(rec := k.rec.(off := g.pages)), n)
  }

  // ----- when it succeeds

  /** Segments with a count. */
  function Nonzero(g: Geometry, c: seq<nat>): (r: set<nat>)
    requires 0 <= g.Segments() <= |c|
  {
    set i | i in UpTo(g.Segments()) && c[i] > 0
  }

  lemma NonzeroMost(g: Geometry, c: seq<nat>)
    requires 0 <= g.Segments() <= |c|
    ensures |Nonzero(g, c)| <= g.Segments()
    ensures (exists i :: 0 <= i < g.Segments() && c[i] == 0) ==> |Nonzero(g, c)| < g.Segments()
  {
    SubsetSize(Nonzero(g, c), UpTo(g.Segments()));
    if i :| 0 <= i < g.Segments() && c[i] == 0 {
      SubsetSize(Nonzero(g, c), UpTo(g.Segments()) - {i});
    }
  }

  lemma {:induction false} SubsetSize(a: set<nat>, b: set<nat>)
    requires a <= b
    ensures |a| <= |b|
  {
    if a != {} {
      var x :| x in a;
      SubsetSize(a - {x}, b - {x});
    }
  }

  lemma NonzeroReset(g: Geometry, c: seq<nat>, s: nat)
    requires 0 <= g.Segments() <= |c| && s in Nonzero(g, c)
    ensures Nonzero(g, c[s := 0]) == Nonzero(g, c) - {s} && |Nonzero(g, c[s := 0])| == |Nonzero(g, c)| - 1
  {
    assert Nonzero(g, c[s := 0]) == Nonzero(g, c) - {s};
  }

  /** A segment with a count and a free position that the search can come to. */
  predicate Elsewhere(live: set<LogAddr>, g: Geometry, k: Control)
    requires k.Ok(g)
  {
    exists i :: i in Nonzero(g, k.counters) && Reachable(g, k, i) && HasFree(live, g, i)
  }

  /** The segment just left can be chosen again only after another one. */
  predicate Reachable(g: Geometry, k: Control, i: nat)
    requires k.Ok(g)
  {
    i != k.rec.seg || exists j :: j in Nonzero(g, k.counters) && j != k.rec.seg
  }

  /** Where the search can go after it has left the segment s chosen at the end of segment k. */
  lemma ElsewhereNext(live: set<LogAddr>, g: Geometry, k: Control, s: nat, off: nat)
    requires g.Valid() && k.Ok(g) && k.nSegs == g.Segments() && IsBest(g, k.counters, k.rec.seg, s) && g.Header() <= off <= g.pages
    ensures s in Nonzero(g, k.counters)
    ensures var m := Control(LogAddr(s, off), k.nSegs, true, k.counters[s := 0]);
      Elsewhere(live, g, k) <==> HasFree(live, g, s) || Elsewhere(live, g, m)
  {
    var m := Control(LogAddr(s, off), k.nSegs, true, k.counters[s := 0]);
    NonzeroReset(g, k.counters, s);
    assert forall i :: i in Nonzero(g, m.counters) <==> i in Nonzero(g, k.counters) && i != s;
    assert Reachable(g, k, s);
    if Elsewhere(live, g, k) {
      var i :| i in Nonzero(g, k.counters) && Reachable(g, k, i) && HasFree(live, g, i);
      assert i == s || Reachable(g, m, i);
    }
    if Elsewhere(live, g, m) {
      var i :| i in Nonzero(g, m.counters) && Reachable(g, m, i) && HasFree(live, g, i);
      assert Reachable(g, k, i);
    }
  }

  /** At the end of a segment, given a round for each segment with a count, the search succeeds if
      and only if a segment is still to be allocated or one with a count has a free position. */
  lemma {:induction false} SeekAtEnd(live: set<LogAddr>, g: Geometry, k: Control, n: nat)
    requires g.Valid() && k.Ok(g) && k.rec.off == g.pages && n > 0 && |Nonzero(g, k.counters)| <= n
    ensures Seek(live, g, k, n).Some? <==> k.nSegs < g.Segments() || Elsewhere(live, g, k)
    decreases n
  {
    if k.nSegs < g.Segments() {
      assert Here(live, g, Move(g, k).value);
    } else if Best(g, k.counters, k.rec.seg).None? {
      assert forall i :: i in Nonzero(g, k.counters) ==> i == k.rec.seg;
    } else {
      var s := Best(g, k.counters, k.rec.seg).value;
      var m := Move(g, k).value;
      ElsewhereNext(live, g, k, s, g.pages);
      NonzeroReset(g, k.counters, s);
      if !HasFree(live, g, s) {
        var e := m.(rec := m.rec.(off := g.pages));
        if n - 1 == 0 {
          assert Nonzero(g, e.counters) == {};
        } else {
          SeekAtEnd(live, g, e, n - 1);
        }
      }
    }
  }

  // ----- with one round too few

  /** findSegmentToReclaim prefers segment i to segment j. */
  predicate Prefers(g: Geometry, c: seq<nat>, i: nat, j: nat)
    requires i < |c| && j < |c| && g.pages > 0
  {
    Capped(g, c, i) > Capped(g, c, j) || (Capped(g, c, i) == Capped(g, c, j) && i < j)
  }

  /** Of the segments with a count, the one that comes last: every other one is preferred to it; only
      of two the one just left comes last in any case. */
  predicate ComesLast(g: Geometry, k: Control, i: nat)
    requires g.Valid() && k.Ok(g)
  {
    var z := Nonzero(g, k.counters);
    && i in z
    && if |z| == 2 && k.rec.seg in z then i == k.rec.seg
       else forall j :: j in z && j != i ==> j < |k.counters| && Prefers(g, k.counters, j, i)
  }

  predicate ElsewhereButLast(live: set<LogAddr>, g: Geometry, k: Control)
    requires g.Valid() && k.Ok(g)
  {
    exists i :: i in Nonzero(g, k.counters) && Reachable(g, k, i) && HasFree(live, g, i) && !ComesLast(g, k, i)
  }

  lemma TwoOf(z: set<nat>, a: nat, b: nat)
    requires a in z && b in z && a != b
    ensures |z| >= 2 && (|z| == 2 ==> z == {a, b}) && (|z| > 2 ==> exists j :: j in z && j != a && j != b)
  {
    SubsetSize({a, b}, z);
    if |z| == 2 {
      if x :| x in z && x != a && x != b {
        SubsetSize({a, b, x}, z);
      }
    } else if forall j :: j in z ==> j == a || j == b {
      SubsetSize(z, {a, b});
    }
  }

  lemma FirstNotLast(g: Geometry, k: Control, s: nat)
    requires g.Valid() && k.Ok(g) && k.nSegs == g.Segments() && IsBest(g, k.counters, k.rec.seg, s)
    requires |Nonzero(g, k.counters)| >= 2
    ensures !ComesLast(g, k, s)
  {
    var z := Nonzero(g, k.counters);
    if !(|z| == 2 && k.rec.seg in z) {
      if forall j :: j in z ==> j == s || j == k.rec.seg {
        SubsetSize(z, {s, k.rec.seg});
        if k.rec.seg !in z {
          SubsetSize(z, {s});
        }
      }
      var h :| h in z && h != s && h != k.rec.seg;
      assert !Prefers(g, k.counters, h, s);
    }
  }

  /** Who comes last does not depend on the first choice, and is not it. */
  lemma LastStays(g: Geometry, k: Control, s: nat, i: nat)
    requires g.Valid() && k.Ok(g) && k.nSegs == g.Segments() && IsBest(g, k.counters, k.rec.seg, s)
    requires |Nonzero(g, k.counters)| >= 2 && i in Nonzero(g, k.counters)
    ensures var m := Control(LogAddr(s, g.pages), k.nSegs, true, k.counters[s := 0]);
      ComesLast(g, k, i) <==> i != s && ComesLast(g, m, i)
  {
    hide Prefers, Capped;
    var z, m, cur := Nonzero(g, k.counters), Control(LogAddr(s, g.pages), k.nSegs, true, k.counters[s := 0]), k.rec.seg;
    NonzeroReset(g, k.counters, s);
    assert s in z;
    if i == s {
      FirstNotLast(g, k, s);
    } else {
      TwoOf(z, s, i);
      assert m.rec.seg !in Nonzero(g, m.counters);
      if |z| == 2 && cur in z {
        assert z == {s, i} && Nonzero(g, m.counters) == {i};
      } else {
        LastOfMore(g, k, s, i);
      }
    }
  }

  lemma LastOfMore(g: Geometry, k: Control, s: nat, i: nat)
    requires g.Valid() && k.Ok(g) && k.nSegs == g.Segments() && IsBest(g, k.counters, k.rec.seg, s)
    requires i in Nonzero(g, k.counters) && i != s && !(|Nonzero(g, k.counters)| == 2 && k.rec.seg in Nonzero(g, k.counters))
    ensures var c, z := k.counters, Nonzero(g, k.counters);
      (forall j :: j in z && j != i ==> j < |c| && Prefers(g, c, j, i))
      <==> forall j :: j in z - {s} && j != i ==> j < |c| && Prefers(g, c[s := 0], j, i)
  {
    var c, z := k.counters, Nonzero(g, k.counters);
    forall j | j in z && j != s && j != i ensures Prefers(g, c[s := 0], j, i) <==> Prefers(g, c, j, i) {}
    assert forall j :: j in z && j != k.rec.seg && j != s ==> Prefers(g, c, s, j);
    if i == k.rec.seg {
      TwoOf(z, s, i);
      var h :| h in z && h != s && h != i;
      assert Prefers(g, c, s, h);
      assert Prefers(g, c[s := 0], h, i) ==> Prefers(g, c, h, i) && Prefers(g, c, s, i);
    } else {
      assert Prefers(g, c, s, i);
    }
    assert forall j :: j in z && j != i ==> j == s || j in z - {s};
  }

  /** At the end of a segment, with a round for each segment with a count but one, the search passes
      over the one that comes last. */
  lemma {:induction false} SeekShort(live: set<LogAddr>, g: Geometry, k: Control, n: nat)
    requires g.Valid() && k.Ok(g) && k.rec.off == g.pages && k.nSegs == g.Segments() && |Nonzero(g, k.counters)| == n + 1
    ensures Seek(live, g, k, n).Some? <==> ElsewhereButLast(live, g, k)
    decreases n
  {
    if n == 0 {
      forall i | i in Nonzero(g, k.counters) ensures ComesLast(g, k, i) {
        if j :| j in Nonzero(g, k.counters) && j != i {
          TwoOf(Nonzero(g, k.counters), i, j);
        }
      }
    } else {
      if Best(g, k.counters, k.rec.seg).None? {
        assert Nonzero(g, k.counters) <= {k.rec.seg};
        SubsetSize(Nonzero(g, k.counters), {k.rec.seg});
      }
      var s := Best(g, k.counters, k.rec.seg).value;
      var e := Control(LogAddr(s, g.pages), k.nSegs, true, k.counters[s := 0]);
      NonzeroReset(g, k.counters, s);
      SeekShort(live, g, e, n - 1);
      ShortNext(live, g, k, s);
    }
  }

  lemma ShortNext(live: set<LogAddr>, g: Geometry, k: Control, s: nat)
    requires g.Valid() && k.Ok(g) && k.nSegs == g.Segments() && IsBest(g, k.counters, k.rec.seg, s) && |Nonzero(g, k.counters)| >= 2
    ensures var e := Control(LogAddr(s, g.pages), k.nSegs, true, k.counters[s := 0]);
      ElsewhereButLast(live, g, k) <==> HasFree(live, g, s) || ElsewhereButLast(live, g, e)
  {
    var e := Control(LogAddr(s, g.pages), k.nSegs, true, k.counters[s := 0]);
    NonzeroReset(g, k.counters, s);
    LastStays(g, k, s, s);
    forall i | i in Nonzero(g, k.counters) ensures ComesLast(g, k, i) <==> i != s && ComesLast(g, e, i) {
      LastStays(g, k, s, i);
    }
    hide ComesLast, HasFree;
    assert forall i :: i in Nonzero(g, e.counters) <==> i in Nonzero(g, k.counters) && i != s;
    assert Reachable(g, k, s);
    if i :| i in Nonzero(g, k.counters) && Reachable(g, k, i) && HasFree(live, g, i) && !ComesLast(g, k, i) {
      assert i == s || Reachable(g, e, i);
    }
    if i :| i in Nonzero(g, e.counters) && Reachable(g, e, i) && HasFree(live, g, i) && !ComesLast(g, e, i) {
      assert Reachable(g, k, i);
    }
  }

  /** The search starts inside a segment although every segment has a count: there is one round less
      than there are segments to look at. */
  predicate RoundShort(g: Geometry, k: Control)
    requires k.Ok(g)
  {
    k.rec.off < g.pages && forall i :: 0 <= i < g.Segments() ==> k.counters[i] > 0
  }

  /** findNextFreePage succeeds if and only if there is a page in the segment being written, a segment
      still to be allocated, or another one with a count and a free position, which must not be the
      one that comes last when there is a round too few. */
  lemma SeekExactly(live: set<LogAddr>, g: Geometry, k: Control)
    requires g.Valid() && k.Ok(g)
    ensures Seek(live, g, k, g.Segments()).Some? <==>
      || Here(live, g, k) || k.nSegs < g.Segments()
      || (if RoundShort(g, k) then ElsewhereButLast(live, g, k) else Elsewhere(live, g, k))
  {
    if !RoundShort(g, k) {
      SeekRoom(live, g, k);
    } else if !Here(live, g, k) {
      SeekOneShort(live, g, k);
    }
  }

  lemma SeekOneShort(live: set<LogAddr>, g: Geometry, k: Control)
    requires g.Valid() && k.Ok(g) && RoundShort(g, k) && !Here(live, g, k)
    ensures Seek(live, g, k, g.Segments()).Some? <==> k.nSegs < g.Segments() || ElsewhereButLast(live, g, k)
  {
    hide ElsewhereButLast, HasFree, ComesLast;
    var e := k.(rec := k.rec.(off := g.pages));
    assert Nonzero(g, k.counters) == UpTo(g.Segments());
    UpToSize(g.Segments());
    assert k.recl;
    SeekShort(live, g, e, g.Segments() - 1);
    SameButLast(live, g, k, e);
  }

  lemma {:induction false} UpToSize(n: nat)
    ensures |UpTo(n)| == n
  {
    if n > 0 {
      UpToSize(n - 1);
      assert UpTo(n) == UpTo(n - 1) + {n - 1};
    }
  }

  lemma SameButLast(live: set<LogAddr>, g: Geometry, k: Control, e: Control)
    requires g.Valid() && k.Ok(g) && e == k.(rec := k.rec.(off := g.pages))
    ensures ElsewhereButLast(live, g, e) <==> ElsewhereButLast(live, g, k)
  {
    assert forall i :: Reachable(g, e, i) <==> Reachable(g, k, i);
    assert forall i :: ComesLast(g, e, i) <==> ComesLast(g, k, i);
  }

  /** With rounds enough. */
  lemma SeekRoom(live: set<LogAddr>, g: Geometry, k: Control)
    requires g.Valid() && k.Ok(g)
    requires k.rec.off == g.pages || exists i :: 0 <= i < g.Segments() && k.counters[i] == 0
    ensures Seek(live, g, k, g.Segments()).Some? <==> Here(live, g, k) || k.nSegs < g.Segments() || Elsewhere(live, g, k)
  {
    NonzeroMost(g, k.counters);
    if k.rec.off == g.pages {
      SeekAtEnd(live, g, k, g.Segments());
    } else if !Here(live, g, k) {
      var e := k.(rec := k.rec.(off := g.pages));
      SameElsewhere(live, g, k, e);
      if g.Segments() == 1 {
        assert Nonzero(g, k.counters) == {};
      } else {
        SeekAtEnd(live, g, e, g.Segments() - 1);
      }
    }
  }

  lemma SameElsewhere(live: set<LogAddr>, g: Geometry, k: Control, e: Control)
    requires k.Ok(g) && e.Ok(g) && e.rec.seg == k.rec.seg && e.counters == k.counters
    ensures Elsewhere(live, g, e) <==> Elsewhere(live, g, k)
  {
    assert forall i :: Reachable(g, e, i) <==> Reachable(g, k, i);
  }

  /** An instance of the round too few: segment 2 has a free position and a count, and the search
      reports a full flash. */
  lemma LastOneMissed()
    ensures var g := Geometry(6, 2, 3, 3, 1, 1);
      var k, live := Control(LogAddr(0, 2), 3, true, [2, 2, 1, 0, 0, 0]), {LogAddr(0, 2), LogAddr(1, 2)};
      && g.Valid() && k.Ok(g) && 2 in Nonzero(g, k.counters) && HasFree(live, g, 2)
      && Elsewhere(live, g, k) && Seek(live, g, k, g.Segments()) == None
  {
    var g := Geometry(6, 2, 3, 3, 1, 1);
    var c := [2, 2, 1, 0, 0, 0];
    var k, live := Control(LogAddr(0, 2), 3, true, c), {LogAddr(0, 2), LogAddr(1, 2)};
    assert Reachable(g, k, 2);
    BestUnique(g, c, 0, 1);
    BestUnique(g, c[1 := 0], 1, 0);
    var e := k.(rec := LogAddr(0, 3));
    var e1 := Control(LogAddr(1, 3), 3, true, c[1 := 0]);
    var e0 := Control(LogAddr(0, 3), 3, true, c[1 := 0][0 := 0]);
    assert Seek(live, g, e0, 0) == None;
    assert Seek(live, g, e1, 1) == Seek(live, g, e0, 0);
    assert Seek(live, g, e, 2) == Seek(live, g, e1, 1);
    assert Seek(live, g, k, 3) == Seek(live, g, e, 2);
  }

  // ----- a checkpoint

  /** commit() with m pages: does it fit behind k, until its last page or a segment header on the
      way is written? */
  predicate Fits(live: set<LogAddr>, g: Geometry, k: Control, m: nat)
    requires g.Valid() && k.Ok(g) && k.rec.off < g.pages
    decreases m
  {
    var next := k.(rec := k.rec.(off := k.rec.off + 1));
    m <= 1 || (if Here(live, g, next) then Fits(live, g, Stop(live, g, next), m - 1)
               else Seek(live, g, next, g.Segments()).Some?)
  }

  /** is_flash_full */
  predicate AllFull(g: Geometry, c: seq<nat>)
    requires g.Segments() <= |c|
  {
    forall i :: 0 <= i < g.Segments() ==> c[i] == g.pages
  }

  /** While segments are still to be allocated, a checkpoint always fits. */
  lemma {:induction false} FitsWhileAllocating(live: set<LogAddr>, g: Geometry, k: Control, m: nat)
    requires g.Valid() && k.Ok(g) && k.rec.off < g.pages && k.nSegs < g.Segments()
    ensures Fits(live, g, k, m)
    decreases m
  {
    var next := k.(rec := k.rec.(off := k.rec.off + 1));
    if m > 1 {
      if Here(live, g, next) {
        FitsWhileAllocating(live, g, Stop(live, g, next), m - 1);
      } else {
        assert Here(live, g, Move(g, next).value);
      }
    }
  }

  /** So it does when the segment being allocated has room for it. */
  lemma {:induction false} FitsInSegment(live: set<LogAddr>, g: Geometry, k: Control, m: nat)
    requires g.Valid() && k.Ok(g) && k.rec.off < g.pages && !k.recl && k.rec.off + m <= g.pages
    ensures Fits(live, g, k, m)
    decreases m
  {
    if m > 1 {
      var next := k.(rec := k.rec.(off := k.rec.off + 1));
      assert Here(live, g, next);
      FitsInSegment(live, g, Stop(live, g, next), m - 1);
    }
  }

  /** While segments are allocated, the next position is the one after. */
  lemma SeekNext(live: set<LogAddr>, g: Geometry, k: Control)
    requires g.Valid() && k.Ok(g) && k.rec.off < g.pages && !k.recl
    ensures Seek(live, g, k, g.Segments()) == Some(k)
  {
    assert Here(live, g, k);
  }

  lemma ZeroNotFull(g: Geometry, c: seq<nat>)
    requires g.Valid() && g.Segments() <= |c| && c[0] == 0
    ensures !AllFull(g, c)
  {
  }
}

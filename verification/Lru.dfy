/** The block cache's queue: a doubly linked list inside the array of buffers. */
module Lru {
  import opened Flash

  /** CACHE_ID_EMPTY and TID_EMPTY */
  const EMPTY := -1

  /** A buffer with its neighbours in the queue. */
  datatype Slot = Slot(more: int, less: int, tid: int, dirty: bool, addr: Option<LogAddr>, refs: nat, leaf: bool, data: Block)

  /** cache_init_by_cid */
  const BLANK := Slot(EMPTY, EMPTY, EMPTY, false, None, 0, false, [])

  /** The address of a block: none yet, a page, or a buffer of the cache. */
  datatype Where = Nowhere | Page(a: LogAddr) | Buffer(cid: nat)

  /** IS_CACHE_FREE */
  predicate Free(e: Slot) { !e.dirty && e.addr.None? }

  /** Buffers that may be taken away from their block. */
  predicate Evictable(e: Slot) { e.refs == 0 && !e.leaf }

  // ----- the list

  function At(q: seq<nat>, i: int): int { if 0 <= i < |q| then q[i] else EMPTY }

  ghost predicate Distinct(q: seq<nat>) {
    forall i, j :: 0 <= i < j < |q| ==> q[i] != q[j]
  }

  ghost predicate LinkAt(q: seq<nat>, es: seq<Slot>, i: nat)
    requires i < |q|
  {
    q[i] < |es| && es[q[i]].more == At(q, i - 1) && es[q[i]].less == At(q, i + 1)
  }

  ghost predicate Loose(q: seq<nat>, es: seq<Slot>, c: nat)
    requires c < |es|
  {
    c !in q ==> es[c].more == EMPTY && es[c].less == EMPTY
  }

  /** The links chain exactly the buffers of q, most recent first. */
  ghost predicate Linked(q: seq<nat>, es: seq<Slot>, mru: int, lru: int) {
    && Distinct(q)
    && mru == At(q, 0) && lru == At(q, |q| - 1)
    && (forall i {:trigger LinkAt(q, es, i)} :: 0 <= i < |q| ==> LinkAt(q, es, i))
    && (forall c {:trigger Loose(q, es, c)} :: 0 <= c < |es| ==> Loose(q, es, c))
  }

  ghost predicate SameButLinks(es: seq<Slot>, fs: seq<Slot>) {
    |es| == |fs| && forall c :: 0 <= c < |es| ==> fs[c] == es[c].(more := fs[c].more, less := fs[c].less)
  }

  ghost function Index(q: seq<nat>, c: nat): (i: nat)
    requires c in q
    ensures i < |q| && q[i] == c
  {
    if q[0] == c then 0 else 1 + Index(q[1..], c)
  }

  ghost function Without(q: seq<nat>, c: nat): seq<nat> {
    if c in q then q[..Index(q, c)] + q[Index(q, c) + 1..] else q
  }

  /** Where an element of the shorter order was. */
  ghost function Was(q: seq<nat>, c: nat, j: nat): (k: nat)
    requires c in q
  {
    if j < Index(q, c) then j else j + 1
  }

  lemma WithoutAt(q: seq<nat>, c: nat, j: int)
    requires c in q
    ensures var i, r := Index(q, c), Without(q, c);
            |r| == |q| - 1 && At(r, j) == if j < i then At(q, j) else At(q, j + 1)
    ensures 0 <= j < |Without(q, c)| ==> Was(q, c, j) < |q| && Without(q, c)[j] == q[Was(q, c, j)] && Was(q, c, j) != Index(q, c)
  {
  }

  lemma Apart(q: seq<nat>, i: nat, j: nat)
    requires Distinct(q) && i < |q| && j < |q|
    ensures q[i] == q[j] <==> i == j
  {
  }

  lemma WithoutIs(q: seq<nat>, c: nat)
    requires Distinct(q)
    ensures Distinct(Without(q, c)) && c !in Without(q, c)
    ensures forall d :: d in Without(q, c) <==> d in q && d != c
  {
    if c in q {
      hide Without;
      forall j, k | 0 <= j < k < |Without(q, c)| ensures Without(q, c)[j] != Without(q, c)[k] {
        WithoutAt(q, c, j);
        WithoutAt(q, c, k);
        Apart(q, Was(q, c, j), Was(q, c, k));
      }
      forall d ensures d in Without(q, c) <==> d in q && d != c {
        WithoutHas(q, c, d);
      }
    }
  }

  lemma WithoutHas(q: seq<nat>, c: nat, d: nat)
    requires Distinct(q) && c in q
    ensures d in Without(q, c) <==> d in q && d != c
  {
    hide Without;
    var i, r := Index(q, c), Without(q, c);
    if d in r {
      var j :| 0 <= j < |r| && r[j] == d;
      WithoutAt(q, c, j);
      Apart(q, Was(q, c, j), i);
    }
    if d in q && d != c {
      var j := Index(q, d);
      WithoutAt(q, c, if j < i then j else j - 1);
      assert r[if j < i then j else j - 1] == d;
    }
  }

  /** cache_remove_from_lru on the links. */
  function Unlink(es: seq<Slot>, c: nat): (fs: seq<Slot>)
    requires c < |es|
    ensures |fs| == |es|
  {
    var m, l := es[c].more, es[c].less;
    var es1 := if 0 <= m < |es| then es[m := es[m].(less := l)] else es;
    var es2 := if 0 <= l < |es| then es1[l := es1[l].(more := m)] else es1;
    es2[c := es2[c].(more := EMPTY, less := EMPTY)]
  }

  lemma UnlinkIs(es: seq<Slot>, c: nat, d: nat)
    requires c < |es| && es[c].more < |es| && es[c].less < |es| && d < |es|
    ensures Unlink(es, c)[d] == es[d].(
      more := if d == c then EMPTY else if d == es[c].less then es[c].more else es[d].more,
      less := if d == c then EMPTY else if d == es[c].more then es[c].less else es[d].less)
  {
  }

  /** Taking a buffer out of the list takes it out of the order. */
  lemma Unlinks(q: seq<nat>, es: seq<Slot>, mru: int, lru: int, c: nat)
    requires Linked(q, es, mru, lru) && c in q
    ensures c < |es| && es[c].more < |es| && es[c].less < |es|
    ensures Linked(Without(q, c), Unlink(es, c), if mru == c then es[c].less else mru, if lru == c then es[c].more else lru)
    ensures SameButLinks(es, Unlink(es, c))
  {
    hide Unlink, Without, Index, Distinct, At, LinkAt, Loose;
    var i, r := Index(q, c), Without(q, c);
    WithoutIs(q, c);
    WithoutAt(q, c, 0);
    WithoutAt(q, c, |r| - 1);
    Bounded(q, es, mru, lru, i);
    var fs := Unlink(es, c);
    forall j | 0 <= j < |r| ensures LinkAt(r, fs, j) {
      UnlinkAt(q, es, mru, lru, c, j);
    }
    forall d | 0 <= d < |es| ensures Loose(r, fs, d) && fs[d] == es[d].(more := fs[d].more, less := fs[d].less) {
      UnlinkIs(es, c, d);
      UnlinkLoose(q, es, mru, lru, c, d);
    }
    Ends(q, es, mru, lru, i);
  }

  lemma Bounded(q: seq<nat>, es: seq<Slot>, mru: int, lru: int, i: nat)
    requires Linked(q, es, mru, lru) && i < |q|
    ensures q[i] < |es| && es[q[i]].more < |es| && es[q[i]].less < |es|
    ensures es[q[i]].more == At(q, i - 1) && es[q[i]].less == At(q, i + 1)
  {
    assert LinkAt(q, es, i);
    assert i > 0 ==> LinkAt(q, es, i - 1);
    assert i + 1 < |q| ==> LinkAt(q, es, i + 1);
  }

  lemma Ends(q: seq<nat>, es: seq<Slot>, mru: int, lru: int, i: nat)
    requires Linked(q, es, mru, lru) && i < |q|
    ensures mru == q[i] <==> i == 0
    ensures lru == q[i] <==> i == |q| - 1
    ensures i > 0 ==> mru == At(q, 0)
    ensures Without(q, q[i]) == [] <==> |q| == 1
  {
    Apart(q, i, 0);
    Apart(q, i, |q| - 1);
    WithoutIs(q, q[i]);
  }

  lemma UnlinkAt(q: seq<nat>, es: seq<Slot>, mru: int, lru: int, c: nat, j: nat)
    requires Linked(q, es, mru, lru) && c in q && j < |Without(q, c)|
    requires c < |es| && es[c].more < |es| && es[c].less < |es|
    ensures LinkAt(Without(q, c), Unlink(es, c), j)
  {
    hide Unlink, Without, Distinct, Loose;
    var i, r := Index(q, c), Without(q, c);
    WithoutAt(q, c, j - 1);
    WithoutAt(q, c, j);
    WithoutAt(q, c, j + 1);
    var k := if j < i then j else j + 1;
    Bounded(q, es, mru, lru, i);
    Bounded(q, es, mru, lru, k);
    UnlinkIs(es, c, q[k]);
    Apart(q, k, i);
    if i > 0 { Apart(q, k, i - 1); }
    if i + 1 < |q| { Apart(q, k, i + 1); }
  }

  lemma UnlinkLoose(q: seq<nat>, es: seq<Slot>, mru: int, lru: int, c: nat, d: nat)
    requires Linked(q, es, mru, lru) && c in q && d < |es|
    requires c < |es| && es[c].more < |es| && es[c].less < |es|
    ensures Loose(Without(q, c), Unlink(es, c), d)
  {
    hide Unlink, Without, LinkAt;
    WithoutIs(q, c);
    UnlinkIs(es, c, d);
    Bounded(q, es, mru, lru, Index(q, c));
    assert Loose(q, es, d);
  }

  /** cache_insert_to_lru on the links. */
  function Push(es: seq<Slot>, mru: int, c: nat): (fs: seq<Slot>)
    requires c < |es| && mru < |es|
    ensures |fs| == |es|
  {
    if mru < 0 then es
    else var es1 := es[c := es[c].(less := mru)]; es1[mru := es1[mru].(more := c)]
  }

  lemma Pushes(q: seq<nat>, es: seq<Slot>, mru: int, lru: int, c: nat)
    requires Linked(q, es, mru, lru) && c < |es| && c !in q
    ensures mru < |es|
    ensures Linked([c] + q, Push(es, mru, c), c, if mru < 0 then c else lru)
    ensures SameButLinks(es, Push(es, mru, c))
  {
    hide LinkAt, Loose;
    var r := [c] + q;
    if q != [] { Bounded(q, es, mru, lru, 0); }
    var fs := Push(es, mru, c);
    forall i | 0 <= i < |r| ensures LinkAt(r, fs, i) {
      PushAt(q, es, mru, lru, c, i);
    }
    forall d | 0 <= d < |es| ensures Loose(r, fs, d) {
      PushLoose(q, es, mru, lru, c, d);
    }
  }

  lemma PushAt(q: seq<nat>, es: seq<Slot>, mru: int, lru: int, c: nat, i: nat)
    requires Linked(q, es, mru, lru) && c < |es| && c !in q && i <= |q| && mru < |es|
    ensures LinkAt([c] + q, Push(es, mru, c), i)
  {
    hide Distinct, Loose;
    LooseIs(q, es, c);
    var r, fs := [c] + q, Push(es, mru, c);
    if q != [] {
      Bounded(q, es, mru, lru, 0);
      assert q[0] in q;
    }
    if i > 0 {
      Bounded(q, es, mru, lru, i - 1);
      Apart(q, i - 1, 0);
      assert q[i - 1] in q && r[i] == q[i - 1];
      assert At(r, i - 1) == if i == 1 then c else At(q, i - 2);
      assert At(r, i + 1) == At(q, i);
    }
  }

  lemma LooseIs(q: seq<nat>, es: seq<Slot>, c: nat)
    requires c < |es| && (forall d {:trigger Loose(q, es, d)} :: 0 <= d < |es| ==> Loose(q, es, d)) && c !in q
    ensures Loose(q, es, c) && es[c].more == EMPTY && es[c].less == EMPTY
  {
    assert Loose(q, es, c);
  }

  lemma PushLoose(q: seq<nat>, es: seq<Slot>, mru: int, lru: int, c: nat, d: nat)
    requires Linked(q, es, mru, lru) && c < |es| && c !in q && d < |es| && mru < |es|
    ensures Loose([c] + q, Push(es, mru, c), d)
  {
    hide Distinct, LinkAt;
    assert Loose(q, es, d);
  }

  lemma RemoveKeeps(q: seq<nat>, es: seq<Slot>, mru: int, lru: int, c: nat)
    requires Linked(q, es, mru, lru) && c < |es|
    ensures es[c].more < |es| && es[c].less < |es|
    ensures Linked(Without(q, c), Unlink(es, c), if mru == c then es[c].less else mru, if lru == c then es[c].more else lru)
    ensures SameButLinks(es, Unlink(es, c)) && c !in Without(q, c)
  {
    WithoutIs(q, c);
    if c in q {
      hide Without, Unlink, Linked, SameButLinks;
      Unlinks(q, es, mru, lru, c);
    } else {
      LooseIs(q, es, c);
      assert Unlink(es, c) == es;
      assert q != [] ==> q[0] in q && q[|q| - 1] in q;
    }
  }

  lemma RemoveEnds(q: seq<nat>, es: seq<Slot>, mru: int, lru: int, c: nat)
    requires Linked(q, es, mru, lru) && c < |es|
    ensures EMPTY <= es[c].more < |es| && EMPTY <= es[c].less < |es| && es[c].more != c && es[c].less != c
    ensures es[c].more >= 0 ==> es[c].more != es[c].less
    ensures mru == c ==> es[c].more == EMPTY
    ensures lru == c ==> es[c].less == EMPTY
  {
    if c in q {
      var i := Index(q, c);
      Bounded(q, es, mru, lru, i);
      Apart(q, i, 0);
      Apart(q, i, |q| - 1);
      if 0 < i { Apart(q, i, i - 1); }
      if i + 1 < |q| { Apart(q, i, i + 1); }
      if 0 < i < |q| - 1 { Apart(q, i - 1, i + 1); }
    } else {
      LooseIs(q, es, c);
    }
  }

  lemma LinkedDistinct(q: seq<nat>, es: seq<Slot>, mru: int, lru: int)
    requires Linked(q, es, mru, lru)
    ensures Distinct(q)
  {
  }

  lemma FirstHasNone(q: seq<nat>, es: seq<Slot>, mru: int, lru: int)
    requires Linked(q, es, mru, lru)
    ensures EMPTY <= mru < |es| && (mru >= 0 ==> mru in q && es[mru].more == EMPTY)
  {
    if q != [] {
      Bounded(q, es, mru, lru, 0);
    }
  }

  /** A buffer outside the list can be overwritten, as long as its links stay empty. */
  lemma SetOutside(q: seq<nat>, es: seq<Slot>, mru: int, lru: int, c: nat, e: Slot)
    requires Linked(q, es, mru, lru) && c < |es| && c !in q && e.more == EMPTY && e.less == EMPTY
    ensures Linked(q, es[c := e], mru, lru)
  {
    hide Distinct, LinkAt, Loose;
    var fs := es[c := e];
    forall i | 0 <= i < |q| ensures LinkAt(q, fs, i) {
      Bounded(q, es, mru, lru, i);
      assert q[i] in q;
      assert LinkAt(q, es, i);
      SameLink(q, es, fs, i);
    }
    forall d | 0 <= d < |fs| ensures Loose(q, fs, d) {
      assert Loose(q, es, d);
      SameLoose(q, es, fs, c, e, d);
    }
  }

  lemma SameLink(q: seq<nat>, es: seq<Slot>, fs: seq<Slot>, i: nat)
    requires i < |q| && LinkAt(q, es, i) && |fs| == |es| && fs[q[i]].more == es[q[i]].more && fs[q[i]].less == es[q[i]].less
    ensures LinkAt(q, fs, i)
  {
  }

  lemma SameLoose(q: seq<nat>, es: seq<Slot>, fs: seq<Slot>, c: nat, e: Slot, d: nat)
    requires d < |es| && Loose(q, es, d) && c < |es| && fs == es[c := e] && e.more == EMPTY && e.less == EMPTY
    ensures Loose(q, fs, d)
  {
  }

  /** The other fields play no part in the list. */
  lemma SetFields(q: seq<nat>, es: seq<Slot>, mru: int, lru: int, c: nat, e: Slot)
    requires Linked(q, es, mru, lru) && c < |es| && e.more == es[c].more && e.less == es[c].less
    ensures Linked(q, es[c := e], mru, lru)
  {
    hide Distinct, LinkAt, Loose;
    var fs := es[c := e];
    forall i | 0 <= i < |q| ensures LinkAt(q, fs, i) {
      Bounded(q, es, mru, lru, i);
      assert LinkAt(q, es, i);
      SameLink(q, es, fs, i);
    }
    forall d | 0 <= d < |fs| ensures Loose(q, fs, d) {
      assert Loose(q, es, d);
      LooseSame(q, es, fs, d);
    }
  }

  lemma LooseSame(q: seq<nat>, es: seq<Slot>, fs: seq<Slot>, d: nat)
    requires d < |es| && Loose(q, es, d) && |fs| == |es| && fs[d].more == es[d].more && fs[d].less == es[d].less
    ensures Loose(q, fs, d)
  {
  }

  // ----- dirty buffers

  ghost function CountDirty(es: seq<Slot>): nat {
    if es == [] then 0 else CountDirty(es[..|es| - 1]) + (if es[|es| - 1].dirty then 1 else 0)
  }

  lemma {:induction false} CountUpdate(es: seq<Slot>, c: nat, e: Slot)
    requires c < |es|
    ensures CountDirty(es[c := e]) == CountDirty(es) - (if es[c].dirty then 1 else 0) + (if e.dirty then 1 else 0)
  {
    var n := |es| - 1;
    if c == n {
      assert es[c := e][..n] == es[..n];
    } else {
      assert es[c := e][..n] == es[..n][c := e];
      CountUpdate(es[..n], c, e);
    }
  }

  lemma {:induction false} CountSame(es: seq<Slot>, fs: seq<Slot>)
    requires |fs| == |es| && forall c :: 0 <= c < |es| ==> fs[c].dirty == es[c].dirty
    ensures CountDirty(fs) == CountDirty(es)
  {
    if es != [] {
      CountSame(es[..|es| - 1], fs[..|es| - 1]);
    }
  }

  lemma {:induction false} CountNone(es: seq<Slot>)
    requires forall c :: 0 <= c < |es| ==> !es[c].dirty
    ensures CountDirty(es) == 0
  {
    if es != [] {
      CountNone(es[..|es| - 1]);
    }
  }

  // ----- recency

  /** The order of q is the order of the last accesses, latest first. */
  ghost predicate Recent(q: seq<nat>, last: map<nat, nat>, clock: nat) {
    && (forall i :: 0 <= i < |q| ==> q[i] in last && last[q[i]] < clock)
    && (forall i, j :: 0 <= i < j < |q| ==> q[i] in last && q[j] in last && last[q[i]] > last[q[j]])
  }

  lemma RecentWithout(q: seq<nat>, last: map<nat, nat>, clock: nat, c: nat)
    requires Recent(q, last, clock)
    ensures Recent(Without(q, c), last, clock)
  {
    if c in q {
      hide Without;
      var r := Without(q, c);
      forall j | 0 <= j < |r| ensures r[j] in last && last[r[j]] < clock {
        WithoutAt(q, c, j);
      }
      forall j, k | 0 <= j < k < |r| ensures r[j] in last && r[k] in last && last[r[j]] > last[r[k]] {
        WithoutAt(q, c, j);
        WithoutAt(q, c, k);
      }
    }
  }

  lemma RecentAccess(q: seq<nat>, last: map<nat, nat>, clock: nat, c: nat)
    requires Recent(q, last, clock) && c !in q
    ensures Recent([c] + q, last[c := clock], clock + 1)
  {
    var r, l := [c] + q, last[c := clock];
    assert forall i :: 0 < i < |r| ==> r[i] == q[i - 1] && r[i] in q;
  }

  // ----- the cache

  /** Dirty buffers are in the list. */
  ghost predicate Queued(q: seq<nat>, es: seq<Slot>) {
    forall c :: 0 <= c < |es| && es[c].dirty ==> c in q
  }

  ghost predicate SameButOwnLinks(e: Slot, f: Slot) {
    e == f.(more := e.more, less := e.less)
  }

  /** Apart from links, only buffer c may have changed. */
  ghost predicate Only(es: seq<Slot>, fs: seq<Slot>, c: nat) {
    |fs| == |es| && forall d :: 0 <= d < |es| && d != c ==> fs[d] == es[d].(more := fs[d].more, less := fs[d].less)
  }

  lemma OnlySame(es: seq<Slot>, fs: seq<Slot>, gs: seq<Slot>, c: nat)
    requires SameButLinks(es, fs) && |gs| == |fs| && c < |fs| && gs == fs[c := gs[c]]
    ensures Only(es, gs, c)
  {
  }

  lemma SameQueued(q: seq<nat>, es: seq<Slot>, gs: seq<Slot>, c: nat)
    requires Queued(q, es) && Only(es, gs, c) && c < |es| && Distinct(q)
    ensures !gs[c].dirty ==> Queued(Without(q, c), gs)
    ensures Queued([c] + Without(q, c), gs)
  {
    WithoutIs(q, c);
  }

  lemma OnlyCount(es: seq<Slot>, gs: seq<Slot>, c: nat)
    requires c < |es| && Only(es, gs, c)
    ensures CountDirty(gs) == CountDirty(es) - (if es[c].dirty then 1 else 0) + (if gs[c].dirty then 1 else 0)
  {
    CountUpdate(es, c, gs[c]);
    CountSame(es[c := gs[c]], gs);
  }

  /** The least recent buffer that may be evicted. */
  ghost predicate IsVictim(q: seq<nat>, es: seq<Slot>, except: int, last: map<nat, nat>, r: int) {
    if r < 0 then forall c :: c in q && c < |es| ==> !Evictable(es[c]) || c == except
    else && r in q && r < |es| && r in last && Evictable(es[r]) && r != except
         && forall c :: c in q && c < |es| && Evictable(es[c]) && c != except ==> c in last && last[r] <= last[c]
  }

  /** An access finds its block in the cache. */
  ghost predicate Hit(q: seq<nat>, es: seq<Slot>, w: Where, cid: int) {
    match w
    case Nowhere => false
    case Buffer(c) => cid == c
    case Page(a) => cid in q && 0 <= cid < |es| && es[cid].addr == Some(a)
  }

  /** A buffer for a new block: a free one, and only without any the victim. */
  ghost predicate Fresh(q: seq<nat>, es: seq<Slot>, last: map<nat, nat>, cid: int) {
    && 0 <= cid < |es|
    && if exists c :: 0 <= c < |es| && Free(es[c]) then Free(es[cid]) else IsVictim(q, es, EMPTY, last, cid)
  }

  lemma VictimUnique(q: seq<nat>, es: seq<Slot>, last: map<nat, nat>, clock: nat, c: nat, d: nat)
    requires Recent(q, last, clock) && IsVictim(q, es, EMPTY, last, c) && IsVictim(q, es, EMPTY, last, d)
    ensures c == d
  {
    var i, j := Index(q, c), Index(q, d);
    if i != j {
      assert false;
    }
  }

  /** No buffer can be had for a new block: none is free, and there is no victim, or the victim is
      dirty and cannot be written. */
  ghost predicate NoRoom(q: seq<nat>, es: seq<Slot>, last: map<nat, nat>, written: bool) {
    && (forall c :: 0 <= c < |es| ==> !Free(es[c]))
    && (forall c {:trigger IsVictim(q, es, EMPTY, last, c)} ::
          0 <= c < |es| && IsVictim(q, es, EMPTY, last, c) ==> es[c].dirty && !written)
  }

  lemma NoneElse(q: seq<nat>, es: seq<Slot>, last: map<nat, nat>, clock: nat, r: int, written: bool)
    requires Recent(q, last, clock) && EMPTY <= r < |es| && IsVictim(q, es, EMPTY, last, r)
    requires forall c :: 0 <= c < |es| ==> !Free(es[c])
    ensures NoRoom(q, es, last, written) <==> r < 0 || (es[r].dirty && !written)
  {
    forall c {:trigger IsVictim(q, es, EMPTY, last, c)} | 0 <= c < |es| && IsVictim(q, es, EMPTY, last, c)
      ensures r == c
    {
      if r >= 0 {
        VictimUnique(q, es, last, clock, r, c);
      }
    }
  }

  /** The block of an access is not in the cache. */
  ghost predicate Missed(q: seq<nat>, es: seq<Slot>, w: Where) {
    match w
    case Nowhere => true
    case Buffer(_) => false
    case Page(a) => forall c :: c in q && c < |es| ==> es[c].addr != Some(a)
  }

  /** Buffer c is made ready for a new block: a free one stays as it is, any other one leaves the
      queue and is blank. */
  ghost predicate Drawn(q: seq<nat>, es: seq<Slot>, q2: seq<nat>, fs: seq<Slot>, c: nat) {
    && c < |es| == |fs|
    && if Free(es[c]) then q2 == q && fs == es else q2 == Without(q, c) && fs[c] == BLANK && Only(es, fs, c)
  }

  /** What protects a buffer from eviction: an access leaves it as it was, but that a write counts the
      cached children anew. A buffer taken away from another block has nothing of it left. */
  predicate KeepsPins(e: Slot, f: Slot, hit: bool, isWrite: bool) {
    var was := if hit || Free(e) then e else BLANK;
    f.leaf == was.leaf && (!isWrite ==> f.refs == was.refs)
  }

  /** An access to a dirty buffer. */
  function Rewritten(e: Slot, buf: Block, tid: int, isWrite: bool, kids: nat): Slot {
    var f := e.(more := EMPTY, less := EMPTY, tid := tid);
    if isWrite then f.(data := buf, refs := kids) else f
  }

  /** An access to a clean or new buffer. */
  function Accessed(e: Slot, w: Where, buf: Block, tid: int, isWrite: bool, kids: nat): Slot {
    var f := e.(addr := match w { case Buffer(_) => e.addr case Nowhere => None case Page(a) => Some(a) });
    var g := Rewritten(f, buf, tid, isWrite, kids);
    if isWrite then g.(dirty := true) else g
  }

  lemma WithoutTwice(q: seq<nat>, c: nat)
    requires Distinct(q)
    ensures Without(Without(q, c), c) == Without(q, c)
  {
    WithoutIs(q, c);
  }

  lemma OnlyTwice(es: seq<Slot>, fs: seq<Slot>, gs: seq<Slot>, c: nat)
    requires Only(es, fs, c) && Only(fs, gs, c)
    ensures Only(es, gs, c)
  {
  }

  datatype Outcome = Success | IllegalCid | NonzeroRefCount | FreeingDirty | WriteFailed | NoBuffer | Io

  class Cache {
    const slots: array<Slot>
    var mru: int
    var lru: int
    var dirtyCount: int
    /** The buffers in use, most recent first; when each was last accessed. */
    ghost var q: seq<nat>
    ghost var last: map<nat, nat>
    ghost var clock: nat

    ghost predicate Chained()
      reads this, slots
    {
      Linked(q, slots[..], mru, lru) && Recent(q, last, clock)
    }

    ghost predicate Valid()
      reads this, slots
    {
      Chained() && Queued(q, slots[..]) && dirtyCount == CountDirty(slots[..])
    }

    /** cache_init_lru_q */
    constructor (n: nat)
      ensures Valid() && fresh(slots) && slots.Length == n && q == []
      ensures forall c :: 0 <= c < n ==> slots[c] == BLANK
    {
      slots := new Slot[n](_ => BLANK);
      mru, lru, dirtyCount, q, last, clock := EMPTY, EMPTY, 0, [], map[], 0;
      new;
      CountNone(slots[..]);
      forall d | 0 <= d < n ensures Loose([], slots[..], d) {}
    }

    /** cache_remove_from_lru */
    method RemoveFromLru(cid: nat)
      requires Chained() && cid < slots.Length
      modifies slots, `mru, `lru, `q
      ensures Chained() && q == Without(old(q), cid) && cid !in q
      ensures slots[..] == Unlink(old(slots[..]), cid) && SameButLinks(old(slots[..]), slots[..])
    {
      ghost var es := slots[..];
      RemoveKeeps(q, es, mru, lru, cid);
      RecentWithout(q, last, clock, cid);
      RemoveEnds(q, es, mru, lru, cid);
      hide Linked, Without, Recent, SameButLinks;
      var m, l := slots[cid].more, slots[cid].less;
      if m != EMPTY {
        slots[m] := slots[m].(less := l);
      }
      if l != EMPTY {
        slots[l] := slots[l].(more := m);
      }
      if lru == cid {
        lru := if l == EMPTY then m else l;
      }
      if mru == cid {
        mru := if m == EMPTY then l else m;
      }
      slots[cid] := slots[cid].(more := EMPTY, less := EMPTY);
      assert slots[..] == Unlink(es, cid);
      q := Without(q, cid);
    }

    /** cache_insert_to_lru: the access makes the buffer the most recent. */
    method InsertToLru(cid: nat) returns (ok: bool)
      requires Chained() && cid < slots.Length && cid !in q
      modifies slots, `mru, `lru, `q, `last, `clock
      ensures ok && Chained() && q == [cid] + old(q) && last == old(last)[cid := old(clock)] && clock == old(clock) + 1
      ensures SameButLinks(old(slots[..]), slots[..])
    {
      ghost var es := slots[..];
      Pushes(q, es, mru, lru, cid);
      RecentAccess(q, last, clock, cid);
      FirstHasNone(q, es, mru, lru);
      hide Linked, Recent, SameButLinks;
      q, last, clock := [cid] + q, last[cid := clock], clock + 1;
      if mru == EMPTY {
        mru, lru := cid, cid;
        return true;
      }
      if slots[mru].more != EMPTY {
        return false;
      }
      slots[cid] := slots[cid].(less := mru);
      slots[mru] := slots[mru].(more := cid);
      assert slots[..] == Push(es, mru, cid);
      mru := cid;
      ok := true;
    }
  
    /** A buffer leaves the list and becomes free. */
    method Recycle(cid: nat)
      requires Valid() && cid < slots.Length
      modifies slots, `mru, `lru, `dirtyCount, `q
      ensures Valid() && q == Without(old(q), cid)
      ensures slots[cid] == BLANK && Only(old(slots[..]), slots[..], cid)
    {
      ghost var es, q0 := slots[..], q;
      hide Linked, Unlink, Without, Recent, CountDirty, Queued;
      if slots[cid].dirty {
        dirtyCount := dirtyCount - 1;
      }
      RemoveFromLru(cid);
      ghost var fs := slots[..];
      SetOutside(q, fs, mru, lru, cid, BLANK);
      slots[cid] := BLANK;
      assert slots[..] == fs[cid := BLANK];
      OnlySame(es, fs, slots[..], cid);
      OnlyCount(es, slots[..], cid);
      LinkedDistinct(q0, es, old(mru), old(lru));
      SameQueued(q0, es, slots[..], cid);
    }

    /** cache_get_cid_by_real_addr */
    method GetCidByRealAddr(a: LogAddr) returns (r: int)
      requires Valid()
      ensures r == EMPTY || (r in q && 0 <= r < slots.Length && slots[r].addr == Some(a))
      ensures r == EMPTY ==> forall c :: c in q ==> c < slots.Length && slots[c].addr != Some(a)
    {
      hide Distinct, Loose, Recent, CountDirty, Queued;
      r := mru;
      ghost var i := 0;
      while r != EMPTY
        invariant 0 <= i <= |q| && r == At(q, i)
        invariant forall j :: 0 <= j < i ==> q[j] < slots.Length && slots[q[j]].addr != Some(a)
        decreases |q| - i
      {
        assert LinkAt(q, slots[..], i);
        if slots[r].addr == Some(a) {
          return;
        }
        r, i := slots[r].less, i + 1;
      }
    }

    /** cache_get_lru_cid */
    method GetLruCid(except: int) returns (r: int)
      requires Valid()
      ensures EMPTY <= r < slots.Length && IsVictim(q, slots[..], except, last, r)
    {
      hide Distinct, Loose, CountDirty, Queued;
      if lru == EMPTY {
        return EMPTY;
      }
      r := lru;
      ghost var i := |q| - 1;
      assert LinkAt(q, slots[..], i);
      while slots[r].refs > 0 || except == r || slots[r].leaf
        invariant 0 <= i < |q| && r == q[i] && r < slots.Length
        invariant forall j :: i < j < |q| && q[j] < slots.Length ==> !Evictable(slots[q[j]]) || q[j] == except
        decreases i
      {
        assert LinkAt(q, slots[..], i);
        r := slots[r].more;
        if r == EMPTY {
          break;
        }
        i := i - 1;
        assert LinkAt(q, slots[..], i);
      }
    }
  
    /** cache_flush_cache; written says whether a page for a dirty buffer could be written. */
    method FlushCache(cid: nat, written: bool) returns (res: Outcome)
      requires Valid()
      modifies slots, `mru, `lru, `dirtyCount, `q
      ensures Valid()
      ensures res == if cid >= slots.Length then IllegalCid
                     else if old(slots[cid].refs) > 0 then NonzeroRefCount
                     else if old(slots[cid].dirty) && !written then WriteFailed
                     else Success
      ensures res == Success && !Free(old(slots[cid])) ==>
        q == Without(old(q), cid) && slots[cid] == BLANK && Only(old(slots[..]), slots[..], cid)
      ensures res != Success || Free(old(slots[cid])) ==> q == old(q) && slots[..] == old(slots[..])
    {
      hide Linked, Without, Recent, CountDirty, Queued, Only;
      if cid >= slots.Length {
        return IllegalCid;
      }
      if slots[cid].refs > 0 {
        return NonzeroRefCount;
      }
      if Free(slots[cid]) {
        return Success;
      }
      if slots[cid].dirty && !written {
        return WriteFailed;
      }
      Recycle(cid);
      res := Success;
    }

    /** cache_get_free_cache_id: a free buffer if there is one, and otherwise the least
        recent one that may be evicted. */
    method GetFreeCacheId(written: bool) returns (r: int)
      requires Valid()
      modifies slots, `mru, `lru, `dirtyCount, `q
      ensures Valid() && EMPTY <= r < slots.Length
      ensures r < 0 <==> NoRoom(old(q), old(slots[..]), last, written)
      ensures if r < 0 then q == old(q) && slots[..] == old(slots[..])
              else Fresh(old(q), old(slots[..]), last, r) && Drawn(old(q), old(slots[..]), q, slots[..], r)
    {
      hide Linked, Without, Recent, CountDirty, Queued, Only;
      var i := 0;
      while i < slots.Length
        invariant i <= slots.Length && forall c :: 0 <= c < i ==> !Free(slots[c])
      {
        if Free(slots[i]) {
          return i;
        }
        i := i + 1;
      }
      r := GetLruCid(EMPTY);
      NoneElse(q, slots[..], last, clock, r, written);
      if r == EMPTY {
        return;
      }
      var res := FlushCache(r, written);
      if res != Success {
        r := EMPTY;
      }
    }

    /** cache_free_by_real_addr */
    method FreeByRealAddr(a: LogAddr) returns (res: Outcome, ghost c: int)
      requires Valid()
      modifies slots, `mru, `lru, `dirtyCount, `q
      ensures Valid() && EMPTY <= c < slots.Length
      ensures if c < 0 then Missed(old(q), old(slots[..]), Page(a)) else c in old(q) && old(slots[..])[c].addr == Some(a)
      ensures res == if c >= 0 && old(slots[..])[c].dirty then FreeingDirty else Success
      ensures if res == Success && c >= 0 then q == Without(old(q), c) && slots[c] == BLANK && Only(old(slots[..]), slots[..], c)
              else q == old(q) && slots[..] == old(slots[..])
    {
      hide Linked, Recent, CountDirty, Queued, Only, Without;
      var cid := GetCidByRealAddr(a);
      c := cid;
      if cid == EMPTY {
        res := Success;
        return;
      }
      if slots[cid].dirty {
        res := FreeingDirty;
        return;
      }
      Recycle(cid);
      res := Success;
    }

    /** cache_init_tid_related */
    method InitTidRelated(tid: int)
      requires Valid() && tid != EMPTY
      modifies slots, `mru, `lru, `dirtyCount, `q
      ensures Valid()
      ensures forall c :: 0 <= c < slots.Length ==>
        if old(slots[..])[c].tid == tid then slots[c] == BLANK && c !in q
        else SameButOwnLinks(slots[c], old(slots[..])[c]) && (c in q <==> c in old(q))
    {
      ghost var es, q0 := slots[..], q;
      var i := 0;
      while i < slots.Length
        invariant i <= slots.Length && Valid()
        invariant forall c :: 0 <= c < slots.Length ==>
          if c < i && es[c].tid == tid then SameButOwnLinks(slots[c], BLANK) && c !in q
          else SameButOwnLinks(slots[c], es[c]) && (c in q <==> c in q0)
      {
        hide Linked, Recent, CountDirty, Queued, Without;
        if slots[i].tid == tid {
          LinkedDistinct(q, slots[..], mru, lru);
          WithoutIs(q, i);
          Recycle(i);
        }
        i := i + 1;
      }
      forall c | 0 <= c < slots.Length && c !in q ensures slots[c].more == EMPTY && slots[c].less == EMPTY {
        LooseIs(q, slots[..], c);
      }
    }
  
    /** The buffer an access is about to use: the one the address names, else the one that
        holds the page, else none. */
    method Lookup(w: Where) returns (r: int)
      requires Valid() && (w.Buffer? ==> w.cid < slots.Length)
      ensures EMPTY <= r < slots.Length
      ensures w.Buffer? ==> r == w.cid
      ensures w.Nowhere? ==> r == EMPTY
      ensures w.Page? && r >= 0 ==> r in q && slots[r].addr == Some(w.a)
      ensures w.Page? && r < 0 ==> forall c :: c in q ==> c < slots.Length && slots[c].addr != Some(w.a)
    {
      match w
      case Buffer(cid) => r := cid;
      case Nowhere => r := EMPTY;
      case Page(a) => r := GetCidByRealAddr(a);
    }

    /** Takes the buffer out of the list and puts it back as the most recent one. */
    method Touch(cid: nat) returns (ok: bool)
      requires Chained() && cid < slots.Length
      modifies slots, `mru, `lru, `q, `last, `clock
      ensures ok && Chained() && q == [cid] + Without(old(q), cid) && last == old(last)[cid := old(clock)] && clock == old(clock) + 1
      ensures SameButLinks(old(slots[..]), slots[..])
    {
      ghost var es := slots[..];
      RemoveFromLru(cid);
      ghost var fs := slots[..];
      ok := InsertToLru(cid);
      assert SameButLinks(es, fs) && SameButLinks(fs, slots[..]);
    }

    /** The end of an access: the buffer is the most recent and holds e. */
    method Settle(cid: nat, e: Slot)
      requires Valid() && cid < slots.Length && e.more == EMPTY && e.less == EMPTY && (slots[cid].dirty ==> e.dirty)
      modifies slots, `mru, `lru, `dirtyCount, `q, `last, `clock
      ensures Valid() && q == [cid] + Without(old(q), cid) && last == old(last)[cid := old(clock)] && clock == old(clock) + 1
      ensures SameButOwnLinks(slots[cid], e) && Only(old(slots[..]), slots[..], cid)
    {
      ghost var es, q0 := slots[..], q;
      var ok := Touch(cid);
      ghost var fs := slots[..];
      hide Linked, Without, Recent, CountDirty, Queued;
      if e.dirty && !slots[cid].dirty {
        dirtyCount := dirtyCount + 1;
      }
      var f := e.(more := slots[cid].more, less := slots[cid].less);
      SetFields(q, fs, mru, lru, cid, f);
      slots[cid] := f;
      assert slots[..] == fs[cid := f];
      OnlySame(es, fs, slots[..], cid);
      OnlyCount(es, slots[..], cid);
      LinkedDistinct(q0, es, old(mru), old(lru));
      SameQueued(q0, es, slots[..], cid);
    }

    /** cache_access_cache: kids is the number of cached addresses in buf, page what flash holds
        at the address, if it can be read, and written as in FlushCache. */
    method Access(buf: Block, w: Where, tid: int, isWrite: bool, kids: nat, page: Option<Block>, written: bool)
      returns (res: Outcome, cid: int, content: Block)
      requires Valid() && (w.Buffer? ==> w.cid < slots.Length)
      modifies slots, `mru, `lru, `dirtyCount, `q, `last, `clock
      ensures Valid()
      ensures res == Success ==> 0 <= cid < slots.Length
      ensures res == Success ==> q == [cid] + Without(old(q), cid) && last == old(last)[cid := old(clock)]
      ensures res == Success ==> Only(old(slots[..]), slots[..], cid) && slots[cid].tid == tid && slots[cid].data == content
      ensures res == Success && isWrite ==> slots[cid].dirty && content == buf && slots[cid].refs == kids
      ensures res == Success && !isWrite && Hit(old(q), old(slots[..]), w, cid) ==>
        content == old(slots[..])[cid].data && slots[cid].dirty == old(slots[..])[cid].dirty
      ensures res == Success && !Hit(old(q), old(slots[..]), w, cid) ==>
        && Fresh(old(q), old(slots[..]), old(last), cid)
        && (!isWrite ==> Some(content) == page && !slots[cid].dirty)
      ensures res == Success ==> KeepsPins(old(slots[..])[cid], slots[cid], Hit(old(q), old(slots[..]), w, cid), isWrite)
      ensures res == Success ==>
        slots[cid].addr == (match w case Nowhere => None case Page(a) => Some(a) case Buffer(_) => old(slots[..])[cid].addr)
      ensures Missed(old(q), old(slots[..]), w) ==> (res == NoBuffer <==> NoRoom(old(q), old(slots[..]), old(last), written))
      ensures Missed(old(q), old(slots[..]), w) ==> (res == Io <==>
        !NoRoom(old(q), old(slots[..]), old(last), written) && !isWrite && page.None?)
      ensures !Missed(old(q), old(slots[..]), w) ==> res == Success && Hit(old(q), old(slots[..]), w, cid)
      ensures res == Success || res == NoBuffer || res == Io
      ensures res == NoBuffer ==> q == old(q) && slots[..] == old(slots[..]) && last == old(last)
      ensures res == Io ==> 0 <= cid && Fresh(old(q), old(slots[..]), old(last), cid) && last == old(last)
      ensures res == Io ==> cid >= 0 && Drawn(old(q), old(slots[..]), q, slots[..], cid)
    {
      hide Linked, Without, Recent, CountDirty, Queued;
      content := buf;
      cid := Lookup(w);
      ghost var es, q0 := slots[..], q;
      if cid == EMPTY {
        res, cid := AccessMiss(buf, w, tid, isWrite, kids, page, written);
        if res == Success && !isWrite {
          content := page.value;
        }
        return;
      }
      if !isWrite {
        content := slots[cid].data;
      }
      res := Success;
      if slots[cid].dirty {
        Settle(cid, Rewritten(slots[cid], buf, tid, isWrite, kids));
        return;
      }
      Settle(cid, Accessed(slots[cid], w, buf, tid, isWrite, kids));
    }

    method AccessMiss(buf: Block, w: Where, tid: int, isWrite: bool, kids: nat, page: Option<Block>, written: bool)
      returns (res: Outcome, cid: int)
      requires Valid() && !w.Buffer?
      modifies slots, `mru, `lru, `dirtyCount, `q, `last, `clock
      ensures Valid()
      ensures res == Success ==>
        && 0 <= cid < slots.Length && q == [cid] + Without(old(q), cid) && last == old(last)[cid := old(clock)]
        && Only(old(slots[..]), slots[..], cid) && slots[cid].tid == tid && Fresh(old(q), old(slots[..]), old(last), cid)
      ensures res == Success && isWrite ==> slots[cid].dirty && slots[cid].data == buf && slots[cid].refs == kids
      ensures res == Success ==> KeepsPins(old(slots[..])[cid], slots[cid], false, isWrite)
      ensures res == Success ==> slots[cid].addr == (if w.Page? then Some(w.a) else None)
      ensures res == Success && !isWrite ==> Some(slots[cid].data) == page && !slots[cid].dirty
      ensures res == NoBuffer <==> NoRoom(old(q), old(slots[..]), old(last), written)
      ensures res == Io <==> !NoRoom(old(q), old(slots[..]), old(last), written) && !isWrite && page.None?
      ensures res == Success || res == NoBuffer || res == Io
      ensures res == NoBuffer ==> q == old(q) && slots[..] == old(slots[..]) && last == old(last)
      ensures res == Io ==> 0 <= cid && Fresh(old(q), old(slots[..]), old(last), cid) && last == old(last)
      ensures res == Io ==> cid >= 0 && Drawn(old(q), old(slots[..]), q, slots[..], cid)
    {
      hide Linked, Without, Recent, CountDirty, Queued;
      ghost var es, q0 := slots[..], q;
      LinkedDistinct(q, slots[..], mru, lru);
      cid := GetFreeCacheId(written);
      if cid == EMPTY {
        return NoBuffer, cid;
      }
      if !isWrite && page.None? {
        return Io, cid;
      }
      ghost var fs, q1 := slots[..], q;
      WithoutTwice(q0, cid);
      var e := slots[cid].(data := if isWrite then slots[cid].data else page.value);
      Settle(cid, Accessed(e, w, buf, tid, isWrite, kids));
      OnlyTwice(es, fs, slots[..], cid);
      res := Success;
    }
  }
}

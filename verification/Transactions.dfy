/** A transaction on one file: copy-on-write of its index, votes for superseded
    pages, and the commit of its inode into inode0. */
module Transactions {
  import opened Flash
  import opened FsIndex
  import opened FsTree
  import opened FsCopy
  import opened TxLedger
  import opened TxFile
  import opened TxRebase

  /** Always true; stands for looking up a path. */
  predicate Walk(l: Loc) { true }

  lemma ExtendsOver(b: Blocks, b1: Blocks, b2: Blocks)
    requires Extends(b, b1) && Extends(b1, b2)
    ensures Extends(b, b2)
  {
  }

  /** There is always a fresh address. */
  lemma Beyond(s: set<LogAddr>) returns (n: nat)
    ensures forall a :: a in s ==> a.off < n
    decreases |s|
  {
    n := 0;
    if s != {} {
      var x :| x in s;
      n := Beyond(s - {x});
      if x.off >= n {
        n := x.off + 1;
      }
    }
  }

  /** A transaction that has not done anything yet. */
  ghost function FirstTx(b: Blocks, l: map<LogAddr, Ref>, tree: multiset<LogAddr>): Tx {
    Tx(b, l, None, [], [], tree, b, tree)
  }

  class Transaction {
    /** What the sequencing layer holds: the live pages and their prev links. */
    var blks: Blocks
    var links: map<LogAddr, Ref>
    /** The last page written, and the votes not yet written. */
    var prev: Ref
    var votsBuf: seq<LogAddr>
    /** The last inode written and the active block of its index. */
    var inoAddr: Ref
    var indirect: Blk
    var fileOffset: int
    var maxWritten: nat
    /** Directories and inode0 do not store empty blocks of addresses. */
    var sparse: bool
    var inode0: bool
    /** All pages written, newest first; the pages that are neither voted nor
        vote pages; those of them outside the file. */
    ghost var chain: seq<LogAddr>
    ghost var rest: multiset<LogAddr>
    ghost var rem: multiset<LogAddr>
    /** The pages when the transaction began, and those the root reached; both move when
        another transaction commits. */
    ghost var base: Blocks
    ghost var was: multiset<LogAddr>
    /** How many more pages the sequencing layer hands out before the flash is full, and how
        many it handed out and will hand out altogether. */
    var room: nat
    ghost const quota: nat

    ghost function Now(): Tx
      reads `blks, `links, `prev, `votsBuf, `chain, `rest, `base, `was
    {
      Tx(blks, links, prev, votsBuf, chain, rest, base, was)
    }

    ghost function TheFile(): File
      reads `inoAddr, `indirect, `fileOffset, `inode0, `rem
    {
      File(inoAddr, indirect, fileOffset, inode0, rem)
    }

    /** Every page handed out is a page of the transaction. */
    ghost predicate Metered()
      reads `chain, `room
    {
      |chain| + room == quota
    }

    /** What can still be written: a page takes REFS_PER_BLOCK of it, a vote takes one, so that the
        page that a full buffer of votes becomes is paid for by its votes. */
    ghost function Credit(): int
      reads `votsBuf, `room
    {
      REFS_PER_BLOCK * room + (REFS_PER_BLOCK - 1 - |votsBuf|)
    }

    /** Room for so many pages and the pages that so many votes fill. */
    static lemma CreditIs(room: nat, buffered: nat, pages: nat, votes: nat)
      requires buffered < REFS_PER_BLOCK
      ensures REFS_PER_BLOCK * room + (REFS_PER_BLOCK - 1 - buffered) >= REFS_PER_BLOCK * pages + votes
         <==> room >= pages + (buffered + votes) / REFS_PER_BLOCK
    {
    }

    ghost predicate Valid()
      reads `blks, `links, `prev, `votsBuf, `chain, `rest, `base, `was, `room
    {
      Books(Now()) && Metered() && BlocksOk(blks) && |votsBuf| < REFS_PER_BLOCK
    }

    // ----- writing pages

    /** allocAndWriteBlockTid_actualWrite: the allocator answers with an address
        that is not live; it fails exactly when the flash is full. */
    method AllocAndWrite(b: Blk) returns (ok: bool, a: LogAddr)
      requires Valid() && !b.Vots? && BlkOk(b)
      modifies `blks, `links, `prev, `chain, `rest, `room
      ensures Valid() && Grew(old(Now()), Now())
      ensures ok <==> old(room) > 0
      ensures ok ==> a !in old(blks) && blks == old(blks)[a := b] && rest == old(rest) + multiset{a}
      ensures ok ==> prev == Some(a) && links == old(links)[a := old(prev)] && room == old(room) - 1
      ensures !ok ==> Now() == old(Now()) && room == 0
      ensures old(Credit()) >= REFS_PER_BLOCK ==> ok
      ensures ok ==> Credit() == old(Credit()) - REFS_PER_BLOCK
    {
      hide Books, Grew, BlocksOk;
      GrewSame(Now());
      ok, a := NewAddress();
      if ok {
        WroteOk(Now(), a, b);
        WroteGrew(Now(), a, b);
        blks, links, chain, rest := blks[a := b], links[a := prev], [a] + chain, rest + multiset{a};
        prev, room := Some(a), room - 1;
      }
    }

    method NewAddress() returns (ok: bool, a: LogAddr)
      ensures ok <==> room > 0
      ensures ok ==> a !in blks
    {
      a := *;
      ok := room > 0;
      if ok {
        ghost var n := Beyond(blks.Keys);
        assert LogAddr(0, n) !in blks;
        a :| a !in blks;
      }
    }

    method FlushVotes() returns (ok: bool)
      requires Books(Now()) && Metered() && BlocksOk(blks)
      modifies `blks, `links, `prev, `votsBuf, `chain, `room
      ensures Books(Now()) && Metered() && BlocksOk(blks) && Grew(old(Now()), Now())
      ensures ok <==> old(room) > 0
      ensures ok ==> votsBuf == [] && rest == old(rest) && room == old(room) - 1
      ensures ok ==> prev.Some? && prev.value !in old(blks) && blks == old(blks)[prev.value := Vots(old(votsBuf))]
      ensures ok ==> links == old(links)[prev.value := old(prev)]
      ensures !ok ==> Now() == old(Now()) && room == 0
    {
      hide Books, Grew, BlocksOk;
      GrewSame(Now());
      var a;
      ok, a := NewAddress();
      if ok {
        FlushedOk(Now(), a);
        FlushedGrew(Now(), a);
        blks, links, chain := blks[a := Vots(votsBuf)], links[a := prev], [a] + chain;
        prev, votsBuf, room := Some(a), [], room - 1;
      }
    }

    method AlreadyVoted(x: LogAddr) returns (dup: bool)
      ensures dup <==> x in votsBuf
    {
      for i := 0 to |votsBuf|
        invariant x !in votsBuf[..i]
      {
        if votsBuf[i] == x {
          return true;
        }
      }
      return false;
    }

    /** No page has been written. */
    twostate predicate SameFlash()
      reads `blks, `links, `prev, `room
    {
      blks == old(blks) && links == old(links) && prev == old(prev) && room == old(room)
    }

    /** One page has been written, linked to the one before. */
    twostate predicate OnePage(new p: Blk)
      reads `blks, `links, `prev, `room
    {
      && prev.Some? && prev.value !in old(blks) && blks == old(blks)[prev.value := p]
      && links == old(links)[prev.value := old(prev)] && room == old(room) - 1
    }

    /** A vote waits in the buffer, and only when it fills the buffer a page is written, with all of
        it. */
    twostate predicate Buffered(new r: Ref, ok: bool)
      reads `blks, `links, `prev, `room, `votsBuf
    {
      if r.None? then ok && SameFlash() && votsBuf == old(votsBuf)
      else
        var votes := old(votsBuf) + [r.value];
        if |votes| < REFS_PER_BLOCK then ok && SameFlash() && votsBuf == votes
        else (ok <==> old(room) > 0) && (ok ==> votsBuf == [] && OnePage(Vots(votes)))
    }

    /** A block of addresses is a page, but one without any is left out of a directory and inode0. */
    twostate predicate Filed(new refs: seq<Ref>, new r: Ref, ok: bool)
      reads `blks, `links, `prev, `room, `votsBuf, `sparse
    {
      && votsBuf == old(votsBuf)
      && if sparse && forall i :: 0 <= i < |refs| ==> refs[i] == None then ok && r.None? && SameFlash()
         else (ok <==> old(room) > 0) && (ok ==> r == prev && OnePage(Entries(refs)))
    }

    /** writeVot: x will be obsoleted when the transaction commits. A page is
        only ever voted while it is current, so the search for a duplicate
        never succeeds. */
    method WriteVot(r: Ref) returns (ok: bool)
      requires Valid() && Opt(r) <= rest
      modifies `blks, `links, `prev, `votsBuf, `chain, `room, `rest
      ensures !ok ==> room == 0
      ensures Books(Now()) && Metered() && BlocksOk(blks) && Grew(old(Now()), Now())
      ensures ok ==> Valid() && rest == old(rest) - Opt(r)
      ensures old(Credit()) >= 1 ==> ok
      ensures ok ==> Credit() == old(Credit()) - if r.Some? then 1 else 0
      ensures Buffered(r, ok)
    {
      if r.None? {
        return true;
      }
      assert r.value in Opt(r);
      RestWithin(Now(), r.value);
      var dup := AlreadyVoted(r.value);
      if dup {
        assert false;
      }
      ok := AddVot(r.value);
    }

    method AddVot(x: LogAddr) returns (ok: bool)
      requires Valid() && x in rest
      modifies `blks, `links, `prev, `votsBuf, `chain, `room, `rest
      ensures !ok ==> room == 0
      ensures Books(Now()) && Metered() && BlocksOk(blks) && Grew(old(Now()), Now())
      ensures ok ==> Valid() && rest == old(rest) - multiset{x}
      ensures old(Credit()) >= 1 ==> ok
      ensures ok ==> Credit() == old(Credit()) - 1
      ensures Buffered(Some(x), ok)
    {
      VotedOk(Now(), x);
      votsBuf := votsBuf + [x];
      rest := rest - multiset{x};
      ok := true;
      if |votsBuf| == REFS_PER_BLOCK {
        ok := FlushVotes();
      }
    }

    // ----- blocks of addresses

    static method AllEmpty(refs: seq<Ref>) returns (e: bool)
      ensures e <==> forall i :: 0 <= i < |refs| ==> refs[i] == None
    {
      for i := 0 to |refs|
        invariant forall k :: 0 <= k < i ==> refs[k] == None
      {
        if refs[i].Some? {
          return false;
        }
      }
      return true;
    }

    /** allocAndWriteBlockTid on a block of addresses: in a directory or inode0
        an empty block is not stored. Either way it reads back as written. */
    method WriteEntries(refs: seq<Ref>) returns (ok: bool, r: Ref)
      requires Valid() && |refs| == REFS_PER_BLOCK
      modifies `blks, `links, `prev, `chain, `room, `rest
      ensures !ok ==> room == 0
      ensures Valid() && Grew(old(Now()), Now())
      ensures ok ==> RefsAt(blks, r) == refs && rest == old(rest) + Opt(r)
      ensures Filed(refs, r, ok)
      ensures old(Credit()) >= REFS_PER_BLOCK ==> ok
      ensures ok ==> Credit() == old(Credit()) - if r.Some? then REFS_PER_BLOCK else 0
      ensures ok && r.Some? ==> r.value in blks && r.value !in old(blks)
    {
      if sparse {
        var empty := AllEmpty(refs);
        if empty {
          return true, None;
        }
      }
      var a;
      ok, a := AllocAndWrite(Entries(refs));
      r := Some(a);
    }

    // ----- commitInode

    /** The blocks of addresses on the way to an offset. */
    static function Depth(off: nat): nat {
      if off < INDIRECT_OFFSET then 0 else if off < 71103 then 1 else if off < 8459711 then 2 else 3
    }

    static lemma ActiveDepth(off: nat, fileOffset: int)
      requires InActive(off, fileOffset) && (fileOffset == 0 || (fileOffset >= INDIRECT_OFFSET && IndirectStart(fileOffset) == fileOffset))
      ensures 0 <= fileOffset && Depth(off) == Depth(fileOffset)
    {
    }

    /** What commitInode takes: a page and a vote for the inode and for each block of addresses. */
    static function PathCost(off: int): nat {
      if off < 0 then 0 else (REFS_PER_BLOCK + 1) * (1 + Depth(off))
    }

    /** The pages o have been given up and the pages n gained. */
    static ghost predicate Exchanged(r0: multiset<LogAddr>, r: multiset<LogAddr>, o: multiset<LogAddr>, n: multiset<LogAddr>) {
      forall a {:trigger Any(a)} :: Any(a) ==> r[a] + o[a] == r0[a] + n[a]
    }

    static lemma ExchangedIs(r0: multiset<LogAddr>, r: multiset<LogAddr>, o: multiset<LogAddr>, n: multiset<LogAddr>)
      requires Exchanged(r0, r, o, n)
      ensures r + o == r0 + n
    {
      forall a ensures (r + o)[a] == (r0 + n)[a] { assert Any(a); }
    }

    static lemma OneForOne(r0: multiset<LogAddr>, r: multiset<LogAddr>, o: multiset<LogAddr>, n: multiset<LogAddr>)
      requires o <= r0 && r == r0 + n - o
      ensures Exchanged(r0, r, o, n)
    {
      forall a ensures r[a] + o[a] == r0[a] + n[a] { assert o[a] <= r0[a]; }
    }

    lemma InUse(r: Ref)
      requires Valid() && Opt(r) <= rest
      ensures r.Some? ==> r.value in blks
    {
      if r.Some? {
        assert r.value in Opt(r);
        RestWithin(Now(), r.value);
      }
    }

    /** The active block hangs off the inode. */
    method CommitIndirect(ino: Inode) returns (ok: bool, copy: Inode)
      requires Valid() && ino.Ok() && indirect.Entries? && |indirect.refs| == REFS_PER_BLOCK
      requires 0 <= fileOffset && Locate(fileOffset).Indirect? && Locate(fileOffset).Ok()
      requires PathPages(blks, ino, Locate(fileOffset)) <= rest
      modifies `blks, `links, `prev, `votsBuf, `chain, `room, `rest
      ensures !ok ==> room == 0
      ensures old(Credit()) >= REFS_PER_BLOCK + 1 ==> ok
      ensures ok ==> Credit() >= old(Credit()) - (REFS_PER_BLOCK + 1)
      ensures Books(Now()) && Metered() && BlocksOk(blks) && Grew(old(Now()), Now())
      ensures ok ==> Valid() && copy.Ok() && CopiedPath(old(blks), ino, Locate(fileOffset), indirect.refs, blks, copy)
      ensures ok ==> Within(PathPages(blks, copy, Locate(fileOffset)), blks)
      ensures ok ==> Exchanged(old(rest), rest, PathPages(old(blks), ino, Locate(fileOffset)), PathPages(blks, copy, Locate(fileOffset)))
    {
      hide Buffered, Filed, CopiedPath, PathPages, Exchanged, Books, BlocksOk, Extends, Grew, Locate, InodePages, RefsAt, Within;
      copy := ino;
      ghost var t0, b0, r0, l := Now(), blks, rest, Locate(fileOffset);
      IndirectPath(b0, ino, l);
      var r;
      ok, r := WriteEntries(indirect.refs);
      if !ok { return; }
      ghost var t1, b, r1 := Now(), blks, rest;
      StillCurrent(r0, r1, Opt(ino.indirect), Opt(r));
      ok := WriteVot(ino.indirect);
      GrewOver(t0, t1, Now());
      if !ok { return; }
      copy := ino.(indirect := r);
      IndirectDone(b0, r0, b, r1, blks, rest, ino, l, indirect.refs, r);
    }

    static lemma KeptData(b: Blocks, b': Blocks, r: Ref)
      requires Extends(b, b')
      ensures r.Some? && r.value in b ==> r.value in b' && b'[r.value] == b[r.value]
    {
    }

    static lemma IndirectPath(b: Blocks, ino: Inode, l: Loc)
      requires BlocksOk(b) && ino.Ok() && l.Ok() && l.Indirect?
      ensures PathPages(b, ino, l) == Opt(ino.indirect)
    {
    }

    static lemma StillCurrent(r0: multiset<LogAddr>, r1: multiset<LogAddr>, o: multiset<LogAddr>, n: multiset<LogAddr>)
      requires o <= r0 && r1 == r0 + n
      ensures o <= r1
    {
    }

    static lemma IndirectDone(b0: Blocks, r0: multiset<LogAddr>, b1: Blocks, r1: multiset<LogAddr>, b2: Blocks, r2: multiset<LogAddr>,
                              ino: Inode, l: Loc, buf: seq<Ref>, r: Ref)
      requires BlocksOk(b0) && BlocksOk(b1) && BlocksOk(b2) && Extends(b0, b1) && Extends(b1, b2)
      requires ino.Ok() && l.Ok() && l.Indirect? && |buf| == REFS_PER_BLOCK && Opt(ino.indirect) <= r0
      requires RefsAt(b1, r) == buf && (r.Some? ==> r.value in b1 && r.value !in b0)
      requires r1 == r0 + Opt(r) && r2 == r1 - Opt(ino.indirect)
      ensures var copy := ino.(indirect := r);
              && CopiedPath(b0, ino, l, buf, b2, copy)
              && Within(PathPages(b2, copy, l), b2)
              && Exchanged(r0, r2, PathPages(b0, ino, l), PathPages(b2, copy, l))
    {
      RefsKept(b1, b2, r);
      OneForOne(r0, r2, Opt(ino.indirect), Opt(r));
    }

    /** The block at dbl has been rewritten at copy, with the buffer at entry j. */
    static ghost predicate Below(b: Blocks, r0: multiset<LogAddr>, dbl: Ref, j: nat, buf: seq<Ref>,
                                 b1: Blocks, r1: multiset<LogAddr>, copy: Ref)
      requires BlocksOk(b) && j < REFS_PER_BLOCK
    {
      forall c: Ref {:trigger Reached(c)} :: Reached(c) && c == copy ==>
        && RewrittenBlock(b, dbl, j, b1, c)
        && RefsAt(b1, RefsAt(b1, c)[j]) == buf
        && Within(Opt(c) + Opt(RefsAt(b1, c)[j]), b1)
        && Exchanged(r0, r1, Opt(dbl) + Opt(RefAt(b, dbl, j)), Opt(c) + Opt(RefsAt(b1, c)[j]))
    }

    /** The same one level higher. */
    static ghost predicate BelowTwo(b: Blocks, r0: multiset<LogAddr>, tri: Ref, k: nat, j: nat, buf: seq<Ref>,
                                    b1: Blocks, r1: multiset<LogAddr>, copy: Ref)
      requires BlocksOk(b) && k < REFS_PER_BLOCK && j < REFS_PER_BLOCK
    {
      forall c: Ref {:trigger Reached(c)} :: Reached(c) && c == copy ==>
        && RewrittenBlock(b, tri, k, b1, c)
        && RewrittenBlock(b, RefAt(b, tri, k), j, b1, RefsAt(b1, c)[k])
        && RefsAt(b1, RefsAt(b1, RefsAt(b1, c)[k])[j]) == buf
        && Within(Opt(c) + (Opt(RefsAt(b1, c)[k]) + Opt(RefsAt(b1, RefsAt(b1, c)[k])[j])), b1)
        && Exchanged(r0, r1, Opt(tri) + (Opt(RefAt(b, tri, k)) + Opt(RefAt(b, RefAt(b, tri, k), j))),
                     Opt(c) + (Opt(RefsAt(b1, c)[k]) + Opt(RefsAt(b1, RefsAt(b1, c)[k])[j])))
    }

    /** The active block hangs off a block at dbl, at entry j. */
    method CommitBelow(dbl: Ref, j: nat) returns (ok: bool, copy: Ref)
      requires Valid() && j < REFS_PER_BLOCK && indirect.Entries? && |indirect.refs| == REFS_PER_BLOCK
      requires Opt(dbl) + Opt(RefAt(blks, dbl, j)) <= rest
      modifies `blks, `links, `prev, `votsBuf, `chain, `room, `rest
      ensures !ok ==> room == 0
      ensures old(Credit()) >= 2 * (REFS_PER_BLOCK + 1) ==> ok
      ensures ok ==> Credit() >= old(Credit()) - (2 * (REFS_PER_BLOCK + 1))
      ensures Books(Now()) && Metered() && BlocksOk(blks) && Grew(old(Now()), Now())
      ensures ok ==> Valid() && Below(old(blks), old(rest), dbl, j, indirect.refs, blks, rest, copy)
    {
      hide Buffered, Filed, Books, Grew, Below, BlocksOk, Extends, Once, Opt, RefsAt, Within, Exchanged;
      copy := None;
      ghost var t0 := Now();
      RefsAtLength(blks, dbl);
      InUse(dbl);
      ghost var r0, b0 := rest, blks;
      var entries := RefsAt(blks, dbl);
      VoteLeaves(r0, Opt(dbl), Opt(entries[j]));
      ok := WriteVot(dbl);
      ghost var t1 := Now();
      GrewSame(t1);
      GrewOver(t0, t1, t1);
      if !ok { return; }
      var ind := entries[j];
      ok, ind := WriteEntries(indirect.refs);
      ghost var t2, b1 := Now(), blks;
      GrewOver(t0, t1, t2);
      if !ok { return; }
      VoteLater(r0, Opt(dbl), Opt(entries[j]), Opt(ind));
      ok := WriteVot(entries[j]);
      ghost var t3 := Now();
      GrewOver(t0, t2, t3);
      if !ok { return; }
      RefsKept(b0, blks, dbl);
      entries := RefsAt(blks, dbl);
      ghost var b2 := blks;
      ok, copy := WriteEntries(entries[j := ind]);
      GrewOver(t0, t3, Now());
      GrewOver(t2, t3, t3);
      GrewOver(t3, Now(), Now());
      if ok {
        GlueBelow(b0, r0, b1, b2, blks, rest, dbl, j, indirect.refs, ind, copy);
      }
    }

    static lemma VoteLater(r0: multiset<LogAddr>, d: multiset<LogAddr>, e: multiset<LogAddr>, i: multiset<LogAddr>)
      requires d + e <= r0
      ensures e <= r0 - d + i
    {
    }

    static lemma BelowSums(r0: multiset<LogAddr>, r: multiset<LogAddr>, d: multiset<LogAddr>, i: multiset<LogAddr>,
                           e: multiset<LogAddr>, c: multiset<LogAddr>)
      requires d + e <= r0 && r == r0 - d + i - e + c
      ensures Exchanged(r0, r, d + e, c + i)
    {
      forall a ensures r[a] + (d + e)[a] == r0[a] + (c + i)[a] { assert (d + e)[a] <= r0[a]; }
    }

    method CommitDouble(ino: Inode) returns (ok: bool, copy: Inode)
      requires Valid() && ino.Ok() && indirect.Entries? && |indirect.refs| == REFS_PER_BLOCK
      requires 0 <= fileOffset && Locate(fileOffset).Double? && Locate(fileOffset).Ok()
      requires PathPages(blks, ino, Locate(fileOffset)) <= rest
      modifies `blks, `links, `prev, `votsBuf, `chain, `room, `rest
      ensures !ok ==> room == 0
      ensures old(Credit()) >= 2 * (REFS_PER_BLOCK + 1) ==> ok
      ensures ok ==> Credit() >= old(Credit()) - (2 * (REFS_PER_BLOCK + 1))
      ensures Books(Now()) && Metered() && BlocksOk(blks) && Grew(old(Now()), Now())
      ensures ok ==> Valid() && copy.Ok() && CopiedPath(old(blks), ino, Locate(fileOffset), indirect.refs, blks, copy)
      ensures ok ==> Within(PathPages(blks, copy, Locate(fileOffset)), blks)
      ensures ok ==> Exchanged(old(rest), rest, PathPages(old(blks), ino, Locate(fileOffset)), PathPages(blks, copy, Locate(fileOffset)))
    {
      copy := ino;
      var r;
      ok, r := CommitBelow(ino.double, InIndirects(fileOffset - 71103));
      assert Reached(r);
      copy := ino.(double := r);
    }

    method CommitTriple(ino: Inode) returns (ok: bool, copy: Inode)
      requires Valid() && ino.Ok() && indirect.Entries? && |indirect.refs| == REFS_PER_BLOCK
      requires 0 <= fileOffset && Locate(fileOffset).Triple? && Locate(fileOffset).Ok()
      requires PathPages(blks, ino, Locate(fileOffset)) <= rest
      modifies `blks, `links, `prev, `votsBuf, `chain, `room, `rest
      ensures !ok ==> room == 0
      ensures old(Credit()) >= 3 * (REFS_PER_BLOCK + 1) ==> ok
      ensures ok ==> Credit() >= old(Credit()) - (3 * (REFS_PER_BLOCK + 1))
      ensures Books(Now()) && Metered() && BlocksOk(blks) && Grew(old(Now()), Now())
      ensures ok ==> Valid() && copy.Ok() && CopiedPath(old(blks), ino, Locate(fileOffset), indirect.refs, blks, copy)
      ensures ok ==> Within(PathPages(blks, copy, Locate(fileOffset)), blks)
      ensures ok ==> Exchanged(old(rest), rest, PathPages(old(blks), ino, Locate(fileOffset)), PathPages(blks, copy, Locate(fileOffset)))
    {
      copy := ino;
      var k := InDoubles(fileOffset - 8459711);
      var j := InIndirects(WithinDouble(fileOffset - 8459711));
      var tri;
      ok, tri := CommitBelowTwo(ino.triple, k, j);
      assert Reached(tri);
      copy := ino.(triple := tri);
    }

    static lemma VoteLeaves(r: multiset<LogAddr>, t: multiset<LogAddr>, d: multiset<LogAddr>)
      requires t + d <= r
      ensures d <= r - t
    {
    }

    static lemma TwoSums(r0: multiset<LogAddr>, r1: multiset<LogAddr>, r2: multiset<LogAddr>, r: multiset<LogAddr>,
                         t: multiset<LogAddr>, o: multiset<LogAddr>, n: multiset<LogAddr>, c: multiset<LogAddr>)
      requires t + o <= r0 && r1 == r0 - t && Exchanged(r1, r2, o, n) && r == r2 + c
      ensures Exchanged(r0, r, t + o, c + n)
    {
      forall a ensures r[a] + (t + o)[a] == r0[a] + (c + n)[a] { assert Any(a) && (t + o)[a] <= r0[a]; }
    }

    /** The active block hangs off a block at entry k of tri, at entry j. */
    method CommitBelowTwo(tri: Ref, k: nat, j: nat) returns (ok: bool, copy: Ref)
      requires Valid() && k < REFS_PER_BLOCK && j < REFS_PER_BLOCK
      requires indirect.Entries? && |indirect.refs| == REFS_PER_BLOCK
      requires Opt(tri) + (Opt(RefAt(blks, tri, k)) + Opt(RefAt(blks, RefAt(blks, tri, k), j))) <= rest
      modifies `blks, `links, `prev, `votsBuf, `chain, `room, `rest
      ensures !ok ==> room == 0
      ensures old(Credit()) >= 3 * (REFS_PER_BLOCK + 1) ==> ok
      ensures ok ==> Credit() >= old(Credit()) - (3 * (REFS_PER_BLOCK + 1))
      ensures Books(Now()) && Metered() && BlocksOk(blks) && Grew(old(Now()), Now())
      ensures ok ==> Valid() && BelowTwo(old(blks), old(rest), tri, k, j, indirect.refs, blks, rest, copy)
    {
      hide Buffered, Filed, Books, Grew, Below, BelowTwo, Once, BlocksOk, Extends, Opt, Within;
      copy := None;
      ghost var t0 := Now();
      RefsAtLength(blks, tri);
      InUse(tri);
      InUse(RefAt(blks, tri, k));
      ghost var r0, b0 := rest, blks;
      var entries := RefsAt(blks, tri);
      ok := WriteVot(tri);
      ghost var t1, r1, b1 := Now(), rest, blks;
      GrewSame(t1);
      GrewOver(t0, t1, t1);
      if !ok { return; }
      RefsKept(b0, b1, entries[k]);
      VoteLeaves(r0, Opt(tri), Opt(entries[k]) + Opt(RefAt(b0, entries[k], j)));
      var dbl;
      ok, dbl := CommitBelow(entries[k], j);
      ghost var t2, r2, b2 := Now(), rest, blks;
      GrewOver(t0, t1, t2);
      if !ok { return; }
      RefsKept(b0, b2, tri);
      RefsAtLength(b2, tri);
      entries := RefsAt(blks, tri);
      ok, copy := WriteEntries(entries[k := dbl]);
      GrewOver(t0, t2, Now());
      GrewOver(t1, t2, Now());
      if !ok { return; }
      GlueTwo(b0, r0, b1, r1, b2, r2, blks, rest, tri, k, j, indirect.refs, dbl, copy);
    }

    static lemma GlueTwo(b0: Blocks, r0: multiset<LogAddr>, b1: Blocks, r1: multiset<LogAddr>, b2: Blocks, r2: multiset<LogAddr>,
                         b3: Blocks, r3: multiset<LogAddr>, tri: Ref, k: nat, j: nat, buf: seq<Ref>, dbl: Ref, copy: Ref)
      requires BlocksOk(b0) && BlocksOk(b1) && BlocksOk(b2) && BlocksOk(b3)
      requires Extends(b0, b1) && Extends(b1, b2) && Extends(b2, b3) && k < REFS_PER_BLOCK && j < REFS_PER_BLOCK
      requires RefAt(b0, tri, k).Some? ==> RefAt(b0, tri, k).value in b0
      requires Below(b1, r1, RefAt(b0, tri, k), j, buf, b2, r2, dbl)
      requires RefsAt(b3, copy) == RefsAt(b0, tri)[k := dbl] && (copy.Some? ==> copy.value in b3)
      requires Opt(tri) + (Opt(RefAt(b0, tri, k)) + Opt(RefAt(b0, RefAt(b0, tri, k), j))) <= r0
      requires r1 == r0 - Opt(tri) && r3 == r2 + Opt(copy)
      ensures BelowTwo(b0, r0, tri, k, j, buf, b3, r3, copy)
    {
      var od, oi := RefAt(b0, tri, k), RefAt(b0, RefAt(b0, tri, k), j);
      var ni := LowerRefs(b0, b1, r1, b2, r2, b3, od, j, buf, dbl);
      assert RefsAt(b3, copy)[k] == dbl;
      WithinOpt(copy, Opt(dbl) + Opt(ni), b2, b3);
      TwoSums(r0, r1, r2, r3, Opt(tri), Opt(od) + Opt(oi), Opt(dbl) + Opt(ni), Opt(copy));
    }

    static lemma LowerRefs(b0: Blocks, b1: Blocks, r1: multiset<LogAddr>, b2: Blocks, r2: multiset<LogAddr>, b3: Blocks,
                           od: Ref, j: nat, buf: seq<Ref>, dbl: Ref)
      returns (ni: Ref)
      requires BlocksOk(b0) && BlocksOk(b1) && BlocksOk(b2) && BlocksOk(b3)
      requires Extends(b0, b1) && Extends(b1, b2) && Extends(b2, b3) && j < REFS_PER_BLOCK
      requires od.Some? ==> od.value in b0
      requires Below(b1, r1, od, j, buf, b2, r2, dbl)
      ensures RewrittenBlock(b0, od, j, b3, dbl) && ni == RefsAt(b3, dbl)[j] && RefsAt(b3, ni) == buf
      ensures Within(Opt(dbl) + Opt(ni), b2) && Exchanged(r1, r2, Opt(od) + Opt(RefAt(b0, od, j)), Opt(dbl) + Opt(ni))
    {
      assert Reached(dbl);
      ni := RefsAt(b2, dbl)[j];
      RefsKept(b0, b1, od);
      OptIn(dbl, Opt(dbl) + Opt(ni), b2);
      OptIn(ni, Opt(dbl) + Opt(ni), b2);
      RefsKept(b2, b3, dbl);
      RefsKept(b2, b3, ni);
    }

    static lemma WithinOpt(r: Ref, m: multiset<LogAddr>, b: Blocks, b': Blocks)
      requires (r.Some? ==> r.value in b') && Within(m, b) && Extends(b, b')
      ensures Within(Opt(r) + m, b')
    {
    }

    static lemma GlueBelow(b0: Blocks, r0: multiset<LogAddr>, b1: Blocks, b2: Blocks, b3: Blocks, r3: multiset<LogAddr>,
                           dbl: Ref, j: nat, buf: seq<Ref>, ind: Ref, copy: Ref)
      requires BlocksOk(b0) && Extends(b1, b2) && Extends(b2, b3) && j < REFS_PER_BLOCK && |RefsAt(b0, dbl)| == REFS_PER_BLOCK
      requires RefsAt(b1, ind) == buf && (ind.Some? ==> ind.value in b1)
      requires RefsAt(b3, copy) == RefsAt(b0, dbl)[j := ind] && (copy.Some? ==> copy.value in b3)
      requires Opt(dbl) + Opt(RefAt(b0, dbl, j)) <= r0
      requires r3 == r0 - Opt(dbl) + Opt(ind) - Opt(RefAt(b0, dbl, j)) + Opt(copy)
      ensures Below(b0, r0, dbl, j, buf, b3, r3, copy)
    {
      RefsKept(b1, b2, ind);
      RefsKept(b2, b3, ind);
      assert RefsAt(b3, copy)[j] == ind;
      WithinOpt(copy, Opt(ind), b2, b3);
      BelowSums(r0, r3, Opt(dbl), Opt(ind), Opt(RefAt(b0, dbl, j)), Opt(copy));
    }

    // ----- sizes

    /** changeFileSize: the size recorded when the inode is written. */
    static function NewSize(size: nat, offset: int, max: nat): nat {
      if max != 0 && offset + max > size then offset + max else size
    }

    /** The size that the next commit records covers the entries of the buffer. */
    static predicate Covers(f: File, max: nat) {
      && (f.offset == 0 && f.active.InodeBlk? ==> f.active.ino.(size := NewSize(f.active.ino.size, 0, max)).Sized())
      && (f.offset > 0 ==> max > 0)
    }

    /** Copying the active path adds entries only to the level whose range has been written. */
    static lemma CopySized(b: Blocks, ino: Inode, off: nat, buf: seq<Ref>, b1: Blocks, copy: Inode, max: nat)
      requires BlocksOk(b) && ino.Ok() && ino.Sized() && INDIRECT_OFFSET <= off && Locate(off).Ok() && max > 0
      requires CopiedPath(b, ino, Locate(off), buf, b1, copy)
      ensures copy.(size := NewSize(ino.size, off, max)).Sized()
    {
    }

    // ----- the whole of commitInode

    /** The inode the transaction currently works on. */
    static function Current(b: Blocks, f: File): Inode
      requires BlocksOk(b) && Shaped(b, f)
    {
      if f.offset == 0 then f.active.ino else InodeAt(b, f.ino)
    }

    /** The size the file will have once its inode is written. */
    static function SizeOf(b: Blocks, f: File, max: nat): nat
      requires BlocksOk(b) && Shaped(b, f)
    {
      if f.offset < 0 then Current(b, f).size else NewSize(Current(b, f).size, f.offset, max)
    }

    /** The inode on flash leads every path where the transaction saw it lead. */
    static ghost predicate SavedAs(b: Blocks, f: File, b': Blocks, a: Ref)
      requires BlocksOk(b) && BlocksOk(b') && Shaped(b, f) && IsInode(b', a)
    {
      forall l: Loc {:trigger Walk(l)} :: Walk(l) && l.Ok() ==> Resolve(b', InodeAt(b', a), l) == View(b, f, l)
    }

    /** What commitInode achieves: nothing is pending, the new inode leads every
        path where the transaction saw it lead, its size covers the bytes
        written, and the data inside the inode is kept. */
    static ghost predicate Committed(b: Blocks, f: File, max: nat, b': Blocks, r': multiset<LogAddr>, f': File)
      requires BlocksOk(b) && BlocksOk(b') && Shaped(b, f) && f.offset >= 0
    {
      && IsInode(b', f'.ino) && f' == f.(ino := f'.ino)
      && Rests(b', r', f')
      && SavedAs(b, f, b', f'.ino)
      && InodeAt(b', f'.ino).size == NewSize(Current(b, f).size, f.offset, max)
      && InodeAt(b', f'.ino).data == Current(b, f).data
    }

    lemma AllWithin()
      requires Valid()
      ensures Within(rest, blks)
    {
      forall x | x in rest ensures x in blks { RestWithin(Now(), x); }
    }

    method VoteAndWriteInode(ino: Inode) returns (ok: bool)
      requires Valid() && Opt(inoAddr) <= rest && ino.Ok() && ino.Sized()
      modifies `blks, `links, `prev, `votsBuf, `chain, `room, `rest, `inoAddr
      ensures !ok ==> room == 0
      ensures old(Credit()) >= REFS_PER_BLOCK + 1 ==> ok
      ensures ok ==> Credit() >= old(Credit()) - (REFS_PER_BLOCK + 1)
      ensures Books(Now()) && Metered() && BlocksOk(blks) && Grew(old(Now()), Now())
      ensures ok ==> Valid() && inoAddr.Some? && inoAddr.value in blks && blks[inoAddr.value] == InodeBlk(ino)
      ensures ok ==> Exchanged(old(rest), rest, Opt(old(inoAddr)), multiset{inoAddr.value})
    {
      hide Buffered, Filed, Books, Grew, BlocksOk, Extends, Opt, Exchanged;
      ghost var t0 := Now();
      ghost var r0, o := rest, Opt(inoAddr);
      ok := WriteVot(inoAddr);
      ghost var t1, r1 := Now(), rest;
      GrewSame(t1);
      GrewOver(t0, t1, t1);
      if !ok { return; }
      var a;
      ok, a := AllocAndWrite(InodeBlk(ino));
      GrewOver(t0, t1, Now());
      if !ok { return; }
      VoteThenWrite(r0, r1, rest, o, multiset{a});
      inoAddr := Some(a);
    }

    /** What the inode's page holds. */
    ghost predicate PageIs(p: Blk)
      reads `blks, `inoAddr
    {
      inoAddr.Some? && inoAddr.value in blks && blks[inoAddr.value] == p
    }

    /** commitInode, when the active buffer is the inode itself. */
    method CommitInline() returns (ok: bool)
      requires Valid() && Holds(blks, rest, TheFile()) && fileOffset == 0 && Covers(TheFile(), maxWritten)
      modifies `blks, `links, `prev, `votsBuf, `chain, `room, `rest, `inoAddr
      ensures !ok ==> room == 0
      ensures old(Credit()) >= PathCost(0) ==> ok
      ensures ok ==> Credit() >= old(Credit()) - (PathCost(0))
      ensures Books(Now()) && Metered() && BlocksOk(blks) && Grew(old(Now()), Now())
      ensures ok ==> Valid() && Committed(old(blks), old(TheFile()), maxWritten, blks, rest, TheFile())
      ensures ok ==> indirect.InodeBlk? && PageIs(InodeBlk(indirect.ino.(size := NewSize(indirect.ino.size, 0, maxWritten))))
    {
      ghost var b, r0, f := blks, rest, TheFile();
      InlineInRest(b, r0, f);
      var ino := indirect.ino.(size := NewSize(indirect.ino.size, 0, maxWritten));
      ok := VoteAndWriteInode(ino);
      if ok {
        SavedInline(b, r0, f, maxWritten, blks, rest, inoAddr);
        assert TheFile() == f.(ino := inoAddr);
      }
    }

    static lemma SavedInline(b: Blocks, rest: multiset<LogAddr>, f: File, max: nat, b': Blocks, rest': multiset<LogAddr>, a: Ref)
      requires Holds(b, rest, f) && f.offset == 0 && Extends(b, b') && BlocksOk(b') && IsInode(b', a)
      requires InodeAt(b', a) == f.active.ino.(size := NewSize(f.active.ino.size, 0, max))
      requires Exchanged(rest, rest', Opt(f.ino), multiset{a.value})
      ensures Committed(b, f, max, b', rest', f.(ino := a))
    {
      LookOpen(b, rest, f);
      ExchangedIs(rest, rest', Opt(f.ino), multiset{a.value});
      TxFile.CommitInline(b, rest, f, b', rest', a.value);
      forall l: Loc | l.Ok() ensures Resolve(b', InodeAt(b', a), l) == View(b, f, l) {
        CommitInlineView(b, rest, f, b', InodeAt(b', a).size, l);
      }
    }

    static lemma InlineInRest(b: Blocks, rest: multiset<LogAddr>, f: File)
      requires Holds(b, rest, f) && f.offset == 0
      ensures Opt(f.ino) <= rest
    {
      LookOpen(b, rest, f);
    }

    static lemma PathHeld(b: Blocks, rest: multiset<LogAddr>, f: File)
      requires Holds(b, rest, f) && f.offset > 0
      ensures Locate(f.offset).Ok()
      ensures PathPages(b, InodeAt(b, f.ino), Locate(f.offset)) + Opt(f.ino) <= rest
    {
      LookOpen(b, rest, f);
      PathInRest(b, rest, f);
    }

    static lemma VoteThenWrite(r0: multiset<LogAddr>, r1: multiset<LogAddr>, r: multiset<LogAddr>, o: multiset<LogAddr>, n: multiset<LogAddr>)
      requires o <= r0 && r1 == r0 - o && r == r1 + n
      ensures Exchanged(r0, r, o, n)
    {
      forall a ensures r[a] + o[a] == r0[a] + n[a] { assert o[a] <= r0[a]; }
    }

    /** Always true; mentioning it makes the verifier look inside PathDone. */
    static predicate Followed(copy: Inode) { true }

    /** The path at l has been copied and its old pages voted. */
    static ghost predicate PathDone(b: Blocks, r0: multiset<LogAddr>, ino: Inode, l: Loc, buf: seq<Ref>,
                                    b1: Blocks, r1: multiset<LogAddr>, copy: Inode)
      requires BlocksOk(b) && BlocksOk(b1) && ino.Ok() && copy.Ok() && l.Ok()
    {
      forall c: Inode {:trigger Followed(c)} :: Followed(c) && c == copy ==>
        && CopiedPath(b, ino, l, buf, b1, c)
        && Within(PathPages(b1, c, l), b1)
        && Exchanged(r0, r1, PathPages(b, ino, l), PathPages(b1, c, l))
    }

    /** The branches of commitInode below the inode. */
    method CommitPath(ino: Inode) returns (ok: bool, copy: Inode)
      requires Valid() && ino.Ok() && indirect.Entries? && |indirect.refs| == REFS_PER_BLOCK
      requires INDIRECT_OFFSET <= fileOffset < MAX_FILE_SIZE && Locate(fileOffset).Ok()
      requires PathPages(blks, ino, Locate(fileOffset)) <= rest
      modifies `blks, `links, `prev, `votsBuf, `chain, `room, `rest
      ensures !ok ==> room == 0
      ensures old(Credit()) >= PathCost(fileOffset) - PathCost(0) ==> ok
      ensures ok ==> Credit() >= old(Credit()) - (PathCost(fileOffset) - PathCost(0))
      ensures Books(Now()) && Metered() && BlocksOk(blks) && Grew(old(Now()), Now())
      ensures ok ==> Valid() && copy.Ok()
      ensures ok ==> PathDone(old(blks), old(rest), ino, Locate(fileOffset), indirect.refs, blks, rest, copy)
    {
      hide Books, Grew, BlocksOk, CopiedPath, PathPages, Exchanged, Extends, Within;
      if fileOffset < 71103 {
        ok, copy := CommitIndirect(ino);
      } else if fileOffset < 8459711 {
        ok, copy := CommitDouble(ino);
      } else {
        ok, copy := CommitTriple(ino);
      }
    }

    method WriteInodeAndVote(ino: Inode) returns (ok: bool)
      requires Valid() && Opt(inoAddr) <= rest && ino.Ok() && ino.Sized()
      modifies `blks, `links, `prev, `votsBuf, `chain, `room, `rest, `inoAddr
      ensures !ok ==> room == 0
      ensures old(Credit()) >= REFS_PER_BLOCK + 1 ==> ok
      ensures ok ==> Credit() >= old(Credit()) - (REFS_PER_BLOCK + 1)
      ensures Books(Now()) && Metered() && BlocksOk(blks) && Grew(old(Now()), Now())
      ensures ok ==> Valid() && inoAddr.Some? && inoAddr.value in blks && blks[inoAddr.value] == InodeBlk(ino)
      ensures ok ==> Exchanged(old(rest), rest, Opt(old(inoAddr)), multiset{inoAddr.value})
    {
      hide Buffered, Filed, Books, Grew, BlocksOk, Extends;
      ghost var t0 := Now();
      ghost var r0 := rest;
      var a, was_ := InodeBlk(ino), inoAddr;
      var n;
      ok, n := AllocAndWrite(a);
      ghost var t1, r1, b1 := Now(), rest, blks;
      GrewSame(t1);
      GrewOver(t0, t1, t1);
      if !ok { return; }
      StillCurrent(r0, r1, Opt(was_), multiset{n});
      ok := WriteVot(was_);
      GrewOver(t0, t1, Now());
      GrewOver(t1, Now(), Now());
      KeptData(b1, blks, Some(n));
      WriteThenVote(r0, r1, Opt(was_), multiset{n});
      inoAddr := Some(n);
    }

    static lemma WriteThenVote(r0: multiset<LogAddr>, r1: multiset<LogAddr>, o: multiset<LogAddr>, n: multiset<LogAddr>)
      requires o <= r0 && r1 == r0 + n
      ensures Exchanged(r0, r1 - o, o, n)
    {
      forall a ensures (r1 - o)[a] + o[a] == r0[a] + n[a] { assert o[a] <= r0[a]; }
    }

    /** commitInode, when the active buffer is a block of addresses. */
    method CommitLeaf() returns (ok: bool)
      requires Valid() && Holds(blks, rest, TheFile()) && fileOffset > 0 && Covers(TheFile(), maxWritten)
      modifies `blks, `links, `prev, `votsBuf, `chain, `room, `rest, `inoAddr
      ensures !ok ==> room == 0
      ensures old(Credit()) >= PathCost(fileOffset) ==> ok
      ensures ok ==> Credit() >= old(Credit()) - (PathCost(fileOffset))
      ensures Books(Now()) && Metered() && BlocksOk(blks) && Grew(old(Now()), Now())
      ensures ok ==> Valid() && Committed(old(blks), old(TheFile()), maxWritten, blks, rest, TheFile())
    {
      ghost var b, r0, f := blks, rest, TheFile();
      var copy, size;
      ok, copy, size := CopyActivePath();
      if ok {
        ok := WriteCopiedInode(b, r0, f, copy, size);
      }
    }

    method WriteCopiedInode(ghost b: Blocks, ghost r0: multiset<LogAddr>, ghost f: File, copy: Inode, size: nat) returns (ok: bool)
      requires Valid() && Extends(b, blks) && f == TheFile() && Holds(b, r0, f) && f.offset > 0 && Locate(f.offset).Ok()
      requires Covers(f, maxWritten)
      requires copy.Ok() && Opt(inoAddr) <= rest && size == InodeAt(b, f.ino).size
      requires PathDone(b, r0, InodeAt(b, f.ino), Locate(f.offset), f.active.refs, blks, rest, copy)
      modifies `blks, `links, `prev, `votsBuf, `chain, `room, `rest, `inoAddr
      ensures !ok ==> room == 0
      ensures old(Credit()) >= PathCost(0) ==> ok
      ensures ok ==> Credit() >= old(Credit()) - (PathCost(0))
      ensures Books(Now()) && Metered() && BlocksOk(blks) && Extends(b, blks) && Grew(old(Now()), Now())
      ensures ok ==> Valid() && Committed(b, f, maxWritten, blks, rest, TheFile())
    {
      hide Covers, NewSize, PathDone, Holds, Books;
      ghost var b1, r1 := blks, rest;
      CopiedSized(b, r0, f, b1, r1, copy, maxWritten);
      ok := WriteInodeAndVote(copy.(size := NewSize(size, fileOffset, maxWritten)));
      if ok {
        SavedLeaf(b, r0, f, maxWritten, b1, r1, copy, blks, rest, inoAddr);
        assert TheFile() == f.(ino := inoAddr);
      }
    }

    static lemma CopiedSized(b: Blocks, r0: multiset<LogAddr>, f: File, b1: Blocks, r1: multiset<LogAddr>, copy: Inode, max: nat)
      requires Holds(b, r0, f) && f.offset > 0 && Locate(f.offset).Ok() && Covers(f, max) && BlocksOk(b1) && copy.Ok()
      requires PathDone(b, r0, InodeAt(b, f.ino), Locate(f.offset), f.active.refs, b1, r1, copy)
      ensures copy.(size := NewSize(InodeAt(b, f.ino).size, f.offset, max)).Sized()
    {
      assert Followed(copy);
      CopySized(b, InodeAt(b, f.ino), f.offset, f.active.refs, b1, copy, max);
    }

    method CopyActivePath() returns (ok: bool, copy: Inode, size: nat)
      requires Valid() && Holds(blks, rest, TheFile()) && fileOffset > 0
      modifies `blks, `links, `prev, `votsBuf, `chain, `room, `rest
      ensures !ok ==> room == 0
      ensures old(Credit()) >= PathCost(fileOffset) - PathCost(0) ==> ok
      ensures ok ==> Credit() >= old(Credit()) - (PathCost(fileOffset) - PathCost(0))
      ensures Books(Now()) && Metered() && BlocksOk(blks) && Grew(old(Now()), Now())
      ensures ok ==> Valid() && copy.Ok() && Opt(inoAddr) <= rest && Locate(fileOffset).Ok()
      ensures ok ==> size == InodeAt(old(blks), inoAddr).size
      ensures ok ==> PathDone(old(blks), old(rest), InodeAt(old(blks), inoAddr), Locate(fileOffset), indirect.refs,
                              blks, rest, copy)
    {
      ghost var b, r0, f := blks, rest, TheFile();
      PathHeld(b, r0, f);
      var ino := InodeAt(blks, inoAddr);
      size := ino.size;
      ok, copy := CommitPath(ino);
      if ok {
        StillThere(b, r0, ino, Locate(fileOffset), indirect.refs, blks, rest, copy, Opt(inoAddr));
      }
    }

    static lemma StillThere(b: Blocks, r0: multiset<LogAddr>, ino: Inode, l: Loc, buf: seq<Ref>,
                            b1: Blocks, r1: multiset<LogAddr>, copy: Inode, i: multiset<LogAddr>)
      requires BlocksOk(b) && BlocksOk(b1) && ino.Ok() && copy.Ok() && l.Ok()
      requires PathDone(b, r0, ino, l, buf, b1, r1, copy) && PathPages(b, ino, l) + i <= r0
      ensures i <= r1
    {
      assert Followed(copy);
      var p := PathPages(b, ino, l);
      forall a ensures i[a] <= r1[a] { assert Any(a) && (p + i)[a] <= r0[a]; }
    }

    static lemma SavedLeaf(b: Blocks, r0: multiset<LogAddr>, f: File, max: nat, b1: Blocks, r1: multiset<LogAddr>, copy: Inode,
                           b': Blocks, r': multiset<LogAddr>, a: Ref)
      requires Holds(b, r0, f) && f.offset > 0 && Locate(f.offset).Ok() && copy.Ok()
      requires BlocksOk(b1) && BlocksOk(b') && Extends(b, b1) && Extends(b1, b')
      requires PathDone(b, r0, InodeAt(b, f.ino), Locate(f.offset), f.active.refs, b1, r1, copy)
      requires IsInode(b', a) && InodeAt(b', a) == copy.(size := NewSize(InodeAt(b, f.ino).size, f.offset, max))
      requires Exchanged(r1, r', Opt(f.ino), multiset{a.value})
      ensures Committed(b, f, max, b', r', f.(ino := a))
    {
      LookOpen(b, r0, f);
      assert Followed(copy);
      var ino, l := InodeAt(b, f.ino), Locate(f.offset);
      CopiedKept(b, ino, l, f.active.refs, b1, copy, b');
      PathSum(r0, r1, r', PathPages(b, ino, l), PathPages(b1, copy, l), Opt(f.ino), multiset{a.value});
      CommitOk(b, r0, f, b', r', copy, a.value);
      forall m: Loc | m.Ok() ensures Resolve(b', InodeAt(b', a), m) == View(b, f, m) {
        CommitView(b, r0, f, b', copy, InodeAt(b', a).size, m);
      }
    }

    static lemma PathSum(r0: multiset<LogAddr>, r1: multiset<LogAddr>, r': multiset<LogAddr>, p: multiset<LogAddr>,
                         q: multiset<LogAddr>, o: multiset<LogAddr>, n: multiset<LogAddr>)
      requires Exchanged(r0, r1, p, q) && Exchanged(r1, r', o, n)
      ensures r' + p + o == r0 + q + n
    {
      forall a ensures (r' + p + o)[a] == (r0 + q + n)[a] {
        assert Any(a);
      }
    }

    /** commitInode: rewrites the active block and the path from it up to the
        inode. After it every path leads where the transaction saw it lead;
        when it fails midway the books still balance, so the transaction can be
        aborted. */
    method CommitInode() returns (ok: bool)
      requires Valid() && (fileOffset >= 0 ==> Holds(blks, rest, TheFile()) && Covers(TheFile(), maxWritten))
      modifies `blks, `links, `prev, `votsBuf, `chain, `room, `rest, `inoAddr
      ensures !ok ==> room == 0
      ensures old(Credit()) >= PathCost(fileOffset) ==> ok
      ensures ok ==> Credit() >= old(Credit()) - (PathCost(fileOffset))
      ensures Books(Now()) && Metered() && BlocksOk(blks) && Grew(old(Now()), Now())
      ensures ok ==> Valid()
      ensures ok && fileOffset >= 0 ==> Committed(old(blks), old(TheFile()), maxWritten, blks, rest, TheFile())
      ensures ok && fileOffset == 0 ==>
        indirect.InodeBlk? && PageIs(InodeBlk(indirect.ino.(size := NewSize(indirect.ino.size, 0, maxWritten))))
      ensures fileOffset < 0 ==> ok && Now() == old(Now()) && inoAddr == old(inoAddr)
    {
      if fileOffset < 0 {
        return true;
      }
      if fileOffset == 0 {
        ok := CommitInline();
      } else {
        ok := CommitLeaf();
      }
    }

    // ----- the active block

    /** readIndirectToBuffer */
    method ReadIndirect(off: nat) returns (buf: Blk)
      requires BlocksOk(blks) && IsInode(blks, inoAddr) && off < MAX_FILE_SIZE
      ensures buf == Loaded(blks, InodeAt(blks, inoAddr), off)
    {
      var ino := InodeAt(blks, inoAddr);
      LocateOk(off);
      if off < INDIRECT_OFFSET {
        return InodeBlk(ino);
      }
      var ind;
      if off < 71103 {
        ind := ino.indirect;
      } else if off < 8459711 {
        ind := RefAt(blks, ino.double, InIndirects(off - 71103));
      } else {
        var dbl := RefAt(blks, ino.triple, InDoubles(off - 8459711));
        ind := RefAt(blks, dbl, InIndirects(WithinDouble(off - 8459711)));
      }
      buf := Entries(RefsAt(blks, ind));
    }

    /** isOffsetInIndirect */
    predicate Active(off: nat)
      reads `fileOffset
    {
      InActive(off, fileOffset)
    }

    /** findIndirectEntriesBlock: makes the block of addresses for off the active
        one. It fails only beyond the largest file. */
    method FindIndirect(off: nat, ghost v: multiset<LogAddr>) returns (ok: bool)
      requires BlocksOk(blks) && Within(v, blks)
      requires if Active(off) then Holds(blks, v, TheFile())
               else Rests(blks, v, TheFile()) && IsInode(blks, inoAddr)
      modifies `indirect, `fileOffset, `maxWritten
      ensures ok <==> old(Active(off)) || off < MAX_FILE_SIZE
      ensures !ok || old(Active(off)) ==> TheFile() == old(TheFile()) && maxWritten == old(maxWritten)
      ensures ok ==> Active(off) && Holds(blks, v, TheFile())
      ensures ok && !old(Active(off)) ==>
        TheFile() == old(TheFile()).(active := Loaded(blks, InodeAt(blks, inoAddr), off), offset := IndirectStart(off))
      ensures ok && !old(Active(off)) ==> maxWritten == 0
    {
      if Active(off) {
        return true;
      }
      if off >= MAX_FILE_SIZE {
        return false;
      }
      HeldLoad(blks, v, TheFile(), off);
      indirect := ReadIndirect(off);
      fileOffset := IndirectStart(off);
      maxWritten := 0;
      return true;
    }

    // ----- writing a block of the file

    /** changeTransactionMaxOffset */
    method NoteWritten(max: nat)
      modifies `maxWritten
      ensures maxWritten == if max > old(maxWritten) then max else old(maxWritten)
    {
      if max > maxWritten {
        maxWritten := max;
      }
    }

    method ReadEntry(off: nat) returns (r: Ref)
      requires INODE_DATA_SIZE <= off < ADDRESSABLE && Active(off)
      requires if fileOffset == 0 then indirect.InodeBlk? && indirect.ino.Ok()
               else indirect.Entries? && |indirect.refs| == REFS_PER_BLOCK && INDIRECT_OFFSET <= fileOffset
      ensures r == EntryAt(TheFile(), off)
    {
      LocateOk(off);
      r := if fileOffset == 0 then indirect.ino.direct[InBlocks(off - 447)] else indirect.refs[LeafEntry(off)];
    }

    method StoreEntry(off: nat, r: Ref)
      requires INODE_DATA_SIZE <= off < ADDRESSABLE && Active(off)
      requires if fileOffset == 0 then indirect.InodeBlk? && indirect.ino.Ok()
               else indirect.Entries? && |indirect.refs| == REFS_PER_BLOCK && INDIRECT_OFFSET <= fileOffset
      modifies `indirect
      ensures TheFile() == WithEntry(old(TheFile()), off, r)
    {
      LocateOk(off);
      if fileOffset == 0 {
        var ino := indirect.ino;
        indirect := InodeBlk(ino.(direct := ino.direct[InBlocks(off - 447) := r]));
      } else {
        indirect := Entries(indirect.refs[LeafEntry(off) := r]);
      }
    }

    /** What writing block off does: the block leads to a page with the content,
        every other path leads where it did, and the buffer stays in step. */
    static ghost predicate BlockPut(b: Blocks, f: File, off: nat, content: Option<Block>, r: Ref,
                                    b': Blocks, rest': multiset<LogAddr>, f': File)
      requires BlocksOk(b) && Shaped(b, f) && f.offset >= 0 && INODE_DATA_SIZE <= off < ADDRESSABLE && InActive(off, f.offset)
    {
      && f' == WithEntry(f, off, r)
      && Holds(b', rest', f')
      && (forall l: Loc {:trigger Walk(l)} :: Walk(l) && l.Ok() ==> View(b', f', l) == if l == Locate(off) then r else View(b, f, l))
      && (if content.None? then r.None? else r.Some? && r.value in b' && b'[r.value] == Data(content.value))
    }

    /** writeFileBlock on an active block: a data page is written, its entry set
        and the old page voted. Without content the entry becomes empty. */
    method PutBlock(off: nat, content: Option<Block>) returns (ok: bool, r: Ref)
      requires Valid() && Holds(blks, rest, TheFile()) && !inode0
      requires INODE_DATA_SIZE <= off < ADDRESSABLE && Active(off)
      modifies `blks, `links, `prev, `votsBuf, `chain, `room, `rest, `indirect
      ensures !ok ==> room == 0
      ensures old(Credit()) >= BlockCost(content) ==> ok
      ensures ok ==> Credit() >= old(Credit()) - (BlockCost(content))
      ensures Books(Now()) && Metered() && BlocksOk(blks) && Grew(old(Now()), Now())
      ensures ok ==> Valid() && BlockPut(old(blks), old(TheFile()), off, content, r, blks, rest, TheFile())
    {
      ghost var b0, r0, f0 := blks, rest, TheFile();
      ok, r := WriteContent(content);
      if ok {
        ok := SwapEntry(b0, r0, f0, off, content, r);
      }
    }

    method SwapEntry(ghost b0: Blocks, ghost r0: multiset<LogAddr>, ghost f0: File, off: nat,
                     ghost content: Option<Block>, r: Ref)
      returns (ok: bool)
      requires Valid() && Extends(b0, blks) && f0 == TheFile() && Holds(b0, r0, f0) && rest == r0 + Opt(r) && !inode0
      requires INODE_DATA_SIZE <= off < ADDRESSABLE && Active(off)
      requires if content.None? then r.None? else r.Some? && r.value in blks && blks[r.value] == Data(content.value)
      modifies `blks, `links, `prev, `votsBuf, `chain, `room, `rest, `indirect
      ensures !ok ==> room == 0
      ensures old(Credit()) >= 1 ==> ok
      ensures ok ==> Credit() >= old(Credit()) - (1)
      ensures Books(Now()) && Metered() && BlocksOk(blks) && Extends(b0, blks) && Grew(old(Now()), Now())
      ensures ok ==> Valid() && BlockPut(b0, f0, off, content, r, blks, rest, TheFile())
    {
      hide Buffered, Filed, BlockPut, Holds, Books, InodePages, View, Extends, Grew, BlocksOk, Within, Under, EntryAt, WithEntry, InActive, Opt, Shaped, Covers, Inode.Sized;
      GrewSame(Now());
      ghost var t1, b1, r1 := Now(), blks, rest;
      EntryCurrent(b0, r0, f0, off);
      var old_ := ReadEntry(off);
      StillCurrent(r0, r1, Opt(old_), Opt(r));
      StoreEntry(off, r);
      ok := WriteVot(old_);
      GrewOver(t1, t1, Now());
      ExtendsOver(b0, b1, blks);
      if ok {
        AllWithin();
        KeptData(b1, blks, r);
        PutDone(b0, r0, f0, off, content, r, r1, blks, rest);
      }
    }

    static lemma EntryCurrent(b: Blocks, rest: multiset<LogAddr>, f: File, off: nat)
      requires Holds(b, rest, f) && INODE_DATA_SIZE <= off < ADDRESSABLE && InActive(off, f.offset) && !f.root
      ensures BlocksOk(b) && Shaped(b, f) && f.offset >= 0 && Opt(EntryAt(f, off)) <= rest
    {
      HeldEntry(b, rest, f, off);
    }

    method WriteContent(content: Option<Block>) returns (ok: bool, r: Ref)
      requires Valid()
      modifies `blks, `links, `prev, `chain, `room, `rest
      ensures !ok ==> room == 0
      ensures old(Credit()) >= BlockCost(content) - 1 ==> ok
      ensures ok ==> Credit() >= old(Credit()) - (BlockCost(content) - 1)
      ensures Valid() && Grew(old(Now()), Now())
      ensures ok ==> rest == old(rest) + Opt(r) && (r.Some? <==> content.Some?)
      ensures ok && content.Some? ==> r.value in blks && blks[r.value] == Data(content.value)
    {
      if content.None? {
        return true, None;
      }
      var a;
      ok, a := AllocAndWrite(Data(content.value));
      r := Some(a);
    }

    static lemma PutDone(b0: Blocks, r0: multiset<LogAddr>, f0: File, off: nat, content: Option<Block>, r: Ref, r1: multiset<LogAddr>,
                         b: Blocks, rest: multiset<LogAddr>)
      requires Holds(b0, r0, f0) && INODE_DATA_SIZE <= off < ADDRESSABLE && InActive(off, f0.offset) && !f0.root
      requires Extends(b0, b) && BlocksOk(b) && Within(rest, b) && (r.Some? ==> r.value in b)
      requires r1 == r0 + Opt(r) && rest == r1 - Opt(EntryAt(f0, off))
      requires if content.None? then r.None? else r.Some? && r.value in b && b[r.value] == Data(content.value)
      ensures BlockPut(b0, f0, off, content, r, b, rest, WithEntry(f0, off, r))
    {
      HeldEntry(b0, r0, f0, off);
      PutSums(r0, r1, rest, Opt(EntryAt(f0, off)), Opt(r));
      HeldPut(b0, r0, f0, off, r, b, rest);
      forall l: Loc | l.Ok() ensures View(b, WithEntry(f0, off, r), l) == if l == Locate(off) then r else View(b0, f0, l) {
        HeldView(b0, r0, f0, off, r, b, l);
      }
    }

    static lemma PutSums(r0: multiset<LogAddr>, r1: multiset<LogAddr>, r: multiset<LogAddr>, o: multiset<LogAddr>, n: multiset<LogAddr>)
      requires o <= r0 && r1 == r0 + n && r == r1 - o
      ensures r + o == r0 + n
    {
      forall a ensures (r + o)[a] == (r0 + n)[a] { assert o[a] <= r0[a]; }
    }

    /** The active block is committed when another one is needed. */
    static function ActivateCost(fileOffset: int, off: nat): nat {
      if InActive(off, fileOffset) then 0 else PathCost(fileOffset)
    }

    /** What writing one block of the file takes then. */
    static function BlockCost(content: Option<Block>): nat {
      1 + if content.Some? then REFS_PER_BLOCK else 0
    }

    /** A file ready for reading and writing. */
    ghost predicate Ready()
      reads `blks, `links, `prev, `votsBuf, `chain, `rest, `base, `was, `room, `inoAddr, `indirect, `fileOffset, `maxWritten,
        `inode0, `rem
    {
      && Valid() && Shaped(blks, TheFile()) && Covers(TheFile(), maxWritten)
      && OwnPages(blks, inoAddr, rem, was, chain)
      && if fileOffset >= 0 then Holds(blks, rest, TheFile()) else Rests(blks, rest, TheFile())
    }

    /** The first part of writeFileBlock: commits the active block when off lies
        outside it and loads the one for off. Nothing the file holds changes. */
    method Activate(off: nat) returns (ok: bool)
      requires Ready() && !inode0
      modifies `blks, `links, `prev, `votsBuf, `chain, `room, `rest, `inoAddr, `indirect, `fileOffset, `maxWritten
      ensures !ok ==> room == 0 || off >= MAX_FILE_SIZE
      ensures old(Credit()) >= ActivateCost(old(fileOffset), off) && (old(Active(off)) || off < MAX_FILE_SIZE) ==> ok
      ensures ok ==> Credit() >= old(Credit()) - (ActivateCost(old(fileOffset), off))
      ensures Books(Now()) && Metered() && BlocksOk(blks) && Grew(old(Now()), Now())
      ensures ok ==> Valid() && Holds(blks, rest, TheFile()) && Active(off) && OwnPages(blks, inoAddr, rem, was, chain)
      ensures ok ==> fileOffset == 0 ==> Covers(TheFile(), maxWritten)
      ensures ok ==> SameFile(old(blks), old(TheFile()), old(maxWritten), blks, TheFile(), maxWritten)
      ensures ok && old(Active(off)) ==> Now() == old(Now()) && TheFile() == old(TheFile()) && maxWritten == old(maxWritten)
    {
      GrewSame(Now());
      if Active(off) {
        SameItself(blks, TheFile(), maxWritten);
        return true;
      }
      ok := ChangeActive(off);
    }

    static lemma SameItself(b: Blocks, f: File, max: nat)
      requires BlocksOk(b) && Shaped(b, f)
      ensures SameFile(b, f, max, b, f, max)
    {
    }

    method ChangeActive(off: nat) returns (ok: bool)
      requires Ready() && !inode0 && !Active(off)
      modifies `blks, `links, `prev, `votsBuf, `chain, `room, `rest, `inoAddr, `indirect, `fileOffset, `maxWritten
      ensures !ok ==> room == 0 || off >= MAX_FILE_SIZE
      ensures old(Credit()) >= PathCost(old(fileOffset)) && off < MAX_FILE_SIZE ==> ok
      ensures ok ==> Credit() >= old(Credit()) - (PathCost(old(fileOffset)))
      ensures Books(Now()) && Metered() && BlocksOk(blks) && Grew(old(Now()), Now())
      ensures ok ==> Valid() && Holds(blks, rest, TheFile()) && Active(off) && OwnPages(blks, inoAddr, rem, was, chain)
      ensures ok ==> fileOffset == 0 ==> Covers(TheFile(), maxWritten)
      ensures ok ==> SameFile(old(blks), old(TheFile()), old(maxWritten), blks, TheFile(), maxWritten)
    {
      ghost var b, f, max := blks, TheFile(), maxWritten;
      hide Books, InodePages, Holds, OwnPages, View, Grew, SameFile, Within, BlocksOk;
      ok := CommitInode();
      if !ok { return; }
      ghost var b1, f1 := blks, TheFile();
      AllWithin();
      OwnSettled(Now(), f1);
      ok := FindIndirect(off, rest);
      if ok {
        Reloaded(b, f, max, b1, rest, f1, off);
      }
    }

    /** The same size, the same data in the inode, the same pages. */
    static ghost predicate SameFile(b: Blocks, f: File, max: nat, b': Blocks, f': File, max': nat)
      requires BlocksOk(b) && BlocksOk(b') && Shaped(b, f) && Shaped(b', f')
    {
      && SizeOf(b', f', max') == SizeOf(b, f, max)
      && Current(b', f').data == Current(b, f).data
      && forall l: Loc {:trigger Walk(l)} :: Walk(l) && l.Ok() ==> View(b', f', l) == View(b, f, l)
    }

    static lemma Reloaded(b: Blocks, f: File, max: nat, b1: Blocks, r1: multiset<LogAddr>, f1: File, off: nat)
      requires BlocksOk(b) && BlocksOk(b1) && Shaped(b, f) && IsInode(b1, f1.ino) && off < MAX_FILE_SIZE
      requires if f.offset >= 0 then Committed(b, f, max, b1, r1, f1) else b1 == b && f1 == f
      ensures var g := f1.(active := Loaded(b1, InodeAt(b1, f1.ino), off), offset := IndirectStart(off));
              Shaped(b1, g) && SameFile(b, f, max, b1, g, 0)
    {
      LoadSame(b1, f1, off);
    }

    /** The largest offset of the active range that the write reaches. */
    static function Reach(off: nat, fileOffset: nat, len: nat): nat
      requires INODE_DATA_SIZE <= off
    {
      (if fileOffset == 0 || off < INDIRECT_OFFSET then off else WithinIndirect(off - 5567)) + len
    }

    /** Writing len bytes of a block: it leads to a page with the content (to no
        page without content), the file grows to cover the bytes, and nothing
        else in it changes. */
    static ghost predicate BlockWritten(b: Blocks, f: File, max: nat, off: nat, len: nat, content: Option<Block>, r: Ref,
                                        b': Blocks, f': File, max': nat)
      requires BlocksOk(b) && BlocksOk(b') && Shaped(b, f) && Shaped(b', f')
    {
      && SizeOf(b', f', max') == (if len > 0 && off + len > SizeOf(b, f, max) then off + len else SizeOf(b, f, max))
      && Current(b', f').data == Current(b, f).data
      && (forall l: Loc {:trigger Walk(l)} :: Walk(l) && l.Ok() ==> View(b', f', l) == if l == Locate(off) then r else View(b, f, l))
      && (if content.None? then r.None? else r.Some? && r.value in b' && b'[r.value] == Data(content.value))
    }

    /** Writing an entry and noting how far the write reaches. */
    static lemma WriteCovers(f: File, max: nat, off: nat, len: nat, r: Ref, max2: nat)
      requires INODE_DATA_SIZE <= off < ADDRESSABLE && InActive(off, f.offset) && len > 0 && (f.offset == 0 ==> Covers(f, max))
      requires if f.offset == 0 then f.active.InodeBlk? && f.active.ino.Ok()
               else f.active.Entries? && |f.active.refs| == REFS_PER_BLOCK && INDIRECT_OFFSET <= f.offset
      requires max2 == if Reach(off, f.offset, len) > max then Reach(off, f.offset, len) else max
      ensures Covers(WithEntry(f, off, r), max2)
    {
    }

    static lemma PutCovers(b: Blocks, f: File, max: nat, off: nat, len: nat, content: Option<Block>, r: Ref,
                           b2: Blocks, rest2: multiset<LogAddr>, f2: File, max2: nat)
      requires BlocksOk(b) && Shaped(b, f) && f.offset >= 0 && INODE_DATA_SIZE <= off < ADDRESSABLE && InActive(off, f.offset)
      requires len > 0 && BlockPut(b, f, off, content, r, b2, rest2, f2) && (f.offset == 0 ==> Covers(f, max))
      requires max2 == if Reach(off, f.offset, len) > max then Reach(off, f.offset, len) else max
      ensures Covers(f2, max2)
    {
      WriteCovers(f, max, off, len, r, max2);
    }

    static lemma WrittenFile(t: Tx, f: File, max: nat, t1: Tx, f1: File, max1: nat, off: nat, len: nat,
                             content: Option<Block>, r: Ref, t2: Tx, f2: File, max2: nat)
      requires BlocksOk(t.blks) && BlocksOk(t1.blks) && BlocksOk(t2.blks) && Shaped(t.blks, f) && Shaped(t1.blks, f1)
      requires f1.offset >= 0 && INODE_DATA_SIZE <= off < ADDRESSABLE && InActive(off, f1.offset) && len > 0
      requires SameFile(t.blks, f, max, t1.blks, f1, max1) && Grew(t1, t2) && Books(t1) && t2.was == t1.was
      requires BlockPut(t1.blks, f1, off, content, r, t2.blks, t2.rest, f2) && OwnPages(t1.blks, f1.ino, f1.rem, t1.was, t1.chain)
      requires max2 == if Reach(off, f1.offset, len) > max1 then Reach(off, f1.offset, len) else max1
      ensures Holds(t2.blks, t2.rest, f2) && Shaped(t2.blks, f2) && f2.offset == f1.offset
      ensures BlockWritten(t.blks, f, max, off, len, content, r, t2.blks, f2, max2)
      ensures OwnPages(t2.blks, f2.ino, f2.rem, t2.was, t2.chain)
    {
      hide Books, InodePages, OwnPages, Resolve, View, Holds, Shaped, BlockWritten, SameFile, InActive, Reach;
      GrewOver(t1, t2, t2);
      PutParts(t1.blks, f1, off, content, r, t2.blks, t2.rest, f2);
      OwnGrows(t1, t2, f1.ino, f1.rem);
      WrittenSeen(t.blks, f, max, t1.blks, f1, max1, off, len, content, r, t2.blks, t2.rest, f2, max2);
    }

    static lemma PutParts(b: Blocks, f: File, off: nat, content: Option<Block>, r: Ref, b2: Blocks, rest2: multiset<LogAddr>, f2: File)
      requires BlocksOk(b) && BlocksOk(b2) && Shaped(b, f) && f.offset >= 0 && INODE_DATA_SIZE <= off < ADDRESSABLE && InActive(off, f.offset)
      requires BlockPut(b, f, off, content, r, b2, rest2, f2)
      ensures Holds(b2, rest2, f2) && Shaped(b2, f2) && f2.offset == f.offset && f2.ino == f.ino && f2.rem == f.rem
    {
    }

    static lemma WrittenSeen(b: Blocks, f: File, max: nat, b1: Blocks, f1: File, max1: nat, off: nat, len: nat,
                             content: Option<Block>, r: Ref, b2: Blocks, rest2: multiset<LogAddr>, f2: File, max2: nat)
      requires BlocksOk(b) && BlocksOk(b1) && BlocksOk(b2) && Shaped(b, f) && Shaped(b1, f1) && Shaped(b2, f2)
      requires f1.offset >= 0 && INODE_DATA_SIZE <= off < ADDRESSABLE && InActive(off, f1.offset) && len > 0
      requires SameFile(b, f, max, b1, f1, max1) && Extends(b1, b2)
      requires BlockPut(b1, f1, off, content, r, b2, rest2, f2)
      requires max2 == if Reach(off, f1.offset, len) > max1 then Reach(off, f1.offset, len) else max1
      ensures BlockWritten(b, f, max, off, len, content, r, b2, f2, max2)
    {
      if f1.offset > 0 { WithinActive(f1.offset, off); }
      SizeGrows(Current(b1, f1).size, f1.offset, max1, Reach(off, f1.offset, len), max2);
    }

    static lemma SizeGrows(size: nat, offset: nat, max1: nat, reach: nat, max': nat)
      requires max' == (if reach > max1 then reach else max1) && reach > 0
      ensures NewSize(size, offset, max')
           == if offset + reach > NewSize(size, offset, max1) then offset + reach else NewSize(size, offset, max1)
    {
    }

    /** writeFileBlock on a block of the file outside the inode. */
    method WriteFileBlock(off: nat, len: nat, content: Option<Block>) returns (ok: bool, ghost r: Ref)
      requires Ready() && !inode0 && INODE_DATA_SIZE <= off && len > 0
      modifies `blks, `links, `prev, `votsBuf, `chain, `room, `rest, `inoAddr, `indirect, `fileOffset, `maxWritten
      ensures !ok ==> room == 0 || off >= MAX_FILE_SIZE
      ensures old(Credit()) >= ActivateCost(old(fileOffset), off) + BlockCost(content) && (old(Active(off)) || off < MAX_FILE_SIZE) ==> ok
      ensures ok ==> Credit() >= old(Credit()) - (ActivateCost(old(fileOffset), off) + BlockCost(content))
      ensures Books(Now()) && Metered() && BlocksOk(blks) && Grew(old(Now()), Now())
      ensures ok ==> Ready() && Active(off)
      ensures ok ==> BlockWritten(old(blks), old(TheFile()), old(maxWritten), off, len, content, r, blks, TheFile(), maxWritten)
    {
      hide Books, InodePages, Holds, Rests, OwnPages, View, Grew, SameFile, BlockPut, BlockWritten, Shaped, InActive, BlocksOk;
      ghost var t0, f0, max0 := Now(), TheFile(), maxWritten;
      r := None;
      ok := Activate(off);
      ghost var t1, f1, max1 := Now(), TheFile(), maxWritten;
      GrewOver(t0, t1, t1);
      if !ok { return; }
      HoldsIs(blks, rest, f1);
      ActiveOffset(off, fileOffset);
      var r';
      ok, r' := PutBlock(off, content);
      GrewOver(t0, t1, Now());
      if !ok { return; }
      r := r';
      ghost var f2 := TheFile();
      NoteWritten(Reach(off, fileOffset, len));
      assert TheFile() == f2;
      PutCovers(t1.blks, f1, max1, off, len, content, r, blks, rest, f2, maxWritten);
      WrittenFile(t0, f0, max0, t1, f1, max1, off, len, content, r, Now(), f2, maxWritten);
    }

    static lemma HoldsIs(b: Blocks, rest: multiset<LogAddr>, f: File)
      requires Holds(b, rest, f)
      ensures BlocksOk(b) && Shaped(b, f) && 0 <= f.offset < MAX_FILE_SIZE
    {
    }

    static lemma ActiveOffset(off: nat, fileOffset: int)
      requires InActive(off, fileOffset) && fileOffset < MAX_FILE_SIZE
      ensures 0 <= fileOffset && off < ADDRESSABLE
    {
    }

    /** writeFileBlock on the part of the file that lives in the inode. */
    method WriteInline(len: nat, bytes: Block) returns (ok: bool)
      requires Ready() && !inode0 && 0 < len && INODE_DATA_SIZE <= |bytes|
      modifies `blks, `links, `prev, `votsBuf, `chain, `room, `rest, `inoAddr, `indirect, `fileOffset, `maxWritten
      ensures !ok ==> room == 0
      ensures old(Credit()) >= ActivateCost(old(fileOffset), 0) ==> ok
      ensures ok ==> Credit() >= old(Credit()) - (ActivateCost(old(fileOffset), 0))
      ensures Books(Now()) && Metered() && BlocksOk(blks) && Grew(old(Now()), Now())
      ensures ok ==> Ready() && fileOffset == 0
      ensures ok ==> InlineWritten(old(blks), old(TheFile()), old(maxWritten), len, bytes[..INODE_DATA_SIZE],
                                   blks, TheFile(), maxWritten)
    {
      hide Inode.Sized, ActivateCost, PathCost, Books, InodePages, Holds, Rests, OwnPages, View, Grew, SameFile, InlineWritten, Shaped, BlocksOk, Covers, NewSize,
        Within, Extends, InodeAt;
      ghost var t0, f0, max0 := Now(), TheFile(), maxWritten;
      ok := Activate(0);
      ghost var t1, f1, max1 := Now(), TheFile(), maxWritten;
      GrewOver(t0, t1, t1);
      if !ok { return; }
      HoldsIs(blks, rest, f1);
      ActiveInode(fileOffset);
      OpenInode(blks, rest, f1);
      NoteWritten(len);
      var ino := indirect.ino;
      indirect := InodeBlk(ino.(size := NewSize(ino.size, 0, maxWritten), data := bytes[..INODE_DATA_SIZE]));
      assert TheFile() == f1.(active := indirect);
      InlineDone(t0.blks, f0, max0, t1.blks, rest, f1, max1, len, bytes[..INODE_DATA_SIZE], maxWritten);
      InlineCovers(f1, max1, len, bytes[..INODE_DATA_SIZE], maxWritten);
    }

    static lemma InlineCovers(f: File, max: nat, len: nat, data: Block, max2: nat)
      requires f.offset == 0 && f.active.InodeBlk? && f.active.ino.Ok() && Covers(f, max) && max2 == if len > max then len else max
      ensures Covers(f.(active := InodeBlk(f.active.ino.(size := NewSize(f.active.ino.size, 0, max2), data := data))), max2)
    {
    }

    static lemma ActiveInode(fileOffset: int)
      requires InActive(0, fileOffset)
      ensures fileOffset == 0
    {
    }

    static lemma OpenInode(b: Blocks, rest: multiset<LogAddr>, f: File)
      requires Holds(b, rest, f) && f.offset == 0
      ensures f.active.InodeBlk? && f.active.ino.Ok()
    {
    }

    static ghost predicate InlineWritten(b: Blocks, f: File, max: nat, len: nat, data: Block, b': Blocks, f': File, max': nat)
      requires BlocksOk(b) && BlocksOk(b') && Shaped(b, f) && Shaped(b', f')
    {
      && SizeOf(b', f', max') == (if len > SizeOf(b, f, max) then len else SizeOf(b, f, max))
      && Current(b', f').data == data
      && (forall l: Loc {:trigger Walk(l)} :: Walk(l) && l.Ok() ==> View(b', f', l) == View(b, f, l))
    }

    static lemma InlineDone(b0: Blocks, f0: File, max0: nat, b: Blocks, rest: multiset<LogAddr>, f: File, max: nat, len: nat, data: Block, max2: nat)
      requires BlocksOk(b0) && Shaped(b0, f0) && Holds(b, rest, f) && f.offset == 0 && |data| == INODE_DATA_SIZE && len > 0
      requires SameFile(b0, f0, max0, b, f, max) && max2 == if len > max then len else max
      ensures var g := f.(active := InodeBlk(f.active.ino.(size := NewSize(f.active.ino.size, 0, max2), data := data)));
              Holds(b, rest, g) && Shaped(b, g) && InlineWritten(b0, f0, max0, len, data, b, g, max2)
    {
      LookOpen(b, rest, f);
      var ino := f.active.ino;
      var ino' := ino.(size := NewSize(ino.size, 0, max2), data := data);
      var g := f.(active := InodeBlk(ino'));
      SameUnder(b, ino, ino', f.root);
      SizeGrows(ino.size, 0, max, len, max2);
      hide InodeUnder;
      assert OpenAtInode(b, rest, g);
      forall l: Loc | l.Ok() ensures Resolve(b, ino', l) == Resolve(b, ino, l) {}
    }

    static lemma SameUnder(b: Blocks, ino: Inode, ino2: Inode, root: bool)
      requires ino2 == ino.(size := ino2.size, data := ino2.data)
      ensures InodeUnder(b, ino2, root) == InodeUnder(b, ino, root)
    {
    }

    // ----- reading

    /** readFileBlock: the page of the block at off. It fails exactly when the
        block is not active and lies beyond the size of the file. */
    method FindBlock(off: nat) returns (ok: bool, r: Ref)
      requires Ready() && INODE_DATA_SIZE <= off < ADDRESSABLE
      ensures ok <==> Active(off) || off <= SizeOf(blks, TheFile(), maxWritten)
      ensures ok ==> Locate(off).Ok() && r == View(blks, TheFile(), Locate(off))
    {
      LocateOk(off);
      if Active(off) {
        r := ReadEntry(off);
        ActiveView(blks, rest, TheFile(), off);
        return true, r;
      }
      var ino := if fileOffset == 0 then indirect.ino else InodeAt(blks, inoAddr);
      var size := if fileOffset < 0 then ino.size else NewSize(ino.size, fileOffset, maxWritten);
      if off > size {
        return false, None;
      }
      if fileOffset > 0 {
        LocateOk(fileOffset);
        ActiveIsSameLeaf(fileOffset, off);
      }
      if off < INDIRECT_OFFSET {
        return true, ino.direct[InBlocks(off - 447)];
      }
      var ind;
      if off < 71103 {
        ind := ino.indirect;
      } else if off < 8459711 {
        ind := RefAt(blks, ino.double, InIndirects(off - 71103));
      } else {
        var dbl := RefAt(blks, ino.triple, InDoubles(off - 8459711));
        ind := RefAt(blks, dbl, InIndirects(WithinDouble(off - 8459711)));
      }
      r := RefAt(blks, ind, LeafEntry(off));
      return true, r;
    }

    static lemma ActiveView(b: Blocks, rest: multiset<LogAddr>, f: File, off: nat)
      requires Holds(b, rest, f) && INODE_DATA_SIZE <= off < ADDRESSABLE && InActive(off, f.offset) && Locate(off).Ok()
      ensures View(b, f, Locate(off)) == EntryAt(f, off)
    {
      if f.offset > 0 {
        LocateOk(f.offset);
        ActiveIsSameLeaf(f.offset, off);
      }
    }

    // ----- inode0

    /** tree is everything reachable from the inode0 at root, and all of it is
        there. */
    static ghost predicate IsTree(b: Blocks, root: Ref, tree: multiset<LogAddr>) {
      forall r {:trigger Reached(r)} :: Reached(r) && r == root ==> tree == InodePages(b, r, true) && Within(tree, b)
    }

    /** CALC_OFFSET_FROM_INODE: where inode0 lists a file. */
    static function SlotOf(inoNum: nat): nat
      requires inoNum > 0
    {
      512 * (inoNum - 1) + 447
    }

    static lemma OutsideKept(b: Blocks, b': Blocks, root: Ref, off: nat, rem: multiset<LogAddr>)
      requires off < ADDRESSABLE && Outside(b, root, off, rem) && Extends(b, b') && BlocksOk(b')
      ensures Outside(b', root, off, rem) && InodePages(b', root, true) == InodePages(b, root, true)
      ensures InodeAt(b', root) == InodeAt(b, root)
      ensures SameListing(b, b', root)
    {
      assert Reached(root);
      TreeKept(b, b', root, true);
      ListedKept(b, b', root, Locate(off));
    }

    /** New pages leave a tree as it is. */
    static lemma TreeKept(b: Blocks, b': Blocks, a: Ref, root: bool)
      requires BlocksOk(b) && BlocksOk(b') && IsInode(b, a) && Within(InodePages(b, a, root), b) && Extends(b, b')
      ensures IsInode(b', a) && InodeAt(b', a) == InodeAt(b, a)
      ensures InodePages(b', a, root) == InodePages(b, a, root) && Within(InodePages(b, a, root), b')
      ensures forall l: Loc {:trigger Walk(l)} :: Walk(l) && l.Ok() ==>
        Resolve(b', InodeAt(b, a), l) == Resolve(b, InodeAt(b, a), l)
    {
      StillWithin(InodePages(b, a, root), b, b');
      InodeFrame(b, b', a, root);
      InodeKept(b, b', a, root);
      forall l: Loc | l.Ok() ensures Resolve(b', InodeAt(b, a), l) == Resolve(b, InodeAt(b, a), l) {
        ResolveFrame(b, b', InodeAt(b, a), l, root);
      }
    }

    static lemma ListedKept(b: Blocks, b': Blocks, root: Ref, l: Loc)
      requires BlocksOk(b) && BlocksOk(b') && IsInode(b, root) && Within(InodePages(b, root, true), b) && Extends(b, b')
      requires l.Ok() && !l.InInode?
      ensures IsInode(b', root) && Resolve(b', InodeAt(b', root), l) == Resolve(b, InodeAt(b, root), l)
      ensures InodePages(b', Resolve(b, InodeAt(b, root), l), false) == InodePages(b, Resolve(b, InodeAt(b, root), l), false)
    {
      TreeKept(b, b', root, true);
      assert Walk(l);
      var file := Resolve(b, InodeAt(b, root), l);
      FileInRoot(b, root, l);
      WithinPart(InodePages(b, file, false), InodePages(b, root, true), b);
      StillWithin(InodePages(b, file, false), b, b');
      InodeFrame(b, b', file, false);
    }

    /** The new root lists file at off and everything else as root0 does; the
        transaction's pages are exactly those below it. */
    static ghost predicate NewRoot(b: Blocks, root0: Ref, off: nat, file: Ref, b': Blocks, rest': multiset<LogAddr>, root: Ref)
      requires BlocksOk(b) && BlocksOk(b') && IsInode(b, root0) && off < ADDRESSABLE
    {
      && IsInode(b', root) && rest' == InodePages(b', root, true)
      && forall l: Loc {:trigger Walk(l)} :: Walk(l) && l.Ok() ==>
           Resolve(b', InodeAt(b', root), l) == if l == Locate(off) then file else Resolve(b, InodeAt(b, root0), l)
    }

    /** commitInodeToInode0: the file's last inode is entered into inode0, whose
        path is copied in turn. The old inode was voted when the new one was
        written and is not voted again. */
    method CommitInodeToInode0(root0: LogAddr, inoNum: nat) returns (ok: bool)
      requires Valid() && Rests(blks, rest, TheFile()) && !inode0 && 0 < inoNum && SlotOf(inoNum) < ADDRESSABLE
      requires Outside(blks, Some(root0), SlotOf(inoNum), rem)
      modifies `blks, `links, `prev, `votsBuf, `chain, `rest, `inoAddr, `indirect, `fileOffset, `maxWritten, `inode0, `sparse, `rem, `room
      ensures !ok ==> room == 0 || SlotOf(inoNum) >= MAX_FILE_SIZE
      ensures old(Credit()) >= PathCost(SlotOf(inoNum)) && SlotOf(inoNum) < MAX_FILE_SIZE ==> ok
      ensures ok ==> Credit() >= old(Credit()) - (PathCost(SlotOf(inoNum)))
      ensures Books(Now()) && Metered() && BlocksOk(blks) && Grew(old(Now()), Now())
      ensures ok ==> Valid() && inode0 && sparse && rem == multiset{}
      ensures ok ==> NewRoot(old(blks), Some(root0), SlotOf(inoNum), old(inoAddr), blks, rest, inoAddr)
    {
      hide RootEntered, NewRoot, Rests, BlocksOk, InodePages, Resolve, InodeAt, Books, SlotOf, Within;
      var off, file := SlotOf(inoNum), inoAddr;
      ghost var t := Now();
      ok := ListFile(root0, off);
      if ok {
        assert Now() == t && blks == t.blks && rest == t.rest;
        ok := CommitRoot(root0, off, file);
      }
    }

    /** The part of commitInodeToInode0 before commitInode. */
    method ListFile(root0: LogAddr, off: nat) returns (ok: bool)
      requires Valid() && Rests(blks, rest, TheFile()) && !inode0 && off < ADDRESSABLE
      requires Outside(blks, Some(root0), off, rem)
      modifies `inoAddr, `indirect, `fileOffset, `maxWritten, `inode0, `sparse, `rem
      ensures ok <==> off < MAX_FILE_SIZE
      ensures ok ==> fileOffset >= 0 && PathCost(fileOffset) == PathCost(off)
      ensures ok ==> inode0 && sparse && rem == multiset{} && fileOffset >= 0
      ensures ok ==> RootEntered(blks, rest, Some(root0), off, old(inoAddr), TheFile()) && Covers(TheFile(), maxWritten)
    {
      AllWithin();
      ghost var v := RootTree(blks, Some(root0), off, rem);
      ok := ListInRoot(root0, off, v);
    }

    method ListInRoot(root0: LogAddr, off: nat, ghost v: multiset<LogAddr>) returns (ok: bool)
      requires Rests(blks, rest, TheFile()) && !inode0 && off < ADDRESSABLE
      requires Outside(blks, Some(root0), off, rem)
      requires Within(rest, blks) && IsTree(blks, Some(root0), v) && Within(v, blks)
      modifies `inoAddr, `indirect, `fileOffset, `maxWritten, `inode0, `sparse, `rem
      ensures ok <==> off < MAX_FILE_SIZE
      ensures ok ==> fileOffset >= 0 && PathCost(fileOffset) == PathCost(off)
      ensures ok ==> inode0 && sparse && rem == multiset{} && fileOffset >= 0
      ensures ok ==> RootEntered(blks, rest, Some(root0), off, old(inoAddr), TheFile()) && Covers(TheFile(), maxWritten)
    {
      ghost var f, b, r := TheFile(), blks, rest;
      var file := inoAddr;
      ok := EnterRoot(root0, off, v);
      if ok {
        assert blks == b && rest == r;
        EnterFile(off, file, Some(root0), v, f, b, r);
      }
    }

    method StoreAndNote(off: nat, r: Ref)
      requires INODE_DATA_SIZE <= off < ADDRESSABLE && Active(off)
      requires if fileOffset == 0 then indirect.InodeBlk? && indirect.ino.Ok()
               else indirect.Entries? && |indirect.refs| == REFS_PER_BLOCK && INDIRECT_OFFSET <= fileOffset
      modifies `indirect, `maxWritten
      ensures TheFile() == WithEntry(old(TheFile()), off, r)
      ensures old(fileOffset == 0 ==> Covers(TheFile(), maxWritten)) ==> Covers(TheFile(), maxWritten)
    {
      ghost var f, max := TheFile(), maxWritten;
      StoreEntry(off, r);
      NoteWritten(Reach(off, fileOffset, 512));
      if f.offset == 0 ==> Covers(f, max) {
        WriteCovers(f, max, off, 512, r, maxWritten);
      }
    }

    static lemma RootTree(b: Blocks, root: Ref, off: nat, rem: multiset<LogAddr>) returns (tree: multiset<LogAddr>)
      requires off < ADDRESSABLE && Outside(b, root, off, rem)
      ensures IsTree(b, root, tree) && Within(tree, b)
    {
      assert Reached(root);
      tree := InodePages(b, root, true);
    }

    /** writeFileBlock on inode0, which only stores the entry. */
    method EnterFile(off: nat, file: Ref, ghost root: Ref, ghost v: multiset<LogAddr>, ghost f: File,
                     ghost b: Blocks, ghost r: multiset<LogAddr>)
      requires BlocksOk(b) && Rests(b, r, f) && !f.root && f.ino == file && off < ADDRESSABLE && Within(r, b)
      requires Outside(b, root, off, f.rem) && IsTree(b, root, v)
      requires Active(off) && Holds(b, v, TheFile()) && inode0 && SeenAs(b, root, TheFile())
      requires fileOffset == 0 ==> Covers(TheFile(), maxWritten)
      modifies `indirect, `maxWritten
      ensures RootEntered(b, r, root, off, file, TheFile()) && Covers(TheFile(), maxWritten)
    {
      ghost var g := TheFile();
      EntryEntered(b, r, f, v, root, off, g);
      StoreAndNote(off, file);
      assert TheFile() == WithEntry(g, off, file);
    }

    /** The transaction now works on inode0 and has the block for off active. */
    method EnterRoot(root0: LogAddr, off: nat, ghost v: multiset<LogAddr>) returns (ok: bool)
      requires BlocksOk(blks) && IsInode(blks, Some(root0)) && IsTree(blks, Some(root0), v) && Within(v, blks)
      modifies `inoAddr, `indirect, `fileOffset, `maxWritten, `inode0, `sparse, `rem
      ensures ok <==> off < MAX_FILE_SIZE
      ensures ok ==> fileOffset >= 0 && PathCost(fileOffset) == PathCost(off)
      ensures ok ==> Active(off) && Holds(blks, v, TheFile()) && inode0 && sparse && rem == multiset{}
      ensures ok ==> SeenAs(blks, Some(root0), TheFile()) && (fileOffset == 0 ==> Covers(TheFile(), maxWritten))
    {
      StartRoot(root0);
      ghost var f := TheFile();
      RootRests(blks, v, f);
      ok := FindIndirect(off, v);
      if ok {
        LoadSame(blks, f, off);
        assert TheFile() == f.(active := Loaded(blks, InodeAt(blks, f.ino), off), offset := IndirectStart(off));
      }
    }

    static ghost function RootFile(root0: LogAddr, active: Blk): File {
      File(Some(root0), active, -1, true, multiset{})
    }

    method StartRoot(root0: LogAddr)
      modifies `inoAddr, `fileOffset, `inode0, `sparse, `rem
      ensures TheFile() == RootFile(root0, indirect) && sparse
    {
      inode0, sparse := true, true;
      inoAddr, fileOffset, rem := Some(root0), -1, RootFile(root0, indirect).rem;
    }

    /** The transaction sees the inode at a. */
    static ghost predicate SeenAs(b: Blocks, a: Ref, f: File)
      requires BlocksOk(b) && IsInode(b, a)
    {
      && Shaped(b, f)
      && forall l: Loc {:trigger Walk(l)} :: Walk(l) && l.Ok() ==> View(b, f, l) == Resolve(b, InodeAt(b, a), l)
    }

    static lemma RootRests(b: Blocks, v: multiset<LogAddr>, f: File)
      requires IsInode(b, f.ino) && IsTree(b, f.ino, v) && f.root && f.rem == multiset{}
      ensures Rests(b, v, f)
    {
      assert Reached(f.ino);
      assert f.rem + v == v;
    }

    /** Entering the file's new inode accounts for its pages. */
    static lemma EntryEntered(b: Blocks, rest: multiset<LogAddr>, f: File, v: multiset<LogAddr>, root: Ref, off: nat, g: File)
      requires BlocksOk(b) && Rests(b, rest, f) && !f.root && Within(rest, b) && off < ADDRESSABLE
      requires Outside(b, root, off, f.rem) && IsTree(b, root, v)
      requires Holds(b, v, g) && g.root && InActive(off, g.offset)
      requires SeenAs(b, root, g)
      ensures RootEntered(b, rest, root, off, f.ino, WithEntry(g, off, f.ino))
    {
      assert Reached(root) && Walk(Locate(off));
      LookSettled(b, rest, f);
      ActiveView(b, v, g, off);
      var o, n := InodePages(b, EntryAt(g, off), false), InodePages(b, f.ino, false);
      assert Under(b, EntryAt(g, off), 0, true) == o;
      assert Under(b, f.ino, 0, true) == n;
      EnteredSums(rest, f.rem, n, o, v);
      WithinPart(n, rest, b);
      HeldPut(b, v, g, off, f.ino, b, rest);
      forall l: Loc | l.Ok()
        ensures View(b, WithEntry(g, off, f.ino), l) == if l == Locate(off) then f.ino else Resolve(b, InodeAt(b, root), l)
      {
        HeldView(b, v, g, off, f.ino, b, l);
        assert Walk(l);
      }
    }

    /** As the transaction sees inode0, it lists file at off and is otherwise
        the inode at root. */
    static ghost predicate RootEntered(b: Blocks, rest: multiset<LogAddr>, root: Ref, off: nat, file: Ref, f: File)
      requires BlocksOk(b) && IsInode(b, root)
    {
      forall h {:trigger Looked(h)} :: Looked(h) && h == f ==>
        && Holds(b, rest, h)
        && forall l: Loc {:trigger Walk(l)} :: Walk(l) && l.Ok() ==>
             View(b, h, l) == if l == Locate(off) then file else Resolve(b, InodeAt(b, root), l)
    }

    static lemma EnteredSums(rest: multiset<LogAddr>, rem: multiset<LogAddr>, n: multiset<LogAddr>, o: multiset<LogAddr>, v: multiset<LogAddr>)
      requires rest == rem + n && rem + o == v
      ensures rest + o == v + n && n <= rest
    {
      forall a ensures (rest + o)[a] == (v + n)[a] { assert (rem + o)[a] == v[a]; }
    }

    method CommitRoot(root0: LogAddr, off: nat, file: Ref) returns (ok: bool)
      requires Valid() && inode0 && rem == multiset{} && off < ADDRESSABLE && fileOffset >= 0
      requires IsInode(blks, Some(root0))
      requires RootEntered(blks, rest, Some(root0), off, file, TheFile()) && Covers(TheFile(), maxWritten)
      modifies `blks, `links, `prev, `votsBuf, `chain, `room, `rest, `inoAddr
      ensures !ok ==> room == 0
      ensures old(Credit()) >= PathCost(fileOffset) ==> ok
      ensures ok ==> Credit() >= old(Credit()) - (PathCost(fileOffset))
      ensures Books(Now()) && Metered() && BlocksOk(blks) && Grew(old(Now()), Now())
      ensures ok ==> Valid() && NewRoot(old(blks), Some(root0), off, file, blks, rest, inoAddr)
    {
      ghost var b, f := blks, TheFile();
      RootHeld(b, rest, Some(root0), off, file, f);
      ok := CommitInode();
      if ok {
        RootDone(b, old(rest), f, maxWritten, blks, rest, TheFile(), Some(root0), off, file);
      }
    }

    static lemma RootHeld(b: Blocks, rest: multiset<LogAddr>, root: Ref, off: nat, file: Ref, f: File)
      requires BlocksOk(b) && IsInode(b, root) && RootEntered(b, rest, root, off, file, f)
      ensures Holds(b, rest, f)
    {
      assert Looked(f);
    }

    static lemma RootDone(b: Blocks, rest: multiset<LogAddr>, f: File, max: nat, b': Blocks, rest': multiset<LogAddr>, f': File,
                          root: Ref, off: nat, file: Ref)
      requires BlocksOk(b) && BlocksOk(b') && IsInode(b, root) && off < ADDRESSABLE
      requires RootEntered(b, rest, root, off, file, f) && Shaped(b, f) && f.offset >= 0 && f.root && f.rem == multiset{}
      requires Committed(b, f, max, b', rest', f')
      ensures NewRoot(b, root, off, file, b', rest', f'.ino)
    {
      assert Looked(f);
      LookSettled(b', rest', f');
      assert f'.rem + InodePages(b', f'.ino, true) == InodePages(b', f'.ino, true);
    }

    // ----- a whole transaction

    /** getTidByFileId: a transaction on the file that inode0 lists at inoNum. */
    constructor (b: Blocks, l: map<LogAddr, Ref>, root: LogAddr, inoNum: nat, dir: bool, free: nat, ghost tree: multiset<LogAddr>)
      requires BlocksOk(b) && IsInode(b, Some(root)) && IsTree(b, Some(root), tree) && Within(tree, b) && Once(tree)
      requires 0 < inoNum && SlotOf(inoNum) < ADDRESSABLE && Locate(SlotOf(inoNum)).Ok()
      requires IsInode(b, Resolve(b, InodeAt(b, Some(root)), Locate(SlotOf(inoNum))))
      ensures Ready() && !inode0 && fileOffset < 0 && Now() == FirstTx(b, l, tree) && room == quota == free && sparse == dir
      ensures inoAddr == Resolve(b, InodeAt(b, Some(root)), Locate(SlotOf(inoNum)))
      ensures Outside(b, Some(root), SlotOf(inoNum), rem)
    {
      ghost var m := TakeOut(b, tree, Some(root), SlotOf(inoNum), Data([]));
      blks, links, prev, votsBuf, chain := b, l, None, [], [];
      inoAddr := Resolve(b, InodeAt(b, Some(root)), Locate(SlotOf(inoNum)));
      indirect, fileOffset, maxWritten, sparse, inode0 := Data([]), -1, 0, dir, false;
      rest, base, was, rem := tree, b, tree, m;
      room, quota := free, free;
      new;
      FirstBooks(Now());
      OwnSettled(Now(), TheFile());
    }

    static lemma FirstBooks(t: Tx)
      requires BlocksOk(t.blks) && t.base == t.blks && Within(t.was, t.blks) && Once(t.was)
      requires t.prev == None && t.votes == [] && t.chain == [] && t.rest == t.was
      ensures Books(t)
    {
      assert Gone(t) == multiset{};
      assert BooksDef(t);
    }

    /** The state in which the next call finds the file when another transaction has committed
        in between: same file, same pages of its own, a new tree around it. */
    method MoveRoot(ghost root0: LogAddr, ghost off: nat, b2: Blocks, l2: map<LogAddr, Ref>, ghost root1: LogAddr)
      requires Ready() && Runs(Now(), TheFile(), Some(root0), off) && Elsewhere(Now(), Some(root0), off, b2, l2, Some(root1))
      modifies `blks, `links, `base, `was, `rest, `rem
      ensures Ready() && Runs(Now(), TheFile(), Some(root1), off) && blks == b2 && links == l2
      ensures was == InodePages(b2, Some(root1), true) && TheFile() == old(TheFile()).(rem := rem)
      ensures Outside(blks, Some(root1), off, rem)
    {
      hide Books, OwnPages, Outside, Holds, Rests, InodePages, FilePages, Only, Elsewhere, Rebased, Runs, Serves, Shaped, BlocksOk;
      RunsListed(Now(), TheFile(), Some(root0), off);
      Rebase(Now(), TheFile(), Some(root0), off, b2, l2, Some(root1));
      ghost var pages, tree := FilePages(blks, Some(root0), off), InodePages(b2, Some(root1), true);
      ghost var t2, f2 := Rebased(Now(), rem, pages, b2, l2, tree), TheFile().(rem := tree - pages);
      RebasedParts(Now(), rem, pages, b2, l2, tree);
      RunsIs(t2, f2, Some(root1), off);
      Adopt(b2, l2, t2, f2.rem);
    }

    method Adopt(b2: Blocks, l2: map<LogAddr, Ref>, ghost t2: Tx, ghost rem2: multiset<LogAddr>)
      requires t2.blks == b2 && t2.links == l2 && t2.prev == prev && t2.votes == votsBuf && t2.chain == chain
      modifies `blks, `links, `base, `was, `rest, `rem
      ensures Now() == t2 && TheFile() == old(TheFile()).(rem := rem2) && blks == b2 && links == l2
    {
      blks, links, base, was, rest, rem := b2, l2, t2.base, t2.was, t2.rest, rem2;
    }

    static lemma RunsListed(t: Tx, f: File, root: Ref, off: nat)
      requires Runs(t, f, root, off)
      ensures BlocksOk(t.blks) && IsInode(t.blks, root) && Locate(off).Ok()
    {
    }

    static lemma RunsIs(t: Tx, f: File, root: Ref, off: nat)
      requires Runs(t, f, root, off)
      ensures Books(t) && BlocksOk(t.blks) && Shaped(t.blks, f) && OwnPages(t.blks, f.ino, f.rem, t.was, t.chain) && off < ADDRESSABLE
      ensures if f.offset >= 0 then Holds(t.blks, t.rest, f) else Rests(t.blks, t.rest, f)
      ensures Outside(t.blks, root, off, f.rem)
    {
    }

    static lemma RebasedParts(t: Tx, rem: multiset<LogAddr>, pages: multiset<LogAddr>, b2: Blocks, l2: map<LogAddr, Ref>, tree: multiset<LogAddr>)
      ensures var u := Rebased(t, rem, pages, b2, l2, tree);
              u.blks == b2 && u.links == l2 && u.prev == t.prev && u.votes == t.votes && u.chain == t.chain && u.was == tree
    {
    }

    /** What commitTransaction writes: the new root lists the file's new inode,
        which leads every path where the transaction saw it lead; every other
        file is listed as before; and rest' is everything below the new root. */
    static ghost predicate FileCommitted(b: Blocks, f: File, max: nat, root0: Ref, off: nat,
                                         b': Blocks, rest': multiset<LogAddr>, root: Ref)
      requires BlocksOk(b) && BlocksOk(b') && Shaped(b, f) && IsInode(b, root0) && off < ADDRESSABLE && Locate(off).Ok()
    {
      && IsInode(b', root) && rest' == InodePages(b', root, true)
      && (forall l: Loc {:trigger Walk(l)} :: Walk(l) && l.Ok() && l != Locate(off) ==>
            Resolve(b', InodeAt(b', root), l) == Resolve(b, InodeAt(b, root0), l))
      && var file := Resolve(b', InodeAt(b', root), Locate(off));
      && IsInode(b', file)
      && InodeAt(b', file).size == SizeOf(b, f, max) && InodeAt(b', file).data == Current(b, f).data
      && SavedAs(b, f, b', file)
    }

    /** The writes of commitTransaction, up to its first checkpoint. */
    method Commit(root0: LogAddr, inoNum: nat) returns (ok: bool)
      requires Ready() && !inode0 && 0 < inoNum && SlotOf(inoNum) < ADDRESSABLE
      requires Outside(blks, Some(root0), SlotOf(inoNum), rem)
      modifies `blks, `links, `prev, `votsBuf, `chain, `rest, `inoAddr, `indirect, `fileOffset, `maxWritten, `inode0, `sparse, `rem, `room
      ensures !ok ==> room == 0 || SlotOf(inoNum) >= MAX_FILE_SIZE
      ensures old(Credit()) >= PathCost(old(fileOffset)) + PathCost(SlotOf(inoNum)) + (REFS_PER_BLOCK - 1) && SlotOf(inoNum) < MAX_FILE_SIZE ==> ok
      ensures ok ==> Credit() >= old(Credit()) - (PathCost(old(fileOffset)) + PathCost(SlotOf(inoNum)) + (REFS_PER_BLOCK - 1))
      ensures Books(Now()) && Metered() && BlocksOk(blks) && Grew(old(Now()), Now())
      ensures ok ==> FileCommitted(old(blks), old(TheFile()), old(maxWritten), Some(root0), SlotOf(inoNum), blks, rest, inoAddr)
      ensures ok ==> Ledger(blks, InodePages(blks, inoAddr, true), chain, was)
    {
      hide Books, InodePages, Holds, OwnPages, View, Grew, FileCommitted, Committed, SameListing, Ledger, Resolve, Outside, BlocksOk, IsInode;
      OutsideRoot(blks, Some(root0), SlotOf(inoNum), rem);
      ghost var t0, b, f, max := Now(), blks, TheFile(), maxWritten;
      ok := CommitInode();
      ghost var t1, b1, r1, f1 := Now(), blks, rest, TheFile();
      GrewOver(t0, t1, t1);
      if !ok { return; }
      OutsideKept(b, b1, Some(root0), SlotOf(inoNum), rem);
      OutsideRoot(b1, Some(root0), SlotOf(inoNum), rem);
      if fileOffset >= 0 {
        CommittedRests(b, f, max, b1, r1, f1);
      }
      ok := EnterAndFlush(b, f, max, b1, r1, f1, root0, inoNum);
      GrewOver(t0, t1, Now());
    }

    static lemma OutsideRoot(b: Blocks, root: Ref, off: nat, rem: multiset<LogAddr>)
      requires off < ADDRESSABLE && Outside(b, root, off, rem)
      ensures BlocksOk(b) && IsInode(b, root) && Locate(off).Ok()
    {
    }

    static lemma CommittedRests(b: Blocks, f: File, max: nat, b1: Blocks, r1: multiset<LogAddr>, f1: File)
      requires BlocksOk(b) && BlocksOk(b1) && Shaped(b, f) && f.offset >= 0 && Committed(b, f, max, b1, r1, f1)
      ensures Rests(b1, r1, f1)
    {
    }

    method EnterAndFlush(ghost b: Blocks, ghost f: File, ghost max: nat, ghost b1: Blocks, ghost r1: multiset<LogAddr>,
                         ghost f1: File, root0: LogAddr, inoNum: nat)
      returns (ok: bool)
      requires Valid() && b1 == blks && r1 == rest && f1 == TheFile() && Rests(b1, r1, f1) && !f.root && !inode0
      requires 0 < inoNum && SlotOf(inoNum) < ADDRESSABLE && BlocksOk(b) && Extends(b, b1) && Shaped(b, f)
      requires if f.offset >= 0 then Committed(b, f, max, b1, r1, f1) else f1 == f && b1 == b
      requires IsInode(b, Some(root0)) && Outside(b1, Some(root0), SlotOf(inoNum), rem)
      requires SameListing(b, b1, Some(root0))
      modifies `blks, `links, `prev, `votsBuf, `chain, `rest, `inoAddr, `indirect, `fileOffset, `maxWritten, `inode0, `sparse, `rem, `room
      ensures !ok ==> room == 0 || SlotOf(inoNum) >= MAX_FILE_SIZE
      ensures old(Credit()) >= PathCost(SlotOf(inoNum)) + (REFS_PER_BLOCK - 1) && SlotOf(inoNum) < MAX_FILE_SIZE ==> ok
      ensures ok ==> Credit() >= old(Credit()) - (PathCost(SlotOf(inoNum)) + (REFS_PER_BLOCK - 1))
      ensures Books(Now()) && Metered() && BlocksOk(blks) && Extends(b, blks) && Grew(old(Now()), Now())
      ensures ok ==> FileCommitted(b, f, max, Some(root0), SlotOf(inoNum), blks, rest, inoAddr)
      ensures ok ==> Ledger(blks, rest, chain, was)
    {
      AllWithin();
      ok := CommitInodeToInode0(root0, inoNum);
      if !ok { return; }
      ghost var b2, r2 := blks, rest;
      AllWithin();
      ok := FinishVotes();
      if ok {
        WholeCommit(b, f, max, b1, r1, f1, b2, r2, blks, Some(root0), SlotOf(inoNum), inoAddr);
      }
    }

    /** The last, partly filled vote page of commitTransaction. */
    method FinishVotes() returns (ok: bool)
      requires Books(Now()) && Metered() && BlocksOk(blks)
      modifies `blks, `links, `prev, `votsBuf, `chain, `room
      ensures !ok ==> room == 0
      ensures old(Credit()) >= REFS_PER_BLOCK - 1 ==> ok
      ensures ok ==> Credit() >= old(Credit()) - (REFS_PER_BLOCK - 1)
      ensures Books(Now()) && Metered() && BlocksOk(blks) && Grew(old(Now()), Now())
      ensures ok <==> old(votsBuf) == [] || old(room) > 0
      ensures ok ==> votsBuf == [] && room == old(room) - if old(votsBuf) == [] then 0 else 1
      ensures ok ==> Ledger(blks, rest, chain, was)
    {
      ok := true;
      if votsBuf != [] {
        ok := FlushVotes();
      }
      if ok {
        BooksClose(Now());
      }
    }

    /** The inode at root lists the same files. */
    static ghost predicate SameListing(b: Blocks, b': Blocks, root: Ref)
      requires BlocksOk(b) && BlocksOk(b') && IsInode(b, root) && IsInode(b', root)
    {
      forall l: Loc {:trigger Walk(l)} :: Walk(l) && l.Ok() ==>
        Resolve(b', InodeAt(b', root), l) == Resolve(b, InodeAt(b, root), l)
    }

    static lemma WholeCommit(b: Blocks, f: File, max: nat, b1: Blocks, r1: multiset<LogAddr>, f1: File,
                             b2: Blocks, r2: multiset<LogAddr>, b': Blocks, root0: Ref, off: nat, root: Ref)
      requires BlocksOk(b) && BlocksOk(b1) && BlocksOk(b2) && BlocksOk(b')
      requires Extends(b, b1) && Extends(b1, b2) && Extends(b2, b') && Shaped(b, f) && !f.root && Rests(b1, r1, f1)
      requires if f.offset >= 0 then Committed(b, f, max, b1, r1, f1) else f1 == f && b1 == b
      requires IsInode(b, root0) && IsInode(b1, root0) && off < ADDRESSABLE && Locate(off).Ok()
      requires SameListing(b, b1, root0)
      requires NewRoot(b1, root0, off, f1.ino, b2, r2, root) && Within(r2, b2) && Within(r1, b1)
      ensures FileCommitted(b, f, max, root0, off, b', r2, root)
    {
      LookSettled(b1, r1, f1);
      WithinPart(InodePages(b1, f1.ino, false), r1, b1);
      TreeKept(b2, b', root, true);
      TreeKept(b1, b', f1.ino, false);
      assert Walk(Locate(off));
      FileSaved(b, f, max, b1, r1, f1, b');
    }

    static lemma FileSaved(b: Blocks, f: File, max: nat, b1: Blocks, r1: multiset<LogAddr>, f1: File, b': Blocks)
      requires BlocksOk(b) && BlocksOk(b1) && BlocksOk(b') && Shaped(b, f) && IsInode(b1, f1.ino) && IsInode(b', f1.ino)
      requires if f.offset >= 0 then Committed(b, f, max, b1, r1, f1) else f1 == f && b1 == b
      requires InodeAt(b', f1.ino) == InodeAt(b1, f1.ino)
      requires forall l: Loc {:trigger Walk(l)} :: Walk(l) && l.Ok() ==>
        Resolve(b', InodeAt(b1, f1.ino), l) == Resolve(b1, InodeAt(b1, f1.ino), l)
      ensures InodeAt(b', f1.ino).size == SizeOf(b, f, max) && InodeAt(b', f1.ino).data == Current(b, f).data
      ensures SavedAs(b, f, b', f1.ino)
    {
    }

    // ----- several files in one transaction

    /** createNewFile: a transaction whose buffer is the inode of a file that
        inode0 does not list yet. */
    constructor ForNewFile(b: Blocks, l: map<LogAddr, Ref>, root: LogAddr, ino: Inode, dir: bool, free: nat,
                           ghost slot: nat, ghost tree: multiset<LogAddr>)
      requires BlocksOk(b) && IsInode(b, Some(root)) && IsTree(b, Some(root), tree) && Within(tree, b) && Once(tree)
      requires INODE_DATA_SIZE <= slot < ADDRESSABLE && Locate(slot).Ok()
      requires Resolve(b, InodeAt(b, Some(root)), Locate(slot)) == None
      requires ino.Ok() && NoPages(ino)
      ensures Ready() && !inode0 && fileOffset == 0 && Now() == FirstTx(b, l, tree) && room == quota == free && sparse == dir
      ensures indirect == InodeBlk(ino) && maxWritten == 0 && Outside(b, Some(root), slot, rem)
    {
      OutsideNothing(b, Some(root), slot, tree);
      NewFileHeld(b, tree, File(None, InodeBlk(ino), 0, false, tree));
      blks, links, prev, votsBuf, chain := b, l, None, [], [];
      inoAddr, indirect, fileOffset, maxWritten, sparse, inode0 := None, InodeBlk(ino), 0, 0, dir, false;
      rest, base, was, rem := tree, b, tree, tree;
      room, quota := free, free;
      new;
      FirstBooks(Now());
    }

    /** setNewInode for a regular file: no page is referenced. */
    static predicate NoPages(ino: Inode) {
      && ino.indirect == None && ino.double == None && ino.triple == None
      && forall i :: 0 <= i < |ino.direct| ==> ino.direct[i] == None
    }

    static lemma OutsideNothing(b: Blocks, root: Ref, off: nat, tree: multiset<LogAddr>)
      requires BlocksOk(b) && IsInode(b, root) && IsTree(b, root, tree)
      requires INODE_DATA_SIZE <= off < ADDRESSABLE && Locate(off).Ok()
      requires Resolve(b, InodeAt(b, root), Locate(off)) == None
      ensures Outside(b, root, off, tree)
    {
      assert Reached(root);
      assert tree + multiset{} == tree;
    }

    static lemma NewFileHeld(b: Blocks, rest: multiset<LogAddr>, f: File)
      requires BlocksOk(b) && Within(rest, b) && f.offset == 0 && f.ino == None && f.rem == rest
      requires f.active.InodeBlk? && f.active.ino.Ok() && NoPages(f.active.ino)
      ensures Holds(b, rest, f)
    {
      NothingUnder(b, f.active.ino.direct, 0, f.root);
      assert InodeUnder(b, f.active.ino, f.root) == multiset{};
      assert f.rem + (multiset{} + multiset{}) == rest;
    }

    /** After commitInodeToInode0 the transaction goes on with another file, as
        the new root lists it. */
    method Reopen(root: LogAddr, inoNum: nat, dir: bool)
      requires Valid() && IsInode(blks, Some(root)) && IsTree(blks, Some(root), rest)
      requires 0 < inoNum && SlotOf(inoNum) < ADDRESSABLE && Locate(SlotOf(inoNum)).Ok()
      requires IsInode(blks, Resolve(blks, InodeAt(blks, Some(root)), Locate(SlotOf(inoNum))))
      modifies `inoAddr, `fileOffset, `maxWritten, `inode0, `sparse, `rem
      ensures Ready() && !inode0 && fileOffset < 0 && maxWritten == 0 && sparse == dir
      ensures inoAddr == Resolve(blks, InodeAt(blks, Some(root)), Locate(SlotOf(inoNum)))
      ensures Outside(blks, Some(root), SlotOf(inoNum), rem)
    {
      ghost var t := Now();
      var file := Resolve(blks, InodeAt(blks, Some(root)), Locate(SlotOf(inoNum)));
      ghost var m := TakeOut(blks, rest, Some(root), SlotOf(inoNum), indirect);
      SwitchTo(file, dir, m);
      assert Now() == t;
      OwnSettled(t, TheFile());
    }

    method SwitchTo(file: Ref, dir: bool, ghost m: multiset<LogAddr>)
      modifies `inoAddr, `fileOffset, `maxWritten, `inode0, `sparse, `rem
      ensures TheFile() == File(file, indirect, -1, false, m) && maxWritten == 0 && sparse == dir
    {
      inoAddr, fileOffset, maxWritten, inode0, sparse, rem := file, -1, 0, false, dir, m;
    }

    /** The pages outside one listed file. */
    static lemma TakeOut(b: Blocks, rest: multiset<LogAddr>, root: Ref, off: nat, active: Blk) returns (m: multiset<LogAddr>)
      requires BlocksOk(b) && IsInode(b, root) && IsTree(b, root, rest)
      requires INODE_DATA_SIZE <= off < ADDRESSABLE && Locate(off).Ok()
      requires IsInode(b, Resolve(b, InodeAt(b, root), Locate(off)))
      ensures Outside(b, root, off, m)
      ensures Rests(b, rest, File(Resolve(b, InodeAt(b, root), Locate(off)), active, -1, false, m))
    {
      assert Reached(root);
      FileInRoot(b, root, Locate(off));
      var n := InodePages(b, Resolve(b, InodeAt(b, root), Locate(off)), false);
      m := rest - n;
      assert m + n == rest;
    }
  }

  // ----- creating a file

  /** inode0 can list a file with this number. */
  predicate Slot(n: nat)
    requires 0 < n
  {
    Transaction.SlotOf(n) < ADDRESSABLE && Locate(Transaction.SlotOf(n)).Ok()
  }

  /** What inode0 at root lists under a file number. */
  function Listed(b: Blocks, root: Ref, n: nat): Ref
    requires BlocksOk(b) && IsInode(b, root) && 0 < n && Slot(n)
  {
    Resolve(b, InodeAt(b, root), Locate(Transaction.SlotOf(n)))
  }

  function Place(n: nat): Loc
    requires 0 < n && Slot(n)
  {
    Locate(Transaction.SlotOf(n))
  }

  /** The second inode lists what the first one lists, but for the places named. */
  ghost predicate ListsElse(b: Blocks, root: Ref, but: set<Loc>, b2: Blocks, root2: Ref)
    requires BlocksOk(b) && BlocksOk(b2) && IsInode(b, root) && IsInode(b2, root2)
  {
    forall l: Loc {:trigger Walk(l)} :: Walk(l) && l.Ok() && l !in but ==>
      Resolve(b2, InodeAt(b2, root2), l) == Resolve(b, InodeAt(b, root), l)
  }

  lemma ListsOver(b: Blocks, root: Ref, n: Loc, b1: Blocks, root1: Ref, m: Loc, b2: Blocks, root2: Ref)
    requires BlocksOk(b) && BlocksOk(b1) && BlocksOk(b2) && IsInode(b, root) && IsInode(b1, root1) && IsInode(b2, root2)
    requires ListsElse(b, root, {n}, b1, root1) && ListsElse(b1, root1, {m}, b2, root2)
    ensures ListsElse(b, root, {n, m}, b2, root2)
  {
    hide Resolve;
  }

  lemma SlotsDiffer(m: nat, n: nat)
    requires 0 < m && 0 < n && m != n && Slot(m) && Slot(n)
    ensures Locate(Transaction.SlotOf(m)) != Locate(Transaction.SlotOf(n))
  {
    LocateStart(Transaction.SlotOf(m));
    LocateStart(Transaction.SlotOf(n));
  }

  /** The new root lists the new file, and other files as the old root did. */
  lemma NewRootLists(b: Blocks, root0: Ref, n: nat, file: Ref, b': Blocks, rest': multiset<LogAddr>, root: Ref, m: nat)
    requires BlocksOk(b) && BlocksOk(b') && Extends(b, b') && IsInode(b, root0) && 0 < n && 0 < m && m != n && Slot(n) && Slot(m)
    requires Transaction.NewRoot(b, root0, Transaction.SlotOf(n), file, b', rest', root) && Within(rest', b')
    ensures IsInode(b', root) && Transaction.IsTree(b', root, rest')
    ensures Listed(b', root, n) == file && Listed(b', root, m) == Listed(b, root0, m)
  {
    SlotsDiffer(m, n);
    assert Walk(Locate(Transaction.SlotOf(n))) && Walk(Locate(Transaction.SlotOf(m)));
  }

  /** The inode at a is that of a new file. */
  predicate NewInodeOf(b: Blocks, a: Ref, ino: Inode)
    requires BlocksOk(b) && IsInode(b, a)
  {
    InodeAt(b, a) == ino
  }

  lemma NewPage(t: Transaction, ino: Inode)
    requires BlocksOk(t.blks) && t.PageIs(InodeBlk(ino.(size := Transaction.NewSize(ino.size, 0, 0))))
    ensures IsInode(t.blks, t.inoAddr) && InodeAt(t.blks, t.inoAddr) == ino
  {
  }

  /** Room for so many pages and an empty buffer of votes. */
  function StartCredit(free: nat): int { REFS_PER_BLOCK * free + (REFS_PER_BLOCK - 1) }

  /** createNewFile: the new inode is written. */
  method StartFile(b: Blocks, l: map<LogAddr, Ref>, root: LogAddr, inoNum: nat, ino: Inode, dirNum: nat, free: nat,
                   ghost tree: multiset<LogAddr>)
    returns (ok: bool, t: Transaction)
    requires BlocksOk(b) && IsInode(b, Some(root)) && Transaction.IsTree(b, Some(root), tree) && Within(tree, b) && Once(tree)
    requires 0 < inoNum && 0 < dirNum && inoNum != dirNum && Slot(inoNum) && Slot(dirNum)
    requires Listed(b, Some(root), inoNum) == None
    requires ino.Ok() && Transaction.NoPages(ino)
    ensures fresh(t) && t.was == tree && t.quota == free && Books(t.Now()) && t.Metered() && BlocksOk(t.blks) && Extends(b, t.blks)
    ensures !ok ==> t.room == 0
    ensures StartCredit(free) >= Transaction.PathCost(0) ==> ok
    ensures ok ==> t.Credit() >= StartCredit(free) - Transaction.PathCost(0)
    ensures ok ==> t.Valid() && Rests(t.blks, t.rest, t.TheFile()) && !t.inode0
    ensures ok ==> Outside(t.blks, Some(root), Transaction.SlotOf(inoNum), t.rem) && IsInode(t.blks, Some(root))
    ensures ok ==> Listed(t.blks, Some(root), dirNum) == Listed(b, Some(root), dirNum)
    ensures ok ==> IsInode(t.blks, t.inoAddr) && NewInodeOf(t.blks, t.inoAddr, ino)
    ensures Grew(FirstTx(b, l, tree), t.Now()) && (ok ==> Transaction.SameListing(b, t.blks, Some(root)))
  {
    t := new Transaction.ForNewFile(b, l, root, ino, false, free, Transaction.SlotOf(inoNum), tree);
    hide Books, Holds, Rests, Outside, Transaction.IsTree, Transaction.Committed, Listed, Slot,
      InodePages, BlocksOk, Grew, IsInode, InodeAt, NewInodeOf;
    ghost var t0, f0 := t.Now(), t.TheFile();
    ok := t.CommitInode();
    GrewOver(t0, t.Now(), t.Now());
    if ok {
      NewPage(t, ino);
      BeforeListing(b, f0, t.blks, t.rest, t.TheFile(), Some(root), inoNum, dirNum, ino);
    }
  }

  /** What the new inode and its listing take, and the directory's part: its block and both of its
      paths, and the last votes. */
  function NewInodeCost(inoNum: nat): nat
    requires 0 < inoNum
  {
    Transaction.PathCost(0) + Transaction.PathCost(Transaction.SlotOf(inoNum))
  }

  function DirectoryCost(dirNum: nat, off: nat): nat
    requires 0 < dirNum
  {
    (REFS_PER_BLOCK + 1) + Transaction.PathCost(off) + Transaction.PathCost(Transaction.SlotOf(dirNum)) + (REFS_PER_BLOCK - 1)
  }

  predicate InRange(inoNum: nat, dirNum: nat, off: nat)
    requires 0 < inoNum && 0 < dirNum
  {
    Transaction.SlotOf(inoNum) < MAX_FILE_SIZE && Transaction.SlotOf(dirNum) < MAX_FILE_SIZE && off < MAX_FILE_SIZE
  }

  /** createNewFile, up to the first copy of inode0. */
  method WriteNewInode(b: Blocks, l: map<LogAddr, Ref>, root: LogAddr, inoNum: nat, ino: Inode, dirNum: nat, free: nat,
                       ghost tree: multiset<LogAddr>)
    returns (ok: bool, t: Transaction)
    requires BlocksOk(b) && IsInode(b, Some(root)) && Transaction.IsTree(b, Some(root), tree) && Within(tree, b) && Once(tree)
    requires 0 < inoNum && 0 < dirNum && inoNum != dirNum && Slot(inoNum) && Slot(dirNum)
    requires Listed(b, Some(root), inoNum) == None && IsInode(b, Listed(b, Some(root), dirNum))
    requires ino.Ok() && Transaction.NoPages(ino)
    ensures fresh(t) && t.was == tree && t.quota == free && Books(t.Now()) && t.Metered() && BlocksOk(t.blks) && Extends(b, t.blks)
    ensures !ok ==> t.room == 0 || Transaction.SlotOf(inoNum) >= MAX_FILE_SIZE
    ensures StartCredit(free) >= NewInodeCost(inoNum) && Transaction.SlotOf(inoNum) < MAX_FILE_SIZE ==> ok
    ensures ok ==> t.Credit() >= StartCredit(free) - NewInodeCost(inoNum)
    ensures ok ==> t.Valid() && IsInode(t.blks, t.inoAddr) && Transaction.IsTree(t.blks, t.inoAddr, t.rest)
    ensures ok ==> Listed(t.blks, t.inoAddr, dirNum) == Listed(b, Some(root), dirNum)
    ensures ok ==> IsInode(t.blks, Listed(t.blks, t.inoAddr, dirNum))
    ensures ok ==> IsInode(t.blks, Listed(t.blks, t.inoAddr, inoNum)) && NewInodeOf(t.blks, Listed(t.blks, t.inoAddr, inoNum), ino)
    ensures Grew(FirstTx(b, l, tree), t.Now()) && (ok ==> ListsElse(b, Some(root), {Place(inoNum)}, t.blks, t.inoAddr))
  {
    hide ListsElse, Place, Transaction.SameListing, FirstTx, Books, Holds, Rests, Outside, Transaction.IsTree, Transaction.NewRoot, Transaction.Committed, Listed,
      InodePages, BlocksOk, Grew, IsInode, InodeAt, NewInodeOf;
    ok, t := StartFile(b, l, root, inoNum, ino, dirNum, free, tree);
    if !ok { return; }
    ghost var t1, file := t.Now(), t.inoAddr;
    ok := t.CommitInodeToInode0(root, inoNum);
    GrewOver(t1, t.Now(), t.Now());
    GrewOver(FirstTx(b, l, tree), t1, t.Now());
    ExtendsOver(b, t1.blks, t.blks);
    if ok {
      t.AllWithin();
      FileListed(b, t1.blks, t.blks, t.rest, root, inoNum, dirNum, file, t.inoAddr, ino);
    }
  }

  lemma RootListsElse(b: Blocks, b1: Blocks, root: Ref, n: nat, file: Ref, b2: Blocks, rest: multiset<LogAddr>, root2: Ref)
    requires BlocksOk(b) && BlocksOk(b1) && BlocksOk(b2) && IsInode(b, root) && IsInode(b1, root) && 0 < n && Slot(n)
    requires Transaction.SameListing(b, b1, root) && Transaction.NewRoot(b1, root, Transaction.SlotOf(n), file, b2, rest, root2)
    ensures IsInode(b2, root2) && ListsElse(b, root, {Place(n)}, b2, root2)
  {
    hide Resolve, InodePages;
  }

  lemma FileListed(b: Blocks, b1: Blocks, b2: Blocks, rest: multiset<LogAddr>, root: LogAddr, inoNum: nat, dirNum: nat,
                   file: Ref, root2: Ref, ino: Inode)
    requires BlocksOk(b) && BlocksOk(b1) && BlocksOk(b2) && Extends(b, b1) && Extends(b1, b2) && Extends(b, b2)
    requires 0 < inoNum && 0 < dirNum && inoNum != dirNum && Slot(inoNum) && Slot(dirNum)
    requires IsInode(b, Some(root)) && IsInode(b1, Some(root)) && IsInode(b, Listed(b, Some(root), dirNum))
    requires Listed(b1, Some(root), dirNum) == Listed(b, Some(root), dirNum) && Transaction.SameListing(b, b1, Some(root))
    requires IsInode(b1, file) && NewInodeOf(b1, file, ino)
    requires Transaction.NewRoot(b1, Some(root), Transaction.SlotOf(inoNum), file, b2, rest, root2) && Within(rest, b2)
    ensures IsInode(b2, root2) && Transaction.IsTree(b2, root2, rest)
    ensures Listed(b2, root2, dirNum) == Listed(b, Some(root), dirNum) && IsInode(b2, Listed(b2, root2, dirNum))
    ensures IsInode(b2, Listed(b2, root2, inoNum)) && NewInodeOf(b2, Listed(b2, root2, inoNum), ino)
    ensures ListsElse(b, Some(root), {Place(inoNum)}, b2, root2)
  {
    RootListsElse(b, b1, Some(root), inoNum, file, b2, rest, root2);
    hide ListsElse, Transaction.SameListing, Transaction.NewRoot, Transaction.IsTree, Listed, NewInodeOf, InodePages, InodeAt, IsInode;
    NewRootLists(b1, Some(root), inoNum, file, b2, rest, root2, dirNum);
    StaysInode(b, b2, Listed(b, Some(root), dirNum));
    StaysInode(b1, b2, file);
    SameNewInode(b1, b2, file, ino);
  }

  /** The new inode is on flash, and nothing else has changed. */
  lemma BeforeListing(b: Blocks, f: File, b1: Blocks, rest1: multiset<LogAddr>, f1: File, root: Ref, n: nat, dirNum: nat, ino: Inode)
    requires BlocksOk(b) && BlocksOk(b1) && Extends(b, b1) && Shaped(b, f) && f.offset == 0 && f.active == InodeBlk(ino)
    requires 0 < n && 0 < dirNum && n != dirNum && Slot(n) && Slot(dirNum) && IsInode(b, root)
    requires Transaction.Committed(b, f, 0, b1, rest1, f1) && Outside(b, root, Transaction.SlotOf(n), f.rem) && InodeAt(b1, f1.ino) == ino
    ensures Outside(b1, root, Transaction.SlotOf(n), f1.rem) && Rests(b1, rest1, f1) && IsInode(b1, root)
    ensures Listed(b1, root, dirNum) == Listed(b, root, dirNum) && !f1.root == !f.root
    ensures IsInode(b1, f1.ino) && NewInodeOf(b1, f1.ino, ino) && Transaction.SameListing(b, b1, root)
  {
    Transaction.OutsideKept(b, b1, root, Transaction.SlotOf(n), f.rem);
    assert Walk(Locate(Transaction.SlotOf(dirNum)));
  }

  lemma StaysInode(b: Blocks, b': Blocks, a: Ref)
    requires BlocksOk(b) && BlocksOk(b') && Extends(b, b') && IsInode(b, a)
    ensures IsInode(b', a) && InodeAt(b', a) == InodeAt(b, a)
  {
  }

  lemma SameNewInode(b: Blocks, b': Blocks, a: Ref, ino: Inode)
    requires BlocksOk(b) && BlocksOk(b') && IsInode(b, a) && IsInode(b', a) && InodeAt(b', a) == InodeAt(b, a)
    requires NewInodeOf(b, a, ino)
    ensures NewInodeOf(b', a, ino)
  {
  }

  lemma TreeWithin(b: Blocks, root: Ref, tree: multiset<LogAddr>)
    requires Transaction.IsTree(b, root, tree)
    ensures Within(InodePages(b, root, true), b)
  {
    assert Reached(root);
  }

  /** createNewFile: the new inode is listed in a first copy of inode0; then the
      directory, as that copy lists it, gets a block with the new entry and is
      committed into a second copy. The books balance from the old root to the
      last copy. */
  method CreateFile(b: Blocks, l: map<LogAddr, Ref>, root: LogAddr, inoNum: nat, ino: Inode,
                    dirNum: nat, off: nat, entry: Block, free: nat, ghost tree: multiset<LogAddr>)
    returns (ok: bool, t: Transaction)
    requires BlocksOk(b) && IsInode(b, Some(root)) && Transaction.IsTree(b, Some(root), tree) && Within(tree, b) && Once(tree)
    requires 0 < inoNum && 0 < dirNum && inoNum != dirNum && Slot(inoNum) && Slot(dirNum) && INODE_DATA_SIZE <= off
    requires Listed(b, Some(root), inoNum) == None && IsInode(b, Listed(b, Some(root), dirNum))
    requires ino.Ok() && Transaction.NoPages(ino)
    ensures fresh(t) && t.was == tree && t.quota == free && Books(t.Now()) && t.Metered() && BlocksOk(t.blks) && Extends(b, t.blks)
    ensures !ok ==> t.room == 0 || Transaction.SlotOf(inoNum) >= MAX_FILE_SIZE || Transaction.SlotOf(dirNum) >= MAX_FILE_SIZE || off >= MAX_FILE_SIZE
    ensures StartCredit(free) >= NewInodeCost(inoNum) + DirectoryCost(dirNum, off) && InRange(inoNum, dirNum, off) ==> ok
    ensures ok ==> t.Credit() >= StartCredit(free) - (NewInodeCost(inoNum) + DirectoryCost(dirNum, off))
    ensures ok ==> IsInode(t.blks, t.inoAddr) && off < ADDRESSABLE && IsInode(t.blks, Listed(t.blks, t.inoAddr, dirNum))
    ensures ok ==> EntryWritten(b, Listed(b, Some(root), dirNum), off, entry, t.blks, Listed(t.blks, t.inoAddr, dirNum))
    ensures ok ==> IsInode(t.blks, t.inoAddr) && Ledger(t.blks, InodePages(t.blks, t.inoAddr, true), t.chain, tree)
    ensures ok ==> IsInode(t.blks, Listed(t.blks, t.inoAddr, inoNum)) && NewInodeOf(t.blks, Listed(t.blks, t.inoAddr, inoNum), ino)
    ensures Grew(FirstTx(b, l, tree), t.Now())
    ensures ok ==> ListsElse(b, Some(root), {Place(inoNum), Place(dirNum)}, t.blks, t.inoAddr)
  {
    ok, t := WriteNewInode(b, l, root, inoNum, ino, dirNum, free, tree);
    if !ok { return; }
    hide ListsElse, Place, Grew, FirstTx, Books, Transaction.IsTree, Listed, Slot, InodePages, BlocksOk, IsInode, InodeAt, NewInodeOf, Ledger;
    HasAddress(t.blks, t.inoAddr);
    ghost var t1, root1, b1, file := t.Now(), t.inoAddr, t.blks, Listed(t.blks, t.inoAddr, inoNum);
    ok := FillDirectory(t, t.inoAddr.value, dirNum, off, entry, inoNum);
    ExtendsOver(b, b1, t.blks);
    GrewOver(FirstTx(b, l, tree), t1, t.Now());
    if ok {
      TreeWithin(b, Some(root), tree);
      EntryLater(b, Some(root), dirNum, b1, Listed(b, Some(root), dirNum), off, entry, t.blks, Listed(t.blks, t.inoAddr, dirNum));
      ListsOver(b, Some(root), Place(inoNum), b1, root1, Place(dirNum), t.blks, t.inoAddr);
      StaysInode(b1, t.blks, file);
      SameNewInode(b1, t.blks, file, ino);
    }
  }

  /** The second inode is the first one with an entry's block at off: a page with the entry there,
      everything else as it was, and a size that covers the block. */
  ghost predicate EntryWritten(b: Blocks, dir: Ref, off: nat, entry: Block, b2: Blocks, dir2: Ref)
    requires BlocksOk(b) && BlocksOk(b2) && IsInode(b, dir) && IsInode(b2, dir2) && off < ADDRESSABLE
  {
    var ino, ino2 := InodeAt(b, dir), InodeAt(b2, dir2);
    && Locate(off).Ok()
    && (var a := Resolve(b2, ino2, Locate(off)); a.Some? && a.value in b2 && b2[a.value] == Data(entry))
    && (forall l: Loc {:trigger Walk(l)} :: Walk(l) && l.Ok() && l != Locate(off) ==> Resolve(b2, ino2, l) == Resolve(b, ino, l))
    && ino2.data == ino.data && ino2.size == if off + 512 > ino.size then off + 512 else ino.size
  }

  /** The block that the transaction saw is in the directory that it has committed. */
  lemma EntryCommitted(b: Blocks, f: File, off: nat, entry: Block, r: Ref, b1: Blocks, f1: File, max1: nat,
                       b2: Blocks, rest2: multiset<LogAddr>, root0: Ref, n: nat, root: Ref)
    requires BlocksOk(b) && BlocksOk(b1) && BlocksOk(b2) && Extends(b1, b2) && Shaped(b, f) && Shaped(b1, f1)
    requires f.offset < 0 && off < ADDRESSABLE && 0 < n && Slot(n) && IsInode(b1, root0)
    requires Transaction.BlockWritten(b, f, 0, off, 512, Some(entry), r, b1, f1, max1)
    requires Transaction.FileCommitted(b1, f1, max1, root0, Transaction.SlotOf(n), b2, rest2, root)
    ensures IsInode(b, f.ino) && IsInode(b2, root) && IsInode(b2, Listed(b2, root, n))
    ensures EntryWritten(b, f.ino, off, entry, b2, Listed(b2, root, n))
  {
    hide Resolve, InodePages;
    LocateOk(off);
    assert Walk(Locate(off));
    var file := Listed(b2, root, n);
    forall l: Loc {:trigger Walk(l)} | Walk(l) && l.Ok()
      ensures Resolve(b2, InodeAt(b2, file), l) == if l == Locate(off) then r else Resolve(b, InodeAt(b, f.ino), l)
    {
      assert Transaction.SavedAs(b1, f1, b2, file);
    }
  }

  /** Nothing below a listed file changes when pages are added. */
  lemma EntryLater(b: Blocks, root: Ref, n: nat, b1: Blocks, dir: Ref, off: nat, entry: Block, b2: Blocks, dir2: Ref)
    requires BlocksOk(b) && BlocksOk(b1) && BlocksOk(b2) && Extends(b, b1) && 0 < n && Slot(n) && off < ADDRESSABLE
    requires IsInode(b, root) && Within(InodePages(b, root, true), b) && dir == Listed(b, root, n)
    requires IsInode(b, dir) && IsInode(b1, dir) && IsInode(b2, dir2) && EntryWritten(b1, dir, off, entry, b2, dir2)
    ensures EntryWritten(b, dir, off, entry, b2, dir2)
  {
    FileInRoot(b, root, Place(n));
    WithinPart(InodePages(b, dir, false), InodePages(b, root, true), b);
    Transaction.TreeKept(b, b1, dir, false);
  }

  lemma ActivePath(t: Transaction, off: nat)
    requires t.Ready() && t.Active(off)
    ensures Transaction.PathCost(t.fileOffset) == Transaction.PathCost(off) && off < ADDRESSABLE
  {
    hide Books, Holds, Rests, OwnPages;
    Transaction.ActiveDepth(off, t.fileOffset);
  }

  /** The directory's block with the new entry. */
  method WriteEntry(t: Transaction, root: LogAddr, dirNum: nat, off: nat, entry: Block) returns (ok: bool, ghost f: File, ghost r: Ref)
    requires t.Valid() && IsInode(t.blks, Some(root)) && Transaction.IsTree(t.blks, Some(root), t.rest)
    requires 0 < dirNum && Slot(dirNum) && INODE_DATA_SIZE <= off && IsInode(t.blks, Listed(t.blks, Some(root), dirNum))
    modifies t
    ensures t.was == old(t.was) && Books(t.Now()) && t.Metered() && BlocksOk(t.blks) && Grew(old(t.Now()), t.Now())
    ensures !ok ==> t.room == 0 || off >= MAX_FILE_SIZE
    ensures old(t.Credit()) >= REFS_PER_BLOCK + 1 && off < MAX_FILE_SIZE ==> ok
    ensures ok ==> t.Credit() >= old(t.Credit()) - (REFS_PER_BLOCK + 1)
    ensures ok ==> t.Ready() && !t.inode0 && off < ADDRESSABLE && Transaction.PathCost(t.fileOffset) == Transaction.PathCost(off)
    ensures ok ==> Outside(t.blks, Some(root), Transaction.SlotOf(dirNum), t.rem) && Outside(old(t.blks), Some(root), Transaction.SlotOf(dirNum), t.rem)
    ensures ok ==> IsInode(t.blks, Some(root))
    ensures ok ==> f.offset < 0 && f.ino == Listed(old(t.blks), Some(root), dirNum) && Shaped(old(t.blks), f) && Shaped(t.blks, t.TheFile())
    ensures ok ==> Transaction.BlockWritten(old(t.blks), f, 0, off, 512, Some(entry), r, t.blks, t.TheFile(), t.maxWritten)
  {
    hide Books, Holds, Rests, Outside, Transaction.IsTree, Transaction.BlockWritten, Listed, Slot, InodePages, IsInode, InodeAt,
      Shaped, Resolve, Locate, Grew, BlocksOk, Extends;
    ghost var t1 := t.Now();
    SlotIs(dirNum);
    ListedIs(t.blks, Some(root), dirNum);
    t.Reopen(root, dirNum, true);
    f := t.TheFile();
    ok, r := t.WriteFileBlock(off, 512, Some(entry));
    GrewOver(t1, t.Now(), t.Now());
    if ok {
      ActivePath(t, off);
      BeforeDirectory(t1.blks, t.blks, Some(root), dirNum, t.rem);
      Transaction.OutsideRoot(t.blks, Some(root), Transaction.SlotOf(dirNum), t.rem);
    }
  }

  /** The directory's part of createNewFile: a block with the new entry, and the commit. */
  method FillDirectory(t: Transaction, root: LogAddr, dirNum: nat, off: nat, entry: Block, ghost inoNum: nat) returns (ok: bool)
    requires t.Valid() && t.inoAddr == Some(root) && IsInode(t.blks, Some(root)) && Transaction.IsTree(t.blks, Some(root), t.rest)
    requires 0 < inoNum && 0 < dirNum && inoNum != dirNum && Slot(inoNum) && Slot(dirNum) && INODE_DATA_SIZE <= off
    requires IsInode(t.blks, Listed(t.blks, Some(root), dirNum))
    modifies t
    ensures t.was == old(t.was) && Books(t.Now()) && t.Metered() && BlocksOk(t.blks) && Extends(old(t.blks), t.blks)
    ensures !ok ==> t.room == 0 || Transaction.SlotOf(dirNum) >= MAX_FILE_SIZE || off >= MAX_FILE_SIZE
    ensures old(t.Credit()) >= DirectoryCost(dirNum, off) && Transaction.SlotOf(dirNum) < MAX_FILE_SIZE && off < MAX_FILE_SIZE ==> ok
    ensures ok ==> t.Credit() >= old(t.Credit()) - DirectoryCost(dirNum, off)
    ensures ok ==> off < ADDRESSABLE && IsInode(t.blks, t.inoAddr) && IsInode(t.blks, Listed(t.blks, t.inoAddr, dirNum))
    ensures ok ==> EntryWritten(old(t.blks), Listed(old(t.blks), Some(root), dirNum), off, entry,
                                t.blks, Listed(t.blks, t.inoAddr, dirNum))
    ensures ok ==> IsInode(t.blks, t.inoAddr) && Ledger(t.blks, InodePages(t.blks, t.inoAddr, true), t.chain, t.was)
    ensures ok ==> Listed(t.blks, t.inoAddr, inoNum) == Listed(old(t.blks), Some(root), inoNum)
    ensures Grew(old(t.Now()), t.Now()) && (ok ==> ListsElse(old(t.blks), Some(root), {Place(dirNum)}, t.blks, t.inoAddr))
  {
    hide ListsElse, Place, Books, Holds, Rests, Outside, Transaction.IsTree, Transaction.BlockWritten, Transaction.FileCommitted, Listed, Slot,
      InodePages, IsInode, InodeAt, Ledger, Shaped, Resolve, Locate, Grew, BlocksOk, Extends, EntryWritten, Transaction.Ready;
    ghost var t1 := t.Now();
    SlotIs(dirNum);
    ghost var f1, r;
    ok, f1, r := WriteEntry(t, root, dirNum, off, entry);
    ghost var t2 := t.Now();
    GrewOver(t1, t2, t2);
    if !ok { return; }
    ghost var f2, max2 := t.TheFile(), t.maxWritten;
    ok := t.Commit(root, dirNum);
    GrewOver(t1, t2, t.Now());
    if ok {
      EntryCommitted(t1.blks, f1, off, entry, r, t2.blks, f2, max2, t.blks, t.rest, Some(root), dirNum, t.inoAddr);
      FileStaysListed(t1.blks, t2.blks, f2, max2, t.blks, t.rest, Some(root), t.inoAddr, inoNum, dirNum);
    }
  }

  lemma SlotIs(n: nat)
    requires 0 < n && Slot(n)
    ensures Transaction.SlotOf(n) < ADDRESSABLE && Locate(Transaction.SlotOf(n)).Ok() && Transaction.SlotOf(n) >= INODE_DATA_SIZE
  {
  }

  lemma ListedIs(b: Blocks, root: Ref, n: nat)
    requires BlocksOk(b) && IsInode(b, root) && 0 < n && Slot(n)
    ensures Listed(b, root, n) == Resolve(b, InodeAt(b, root), Locate(Transaction.SlotOf(n)))
  {
  }

  lemma HasAddress(b: Blocks, a: Ref)
    requires IsInode(b, a)
    ensures a.Some?
  {
  }

  lemma BeforeDirectory(b: Blocks, b': Blocks, root: Ref, n: nat, rem: multiset<LogAddr>)
    requires BlocksOk(b') && Extends(b, b') && 0 < n && Slot(n) && Outside(b, root, Transaction.SlotOf(n), rem)
    ensures Outside(b', root, Transaction.SlotOf(n), rem)
  {
    Transaction.OutsideKept(b, b', root, Transaction.SlotOf(n), rem);
  }

  /** Committing the directory leaves the new file listed. */
  lemma FileStaysListed(b1: Blocks, b: Blocks, f: File, max: nat, b': Blocks, rest': multiset<LogAddr>, root0: Ref, root: Ref, n: nat, dirNum: nat)
    requires BlocksOk(b1) && BlocksOk(b) && BlocksOk(b') && Extends(b1, b) && Shaped(b, f) && IsInode(b1, root0) && IsInode(b, root0)
    requires 0 < n && 0 < dirNum && n != dirNum && Slot(n) && Slot(dirNum)
    requires Outside(b1, root0, Transaction.SlotOf(dirNum), f.rem)
    requires Transaction.FileCommitted(b, f, max, root0, Transaction.SlotOf(dirNum), b', rest', root)
    ensures IsInode(b', root) && Listed(b', root, n) == Listed(b1, root0, n)
    ensures ListsElse(b1, root0, {Place(dirNum)}, b', root)
  {
    Transaction.OutsideKept(b1, b, root0, Transaction.SlotOf(dirNum), f.rem);
    SlotsDiffer(n, dirNum);
    assert Walk(Locate(Transaction.SlotOf(n)));
  }
}

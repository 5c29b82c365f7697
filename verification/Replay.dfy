/** The loops that follow prev addresses: carrying out votes, deleting a transaction, and the end
    of boot. */
module Replay {
  import opened Flash
  import opened FsIndex
  import opened TxLedger
  import R = Recovery

  class Volume {
    const blks: Blocks
    const links: map<LogAddr, Ref>
    var obs: set<LogAddr>
    /** The marks made, in their order. */
    ghost var made: seq<LogAddr>

    constructor (k: R.Disk)
      ensures blks == k.blks && links == k.links && obs == k.obs && made == [] && Shown() == k
    {
      blks, links, obs, made := k.blks, k.links, k.obs, [];
    }

    ghost function Shown(): R.Disk
      reads this
    {
      R.Disk(blks, links, obs)
    }

    method MarkAsObsolete(a: LogAddr)
      modifies this
      ensures made == old(made) + [a] && Shown() == R.MarkOne(old(Shown()), a)
    {
      if a in blks {
        obs := obs + {a};
      }
      made := made + [a];
    }

    /** performVOTs */
    method PerformVots(votes: seq<LogAddr>)
      modifies this
      ensures made == old(made) + votes && Shown() == MarkEach(old(Shown()), votes)
    {
      for i := 0 to |votes|
        invariant made == old(made) + votes[..i] && Shown() == MarkEach(old(Shown()), votes[..i])
      {
        MarkAsObsolete(votes[i]);
        MarkMore(old(Shown()), votes[..i], votes[i]);
        assert votes[..i + 1] == votes[..i] + [votes[i]];
      }
      assert votes[..|votes|] == votes;
    }

    /** handleTransactionVOTs: whatever the chain is that the prev addresses lead through, its vote
        pages are carried out, each before it is marked itself. */
    method HandleTransactionVots(last: Ref, ghost chain: seq<LogAddr>)
      requires Linked(links, last, chain)
      modifies this
      ensures made == old(made) + R.VoteList(blks, chain) && Shown() == MarkEach(old(Shown()), R.VoteList(blks, chain))
    {
      var prev := last;
      ghost var left, done := chain, [];
      while prev.Some?
        invariant Linked(links, prev, left) && R.VoteList(blks, chain) == done + R.VoteList(blks, left)
        invariant made == old(made) + done && Shown() == MarkEach(old(Shown()), done)
        decreases |left|
      {
        var a := prev.value;
        prev := links[a];
        ghost var marks := if a in blks && blks[a].Vots? then blks[a].votes + [a] else [];
        if a in blks && blks[a].Vots? {
          PerformVots(blks[a].votes);
          MarkAsObsolete(a);
          MarkMore(MarkEach(old(Shown()), done), blks[a].votes, a);
        }
        MarkConcat(old(Shown()), done, marks);
        left, done := left[1..], done + marks;
      }
      assert R.VoteList(blks, chain) == done;
    }

    /** deleteTransactionPages */
    method DeleteTransactionPages(last: Ref, ghost chain: seq<LogAddr>)
      requires Linked(links, last, chain)
      modifies this
      ensures made == old(made) + chain && Shown() == MarkEach(old(Shown()), chain)
    {
      var prev := last;
      ghost var left, done := chain, [];
      while prev.Some?
        invariant Linked(links, prev, left) && chain == done + left
        invariant made == old(made) + done && Shown() == MarkEach(old(Shown()), done)
        decreases |left|
      {
        var a := prev.value;
        MarkAsObsolete(a);
        prev := links[a];
        MarkMore(old(Shown()), done, a);
        left, done := left[1..], done + [a];
      }
      assert chain == done;
    }

    /** The end of nandfs_fsBooting: the votes of the closed transaction, then the pages of every
        open transaction whose last page is not the closed one's. */
    method FinishBoot(closed: Ref, open: seq<Ref>, ghost d: R.Snap)
      requires R.SnapOk(d) && d.disk.blks == blks && d.disk.links == links && closed == R.Head(d.closed)
      requires |open| == |d.open| && forall i :: 0 <= i < |open| ==> open[i] == R.Head(d.open[i])
      modifies this
      ensures made == old(made) + (R.VoteList(blks, d.closed) + R.DeleteList(d.open, d.closed))
      ensures Shown() == MarkEach(old(Shown()), R.VoteList(blks, d.closed) + R.DeleteList(d.open, d.closed))
    {
      hide R.SnapOk, R.VoteList, R.DeleteList, MarkEach;
      SnapChains(d);
      ghost var votes, dels := R.VoteList(blks, d.closed), R.DeleteList(d.open, d.closed);
      if closed.Some? {
        HandleTransactionVots(closed, d.closed);
      } else {
        NoVotes(blks, d.closed, Shown());
      }
      MarkConcat(old(Shown()), votes, dels);
      DeleteOpen(closed, open, d.closed, d.open);
    }

    method DeleteOpen(closed: Ref, open: seq<Ref>, ghost shut: seq<LogAddr>, ghost chains: seq<seq<LogAddr>>)
      requires |open| == |chains| && closed == R.Head(shut) && Linked(links, closed, shut)
      requires forall i :: 0 <= i < |open| ==> open[i] == R.Head(chains[i]) && Linked(links, open[i], chains[i])
      modifies this
      ensures made == old(made) + R.DeleteList(chains, shut)
      ensures Shown() == MarkEach(old(Shown()), R.DeleteList(chains, shut))
    {
      hide R.DeleteList, MarkEach;
      NothingDeleted(chains, shut, Shown());
      for i := 0 to |open|
        invariant made == old(made) + R.DeleteList(chains[..i], shut)
        invariant Shown() == MarkEach(old(Shown()), R.DeleteList(chains[..i], shut))
      {
        DeleteMore(chains, shut, i);
        SameHead(links, chains[i], shut);
        if open[i] != closed {
          DeleteTransactionPages(open[i], chains[i]);
          MarkConcat(old(Shown()), R.DeleteList(chains[..i], shut), chains[i]);
        } else {
          assert R.DeleteList(chains[..i + 1], shut) == R.DeleteList(chains[..i], shut);
        }
      }
      assert chains[..|open|] == chains;
    }
  }

  /** A traversal's marks, one by one. */
  function MarkEach(k: R.Disk, todo: seq<LogAddr>): R.Disk
    decreases |todo|
  {
    if todo == [] then k else MarkEach(R.MarkOne(k, todo[0]), todo[1..])
  }

  lemma {:induction false} MarkConcat(k: R.Disk, a: seq<LogAddr>, b: seq<LogAddr>)
    ensures MarkEach(k, a + b) == MarkEach(MarkEach(k, a), b)
    decreases |a|
  {
    if a == [] {
      assert a + b == b;
    } else {
      MarkConcat(R.MarkOne(k, a[0]), a[1..], b);
      assert (a + b)[1..] == a[1..] + b;
    }
  }

  lemma MarkMore(k: R.Disk, a: seq<LogAddr>, x: LogAddr)
    ensures MarkEach(k, a + [x]) == R.MarkOne(MarkEach(k, a), x)
  {
    MarkConcat(k, a, [x]);
    assert ([x])[1..] == [];
  }

  lemma NoVotes(b: Blocks, chain: seq<LogAddr>, k: R.Disk)
    requires R.Head(chain) == None
    ensures R.VoteList(b, chain) == [] && MarkEach(k, R.VoteList(b, chain)) == k
  {
  }

  lemma NothingDeleted(open: seq<seq<LogAddr>>, closed: seq<LogAddr>, k: R.Disk)
    ensures R.DeleteList(open[..0], closed) == [] && MarkEach(k, R.DeleteList(open[..0], closed)) == k
  {
  }

  lemma SnapChains(d: R.Snap)
    requires R.SnapOk(d)
    ensures Linked(d.disk.links, R.Head(d.closed), d.closed)
    ensures forall i :: 0 <= i < |d.open| ==> Linked(d.disk.links, R.Head(d.open[i]), d.open[i])
  {
    R.LookSnap(d);
    forall i | 0 <= i < |d.open| ensures Linked(d.disk.links, R.Head(d.open[i]), d.open[i]) {
      assert R.ChainOk(d.disk, d.open[i]);
    }
  }

  /** Comparing the last pages compares the chains. */
  lemma SameHead(links: map<LogAddr, Ref>, c: seq<LogAddr>, d: seq<LogAddr>)
    requires Linked(links, R.Head(c), c) && Linked(links, R.Head(d), d)
    ensures R.Head(c) == R.Head(d) <==> c == d
  {
    if R.Head(c) == R.Head(d) {
      ChainUnique(links, R.Head(c), c, d);
    }
  }

  lemma {:induction false} DeleteMore(open: seq<seq<LogAddr>>, closed: seq<LogAddr>, i: nat)
    requires i < |open|
    ensures R.DeleteList(open[..i + 1], closed)
         == R.DeleteList(open[..i], closed) + if open[i] == closed then [] else open[i]
    decreases i
  {
    var a, b := open[..i + 1], open[..i];
    if i == 0 {
      assert a[1..] == [] && b == [];
    } else {
      DeleteMore(open[1..], closed, i - 1);
      assert a[1..] == open[1..][..i] && b[1..] == open[1..][..i - 1];
      assert a[0] == b[0] == open[0];
    }
  }

  /** The Mark steps of the recovery system do the same to its disk. */
  lemma {:induction false} MarkAllEach(s: R.Sys)
    requires s.phase.Voting? || s.phase.Aborting? || s.phase.Replaying?
    ensures R.MarkAll(s).ram.disk == MarkEach(s.ram.disk, s.phase.todo)
    decreases |s.phase.todo|
  {
    if s.phase.todo != [] {
      MarkAllEach(R.Apply(s, R.Mark));
    }
  }

  /** So the loops of boot leave the disk that Reboot describes: the tree of the last checkpoint,
      and nothing else live but leaked pages. */
  method Boot(ghost s: R.Sys, ghost lost: set<LogAddr>, k: R.Disk, closed: Ref, open: seq<Ref>) returns (v: Volume)
    requires R.Inv(s) && lost <= s.marks && k == R.Apply(s, R.Crash(lost)).ram.disk && closed == R.Head(s.dur.closed)
    requires |open| == |s.dur.open| && forall i :: 0 <= i < |open| ==> open[i] == R.Head(s.dur.open[i])
    ensures fresh(v) && v.Shown() == R.Reboot(s, lost).ram.disk
    ensures forall a :: a in R.Tree(s.dur.disk, s.dur.root) ==> a in v.Shown().Live() && a in s.dur.disk.blks && v.blks[a] == s.dur.disk.blks[a]
    ensures forall a :: a in v.Shown().Live() ==> a in R.Tree(s.dur.disk, s.dur.root) || a in s.dur.leaked
  {
    hide R.Inv, R.Tree, R.Reboot, R.SnapOk;
    R.InvSnap(s);
    R.Recovered(s, lost);
    BootMarks(s, lost);
    v := new Volume(k);
    v.FinishBoot(closed, open, s.dur);
  }

  lemma BootMarks(s: R.Sys, lost: set<LogAddr>)
    requires lost <= s.marks
    ensures R.Reboot(s, lost).ram.disk
         == MarkEach(R.Apply(s, R.Crash(lost)).ram.disk, R.VoteList(s.dur.disk.blks, s.dur.closed) + R.DeleteList(s.dur.open, s.dur.closed))
  {
    MarkAllEach(R.Apply(R.Apply(s, R.Crash(lost)), R.Replay));
  }
}

/** Transactions and crashes: the file system as a system of steps with a crash
    possible between any two of them. Layers connects it to the store. */
module Recovery {
  import opened Flash
  import opened FsIndex
  import opened FsTree
  import opened TxLedger

  // ----- pages

  /** The readable pages with their contents and prev links, and which of them
      are marked obsolete. */
  datatype Disk = Disk(blks: Blocks, links: map<LogAddr, Ref>, obs: set<LogAddr>) {
    ghost function Live(): set<LogAddr> { blks.Keys - obs }
  }

  ghost function Tree(k: Disk, root: LogAddr): multiset<LogAddr> {
    InodePages(k.blks, Some(root), true)
  }

  function Head(chain: seq<LogAddr>): Ref {
    if chain == [] then None else Some(chain[0])
  }

  // ----- traversals of prev links

  /** deleteTransactionPages and handleTransactionVOTs: the pages visited in n
      steps from a. */
  function Visited(links: map<LogAddr, Ref>, a: Ref, n: nat): seq<LogAddr>
    decreases n
  {
    if n == 0 || a.None? || a.value !in links then []
    else [a.value] + Visited(links, links[a.value], n - 1)
  }

  /** The traversal ends and visits exactly the pages of the chain. */
  lemma {:induction false} VisitedIsChain(links: map<LogAddr, Ref>, a: Ref, chain: seq<LogAddr>, n: nat)
    requires Linked(links, a, chain) && |chain| <= n
    ensures Visited(links, a, n) == chain
    decreases n
  {
    if chain != [] {
      VisitedIsChain(links, links[chain[0]], chain[1..], n - 1);
      assert chain == [chain[0]] + chain[1..];
    }
  }

  /** The marks that handleTransactionVOTs makes: at each vote page of the chain
      its votes and then the page itself. */
  function VoteList(b: Blocks, chain: seq<LogAddr>): seq<LogAddr> {
    if chain == [] then []
    else (if chain[0] in b && b[chain[0]].Vots? then b[chain[0]].votes + [chain[0]] else []) + VoteList(b, chain[1..])
  }

  lemma {:induction false} VoteListIs(b: Blocks, chain: seq<LogAddr>)
    ensures forall a :: a in VoteList(b, chain) <==> a in ChainVotes(b, chain) || a in VotePages(b, chain)
  {
    if chain != [] {
      VoteListIs(b, chain[1..]);
      forall a ensures a in VoteList(b, chain) <==> a in ChainVotes(b, chain) || a in VotePages(b, chain) {
        if chain[0] in b && b[chain[0]].Vots? {
          assert a in multiset(b[chain[0]].votes) <==> a in b[chain[0]].votes;
        }
      }
    }
  }

  lemma {:induction false} VoteListFrame(b: Blocks, b': Blocks, chain: seq<LogAddr>)
    requires forall a :: a in chain ==> a in b && a in b' && b'[a] == b[a]
    ensures VoteList(b', chain) == VoteList(b, chain)
  {
    if chain != [] {
      VoteListFrame(b, b', chain[1..]);
    }
  }

  /** Boot deletes the chains of all transactions but the closed one. */
  function DeleteList(open: seq<seq<LogAddr>>, closed: seq<LogAddr>): seq<LogAddr> {
    if open == [] then []
    else (if open[0] == closed then [] else open[0]) + DeleteList(open[1..], closed)
  }

  lemma {:induction false} DeleteListIs(open: seq<seq<LogAddr>>, closed: seq<LogAddr>, a: LogAddr)
    ensures a in DeleteList(open, closed) <==> exists i :: 0 <= i < |open| && open[i] != closed && a in open[i]
  {
    if open != [] {
      DeleteListIs(open[1..], closed, a);
      if a in DeleteList(open, closed) {
        if open[0] != closed && a in open[0] {
        } else {
          var i :| 0 <= i < |open[1..]| && open[1..][i] != closed && a in open[1..][i];
          assert open[i + 1] == open[1..][i];
        }
      }
      if exists i :: 0 <= i < |open| && open[i] != closed && a in open[i] {
        var i :| 0 <= i < |open| && open[i] != closed && a in open[i];
        if i > 0 { assert open[1..][i - 1] == open[i]; }
      }
    }
  }

  // ----- the state that a checkpoint captures

  /** The pages, the address of inode0, the chain of the closed transaction (none
      if empty), the chains of the open transactions, and pages that nothing
      refers to. The flash holds of each chain only its newest page. */
  datatype Snap = Snap(disk: Disk, root: LogAddr, closed: seq<LogAddr>, open: seq<seq<LogAddr>>, leaked: set<LogAddr>)

  /** Everything boot marks obsolete. */
  ghost function Doomed(d: Snap): set<LogAddr> {
    set a | a in VoteList(d.disk.blks, d.closed) + DeleteList(d.open, d.closed)
  }

  /** What boot needs: the tree of the root is live and complete, boot's marks
      spare it, and the chains it follows are linked and readable. Whatever is
      live and not in the tree is marked by boot or known to be leaked. */
  ghost predicate SnapDef(d: Snap) {
    && BlocksOk(d.disk.blks)
    && Covered(Tree(d.disk, d.root), d.disk.Live(), Doomed(d), d.leaked)
    && ChainOk(d.disk, d.closed)
    && ChainsOk(d)
  }

  /** Always true; mentioning it makes the verifier look inside SnapOk. */
  predicate Snapped(d: Snap) { true }

  ghost predicate SnapOk(d: Snap) {
    forall e {:trigger Snapped(e)} :: Snapped(e) && e == d ==> SnapDef(e)
  }

  lemma LookSnap(d: Snap)
    requires SnapOk(d)
    ensures SnapDef(d)
  {
    assert Snapped(d);
  }

  /** No page of the tree is doomed or leaked; every page of the tree is live;
      and every live page is one of the three. */
  ghost predicate Covered(tree: multiset<LogAddr>, live: set<LogAddr>, doomed: set<LogAddr>, leaked: set<LogAddr>) {
    && Once(tree)
    && (forall a :: a in tree ==> a in live && a !in doomed && a !in leaked)
    && (forall a :: a in live ==> a in tree || a in doomed || a in leaked)
  }

  ghost predicate ChainsOk(d: Snap) {
    forall i :: 0 <= i < |d.open| ==> ChainOk(d.disk, d.open[i])
  }

  ghost predicate ChainOk(k: Disk, chain: seq<LogAddr>) {
    && Linked(k.links, Head(chain), chain)
    && forall a :: a in chain ==> a in k.blks
  }

  // ----- running

  datatype Phase =
    | Idle
    | RootSet(tid: nat)
    | Voting(tid: nat, todo: seq<LogAddr>)
    | Aborting(tid: nat, todo: seq<LogAddr>)
    | Booting
    | Replaying(todo: seq<LogAddr>)

  /** The RAM state, the last complete checkpoint, and the pages marked since. */
  datatype Sys = Sys(ram: Snap, dur: Snap, marks: set<LogAddr>, phase: Phase)

  datatype Step =
    /** allocAndWriteBlockTid; hdr: a segment header is written on the way. The
        last vote page of a commit updates the transaction's prev address
        before that header is written, other pages after it. */
    | Write(tid: nat, a: LogAddr, blk: Blk, hdr: bool, lastVots: bool)
    /** A checkpoint page overwrites an obsolete page. */
    | Scrap(a: LogAddr)
    /** A checkpoint, or a segment header with its checkpoint, is complete. */
    | Checkpoint
    /** commitTransaction enters the new root and the closed transaction. */
    | SetRoot(tid: nat, root: LogAddr)
    /** The next markAsObsolete of a traversal. */
    | Mark
    /** The end of a traversal. */
    | Finish
    | StartAbort(tid: nat)
    /** The pages of lost are found obsolete at boot. */
    | Crash(lost: set<LogAddr>)
    /** The findNextFreePage of sequencingBooting writes a segment header; the
        RAM transactions are empty at that point. */
    | BootHeader
    | Replay

  function MarkOne(k: Disk, a: LogAddr): Disk {
    if a in k.blks then k.(obs := k.obs + {a}) else k
  }

  function NoChains(n: nat): seq<seq<LogAddr>> {
    seq(n, i => [])
  }

  ghost predicate Enabled(s: Sys, step: Step) {
    match step
    case Write(tid, a, blk, _, _) =>
      s.phase.Idle? && tid < |s.ram.open| && a !in s.ram.disk.Live() && BlkOk(blk)
    case Scrap(a) => (s.phase.Idle? || s.phase.RootSet?) && a in s.ram.disk.obs
    case Checkpoint => s.phase.Idle? || s.phase.RootSet? || (s.phase.Voting? && s.phase.todo == [])
    case SetRoot(tid, root) =>
      && s.phase.Idle? && tid < |s.ram.open| && s.ram.open[tid] != []
      && Ledger(s.ram.disk.blks, Tree(s.ram.disk, root), s.ram.open[tid], Tree(s.ram.disk, s.ram.root))
    case Mark => (s.phase.Voting? || s.phase.Aborting? || s.phase.Replaying?) && s.phase.todo != []
    case Finish => (s.phase.Voting? || s.phase.Aborting? || s.phase.Replaying?) && s.phase.todo == []
    case StartAbort(tid) => s.phase.Idle? && tid < |s.ram.open|
    case Crash(lost) => lost <= s.marks
    case BootHeader => s.phase.Booting?
    case Replay => s.phase.Booting?
  }

  ghost function WriteDisk(k: Disk, a: LogAddr, blk: Blk, prev: Ref): Disk {
    Disk(k.blks[a := blk], k.links[a := prev], k.obs - {a})
  }

  ghost function Apply(s: Sys, step: Step): Sys
    requires Enabled(s, step)
  {
    var r := s.ram;
    match step
    case Write(tid, a, blk, hdr, lastVots) =>
      var k := WriteDisk(r.disk, a, blk, Head(r.open[tid]));
      var r' := r.(disk := k, open := r.open[tid := [a] + r.open[tid]], leaked := r.leaked - {a});
      if !hdr then s.(ram := r')
      else if lastVots then s.(ram := r', dur := r', marks := {})
      else s.(ram := r', dur := r.(disk := k, leaked := r.leaked + {a}), marks := {})
    case Scrap(a) => s.(ram := r.(disk := Disk(r.disk.blks - {a}, r.disk.links, r.disk.obs - {a})))
    case Checkpoint =>
      s.(dur := r, marks := {},
         phase := if s.phase.RootSet? then Voting(s.phase.tid, VoteList(r.disk.blks, r.closed)) else s.phase)
    case SetRoot(tid, root) => s.(ram := r.(root := root, closed := r.open[tid]), phase := RootSet(tid))
    case Mark =>
      s.(ram := r.(disk := MarkOne(r.disk, s.phase.todo[0])), marks := s.marks + {s.phase.todo[0]},
         phase := s.phase.(todo := s.phase.todo[1..]))
    case Finish =>
      if s.phase.Replaying? then
        s.(ram := r.(closed := [], open := NoChains(|r.open|)), phase := Idle)
      else if s.phase.tid < |r.open| then
        s.(ram := r.(closed := [], open := r.open[s.phase.tid := []]), phase := Idle)
      else s
    case StartAbort(tid) => s.(phase := Aborting(tid, r.open[tid]))
    case Crash(lost) =>
      s.(ram := s.dur.(disk := s.dur.disk.(obs := s.dur.disk.obs + (lost * s.dur.disk.blks.Keys))), phase := Booting)
    case BootHeader =>
      var r' := r.(open := NoChains(|r.open|), leaked := r.leaked + (set a | a in DeleteList(r.open, r.closed)));
      s.(ram := r', dur := r', marks := {})
    case Replay =>
      s.(phase := Replaying(VoteList(r.disk.blks, r.closed) + DeleteList(r.open, r.closed)))
  }

  // ----- the invariant

  /** The chains of running transactions are live and do not share pages with
      each other, and nothing in them is leaked. */
  ghost predicate Running(r: Snap, but: int) {
    && (forall i, a :: 0 <= i < |r.open| && i != but && a in r.open[i] ==> a in r.disk.Live() && a !in r.leaked)
    && (forall i, j, a :: 0 <= i < j < |r.open| && a in r.open[i] ==> a !in r.open[j])
    && (forall i :: 0 <= i < |r.open| ==> Once(multiset(r.open[i])))
  }

  ghost predicate PhaseDef(s: Sys) {
    var r := s.ram;
    match s.phase
    case Idle => r.closed == [] && Running(r, -1)
    case RootSet(tid) =>
      tid < |r.open| && r.closed == r.open[tid] && r.closed != [] && Running(r, -1) && VotesApart(r, tid)
    case Voting(tid, todo) =>
      && tid < |r.open| && r.closed == r.open[tid] && r.closed != [] && Running(r, tid) && VotesApart(r, tid)
      && Remaining(r.disk, VoteList(r.disk.blks, r.closed), todo)
    case Aborting(tid, todo) =>
      && tid < |r.open| && r.closed == [] && Running(r, tid)
      && Remaining(r.disk, r.open[tid], todo)
    case Booting => true
    case Replaying(todo) => Remaining(r.disk, VoteList(r.disk.blks, r.closed) + DeleteList(r.open, r.closed), todo)
  }

  /** The votes of transaction tid touch no other transaction. */
  ghost predicate VotesApart(r: Snap, tid: nat) {
    forall i, a :: 0 <= i < |r.open| && i != tid && a in r.open[i] ==> a !in VoteList(r.disk.blks, r.closed)
  }

  /** Of the pages to be marked, those not in todo are no longer live. */
  ghost predicate Remaining(k: Disk, all: seq<LogAddr>, todo: seq<LogAddr>) {
    && (forall a :: a in todo ==> a in all)
    && (forall a :: a in all ==> a in todo || a !in k.Live())
  }

  /** The tree of the last checkpoint is still there as it was, and nothing in
      it has been marked. */
  ghost predicate Intact(tree: multiset<LogAddr>, ram: Disk, dur: Disk, marks: set<LogAddr>) {
    forall a :: a in tree ==>
      a in ram.Live() && a in dur.blks && ram.blks[a] == dur.blks[a] && a !in marks
  }

  ghost predicate KeptDef(s: Sys) {
    && Intact(Tree(s.dur.disk, s.dur.root), s.ram.disk, s.dur.disk, s.marks)
    && (!s.phase.RootSet? ==> s.ram.root == s.dur.root)
  }

  /** Always true; mentioning it makes the verifier look inside PhaseOk and Kept. */
  predicate Peeked(s: Sys) { true }

  ghost predicate PhaseOk(s: Sys) {
    forall t {:trigger Peeked(t)} :: Peeked(t) && t == s ==> PhaseDef(t)
  }

  ghost predicate Kept(s: Sys) {
    forall t {:trigger Peeked(t)} :: Peeked(t) && t == s ==> KeptDef(t)
  }

  ghost predicate Inv(s: Sys) {
    && SnapOk(s.ram) && SnapOk(s.dur) && |s.ram.open| == |s.dur.open|
    && Kept(s) && PhaseOk(s)
  }

  lemma LookPhase(s: Sys)
    requires PhaseOk(s)
    ensures PhaseDef(s)
  {
    assert Peeked(s);
  }

  lemma LookKept(s: Sys)
    requires Kept(s)
    ensures KeptDef(s)
  {
    assert Peeked(s);
  }

  lemma MakeSnap(d: Snap, t: multiset<LogAddr>, live: set<LogAddr>, doomed: set<LogAddr>)
    requires BlocksOk(d.disk.blks) && t == Tree(d.disk, d.root) && live == d.disk.Live() && doomed == Doomed(d)
    requires Covered(t, live, doomed, d.leaked) && ChainOk(d.disk, d.closed) && ChainsOk(d)
    ensures SnapOk(d)
  {
  }

  lemma MakeKept(s: Sys, t: multiset<LogAddr>)
    requires t == Tree(s.dur.disk, s.dur.root) && Intact(t, s.ram.disk, s.dur.disk, s.marks)
    requires !s.phase.RootSet? ==> s.ram.root == s.dur.root
    ensures Kept(s)
  {
  }

  // ----- the tree survives changes elsewhere

  lemma TreeFrame(k: Disk, k': Disk, root: LogAddr)
    requires forall a :: a in Tree(k, root) ==> a in k.blks && a in k'.blks && k'.blks[a] == k.blks[a]
    ensures Tree(k', root) == Tree(k, root)
  {
    InodeFrame(k.blks, k'.blks, Some(root), true);
  }

  /** In the running system the tree of the root is that of the checkpoint. */
  lemma SameTree(s: Sys)
    requires Kept(s) && s.ram.root == s.dur.root
    ensures Tree(s.ram.disk, s.ram.root) == Tree(s.dur.disk, s.dur.root)
  {
    LookKept(s);
    TreeFrame(s.dur.disk, s.ram.disk, s.dur.root);
  }

  // ----- Write

  lemma NothingClosed(r: Snap, a: LogAddr)
    requires r.closed == []
    ensures a in Doomed(r) <==> exists i :: 0 <= i < |r.open| && a in r.open[i]
  {
    DeleteListIs(r.open, [], a);
    if i :| 0 <= i < |r.open| && a in r.open[i] {
      assert r.open[i] != [];
    }
  }

  lemma {:induction false} LinkedOther(links: map<LogAddr, Ref>, chain: seq<LogAddr>, a: LogAddr, prev: Ref)
    requires Linked(links, Head(chain), chain) && a !in chain
    ensures Linked(links[a := prev], Head(chain), chain)
  {
    LinkedExtend(links, Head(chain), chain, a, prev);
  }

  lemma WriteChain(k: Disk, chain: seq<LogAddr>, a: LogAddr, blk: Blk, prev: Ref)
    requires ChainOk(k, chain) && a !in chain
    ensures ChainOk(WriteDisk(k, a, blk, prev), chain)
  {
    LinkedOther(k.links, chain, a, prev);
  }

  lemma WriteOwnChain(k: Disk, chain: seq<LogAddr>, a: LogAddr, blk: Blk)
    requires ChainOk(k, chain) && a !in chain
    ensures ChainOk(WriteDisk(k, a, blk, Head(chain)), [a] + chain)
  {
    var k' := WriteDisk(k, a, blk, Head(chain));
    WriteChain(k, chain, a, blk, Head(chain));
    assert ([a] + chain)[1..] == chain;
  }

  lemma WriteLive(k: Disk, a: LogAddr, blk: Blk, prev: Ref)
    ensures WriteDisk(k, a, blk, prev).Live() == k.Live() + {a}
  {
  }

  lemma WriteTree(r: Snap, a: LogAddr, blk: Blk, prev: Ref)
    requires SnapOk(r) && a !in r.disk.Live() && BlkOk(blk)
    ensures Tree(WriteDisk(r.disk, a, blk, prev), r.root) == Tree(r.disk, r.root)
    ensures BlocksOk(WriteDisk(r.disk, a, blk, prev).blks)
  {
    LookSnap(r);
    TreeFrame(r.disk, WriteDisk(r.disk, a, blk, prev), r.root);
  }

  lemma CoveredMore(t: multiset<LogAddr>, live: set<LogAddr>, doomed: set<LogAddr>, leaked: set<LogAddr>, a: LogAddr)
    requires Covered(t, live, doomed, leaked) && a !in live
    ensures Covered(t, live + {a}, doomed + {a}, leaked - {a})
    ensures Covered(t, live + {a}, doomed, leaked + {a})
  {
  }

  /** The RAM state after a write. */
  ghost function WriteRam(r: Snap, tid: nat, a: LogAddr, blk: Blk): Snap
    requires tid < |r.open|
  {
    r.(disk := WriteDisk(r.disk, a, blk, Head(r.open[tid])), open := r.open[tid := [a] + r.open[tid]], leaked := r.leaked - {a})
  }

  lemma WriteChains(r: Snap, tid: nat, a: LogAddr, blk: Blk, i: nat)
    requires tid < |r.open| && i < |r.open| && ChainOk(r.disk, r.open[i]) && a !in r.open[i]
    ensures var r' := WriteRam(r, tid, a, blk);
            ChainOk(r'.disk, r'.open[i]) && ChainOk(r'.disk, r.open[i])
  {
    WriteChain(r.disk, r.open[i], a, blk, Head(r.open[tid]));
    if i == tid {
      WriteOwnChain(r.disk, r.open[i], a, blk);
    }
  }

  lemma WriteDoomed(r: Snap, tid: nat, a: LogAddr, blk: Blk)
    requires r.closed == [] && tid < |r.open|
    ensures Doomed(WriteRam(r, tid, a, blk)) == Doomed(r) + {a}
  {
    var r' := WriteRam(r, tid, a, blk);
    forall x ensures x in Doomed(r') <==> x in Doomed(r) || x == a {
      NothingClosed(r, x);
      NothingClosed(r', x);
      assert r'.open[tid] == [a] + r.open[tid];
      if x in Doomed(r) {
        var i :| 0 <= i < |r.open| && x in r.open[i];
        assert x in r'.open[i];
      }
      if x in Doomed(r') {
        var i :| 0 <= i < |r.open| && x in r'.open[i];
        assert x in r.open[i] || x == a;
      }
    }
  }

  lemma WriteSnap(r: Snap, tid: nat, a: LogAddr, blk: Blk)
    requires SnapOk(r) && r.closed == [] && Running(r, -1) && tid < |r.open| && a !in r.disk.Live() && BlkOk(blk)
    ensures SnapOk(WriteRam(r, tid, a, blk))
  {
    LookSnap(r);
    var r' := WriteRam(r, tid, a, blk);
    WriteTree(r, a, blk, Head(r.open[tid]));
    WriteLive(r.disk, a, blk, Head(r.open[tid]));
    WriteDoomed(r, tid, a, blk);
    CoveredMore(Tree(r.disk, r.root), r.disk.Live(), Doomed(r), r.leaked, a);
    WriteAllChains(r, tid, a, blk);
    MakeSnap(r', Tree(r.disk, r.root), r.disk.Live() + {a}, Doomed(r) + {a});
  }

  lemma WriteAllChains(r: Snap, tid: nat, a: LogAddr, blk: Blk)
    requires ChainsOk(r) && tid < |r.open| && Running(r, -1) && a !in r.disk.Live()
    ensures ChainsOk(WriteRam(r, tid, a, blk)) && ChainsOk(WriteRam(r, tid, a, blk).(open := r.open))
  {
    var r' := WriteRam(r, tid, a, blk);
    forall i | 0 <= i < |r.open| ensures ChainOk(r'.disk, r'.open[i]) && ChainOk(r'.disk, r.open[i]) {
      assert a !in r.open[i];
      WriteChains(r, tid, a, blk, i);
    }
  }

  lemma WriteRunning(r: Snap, tid: nat, a: LogAddr, blk: Blk)
    requires Running(r, -1) && tid < |r.open| && a !in r.disk.Live()
    ensures Running(WriteRam(r, tid, a, blk), -1)
  {
    var o := r.open[tid := [a] + r.open[tid]];
    OnceGrows(r.open[tid], a);
    WriteLive(r.disk, a, blk, Head(r.open[tid]));
    assert forall i, x :: 0 <= i < |o| && x in o[i] ==> x in r.open[i] || (i == tid && x == a);
  }

  lemma OnceGrows(chain: seq<LogAddr>, a: LogAddr)
    requires Once(multiset(chain)) && a !in chain
    ensures Once(multiset([a] + chain))
  {
    Cons(a, chain);
    assert a !in multiset(chain);
  }

  /** A segment header written inside allocAndWriteBlock, before the caller has
      stored the new address: the new page is live but on no chain. */
  lemma WriteStale(r: Snap, tid: nat, a: LogAddr, blk: Blk)
    requires SnapOk(r) && r.closed == [] && Running(r, -1) && tid < |r.open| && a !in r.disk.Live() && BlkOk(blk)
    ensures SnapOk(r.(disk := WriteRam(r, tid, a, blk).disk, leaked := r.leaked + {a}))
  {
    LookSnap(r);
    var d := r.(disk := WriteRam(r, tid, a, blk).disk, leaked := r.leaked + {a});
    WriteTree(r, a, blk, Head(r.open[tid]));
    WriteLive(r.disk, a, blk, Head(r.open[tid]));
    CoveredMore(Tree(r.disk, r.root), r.disk.Live(), Doomed(r), r.leaked, a);
    WriteAllChains(r, tid, a, blk);
    assert Doomed(d) == Doomed(r);
    MakeSnap(d, Tree(r.disk, r.root), r.disk.Live() + {a}, Doomed(r));
  }

  /** Right after a checkpoint of a sound state, its tree is intact. */
  lemma FreshIntact(d: Snap)
    requires SnapOk(d)
    ensures Intact(Tree(d.disk, d.root), d.disk, d.disk, {})
  {
    LookSnap(d);
  }

  lemma WriteKept(s: Sys, tid: nat, a: LogAddr, blk: Blk, hdr: bool, last: bool)
    requires Kept(s) && PhaseOk(s) && SnapOk(s.ram) && Enabled(s, Write(tid, a, blk, hdr, last))
    ensures Kept(Apply(s, Write(tid, a, blk, hdr, last)))
  {
    LookKept(s);
    LookPhase(s);
    var r, t := s.ram, Apply(s, Write(tid, a, blk, hdr, last));
    WriteLive(r.disk, a, blk, Head(r.open[tid]));
    if !hdr {
      MakeKept(t, Tree(s.dur.disk, s.dur.root));
    } else if last {
      WriteSnap(r, tid, a, blk);
      FreshIntact(t.dur);
      MakeKept(t, Tree(t.dur.disk, t.dur.root));
    } else {
      WriteStale(r, tid, a, blk);
      FreshIntact(t.dur);
      MakeKept(t, Tree(t.dur.disk, t.dur.root));
    }
  }

  lemma WriteInv(s: Sys, tid: nat, a: LogAddr, blk: Blk, hdr: bool, last: bool)
    requires Inv(s) && Enabled(s, Write(tid, a, blk, hdr, last))
    ensures Inv(Apply(s, Write(tid, a, blk, hdr, last)))
  {
    LookPhase(s);
    WriteSnap(s.ram, tid, a, blk);
    WriteRunning(s.ram, tid, a, blk);
    WriteStale(s.ram, tid, a, blk);
    WriteKept(s, tid, a, blk, hdr, last);
  }

  // ----- Scrap

  lemma ScrapClosed(s: Sys, a: LogAddr)
    requires PhaseOk(s) && Enabled(s, Scrap(a)) && ChainsOk(s.ram) && ChainOk(s.ram.disk, s.ram.closed)
    ensures var t := Apply(s, Scrap(a)).ram;
            && VoteList(t.disk.blks, t.closed) == VoteList(s.ram.disk.blks, s.ram.closed)
            && ChainOk(t.disk, t.closed) && ChainsOk(t)
  {
    LookPhase(s);
    var r, t := s.ram, Apply(s, Scrap(a)).ram;
    forall i | 0 <= i < |r.open| ensures a !in r.open[i] && ChainOk(t.disk, r.open[i]) {
      assert ChainOk(r.disk, r.open[i]);
      assert forall x :: x in r.open[i] ==> x in r.disk.Live();
    }
    VoteListFrame(r.disk.blks, r.disk.blks - {a}, r.closed);
  }

  lemma ScrapTree(r: Snap, a: LogAddr, k: Disk)
    requires SnapDef(r) && a in r.disk.obs && k == Disk(r.disk.blks - {a}, r.disk.links, r.disk.obs - {a})
    ensures k.Live() == r.disk.Live() && BlocksOk(k.blks) && Tree(k, r.root) == Tree(r.disk, r.root)
  {
    assert forall x :: x in r.disk.Live() ==> x in k.blks && k.blks[x] == r.disk.blks[x];
    TreeFrame(r.disk, k, r.root);
  }

  lemma ScrapSnap(s: Sys, a: LogAddr)
    requires SnapOk(s.ram) && PhaseOk(s) && Enabled(s, Scrap(a))
    ensures SnapOk(Apply(s, Scrap(a)).ram)
  {
    var r, t := s.ram, Apply(s, Scrap(a)).ram;
    LookSnap(r);
    ScrapTree(r, a, t.disk);
    ScrapClosed(s, a);
    assert Doomed(t) == Doomed(r);
    MakeSnap(t, Tree(r.disk, r.root), r.disk.Live(), Doomed(r));
  }

  lemma ScrapPhase(s: Sys, a: LogAddr)
    requires PhaseOk(s) && Enabled(s, Scrap(a)) && ChainsOk(s.ram) && ChainOk(s.ram.disk, s.ram.closed)
    ensures PhaseOk(Apply(s, Scrap(a)))
  {
    ScrapClosed(s, a);
    LookPhase(s);
    assert Apply(s, Scrap(a)).ram.disk.Live() == s.ram.disk.Live();
  }

  lemma ScrapKept(s: Sys, a: LogAddr)
    requires Kept(s) && Enabled(s, Scrap(a))
    ensures Kept(Apply(s, Scrap(a)))
  {
    LookKept(s);
    assert Apply(s, Scrap(a)).ram.disk.Live() == s.ram.disk.Live();
    MakeKept(Apply(s, Scrap(a)), Tree(s.dur.disk, s.dur.root));
  }

  lemma ScrapInv(s: Sys, a: LogAddr)
    requires Inv(s) && Enabled(s, Scrap(a))
    ensures Inv(Apply(s, Scrap(a)))
  {
    ScrapSnap(s, a);
    LookSnap(s.ram);
    ScrapPhase(s, a);
    ScrapKept(s, a);
  }

  // ----- SetRoot and Checkpoint

  /** The commit ledger in terms of sets: the new tree, the votes and the vote
      pages share no page and together are the old tree and the chain. */
  lemma LedgerSets(b: Blocks, tree: multiset<LogAddr>, chain: seq<LogAddr>, was: multiset<LogAddr>, a: LogAddr)
    requires Ledger(b, tree, chain, was)
    ensures a in tree || a in VoteList(b, chain) <==> a in was || a in chain
    ensures !(a in tree && a in VoteList(b, chain)) && Once(tree)
  {
    VoteListIs(b, chain);
    var v, p := ChainVotes(b, chain), VotePages(b, chain);
    assert (tree + v + p)[a] == (was + multiset(chain))[a] <= 1;
    assert a in chain <==> a in multiset(chain);
    forall x ensures tree[x] <= 1 { assert (tree + v + p)[x] <= 1; }
  }

  /** Committing moves pages between the sets and loses none. */
  lemma CommitSets(t: multiset<LogAddr>, w: multiset<LogAddr>, live: set<LogAddr>, leaked: set<LogAddr>,
                   chain: seq<LogAddr>, votes: seq<LogAddr>, others: seq<LogAddr>, doomed: set<LogAddr>, doomed': set<LogAddr>)
    requires Covered(w, live, doomed, leaked) && Once(t)
    requires forall a :: a in t || a in votes <==> a in w || a in chain
    requires forall a :: !(a in t && a in votes)
    requires forall a :: a in doomed <==> a in chain || a in others
    requires forall a :: a in doomed' <==> a in votes || a in others
    requires forall a :: a in chain ==> a in live && a !in leaked && a !in others
    ensures Covered(t, live, doomed', leaked)
    ensures forall a :: a in others ==> a !in votes
  {
  }

  lemma CommitCovered(r: Snap, tid: nat, root: LogAddr)
    requires SnapOk(r) && r.closed == [] && Running(r, -1) && tid < |r.open| && r.open[tid] != []
    requires Ledger(r.disk.blks, Tree(r.disk, root), r.open[tid], Tree(r.disk, r.root))
    ensures var d := r.(root := root, closed := r.open[tid]);
            Covered(Tree(r.disk, root), r.disk.Live(), Doomed(d), r.leaked)
    ensures VotesApart(r.(root := root, closed := r.open[tid]), tid)
  {
    LookSnap(r);
    var d, b := r.(root := root, closed := r.open[tid]), r.disk.blks;
    var votes, others := VoteList(b, d.closed), DeleteList(r.open, d.closed);
    forall a
      ensures a in Tree(r.disk, root) || a in votes <==> a in Tree(r.disk, r.root) || a in d.closed
      ensures !(a in Tree(r.disk, root) && a in votes) && Once(Tree(r.disk, root))
    {
      LedgerSets(b, Tree(r.disk, root), r.open[tid], Tree(r.disk, r.root), a);
    }
    LedgerSets(b, Tree(r.disk, root), r.open[tid], Tree(r.disk, r.root), root);
    forall a
      ensures a in Doomed(r) <==> a in d.closed || a in others
      ensures a in Doomed(d) <==> a in votes || a in others
      ensures a in d.closed ==> a in r.disk.Live() && a !in r.leaked && a !in others
      ensures forall i :: 0 <= i < |r.open| && i != tid && a in r.open[i] ==> a in others
    {
      CommitPage(r, d, tid, a);
    }
    CommitSets(Tree(r.disk, root), Tree(r.disk, r.root), r.disk.Live(), r.leaked, d.closed, votes, others, Doomed(r), Doomed(d));
  }

  /** Where a doomed page of the running system comes from. */
  lemma CommitPage(r: Snap, d: Snap, tid: nat, a: LogAddr)
    requires r.closed == [] && Running(r, -1) && tid < |r.open| && r.open[tid] != [] && d.closed == r.open[tid]
    requires d.open == r.open && d.disk == r.disk
    ensures a in Doomed(r) <==> a in r.open[tid] || a in DeleteList(r.open, d.closed)
    ensures a in Doomed(d) <==> a in VoteList(r.disk.blks, d.closed) || a in DeleteList(r.open, d.closed)
    ensures a in r.open[tid] ==> a in r.disk.Live() && a !in r.leaked && a !in DeleteList(r.open, d.closed)
    ensures forall i :: 0 <= i < |r.open| && i != tid && a in r.open[i] ==> a in DeleteList(r.open, d.closed)
  {
    NothingClosed(r, a);
    DeleteListIs(r.open, d.closed, a);
    forall i | 0 <= i < |r.open| && i != tid ensures r.open[i] != d.closed {
      assert r.open[tid][0] in r.open[tid];
    }
  }

  lemma SetRootSnap(r: Snap, tid: nat, root: LogAddr)
    requires SnapOk(r) && r.closed == [] && Running(r, -1) && tid < |r.open| && r.open[tid] != []
    requires Ledger(r.disk.blks, Tree(r.disk, root), r.open[tid], Tree(r.disk, r.root))
    ensures SnapOk(r.(root := root, closed := r.open[tid]))
    ensures VotesApart(r.(root := root, closed := r.open[tid]), tid)
  {
    CommitCovered(r, tid, root);
    LookSnap(r);
    var d := r.(root := root, closed := r.open[tid]);
    assert ChainOk(r.disk, r.open[tid]);
    MakeSnap(d, Tree(r.disk, root), r.disk.Live(), Doomed(d));
  }

  lemma IdleRam(s: Sys)
    requires PhaseOk(s) && s.phase.Idle?
    ensures s.ram.closed == [] && Running(s.ram, -1)
  {
    LookPhase(s);
  }

  lemma SetRootKept(s: Sys, tid: nat, root: LogAddr)
    requires Kept(s) && Enabled(s, SetRoot(tid, root))
    ensures Kept(Apply(s, SetRoot(tid, root)))
  {
    LookKept(s);
    MakeKept(Apply(s, SetRoot(tid, root)), Tree(s.dur.disk, s.dur.root));
  }

  lemma SetRootPhase(s: Sys, tid: nat, root: LogAddr)
    requires PhaseOk(s) && s.phase.Idle? && tid < |s.ram.open| && s.ram.open[tid] != []
    requires VotesApart(s.ram.(root := root, closed := s.ram.open[tid]), tid)
    ensures PhaseOk(s.(ram := s.ram.(root := root, closed := s.ram.open[tid]), phase := RootSet(tid)))
  {
    LookPhase(s);
  }

  lemma SetRootInv(s: Sys, tid: nat, root: LogAddr)
    requires Inv(s) && Enabled(s, SetRoot(tid, root))
    ensures Inv(Apply(s, SetRoot(tid, root)))
  {
    IdleRam(s);
    SetRootSnap(s.ram, tid, root);
    SetRootPhase(s, tid, root);
    SetRootKept(s, tid, root);
  }

  lemma CheckpointPhase(s: Sys)
    requires PhaseOk(s) && Enabled(s, Checkpoint)
    ensures PhaseOk(Apply(s, Checkpoint))
  {
    LookPhase(s);
    if s.phase.RootSet? {
      var r := s.ram;
      assert Running(r, s.phase.tid);
    }
  }

  lemma CheckpointInv(s: Sys)
    requires Inv(s) && Enabled(s, Checkpoint)
    ensures Inv(Apply(s, Checkpoint))
  {
    FreshIntact(s.ram);
    MakeKept(Apply(s, Checkpoint), Tree(s.ram.disk, s.ram.root));
    CheckpointPhase(s);
  }

  // ----- Mark

  lemma MarkCovered(t: multiset<LogAddr>, live: set<LogAddr>, doomed: set<LogAddr>, leaked: set<LogAddr>, a: LogAddr)
    requires Covered(t, live, doomed, leaked) && a in doomed
    ensures Covered(t, live - {a}, doomed, leaked)
  {
  }

  lemma TodoDoomed(s: Sys)
    requires PhaseOk(s) && Enabled(s, Mark)
    ensures s.phase.todo[0] in Doomed(s.ram)
  {
    LookPhase(s);
    var a := s.phase.todo[0];
    assert a in s.phase.todo;
    if s.phase.Aborting? {
      NothingClosed(s.ram, a);
      assert a in s.ram.open[s.phase.tid];
    }
  }

  lemma MarkSnap(s: Sys)
    requires SnapOk(s.ram) && PhaseOk(s) && Enabled(s, Mark)
    ensures SnapOk(Apply(s, Mark).ram) && s.phase.todo[0] !in Tree(s.ram.disk, s.ram.root)
  {
    var r, t, a := s.ram, Apply(s, Mark).ram, s.phase.todo[0];
    LookSnap(r);
    TodoDoomed(s);
    assert t.disk.blks == r.disk.blks && t.disk.Live() == r.disk.Live() - {a};
    assert Doomed(t) == Doomed(r);
    MarkCovered(Tree(r.disk, r.root), r.disk.Live(), Doomed(r), r.leaked, a);
    MarkChains(r, a);
    MakeSnap(t, Tree(r.disk, r.root), r.disk.Live() - {a}, Doomed(r));
  }

  lemma MarkChains(r: Snap, a: LogAddr)
    requires ChainsOk(r) && ChainOk(r.disk, r.closed)
    ensures ChainsOk(r.(disk := MarkOne(r.disk, a))) && ChainOk(MarkOne(r.disk, a), r.closed)
  {
    forall i | 0 <= i < |r.open| ensures ChainOk(MarkOne(r.disk, a), r.open[i]) {
      assert ChainOk(r.disk, r.open[i]);
    }
  }

  lemma MarkPhase(s: Sys)
    requires PhaseOk(s) && Enabled(s, Mark)
    ensures PhaseOk(Apply(s, Mark))
  {
    LookPhase(s);
    var r, t, a := s.ram, Apply(s, Mark), s.phase.todo[0];
    assert t.ram.disk.Live() == r.disk.Live() - {a};
    assert a in s.phase.todo;
    assert forall x :: x in s.phase.todo <==> x == a || x in s.phase.todo[1..];
    if !s.phase.Replaying? {
      forall i | 0 <= i < |r.open| && i != s.phase.tid ensures a !in r.open[i] {
        if s.phase.Aborting? { assert a in r.open[s.phase.tid]; }
      }
    }
  }

  lemma MarkIntact(tree: multiset<LogAddr>, ram: Disk, dur: Disk, marks: set<LogAddr>, a: LogAddr)
    requires Intact(tree, ram, dur, marks) && a !in tree
    ensures Intact(tree, MarkOne(ram, a), dur, marks + {a})
  {
  }

  lemma MarkKept(s: Sys)
    requires Kept(s) && PhaseOk(s) && SnapOk(s.ram) && Enabled(s, Mark)
    ensures Kept(Apply(s, Mark))
  {
    MarkSnap(s);
    LookKept(s);
    SameTree(s);
    MarkIntact(Tree(s.dur.disk, s.dur.root), s.ram.disk, s.dur.disk, s.marks, s.phase.todo[0]);
    MakeKept(Apply(s, Mark), Tree(s.dur.disk, s.dur.root));
  }

  lemma MarkInv(s: Sys)
    requires Inv(s) && Enabled(s, Mark)
    ensures Inv(Apply(s, Mark))
  {
    MarkSnap(s);
    MarkPhase(s);
    MarkKept(s);
  }

  // ----- Finish

  /** What stays doomed when a traversal has ended and its chains are dropped. */
  lemma FinishCovered(t: multiset<LogAddr>, live: set<LogAddr>, doomed: set<LogAddr>, doomed': set<LogAddr>, leaked: set<LogAddr>)
    requires Covered(t, live, doomed, leaked) && doomed' <= doomed
    requires forall a :: a in doomed && a in live ==> a in doomed'
    ensures Covered(t, live, doomed', leaked)
  {
  }

  ghost function Finished(s: Sys): Snap
    requires Enabled(s, Finish)
  {
    Apply(s, Finish).ram
  }

  lemma FinishDoomed(s: Sys, a: LogAddr)
    requires PhaseOk(s) && Enabled(s, Finish)
    ensures a in Doomed(Finished(s)) ==> a in Doomed(s.ram)
    ensures a in Doomed(s.ram) && a in s.ram.disk.Live() ==> a in Doomed(Finished(s))
  {
    LookPhase(s);
    var r, d := s.ram, Finished(s);
    NothingClosed(d, a);
    DeleteListIs(r.open, r.closed, a);
    if !s.phase.Replaying? {
      var tid := s.phase.tid;
      if a in Doomed(d) {
        var i :| 0 <= i < |d.open| && a in d.open[i];
        assert i != tid && d.open[i] == r.open[i] && a in r.open[i];
        assert a !in r.closed;
      }
      if a in DeleteList(r.open, r.closed) && a in r.disk.Live() {
        var i :| 0 <= i < |r.open| && r.open[i] != r.closed && a in r.open[i];
        assert i != tid;
        assert d.open[i] == r.open[i];
      }
    } else {
      assert forall i :: 0 <= i < |d.open| ==> d.open[i] == [];
    }
  }

  lemma FinishSnap(s: Sys)
    requires SnapOk(s.ram) && PhaseOk(s) && Enabled(s, Finish)
    ensures SnapOk(Finished(s))
  {
    var r, d := s.ram, Finished(s);
    LookSnap(r);
    LookPhase(s);
    forall a ensures a in Doomed(d) ==> a in Doomed(r)
             ensures a in Doomed(r) && a in r.disk.Live() ==> a in Doomed(d)
    {
      FinishDoomed(s, a);
    }
    FinishCovered(Tree(r.disk, r.root), r.disk.Live(), Doomed(r), Doomed(d), r.leaked);
    forall i | 0 <= i < |d.open| ensures ChainOk(d.disk, d.open[i]) {
      assert d.open[i] == [] || d.open[i] == r.open[i];
    }
    MakeSnap(d, Tree(r.disk, r.root), r.disk.Live(), Doomed(d));
  }

  lemma FinishPhase(s: Sys)
    requires PhaseOk(s) && Enabled(s, Finish)
    ensures PhaseOk(Apply(s, Finish)) && Apply(s, Finish).phase.Idle?
  {
    LookPhase(s);
    var r, d := s.ram, Finished(s);
    assert forall i, a :: 0 <= i < |d.open| && a in d.open[i] ==> !s.phase.Replaying? && i != s.phase.tid && a in r.open[i];
    var none: seq<LogAddr> := [];
    assert multiset(none) == multiset{};
    assert Running(d, -1);
  }

  lemma FinishInv(s: Sys)
    requires Inv(s) && Enabled(s, Finish)
    ensures Inv(Apply(s, Finish))
  {
    FinishSnap(s);
    FinishPhase(s);
    LookKept(s);
    MakeKept(Apply(s, Finish), Tree(s.dur.disk, s.dur.root));
  }

  // ----- StartAbort, Crash, BootHeader, Replay

  lemma StartAbortPhase(s: Sys, tid: nat)
    requires PhaseOk(s) && Enabled(s, StartAbort(tid))
    ensures PhaseOk(Apply(s, StartAbort(tid)))
  {
    LookPhase(s);
    assert Running(s.ram, tid);
  }

  lemma SamePages(s: Sys, t: Sys)
    requires Kept(s) && t.dur == s.dur && t.marks == s.marks && t.ram.disk == s.ram.disk && t.ram.root == s.ram.root
    requires !s.phase.RootSet? && !t.phase.RootSet?
    ensures Kept(t)
  {
    LookKept(s);
    MakeKept(t, Tree(s.dur.disk, s.dur.root));
  }

  lemma StartAbortInv(s: Sys, tid: nat)
    requires Inv(s) && Enabled(s, StartAbort(tid))
    ensures Inv(Apply(s, StartAbort(tid)))
  {
    StartAbortPhase(s, tid);
    SamePages(s, Apply(s, StartAbort(tid)));
  }

  lemma CrashCovered(t: multiset<LogAddr>, live: set<LogAddr>, doomed: set<LogAddr>, leaked: set<LogAddr>, live': set<LogAddr>)
    requires Covered(t, live, doomed, leaked) && live' <= live && forall a :: a in t ==> a in live'
    ensures Covered(t, live', doomed, leaked)
  {
  }

  lemma CrashIntact(d: Disk, tree: multiset<LogAddr>, ram: Disk, marks: set<LogAddr>, lost: set<LogAddr>)
    requires Intact(tree, ram, d, marks) && lost <= marks && forall a :: a in tree ==> a in d.Live()
    ensures Intact(tree, d.(obs := d.obs + (lost * d.blks.Keys)), d, marks)
  {
  }

  lemma CrashSnap(d: Snap, lost: set<LogAddr>)
    requires SnapOk(d) && forall a :: a in Tree(d.disk, d.root) ==> a !in lost
    ensures SnapOk(d.(disk := d.disk.(obs := d.disk.obs + (lost * d.disk.blks.Keys))))
  {
    LookSnap(d);
    var k := d.disk.(obs := d.disk.obs + (lost * d.disk.blks.Keys));
    var e := d.(disk := k);
    CrashCovered(Tree(d.disk, d.root), d.disk.Live(), Doomed(d), d.leaked, k.Live());
    assert Doomed(e) == Doomed(d);
    CrashChains(d, k);
    MakeSnap(e, Tree(d.disk, d.root), k.Live(), Doomed(d));
  }

  lemma CrashKept(s: Sys, lost: set<LogAddr>)
    requires Kept(s) && SnapOk(s.dur) && lost <= s.marks
    ensures Kept(Apply(s, Crash(lost)))
    ensures forall a :: a in Tree(s.dur.disk, s.dur.root) ==> a !in lost
  {
    LookKept(s);
    FreshIntact(s.dur);
    CrashIntact(s.dur.disk, Tree(s.dur.disk, s.dur.root), s.ram.disk, s.marks, lost);
    MakeKept(Apply(s, Crash(lost)), Tree(s.dur.disk, s.dur.root));
  }

  lemma CrashInv(s: Sys, lost: set<LogAddr>)
    requires Inv(s) && Enabled(s, Crash(lost))
    ensures Inv(Apply(s, Crash(lost)))
  {
    CrashKept(s, lost);
    CrashSnap(s.dur, lost);
  }

  lemma CrashChains(d: Snap, k: Disk)
    requires ChainsOk(d) && ChainOk(d.disk, d.closed) && k.blks == d.disk.blks && k.links == d.disk.links
    ensures ChainsOk(d.(disk := k)) && ChainOk(k, d.closed)
  {
    forall i | 0 <= i < |d.open| ensures ChainOk(k, d.open[i]) {
      assert ChainOk(d.disk, d.open[i]);
    }
  }

  lemma BootHeaderSnap(r: Snap)
    requires SnapOk(r)
    ensures SnapOk(r.(open := NoChains(|r.open|), leaked := r.leaked + (set a | a in DeleteList(r.open, r.closed))))
  {
    LookSnap(r);
    var d := r.(open := NoChains(|r.open|), leaked := r.leaked + (set a | a in DeleteList(r.open, r.closed)));
    forall a ensures a in Doomed(d) <==> a in VoteList(r.disk.blks, r.closed) {
      DeleteListIs(d.open, d.closed, a);
    }
    BootCovered(Tree(r.disk, r.root), r.disk.Live(), VoteList(r.disk.blks, r.closed), DeleteList(r.open, r.closed), Doomed(r), Doomed(d), r.leaked);
    MakeSnap(d, Tree(r.disk, r.root), r.disk.Live(), Doomed(d));
  }

  lemma BootCovered(t: multiset<LogAddr>, live: set<LogAddr>, votes: seq<LogAddr>, others: seq<LogAddr>,
                    doomed: set<LogAddr>, doomed': set<LogAddr>, leaked: set<LogAddr>)
    requires Covered(t, live, doomed, leaked) && (forall a :: a in doomed <==> a in votes || a in others)
    requires forall a :: a in doomed' <==> a in votes
    ensures Covered(t, live, doomed', leaked + (set a | a in others))
  {
  }

  lemma BootHeaderInv(s: Sys)
    requires Inv(s) && Enabled(s, BootHeader)
    ensures Inv(Apply(s, BootHeader))
  {
    var t := Apply(s, BootHeader);
    BootHeaderSnap(s.ram);
    FreshIntact(t.ram);
    MakeKept(t, Tree(t.ram.disk, t.ram.root));
  }

  lemma ReplayPhase(s: Sys)
    requires Enabled(s, Replay)
    ensures PhaseOk(Apply(s, Replay))
  {
  }

  lemma ReplayInv(s: Sys)
    requires Inv(s) && Enabled(s, Replay)
    ensures Inv(Apply(s, Replay))
  {
    ReplayPhase(s);
    SamePages(s, Apply(s, Replay));
  }

  // ----- every step and every run

  /** The invariant survives every step. */
  lemma StepInv(s: Sys, step: Step)
    requires Inv(s) && Enabled(s, step)
    ensures Inv(Apply(s, step))
  {
    match step
    case Write(tid, a, blk, hdr, last) => WriteInv(s, tid, a, blk, hdr, last);
    case Scrap(a) => ScrapInv(s, a);
    case Checkpoint => CheckpointInv(s);
    case SetRoot(tid, root) => SetRootInv(s, tid, root);
    case Mark => MarkInv(s);
    case Finish => FinishInv(s);
    case StartAbort(tid) => StartAbortInv(s, tid);
    case Crash(lost) => CrashInv(s, lost);
    case BootHeader => BootHeaderInv(s);
    case Replay => ReplayInv(s);
  }

  /** The steps can be taken one after the other. */
  ghost predicate CanRun(s: Sys, steps: seq<Step>)
    decreases |steps|
  {
    steps == [] || (Enabled(s, steps[0]) && CanRun(Apply(s, steps[0]), steps[1..]))
  }

  ghost function Run(s: Sys, steps: seq<Step>): Sys
    requires CanRun(s, steps)
    decreases |steps|
  {
    if steps == [] then s else Run(Apply(s, steps[0]), steps[1..])
  }

  /** In every run, with any number of crashes, the last complete checkpoint
      stays recoverable. */
  lemma {:induction false} RunInv(s: Sys, steps: seq<Step>)
    requires Inv(s) && CanRun(s, steps)
    ensures Inv(Run(s, steps))
    decreases |steps|
  {
    if steps != [] {
      StepInv(s, steps[0]);
      RunInv(Apply(s, steps[0]), steps[1..]);
    }
  }

  /** A step leaves the root that boot would find as it is, or replaces it by
      the root in RAM, and that only by completing a checkpoint; the root in RAM
      changes only when a transaction commits or to the root boot finds. */
  lemma RootMoves(s: Sys, step: Step)
    requires Inv(s) && Enabled(s, step)
    ensures var t := Apply(s, step);
            && (t.dur.root == s.dur.root || (step.Checkpoint? && s.phase.RootSet? && t.dur.root == s.ram.root))
            && (t.ram.root == s.ram.root || (step.SetRoot? && t.ram.root == step.root) || (step.Crash? && t.ram.root == s.dur.root))
  {
    LookKept(s);
  }

  /** No step changes a page of the tree that boot would find. */
  lemma TreeStays(s: Sys, step: Step)
    requires Inv(s) && Enabled(s, step)
    ensures var t := Apply(s, step);
            forall a :: a in Tree(s.dur.disk, s.dur.root) ==>
              a in s.dur.disk.blks && a in t.dur.disk.blks && t.dur.disk.blks[a] == s.dur.disk.blks[a]
  {
    hide Tree, SnapOk, PhaseOk, Doomed, VoteList, DeleteList;
    LookKept(s);
    match step
    case Write(tid, a, blk, hdr, last) =>
      DurableAfterWrite(s, tid, a, blk, hdr, last);
    case _ =>
  }

  lemma DurableAfterWrite(s: Sys, tid: nat, a: LogAddr, blk: Blk, hdr: bool, last: bool)
    requires Enabled(s, Write(tid, a, blk, hdr, last))
    ensures var t := Apply(s, Write(tid, a, blk, hdr, last));
      t.dur.disk == if hdr then WriteDisk(s.ram.disk, a, blk, Head(s.ram.open[tid])) else s.dur.disk
  {
  }

  /** As long as no commit completes a checkpoint, boot finds the same root with
      the same pages, whatever else happens. */
  lemma {:induction false} Committed(s: Sys, steps: seq<Step>)
    requires Inv(s) && CanRun(s, steps) && NoCommit(s, steps)
    ensures Run(s, steps).dur.root == s.dur.root
    ensures Tree(Run(s, steps).dur.disk, s.dur.root) == Tree(s.dur.disk, s.dur.root)
    ensures forall a :: a in Tree(s.dur.disk, s.dur.root) ==>
      a in s.dur.disk.blks && a in Run(s, steps).dur.disk.blks && Run(s, steps).dur.disk.blks[a] == s.dur.disk.blks[a]
    decreases |steps|
  {
    if steps == [] {
      LookKept(s);
    } else {
      var t := Apply(s, steps[0]);
      StepInv(s, steps[0]);
      RootMoves(s, steps[0]);
      TreeStays(s, steps[0]);
      TreeFrame(s.dur.disk, t.dur.disk, s.dur.root);
      Committed(t, steps[1..]);
    }
  }

  /** No checkpoint completes between the change of the root and the end of its
      commit. */
  ghost predicate NoCommit(s: Sys, steps: seq<Step>)
    requires CanRun(s, steps)
    decreases |steps|
  {
    steps == [] || (!(steps[0].Checkpoint? && s.phase.RootSet?) && NoCommit(Apply(s, steps[0]), steps[1..]))
  }

  // ----- a traversal from beginning to end

  /** All the marks that are left to make. */
  ghost function MarkAll(s: Sys): (t: Sys)
    requires s.phase.Voting? || s.phase.Aborting? || s.phase.Replaying?
    ensures t.phase == s.phase.(todo := [])
    decreases |s.phase.todo|
  {
    if s.phase.todo == [] then s else MarkAll(Apply(s, Mark))
  }

  lemma {:induction false} MarkAllIs(s: Sys)
    requires s.phase.Voting? || s.phase.Aborting? || s.phase.Replaying?
    ensures var t := MarkAll(s);
            && (forall a :: a in t.ram.disk.Live() <==> a in s.ram.disk.Live() && a !in s.phase.todo)
            && t.ram.disk.blks == s.ram.disk.blks && t.ram == s.ram.(disk := t.ram.disk) && t.dur == s.dur
            && t.phase == s.phase.(todo := [])
            && (Inv(s) ==> Inv(t))
    decreases |s.phase.todo|
  {
    if s.phase.todo != [] {
      var u := Apply(s, Mark);
      MarkAllIs(u);
      assert u.ram.disk.Live() == s.ram.disk.Live() - {s.phase.todo[0]};
      assert forall a :: a in s.phase.todo <==> a == s.phase.todo[0] || a in s.phase.todo[1..];
      if Inv(s) { MarkInv(s); }
    }
  }

  /** abortTransaction, up to its checkpoint. */
  ghost function Aborted(s: Sys, tid: nat): Sys
    requires s.phase.Idle? && tid < |s.ram.open|
  {
    Apply(MarkAll(Apply(s, StartAbort(tid))), Finish)
  }

  /** abortTransaction: exactly the pages of that transaction become obsolete. */
  lemma AbortExact(s: Sys, tid: nat)
    requires s.phase.Idle? && tid < |s.ram.open| && PhaseOk(s)
    ensures var t := Aborted(s, tid);
            && (forall a :: a in t.ram.disk.Live() <==> a in s.ram.disk.Live() && a !in s.ram.open[tid])
            && t.ram == s.ram.(disk := t.ram.disk, open := s.ram.open[tid := []]) && t.phase.Idle?
  {
    IdleRam(s);
    MarkAllIs(Apply(s, StartAbort(tid)));
  }

  /** A page of one open transaction is neither a page of another one ... */
  lemma ChainsApart(r: Snap, tid: nat)
    requires Running(r, -1) && tid < |r.open|
    ensures forall i, a :: 0 <= i < |r.open| && i != tid && a in r.open[i] ==> a in r.disk.Live() && a !in r.open[tid]
  {
  }

  /** ... nor of the tree. */
  lemma TreeApart(r: Snap, tid: nat)
    requires SnapOk(r) && r.closed == [] && tid < |r.open|
    ensures forall a :: a in Tree(r.disk, r.root) ==> a in r.disk.Live() && a !in r.open[tid]
  {
    LookSnap(r);
    forall a | a in r.open[tid] ensures a in Doomed(r) {
      NothingClosed(r, a);
    }
  }

  /** An abort keeps the invariant, every page of the tree and every page of the other
      transactions. */
  lemma AbortSafe(s: Sys, tid: nat)
    requires s.phase.Idle? && tid < |s.ram.open| && Inv(s)
    ensures var t := Aborted(s, tid);
            && Inv(t)
            && (forall a :: a in Tree(s.ram.disk, s.ram.root) ==> a in t.ram.disk.Live())
            && forall i, a :: 0 <= i < |s.ram.open| && i != tid && a in s.ram.open[i] ==> a in t.ram.disk.Live()
  {
    hide Tree, Once;
    StartAbortInv(s, tid);
    MarkAllIs(Apply(s, StartAbort(tid)));
    FinishInv(MarkAll(Apply(s, StartAbort(tid))));
    AbortExact(s, tid);
    IdleRam(s);
    ChainsApart(s.ram, tid);
    TreeApart(s.ram, tid);
  }

  // ----- boot

  /** A boot without interruption: the crash, the votes of the closed transaction
      and the chains of the open ones. */
  ghost function Reboot(s: Sys, lost: set<LogAddr>): Sys
    requires lost <= s.marks
  {
    Apply(MarkAll(Apply(Apply(s, Crash(lost)), Replay)), Finish)
  }

  /** Crash atomicity of the steps: after a crash between any two of them, boot
      comes up with the root of the last complete checkpoint; every page of its
      tree is live and holds what it held then; and nothing else is live but
      leaked pages. That the flash loses no more than the crash step says is
      shown in Layers, as is the one window in which it may. */
  lemma Recovered(s: Sys, lost: set<LogAddr>)
    requires Inv(s) && lost <= s.marks
    ensures var t, d := Reboot(s, lost), s.dur;
            && Inv(t) && t.phase.Idle? && t.ram.root == d.root
            && Tree(t.ram.disk, d.root) == Tree(d.disk, d.root)
            && (forall a :: a in Tree(d.disk, d.root) ==>
                  a in t.ram.disk.Live() && a in d.disk.blks && t.ram.disk.blks[a] == d.disk.blks[a])
            && (forall a :: a in t.ram.disk.Live() ==> a in Tree(d.disk, d.root) || a in d.leaked)
  {
    var c := Apply(s, Crash(lost));
    var p := Apply(c, Replay);
    StepInv(s, Crash(lost));
    StepInv(c, Replay);
    MarkAllIs(p);
    FinishInv(MarkAll(p));
    FinishPhase(MarkAll(p));
    var t := Reboot(s, lost);
    assert t.ram.disk.blks == s.dur.disk.blks;
    RebootLive(t, s.dur, lost);
  }

  lemma RebootLive(t: Sys, d: Snap, lost: set<LogAddr>)
    requires Inv(t) && t.phase.Idle? && t.ram.root == d.root && t.ram.disk.blks == d.disk.blks && SnapOk(d)
    requires t.ram.leaked == d.leaked && (forall i :: 0 <= i < |t.ram.open| ==> t.ram.open[i] == [])
    ensures forall a :: a in Tree(d.disk, d.root) ==> a in t.ram.disk.Live() && a in d.disk.blks
    ensures forall a :: a in t.ram.disk.Live() ==> a in Tree(d.disk, d.root) || a in d.leaked
  {
    LookSnap(t.ram);
    LookSnap(d);
    IdleRam(t);
    forall a ensures a !in Doomed(t.ram) {
      NothingClosed(t.ram, a);
    }
  }

  /** Replaying is idempotent: without leaks, boot comes up with the same live
      pages no matter which marks of earlier attempts are found on the flash. */
  lemma ReplayIdempotent(s: Sys, lost: set<LogAddr>, u: Sys, again: set<LogAddr>)
    requires Inv(s) && lost <= s.marks && Inv(u) && again <= u.marks && u.dur == s.dur && s.dur.leaked == {}
    ensures Reboot(u, again).ram.disk.Live() == Reboot(s, lost).ram.disk.Live()
    ensures forall a :: a in Reboot(s, lost).ram.disk.Live() <==> a in Tree(s.dur.disk, s.dur.root)
  {
    Recovered(s, lost);
    Recovered(u, again);
  }

  // ----- the window that close() and fsync() leave

  /** close() and fsync() pass the root in RAM itself to commitInodeToInode0, so
      the new root is in place before the last vote page is written and before
      the closed transaction is recorded. This is what a segment header written
      in between captures. */
  function EarlyRoot(r: Snap, root: LogAddr): Snap {
    r.(root := root)
  }

  /** Boot from such a checkpoint takes the transaction for an open one and
      deletes its pages: afterwards the new root is not live. */
  lemma EarlyRootLost(r: Snap, tid: nat, root: LogAddr)
    requires r.closed == [] && tid < |r.open| && root in r.open[tid]
    ensures root in Doomed(EarlyRoot(r, root)) && !SnapOk(EarlyRoot(r, root))
  {
    var d := EarlyRoot(r, root);
    NothingClosed(d, root);
    assert root in Tree(d.disk, d.root);
    if SnapOk(d) {
      LookSnap(d);
    }
  }

  /** A checkpoint with the new root is sound exactly when it also records the
      transaction as closed, as the paths through createNewFile and removeFile
      do. */
  lemma RootNeedsClosed(r: Snap, tid: nat, root: LogAddr, record: bool)
    requires SnapOk(r) && r.closed == [] && Running(r, -1) && tid < |r.open| && root in r.open[tid]
    requires Ledger(r.disk.blks, Tree(r.disk, root), r.open[tid], Tree(r.disk, r.root))
    ensures SnapOk(r.(root := root, closed := if record then r.open[tid] else [])) <==> record
  {
    if record {
      SetRootSnap(r, tid, root);
    } else {
      EarlyRootLost(r, tid, root);
      assert r.(root := root, closed := []) == EarlyRoot(r, root);
    }
  }

  // ----- the first state, and where leaks come from

  function FirstSnap(k: Disk, root: LogAddr, n: nat): Snap {
    Snap(k, root, [], NoChains(n), {})
  }

  lemma FirstSnapOk(k: Disk, root: LogAddr, n: nat, t: multiset<LogAddr>)
    requires BlocksOk(k.blks) && t == Tree(k, root) && Once(t) && forall a :: a in t <==> a in k.Live()
    ensures SnapOk(FirstSnap(k, root, n))
  {
    var d := FirstSnap(k, root, n);
    forall a ensures a !in Doomed(d) { NothingClosed(d, a); }
    assert Doomed(d) == {};
    MakeSnap(d, t, k.Live(), {});
  }

  lemma FirstRunning(d: Snap)
    requires d.closed == [] && forall i :: 0 <= i < |d.open| ==> d.open[i] == []
    ensures Running(d, -1)
  {
    var none: seq<LogAddr> := [];
    assert multiset(none) == multiset{};
  }

  /** handleNoFs: a fresh file system after its first checkpoint. */
  lemma FirstInv(k: Disk, root: LogAddr, n: nat)
    requires BlocksOk(k.blks) && Once(Tree(k, root)) && forall a :: a in Tree(k, root) <==> a in k.Live()
    ensures Inv(Sys(FirstSnap(k, root, n), FirstSnap(k, root, n), {}, Idle))
  {
    var d := FirstSnap(k, root, n);
    FirstSnapOk(k, root, n, Tree(k, root));
    FreshIntact(d);
    MakeKept(Sys(d, d, {}, Idle), Tree(k, root));
    FirstRunning(d);
  }

  /** The two places that lose track of pages: a segment header written inside
      allocAndWriteBlock before the new address is stored, and one written by
      boot before the open transactions are deleted. */
  predicate Leaky(step: Step) {
    (step.Write? && step.hdr && !step.lastVots) || step.BootHeader?
  }

  /** Without them nothing leaks in any run: after a crash at any point, boot
      comes up with exactly the committed tree. */
  lemma {:induction false} NoLeaks(s: Sys, steps: seq<Step>, lost: set<LogAddr>)
    requires Inv(s) && CanRun(s, steps) && s.ram.leaked == {} && s.dur.leaked == {}
    requires forall step :: step in steps ==> !Leaky(step)
    requires lost <= Run(s, steps).marks
    ensures var t := Run(s, steps);
            forall a :: a in Reboot(t, lost).ram.disk.Live() <==> a in Tree(t.dur.disk, t.dur.root)
    decreases |steps|
  {
    if steps == [] {
      Recovered(s, lost);
    } else {
      assert steps[0] in steps;
      StepInv(s, steps[0]);
      NoLeaks(Apply(s, steps[0]), steps[1..], lost);
    }
  }

  /** Boot marks what the checkpoint dooms, and nothing else. */
  lemma RebootIs(s: Sys, lost: set<LogAddr>, a: LogAddr)
    requires lost <= s.marks
    ensures Reboot(s, lost).ram.root == s.dur.root && Reboot(s, lost).ram.disk.blks == s.dur.disk.blks
    ensures a in Reboot(s, lost).ram.disk.Live() <==> a in s.dur.disk.Live() && a !in lost && a !in Doomed(s.dur)
  {
    var p := Apply(Apply(s, Crash(lost)), Replay);
    MarkAllIs(p);
    assert a in Doomed(s.dur) <==> a in p.phase.todo;
  }

  /** Boot comes up with exactly the committed tree if and only if every page the checkpoint
      has lost track of is obsolete by then. */
  lemma ExactWithoutLeaks(s: Sys, lost: set<LogAddr>)
    requires Inv(s) && lost <= s.marks
    ensures (forall a :: a in Reboot(s, lost).ram.disk.Live() <==> a in Tree(s.dur.disk, s.dur.root))
       <==> (forall a :: a in s.dur.leaked && a in s.dur.disk.Live() ==> a in lost || a in Doomed(s.dur))
  {
    hide Inv, Tree, Reboot, Doomed;
    assert SnapOk(s.dur) by { InvSnap(s); }
    Recovered(s, lost);
    LeakedApart(s.dur);
    forall a ensures a in Reboot(s, lost).ram.disk.Live() <==> a in s.dur.disk.Live() && a !in lost && a !in Doomed(s.dur) {
      RebootIs(s, lost, a);
    }
  }

  lemma InvSnap(s: Sys)
    requires Inv(s)
    ensures SnapOk(s.dur)
  {
  }

  lemma LeakedApart(d: Snap)
    requires SnapOk(d)
    ensures forall a :: a in d.leaked ==> a !in Tree(d.disk, d.root)
  {
    LookSnap(d);
  }

  /** The page a stale header forgets, and the pages of open chains that a header written by
      boot forgets. */
  ghost predicate Forgets(s: Sys, step: Step) {
    if step.BootHeader? then
      exists a :: a in DeleteList(s.ram.open, s.ram.closed) && a in s.ram.disk.Live() && a !in VoteList(s.ram.disk.blks, s.ram.closed)
    else Leaky(step)
  }

  lemma NothingToDelete(n: nat, closed: seq<LogAddr>, a: LogAddr)
    ensures a !in DeleteList(NoChains(n), closed)
  {
    DeleteListIs(NoChains(n), closed, a);
  }

  lemma StaleForgets(s: Sys, step: Step)
    requires Inv(s) && Enabled(s, step) && step.Write? && step.hdr && !step.lastVots
    ensures var t := Apply(s, step);
      step.a in t.dur.leaked && step.a in t.dur.disk.Live() && step.a !in Doomed(t.dur)
  {
    LookPhase(s);
    NothingClosed(Apply(s, step).dur, step.a);
  }

  lemma HeaderForgets(s: Sys, a: LogAddr)
    requires Inv(s) && Enabled(s, BootHeader) && s.ram.leaked == {}
    ensures var d := Apply(s, BootHeader).dur;
      && (a in d.leaked <==> a in DeleteList(s.ram.open, s.ram.closed))
      && (a in Doomed(d) <==> a in VoteList(s.ram.disk.blks, s.ram.closed))
  {
    NothingToDelete(|s.ram.open|, s.ram.closed, a);
  }

  /** From a state that has lost nothing, a step makes boot miss pages exactly when it forgets one. */
  lemma LeaksExactly(s: Sys, step: Step)
    requires Inv(s) && Enabled(s, step) && s.ram.leaked == {} && s.dur.leaked == {}
    ensures var t := Apply(s, step);
      (forall a :: a in Reboot(t, {}).ram.disk.Live() <==> a in Tree(t.dur.disk, t.dur.root)) <==> !Forgets(s, step)
  {
    var t := Apply(s, step);
    StepInv(s, step);
    ExactWithoutLeaks(t, {});
    if step.BootHeader? {
      forall a ensures (a in t.dur.leaked <==> a in DeleteList(s.ram.open, s.ram.closed))
                    && (a in Doomed(t.dur) <==> a in VoteList(s.ram.disk.blks, s.ram.closed)) {
        HeaderForgets(s, a);
      }
    } else if Leaky(step) {
      StaleForgets(s, step);
    }
  }
}

/** Several transactions at once: whatever the order of their calls, commits and aborts, each
    keeps its books against the root that is current. */
module Interleave {
  import opened Flash
  import opened FsIndex
  import opened FsTree
  import opened FsCopy
  import opened TxLedger
  import opened TxFile
  import opened TxRebase
  import opened Transactions
  import Removal
  import R = Recovery

  /** A running transaction and where inode0 lists its file. */
  datatype Client = Client(t: Tx, f: File, off: nat)

  /** The live pages, their prev links, the root, and the running transactions. */
  datatype Shared = Shared(b: Blocks, l: map<LogAddr, Ref>, root: LogAddr, cs: map<nat, Client>)

  ghost function Tree(b: Blocks, root: LogAddr): multiset<LogAddr> { InodePages(b, Some(root), true) }

  ghost predicate ClientOk(s: Shared, c: Client) {
    c.t.blks == s.b && c.t.links == s.l && Runs(c.t, c.f, Some(s.root), c.off)
  }

  ghost predicate TreeOk(b: Blocks, root: LogAddr) {
    BlocksOk(b) && IsInode(b, Some(root)) && Once(Tree(b, root)) && Within(Tree(b, root), b)
  }

  /** Different files, different pages. */
  ghost predicate Apart(c: Client, d: Client) {
    Locate(c.off) != Locate(d.off) && forall a :: a in c.t.chain ==> a !in d.t.chain
  }

  ghost predicate Together(s: Shared) {
    && TreeOk(s.b, s.root)
    && (forall i :: i in s.cs ==> ClientOk(s, s.cs[i]))
    && (forall i, j :: i in s.cs && j in s.cs && i != j ==> Apart(s.cs[i], s.cs[j]))
  }

  // ----- the others

  /** A client after the tree around it has changed. */
  ghost function Moved(c: Client, root: LogAddr, b2: Blocks, l2: map<LogAddr, Ref>, root2: LogAddr): Client {
    if BlocksOk(c.t.blks) && IsInode(c.t.blks, Some(root)) && c.off < ADDRESSABLE && Locate(c.off).Ok() then
      var pages, tree := FilePages(c.t.blks, Some(root), c.off), Tree(b2, root2);
      Client(Rebased(c.t, c.f.rem, pages, b2, l2, tree), c.f.(rem := tree - pages), c.off)
    else c
  }

  lemma MovedKeeps(c: Client, root: LogAddr, b2: Blocks, l2: map<LogAddr, Ref>, root2: LogAddr)
    ensures Moved(c, root, b2, l2, root2).off == c.off && Moved(c, root, b2, l2, root2).t.chain == c.t.chain
  {
    hide Rebased;
    if BlocksOk(c.t.blks) && IsInode(c.t.blks, Some(root)) && c.off < ADDRESSABLE && Locate(c.off).Ok() {
      Transaction.RebasedParts(c.t, c.f.rem, FilePages(c.t.blks, Some(root), c.off), b2, l2, Tree(b2, root2));
    }
  }

  /** What a step by client i must leave to client c. */
  ghost predicate Spares(s: Shared, c: Client, b2: Blocks, l2: map<LogAddr, Ref>, root2: LogAddr) {
    && Runs(c.t, c.f, Some(s.root), c.off)
    && Elsewhere(c.t, Some(s.root), c.off, b2, l2, Some(root2))
  }

  lemma ClientListed(s: Shared, c: Client)
    requires Runs(c.t, c.f, Some(s.root), c.off)
    ensures BlocksOk(c.t.blks) && IsInode(c.t.blks, Some(s.root)) && c.off < ADDRESSABLE && Locate(c.off).Ok() && !Locate(c.off).InInode?
    ensures Books(c.t) && c.t.was == Tree(c.t.blks, s.root)
  {
  }

  lemma MovedOk(s: Shared, c: Client, b2: Blocks, l2: map<LogAddr, Ref>, root2: LogAddr, t: Shared)
    requires Spares(s, c, b2, l2, root2) && t.b == b2 && t.l == l2 && t.root == root2
    ensures ClientOk(t, Moved(c, s.root, b2, l2, root2))
  {
    hide Runs, Elsewhere, Rebased, FilePages, InodePages, Locate;
    ClientListed(s, c);
    Rebase(c.t, c.f, Some(s.root), c.off, b2, l2, Some(root2));
    Transaction.RebasedParts(c.t, c.f.rem, FilePages(c.t.blks, Some(s.root), c.off), b2, l2, Tree(b2, root2));
  }

  /** A client's pages: neither in the tree nor gone. */
  lemma ChainApart(s: Shared, c: Client)
    requires ClientOk(s, c)
    ensures forall a :: a in c.t.chain ==> a in s.b && a !in Tree(s.b, s.root)
  {
    hide InodePages;
    ClientListed(s, c);
    Audit(c.t);
  }

  /** The state after a step of client i that moves the root to root2 and the pages to b2. */
  ghost function Others(s: Shared, i: nat, b2: Blocks, l2: map<LogAddr, Ref>, root2: LogAddr): Shared {
    Shared(b2, l2, root2, map j | j in s.cs && j != i :: Moved(s.cs[j], s.root, b2, l2, root2))
  }

  lemma OthersTogether(s: Shared, i: nat, b2: Blocks, l2: map<LogAddr, Ref>, root2: LogAddr)
    requires Together(s) && TreeOk(b2, root2)
    requires forall j :: j in s.cs && j != i ==> Spares(s, s.cs[j], b2, l2, root2)
    ensures Together(Others(s, i, b2, l2, root2))
  {
    var t := Others(s, i, b2, l2, root2);
    hide Spares, ClientOk, TreeOk, Moved, Locate;
    forall j | j in t.cs ensures ClientOk(t, t.cs[j]) {
      MovedOk(s, s.cs[j], b2, l2, root2, t);
    }
    forall j, k | j in t.cs && k in t.cs && j != k ensures Apart(t.cs[j], t.cs[k]) {
      MovedKeeps(s.cs[j], s.root, b2, l2, root2);
      MovedKeeps(s.cs[k], s.root, b2, l2, root2);
      assert Apart(s.cs[j], s.cs[k]);
    }
  }

  /** Adding a client that is in step with the rest. */
  lemma Joined(s: Shared, i: nat, c: Client)
    requires Together(s) && i !in s.cs && ClientOk(s, c)
    requires forall j :: j in s.cs ==> Apart(s.cs[j], c) && Apart(c, s.cs[j])
    ensures Together(s.(cs := s.cs[i := c]))
  {
    hide ClientOk, TreeOk, Apart;
    var t := s.(cs := s.cs[i := c]);
    forall j | j in t.cs ensures ClientOk(t, t.cs[j]) {
      SameShared(s, t, t.cs[j]);
    }
  }

  lemma SameShared(s: Shared, t: Shared, c: Client)
    requires ClientOk(s, c) && t.b == s.b && t.l == s.l && t.root == s.root
    ensures ClientOk(t, c)
  {
  }

  // ----- new pages do not disturb the others

  lemma TreeGrows(b: Blocks, b2: Blocks, root: LogAddr)
    requires TreeOk(b, root) && BlocksOk(b2) && SameOn(Tree(b, root), b, b2)
    ensures TreeOk(b2, root) && Tree(b2, root) == Tree(b, root)
    ensures InodeAt(b2, Some(root)) == InodeAt(b, Some(root))
    ensures forall l: Loc :: l.Ok() ==> Resolve(b2, InodeAt(b2, Some(root)), l) == Resolve(b, InodeAt(b, Some(root)), l)
  {
    InodeFrame(b, b2, Some(root), true);
    InodeKept(b, b2, Some(root), true);
    hide InodePages, Resolve;
    forall l: Loc | l.Ok() ensures Resolve(b2, InodeAt(b2, Some(root)), l) == Resolve(b, InodeAt(b, Some(root)), l) {
      ResolveFrame(b, b2, InodeAt(b, Some(root)), l, true);
    }
  }

  /** Every page of the tree and of the chain is still there: the client is spared. */
  lemma SparedByRoom(s: Shared, c: Client, b2: Blocks, l2: map<LogAddr, Ref>)
    requires TreeOk(s.b, s.root) && ClientOk(s, c) && BlocksOk(b2) && SameOn(Tree(s.b, s.root), s.b, b2)
    requires ChainKept(s, c, b2, l2)
    ensures Spares(s, c, b2, l2, s.root)
  {
    hide InodePages, Resolve, Runs, Books, SameOn, Locate, TreeOk, ClientOk, ChainKept;
    Parts(s, c);
    ChainApart(s, c);
    TreeGrows(s.b, b2, s.root);
    FileInRoot(s.b, Some(s.root), Locate(c.off));
    SamePart(FilePages(s.b, Some(s.root), c.off), Tree(s.b, s.root), s.b, b2);
    SparedIf(s, c, b2, l2, s.root);
  }

  /** The pages and links of the client's chain are as they were. */
  ghost predicate ChainKept(s: Shared, c: Client, b2: Blocks, l2: map<LogAddr, Ref>) {
    && (forall a :: a in c.t.chain ==> a in s.b && a in b2 && b2[a] == s.b[a])
    && (forall a :: a in c.t.chain && a in s.l ==> a in l2 && l2[a] == s.l[a])
  }

  lemma Parts(s: Shared, c: Client)
    requires ClientOk(s, c)
    ensures c.t.blks == s.b && c.t.links == s.l && Runs(c.t, c.f, Some(s.root), c.off)
    ensures BlocksOk(s.b) && IsInode(s.b, Some(s.root)) && c.off < ADDRESSABLE && Locate(c.off).Ok() && !Locate(c.off).InInode?
    ensures Books(c.t) && c.t.was == Tree(s.b, s.root)
  {
    ClientListed(s, c);
  }

  lemma SamePart(m: multiset<LogAddr>, tree: multiset<LogAddr>, b: Blocks, b2: Blocks)
    requires m <= tree && SameOn(tree, b, b2)
    ensures SameOn(m, b, b2)
  {
    forall x | x in m ensures x in b && x in b2 && b2[x] == b[x] {
      assert m[x] <= tree[x];
    }
  }

  /** What sparing a client takes. */
  lemma SparedIf(s: Shared, c: Client, b2: Blocks, l2: map<LogAddr, Ref>, root2: LogAddr)
    requires ClientOk(s, c) && TreeOk(b2, root2) && ChainKept(s, c, b2, l2)
    requires BlocksOk(s.b) && IsInode(s.b, Some(s.root)) && c.off < ADDRESSABLE && Locate(c.off).Ok()
    requires Resolve(b2, InodeAt(b2, Some(root2)), Locate(c.off)) == Resolve(s.b, InodeAt(s.b, Some(s.root)), Locate(c.off))
    requires SameOn(FilePages(s.b, Some(s.root), c.off), s.b, b2)
    requires forall a :: a in c.t.chain ==> a !in Tree(b2, root2)
    ensures Spares(s, c, b2, l2, root2)
  {
    hide InodePages, Resolve, Runs, Locate, FilePages;
    var pages := FilePages(s.b, Some(s.root), c.off);
    assert SameOn(pages + multiset(c.t.chain), s.b, b2);
  }

  // ----- the steps

  datatype Step =
    /** Calls of client i, up to where its books are t and its file is f. */
    | Work(i: nat, t: Tx, f: File)
    /** Client i commits: its books are t and the new root is root, which may list anew its own file
        and those at the places given, and the votes are carried out. */
    | Commit(i: nat, t: Tx, root: LogAddr, also: set<Loc>)
    /** Client i aborts: its pages are given up. */
    | Abort(i: nat)
    /** A transaction on a file that no other one has. */
    | Begin(i: nat, c: Client)

  /** The books of client c after more calls. */
  ghost predicate Advanced(c: Client, t: Tx) {
    Books(t) && Grew(c.t, t) && t.was == c.t.was && BlocksOk(t.blks)
  }

  /** What Transaction.Commit ensures, with nothing listed anew but the client's own file; creating
      and removing a file do it with others. */
  ghost predicate Committing(s: Shared, c: Client, t: Tx, root: LogAddr, also: set<Loc>) {
    && Advanced(c, t) && BlocksOk(s.b) && IsInode(s.b, Some(s.root)) && IsInode(t.blks, Some(root))
    && ListsElse(s.b, Some(s.root), {Locate(c.off)} + also, t.blks, Some(root))
    && Ledger(t.blks, Tree(t.blks, root), t.chain, t.was)
  }

  /** A new transaction, as the constructor of Transaction leaves it. */
  ghost predicate Starting(s: Shared, c: Client) {
    && ClientOk(s, c) && c.t.chain == []
    && forall j :: j in s.cs ==> Locate(s.cs[j].off) != Locate(c.off)
  }

  ghost predicate Enabled(s: Shared, step: Step) {
    match step
    case Work(i, t, f) =>
      && i in s.cs && Advanced(s.cs[i], t) && f.rem == s.cs[i].f.rem
      && Serves(t.blks, t.rest, f) && OwnPages(t.blks, f.ino, f.rem, t.was, t.chain)
    case Commit(i, t, root, also) =>
      i in s.cs && Committing(s, s.cs[i], t, root, also) && forall j :: j in s.cs && j != i ==> Locate(s.cs[j].off) !in also
    case Abort(i) => i in s.cs
    case Begin(i, c) => i !in s.cs && Starting(s, c)
  }

  /** The pages that a commit marks: those voted and the vote pages. */
  ghost function Marked(t: Tx): multiset<LogAddr> {
    ChainVotes(t.blks, t.chain) + VotePages(t.blks, t.chain)
  }

  ghost function Without(b: Blocks, m: multiset<LogAddr>): Blocks {
    map a | a in b && a !in m :: b[a]
  }

  ghost function Apply(s: Shared, step: Step): Shared
    requires Enabled(s, step)
  {
    match step
    case Work(i, t, f) =>
      var u := Others(s, i, t.blks, t.links, s.root);
      u.(cs := u.cs[i := Client(t, f, s.cs[i].off)])
    case Commit(i, t, root, _) => Others(s, i, Without(t.blks, Marked(t)), t.links, root)
    case Abort(i) => Others(s, i, Without(s.b, multiset(s.cs[i].t.chain)), s.l, s.root)
    case Begin(i, c) => s.(cs := s.cs[i := c])
  }

  // ----- calls of one client

  /** Pages that a client adds are new to every other one. */
  lemma GrewKeeps(s: Shared, c: Client, t: Tx, d: Client)
    requires ClientOk(s, c) && ClientOk(s, d) && Advanced(c, t)
    ensures ChainKept(s, d, t.blks, t.links)
    ensures (forall a :: a in c.t.chain ==> a !in d.t.chain) ==> forall a :: a in t.chain ==> a !in d.t.chain
  {
    hide InodePages, Books, Runs, Locate;
    ChainApart(s, d);
  }

  lemma TreeStays(s: Shared, c: Client, t: Tx)
    requires TreeOk(s.b, s.root) && ClientOk(s, c) && Advanced(c, t)
    ensures TreeOk(t.blks, s.root) && Tree(t.blks, s.root) == Tree(s.b, s.root) && SameOn(Tree(s.b, s.root), s.b, t.blks)
  {
    hide InodePages, Books, Runs, Resolve;
    TreeGrows(s.b, t.blks, s.root);
  }

  lemma WorkSpares(s: Shared, i: nat, t: Tx, j: nat)
    requires Together(s) && i in s.cs && j in s.cs && Advanced(s.cs[i], t)
    ensures Spares(s, s.cs[j], t.blks, t.links, s.root)
  {
    hide ClientOk, TreeOk, Apart, Spares, SameOn, InodePages, Books, ChainKept, Grew;
    GrewKeeps(s, s.cs[i], t, s.cs[j]);
    TreeStays(s, s.cs[i], t);
    SparedByRoom(s, s.cs[j], t.blks, t.links);
  }

  /** The client itself goes on with its file. */
  lemma Worked(s: Shared, c: Client, t: Tx, f: File)
    requires TreeOk(s.b, s.root) && ClientOk(s, c) && Advanced(c, t) && f.rem == c.f.rem
    requires Serves(t.blks, t.rest, f) && OwnPages(t.blks, f.ino, f.rem, t.was, t.chain)
    ensures Runs(t, f, Some(s.root), c.off)
  {
    hide InodePages, Books, Serves, OwnPages, Locate, Resolve;
    TreeStays(s, c, t);
    Transaction.OutsideKept(s.b, t.blks, Some(s.root), c.off, f.rem);
  }

  lemma WorkTogether(s: Shared, i: nat, t: Tx, f: File)
    requires Together(s) && Enabled(s, Work(i, t, f))
    ensures Together(Apply(s, Work(i, t, f)))
  {
    hide ClientOk, TreeOk, Apart, Spares, SameOn, InodePages, Books, ChainKept, Grew, Serves, OwnPages, Runs, Moved, Advanced;
    var u, c := Others(s, i, t.blks, t.links, s.root), Client(t, f, s.cs[i].off);
    TreeStays(s, s.cs[i], t);
    forall j | j in s.cs ensures Spares(s, s.cs[j], t.blks, t.links, s.root) {
      WorkSpares(s, i, t, j);
    }
    OthersTogether(s, i, t.blks, t.links, s.root);
    Worked(s, s.cs[i], t, f);
    InStep(u, c, s.root);
    forall j | j in u.cs ensures Apart(u.cs[j], c) && Apart(c, u.cs[j]) {
      MovedKeeps(s.cs[j], s.root, t.blks, t.links, s.root);
      StillApart(s, i, j, t, u.cs[j], c);
    }
    Joined(u, i, c);
  }

  lemma InStep(u: Shared, c: Client, root: LogAddr)
    requires c.t.blks == u.b && c.t.links == u.l && u.root == root && Runs(c.t, c.f, Some(root), c.off)
    ensures ClientOk(u, c)
  {
  }

  lemma StillApart(s: Shared, i: nat, j: nat, t: Tx, d: Client, c: Client)
    requires Together(s) && i in s.cs && j in s.cs && i != j && Advanced(s.cs[i], t)
    requires d.off == s.cs[j].off && d.t.chain == s.cs[j].t.chain && c.off == s.cs[i].off && c.t.chain == t.chain
    ensures Apart(d, c) && Apart(c, d)
  {
    hide ClientOk, TreeOk, ChainKept, Books, Grew, Locate;
    GrewKeeps(s, s.cs[i], t, s.cs[j]);
    assert Apart(s.cs[i], s.cs[j]) && Apart(s.cs[j], s.cs[i]);
  }

  // ----- commits

  /** What the ledger says of the tree and the marked pages together. */
  lemma LedgerIs(t: Tx, tree: multiset<LogAddr>)
    requires Ledger(t.blks, tree, t.chain, t.was)
    ensures tree + Marked(t) == t.was + multiset(t.chain) && Once(tree + Marked(t))
  {
    assert tree + ChainVotes(t.blks, t.chain) + VotePages(t.blks, t.chain) == tree + Marked(t);
  }

  lemma ApartIfOnce(m: multiset<LogAddr>, n: multiset<LogAddr>, a: LogAddr)
    requires Once(m + n)
    ensures m[a] <= 1 && (a in m ==> a !in n)
  {
    assert (m + n)[a] <= 1;
  }

  lemma InUnion(was: multiset<LogAddr>, chain: seq<LogAddr>, a: LogAddr)
    ensures a in was + multiset(chain) <==> a in was || a in chain
  {
  }

  lemma Shares(t: Tx, tree: multiset<LogAddr>, m: multiset<LogAddr>, a: LogAddr)
    requires Books(t) && tree + m == t.was + multiset(t.chain) && Once(tree + m)
    ensures a in tree + m <==> a in t.was || a in t.chain
    ensures a in tree ==> a in t.blks && a !in m
  {
    hide Books, Once;
    InUnion(t.was, t.chain, a);
    ApartIfOnce(tree, m, a);
    if a in tree {
      assert a in tree + m;
      CurrentThere(t, a, tree + m);
    }
  }

  /** The new tree was there when the commit wrote its pages, and none of it is marked. */
  lemma NewTree(c: Client, t: Tx, root: LogAddr)
    requires Advanced(c, t) && Ledger(t.blks, Tree(t.blks, root), t.chain, t.was)
    ensures Once(Tree(t.blks, root)) && SameOn(Tree(t.blks, root), t.blks, Without(t.blks, Marked(t)))
    ensures forall a :: a in Tree(t.blks, root) + Marked(t) <==> a in t.was || a in t.chain
  {
    hide InodePages, Marked, Ledger, Tree, Grew, Once, Books;
    LedgerIs(t, Tree(t.blks, root));
    OnceLeft(Tree(t.blks, root), Marked(t));
    forall a
      ensures a in Tree(t.blks, root) + Marked(t) <==> a in t.was || a in t.chain
      ensures a in Tree(t.blks, root) ==> a in t.blks && a !in Marked(t)
    {
      Shares(t, Tree(t.blks, root), Marked(t), a);
    }
  }

  lemma OnceLeft(m: multiset<LogAddr>, n: multiset<LogAddr>)
    requires Once(m + n)
    ensures Once(m)
  {
    forall a ensures m[a] <= 1 { ApartIfOnce(m, n, a); }
  }

  lemma CurrentThere(t: Tx, a: LogAddr, all: multiset<LogAddr>)
    requires Books(t) && a in all && all == t.was + multiset(t.chain)
    ensures a in t.blks
  {
    Audit(t);
    InUnion(t.was, t.chain, a);
  }

  /** The pages of another client are not in the new tree and not marked. */
  lemma ChainOutside(s: Shared, c: Client, t: Tx, root: LogAddr, d: Client)
    requires ClientOk(s, c) && ClientOk(s, d) && Advanced(c, t) && Ledger(t.blks, Tree(t.blks, root), t.chain, t.was)
    requires forall a :: a in c.t.chain ==> a !in d.t.chain
    ensures forall a :: a in d.t.chain ==> a !in Tree(t.blks, root) && a !in Marked(t)
  {
    hide InodePages, Books, Runs, Marked, Grew, Ledger;
    GrewKeeps(s, c, t, d);
    ChainApart(s, d);
    Parts(s, c);
    NewTree(c, t, root);
    forall a | a in d.t.chain ensures a !in Tree(t.blks, root) && a !in Marked(t) {
      assert a !in Tree(t.blks, root) + Marked(t);
    }
  }

  lemma CommitTree(s: Shared, c: Client, t: Tx, root: LogAddr, also: set<Loc>)
    requires Committing(s, c, t, root, also)
    ensures var b2 := Without(t.blks, Marked(t));
            && TreeOk(b2, root) && Tree(b2, root) == Tree(t.blks, root)
            && forall l: Loc :: l.Ok() ==> Resolve(b2, InodeAt(b2, Some(root)), l) == Resolve(t.blks, InodeAt(t.blks, Some(root)), l)
  {
    hide InodePages, Books, Marked, Grew, Ledger, ListsElse, Resolve;
    NewTree(c, t, root);
    TreeGrows(t.blks, Without(t.blks, Marked(t)), root);
  }

  lemma CommitSpares(s: Shared, i: nat, t: Tx, root: LogAddr, also: set<Loc>, j: nat)
    requires Together(s) && i in s.cs && j in s.cs && i != j && Committing(s, s.cs[i], t, root, also)
    requires Locate(s.cs[j].off) !in also
    ensures Spares(s, s.cs[j], Without(t.blks, Marked(t)), t.links, root)
  {
    hide ClientOk, TreeOk, Spares, SameOn, InodePages, Books, Grew, Ledger, Marked, Resolve, Locate, ChainKept;
    var c, d, b2 := s.cs[i], s.cs[j], Without(t.blks, Marked(t));
    assert Apart(c, d);
    ChainOutside(s, c, t, root, d);
    GrewKeeps(s, c, t, d);
    KeptWithout(s, d, t, Marked(t));
    CommitTree(s, c, t, root, also);
    Parts(s, d);
    assert Walk(Locate(d.off));
    FileStays(s, c, t, root, also, d);
    SparedIf(s, d, b2, t.links, root);
  }

  lemma KeptWithout(s: Shared, d: Client, t: Tx, m: multiset<LogAddr>)
    requires ChainKept(s, d, t.blks, t.links) && forall a :: a in d.t.chain ==> a !in m
    ensures ChainKept(s, d, Without(t.blks, m), t.links)
  {
  }

  /** The pages of another client's file are in the new tree. */
  lemma FileStays(s: Shared, c: Client, t: Tx, root: LogAddr, also: set<Loc>, d: Client)
    requires ClientOk(s, c) && ClientOk(s, d) && TreeOk(s.b, s.root) && Committing(s, c, t, root, also)
    requires d.off < ADDRESSABLE && Locate(d.off).Ok() && !Locate(d.off).InInode?
    requires Resolve(t.blks, InodeAt(t.blks, Some(root)), Locate(d.off)) == Resolve(s.b, InodeAt(s.b, Some(s.root)), Locate(d.off))
    ensures SameOn(FilePages(s.b, Some(s.root), d.off), s.b, Without(t.blks, Marked(t)))
  {
    hide InodePages, Books, Runs, Grew, Ledger, Resolve, Locate, Marked, Without;
    var file := Resolve(s.b, InodeAt(s.b, Some(s.root)), Locate(d.off));
    TreeStays(s, c, t);
    FileInRoot(s.b, Some(s.root), Locate(d.off));
    SamePart(InodePages(s.b, file, false), Tree(s.b, s.root), s.b, t.blks);
    InodeFrame(s.b, t.blks, file, false);
    FileInRoot(t.blks, Some(root), Locate(d.off));
    NewTree(c, t, root);
    SamePart(InodePages(s.b, file, false), Tree(t.blks, root), t.blks, Without(t.blks, Marked(t)));
  }

  lemma CommitTogether(s: Shared, i: nat, t: Tx, root: LogAddr, also: set<Loc>)
    requires Together(s) && Enabled(s, Commit(i, t, root, also))
    ensures Together(Apply(s, Commit(i, t, root, also)))
  {
    hide ClientOk, TreeOk, Apart, Spares, InodePages, Committing, Moved, Resolve, Marked;
    var b2 := Without(t.blks, Marked(t));
    CommitTree(s, s.cs[i], t, root, also);
    forall j | j in s.cs && j != i ensures Spares(s, s.cs[j], b2, t.links, root) {
      CommitSpares(s, i, t, root, also, j);
    }
    OthersTogether(s, i, b2, t.links, root);
  }

  // ----- aborts

  lemma AbortTree(s: Shared, c: Client)
    requires TreeOk(s.b, s.root) && ClientOk(s, c)
    ensures var b2 := Without(s.b, multiset(c.t.chain));
            BlocksOk(b2) && SameOn(Tree(s.b, s.root), s.b, b2)
  {
    hide InodePages, Runs;
    ChainApart(s, c);
  }

  lemma AbortSpares(s: Shared, i: nat, j: nat)
    requires Together(s) && i in s.cs && j in s.cs && i != j
    ensures Spares(s, s.cs[j], Without(s.b, multiset(s.cs[i].t.chain)), s.l, s.root)
  {
    hide ClientOk, TreeOk, Spares, SameOn, InodePages, Locate;
    assert Apart(s.cs[i], s.cs[j]);
    AbortTree(s, s.cs[i]);
    ChainApart(s, s.cs[j]);
    SparedByRoom(s, s.cs[j], Without(s.b, multiset(s.cs[i].t.chain)), s.l);
  }

  lemma AbortTogether(s: Shared, i: nat)
    requires Together(s) && Enabled(s, Abort(i))
    ensures Together(Apply(s, Abort(i)))
  {
    hide ClientOk, TreeOk, Apart, Spares, InodePages, Moved, Without, SameOn, Resolve;
    var b2 := Without(s.b, multiset(s.cs[i].t.chain));
    AbortTree(s, s.cs[i]);
    TreeGrows(s.b, b2, s.root);
    forall j | j in s.cs && j != i ensures Spares(s, s.cs[j], b2, s.l, s.root) {
      AbortSpares(s, i, j);
    }
    OthersTogether(s, i, b2, s.l, s.root);
  }

  // ----- every run

  lemma StepTogether(s: Shared, step: Step)
    requires Together(s) && Enabled(s, step)
    ensures Together(Apply(s, step))
  {
    hide Together, Enabled, Apply, Starting;
    match step
    case Work(i, t, f) => WorkTogether(s, i, t, f);
    case Commit(i, t, root, also) => CommitTogether(s, i, t, root, also);
    case Abort(i) => AbortTogether(s, i);
    case Begin(i, c) => BeginTogether(s, i, c);
  }

  lemma BeginTogether(s: Shared, i: nat, c: Client)
    requires Together(s) && Enabled(s, Begin(i, c))
    ensures Together(Apply(s, Begin(i, c)))
  {
    hide ClientOk, TreeOk, Locate;
    Joined(s, i, c);
  }

  ghost predicate Run(ss: seq<Shared>, steps: seq<Step>) {
    && |ss| == |steps| + 1
    && forall k :: 0 <= k < |steps| ==> Enabled(ss[k], steps[k]) && ss[k + 1] == Apply(ss[k], steps[k])
  }

  /** However calls, commits, aborts and new transactions interleave, every running transaction
      keeps its books, its file, and its share of the current tree. */
  lemma {:induction false} RunTogether(ss: seq<Shared>, steps: seq<Step>, k: nat)
    requires Run(ss, steps) && Together(ss[0]) && k < |ss|
    ensures Together(ss[k])
  {
    hide Together, Enabled, Apply;
    if k > 0 {
      RunTogether(ss, steps, k - 1);
      StepTogether(ss[k - 1], steps[k - 1]);
    }
  }

  /** Every commit of every run closes its ledger against the root that is current then, whatever
      was committed since the transaction began. */
  lemma CommitsBalance(ss: seq<Shared>, steps: seq<Step>, k: nat)
    requires Run(ss, steps) && Together(ss[0]) && k < |steps| && steps[k].Commit?
    ensures var t, s := steps[k].t, ss[k];
            && Ledger(t.blks, Tree(t.blks, steps[k].root), t.chain, Tree(t.blks, s.root))
            && Tree(t.blks, s.root) == Tree(s.b, s.root)
  {
    hide ClientOk, TreeOk, Apart, InodePages, Books, Ledger;
    RunTogether(ss, steps, k);
    var s := ss[k];
    assert Enabled(s, steps[k]);
    TreeStays(s, s.cs[steps[k].i], steps[k].t);
    Parts(s, s.cs[steps[k].i]);
  }

  // ----- the guard of the commit on the flash

  lemma LedgerFrame(t: Tx, tree: multiset<LogAddr>, b: Blocks)
    requires Books(t) && Ledger(t.blks, tree, t.chain, t.was) && Extends(t.blks, b)
    ensures Ledger(b, tree, t.chain, t.was)
  {
    Audit(t);
    VotesFrame(t.blks, b, t.chain);
  }

  /** When the pages of client i are on the flash, the commit that the recovery system asks for
      is enabled: its ledger closes against the root that is current, not the one the client
      began with. */
  lemma GuardHolds(s: Shared, i: nat, t: Tx, root: LogAddr, also: set<Loc>, sys: R.Sys, tid: nat)
    requires Together(s) && Enabled(s, Commit(i, t, root, also)) && t.chain != []
    requires sys.phase.Idle? && tid < |sys.ram.open| && sys.ram.open[tid] == t.chain && sys.ram.root == s.root
    requires Extends(t.blks, sys.ram.disk.blks) && BlocksOk(sys.ram.disk.blks)
    ensures R.Enabled(sys, R.SetRoot(tid, root))
  {
    hide ClientOk, TreeOk, Apart, InodePages, Books, Ledger, Grew, Marked, Resolve;
    var b := sys.ram.disk.blks;
    TreeStays(s, s.cs[i], t);
    Parts(s, s.cs[i]);
    NewTree(s.cs[i], t, root);
    OnFlash(t.blks, b, s.root);
    SameAfter(Tree(t.blks, root), t.blks, Marked(t), b);
    InodeFrame(t.blks, b, Some(root), true);
    LedgerFrame(t, Tree(t.blks, root), b);
  }

  lemma OnFlash(b: Blocks, b2: Blocks, root: LogAddr)
    requires TreeOk(b, root) && Extends(b, b2)
    ensures Tree(b2, root) == Tree(b, root)
  {
    assert SameOn(InodePages(b, Some(root), true), b, b2);
    InodeFrame(b, b2, Some(root), true);
  }

  lemma SameAfter(m: multiset<LogAddr>, b: Blocks, gone: multiset<LogAddr>, b2: Blocks)
    requires SameOn(m, b, Without(b, gone)) && Extends(b, b2)
    ensures SameOn(m, b, b2)
  {
  }

  // ----- the code takes these steps

  /** writeFileBlock by client i. */
  method WriteOf(tx: Transaction, ghost s: Shared, ghost i: nat, off: nat, len: nat, content: Option<Block>) returns (ok: bool)
    requires Together(s) && i in s.cs && tx.Ready() && !tx.inode0 && INODE_DATA_SIZE <= off && len > 0
    requires s.cs[i].t == tx.Now() && s.cs[i].f == tx.TheFile()
    modifies tx
    ensures Advanced(s.cs[i], tx.Now())
    ensures ok ==> Enabled(s, Work(i, tx.Now(), tx.TheFile()))
    ensures !ok ==> tx.room == 0 || off >= MAX_FILE_SIZE
  {
    hide TreeOk, ClientOk, Apart, InodePages, Books, Grew, OwnPages, Together, Shaped, BlocksOk, View, Holds, Rests;
    ghost var r;
    ok, r := tx.WriteFileBlock(off, len, content);
  }

  /** commitTransaction by client i, in whatever state the others have left the flash. */
  method CommitOf(tx: Transaction, ghost s: Shared, ghost i: nat, root: LogAddr, inoNum: nat) returns (ok: bool)
    requires Together(s) && i in s.cs && tx.Ready() && !tx.inode0 && 0 < inoNum && root == s.root
    requires s.cs[i] == Client(tx.Now(), tx.TheFile(), Transaction.SlotOf(inoNum))
    modifies tx
    ensures Advanced(s.cs[i], tx.Now())
    ensures ok ==> tx.inoAddr.Some? && Enabled(s, Commit(i, tx.Now(), tx.inoAddr.value, {}))
    ensures !ok ==> tx.room == 0 || Transaction.SlotOf(inoNum) >= MAX_FILE_SIZE
  {
    hide TreeOk, ClientOk, Apart, InodePages, Books, Ledger, Grew, Serves, Outside, Resolve, OwnPages, Together, Shaped, BlocksOk, IsInode;
    ghost var c, f, max := s.cs[i], tx.TheFile(), tx.maxWritten;
    ClientRuns(s, i);
    ok := tx.Commit(root, inoNum);
    if ok {
      CommitIs(s, c, f, max, tx.Now(), tx.rest, tx.inoAddr);
    }
  }

  /** The part of the file that lives in the inode. */
  method InlineOf(tx: Transaction, ghost s: Shared, ghost i: nat, len: nat, bytes: Block) returns (ok: bool)
    requires Together(s) && i in s.cs && tx.Ready() && !tx.inode0 && 0 < len && INODE_DATA_SIZE <= |bytes|
    requires s.cs[i].t == tx.Now() && s.cs[i].f == tx.TheFile()
    modifies tx
    ensures Advanced(s.cs[i], tx.Now())
    ensures ok ==> Enabled(s, Work(i, tx.Now(), tx.TheFile()))
    ensures !ok ==> tx.room == 0
  {
    hide TreeOk, ClientOk, Apart, InodePages, Books, Grew, OwnPages, Together, Shaped, BlocksOk, View, Holds, Rests;
    ok := tx.WriteInline(len, bytes);
  }

  /** getTidByFileId: a transaction on a file that no other one has. */
  method BeginOf(ghost s: Shared, ghost i: nat, b: Blocks, l: map<LogAddr, Ref>, root: LogAddr, inoNum: nat, dir: bool, free: nat)
    returns (tx: Transaction)
    requires Together(s) && i !in s.cs && b == s.b && l == s.l && root == s.root
    requires 0 < inoNum && Slot(inoNum) && BlocksOk(b) && IsInode(b, Some(root)) && IsInode(b, Listed(b, Some(root), inoNum))
    requires forall j :: j in s.cs ==> Locate(s.cs[j].off) != Place(inoNum)
    ensures fresh(tx) && tx.Ready() && !tx.inode0
    ensures Enabled(s, Begin(i, Client(tx.Now(), tx.TheFile(), Transaction.SlotOf(inoNum))))
  {
    tx := new Transaction(b, l, root, inoNum, dir, free, Tree(b, root));
    hide InodePages, Books, OwnPages, Outside, Holds, Rests, Shaped, Resolve, BlocksOk, Together, Enabled;
    BeginIs(s, i, tx.Now(), tx.TheFile(), inoNum);
  }

  lemma BeginIs(s: Shared, i: nat, t: Tx, f: File, n: nat)
    requires i !in s.cs && 0 < n && Slot(n) && t == FirstTx(s.b, s.l, Tree(s.b, s.root))
    requires forall j :: j in s.cs ==> Locate(s.cs[j].off) != Place(n)
    requires Books(t) && BlocksOk(t.blks) && Shaped(t.blks, f) && !f.root && f.offset < 0 && Rests(t.blks, t.rest, f)
    requires OwnPages(t.blks, f.ino, f.rem, t.was, t.chain) && Outside(t.blks, Some(s.root), Transaction.SlotOf(n), f.rem)
    ensures Enabled(s, Begin(i, Client(t, f, Transaction.SlotOf(n))))
  {
    hide InodePages, Books, OwnPages, Outside, Rests, Shaped, BlocksOk;
  }

  lemma FirstClient(s: Shared, i: nat, n: nat) returns (c: Client)
    requires Together(s) && i !in s.cs && 0 < n && Slot(n) && BlocksOk(s.b) && IsInode(s.b, Some(s.root))
    requires IsInode(s.b, Listed(s.b, Some(s.root), n))
    requires forall j :: j in s.cs ==> Locate(s.cs[j].off) != Place(n)
    ensures c.t == FirstTx(s.b, s.l, Tree(s.b, s.root)) && c.off == Transaction.SlotOf(n)
    ensures Enabled(s, Begin(i, c))
  {
    hide InodePages, Books, OwnPages, Outside, Rests, Resolve, Apart;
    var off, tree := Transaction.SlotOf(n), Tree(s.b, s.root);
    assert forall r: Ref :: r == Some(s.root) ==> tree == InodePages(s.b, r, true);
    var m := Transaction.TakeOut(s.b, tree, Some(s.root), off, Data([]));
    c := Client(FirstTx(s.b, s.l, tree), File(Listed(s.b, Some(s.root), n), Data([]), -1, false, m), off);
    Transaction.FirstBooks(c.t);
    OwnSettled(c.t, c.f);
    BeginIs(s, i, c.t, c.f, n);
  }

  /** createNewFile, in whatever state the others have left the flash: a transaction that begins with
      the directory and commits with it and the new file. */
  method CreateOf(ghost s: Shared, ghost i: nat, b: Blocks, l: map<LogAddr, Ref>, root: LogAddr, inoNum: nat, ino: Inode,
                  dirNum: nat, off: nat, entry: Block, free: nat)
    returns (ok: bool, tx: Transaction, ghost c: Client)
    requires Together(s) && i !in s.cs && b == s.b && l == s.l && root == s.root && BlocksOk(b) && IsInode(b, Some(root))
    requires 0 < inoNum && 0 < dirNum && inoNum != dirNum && Slot(inoNum) && Slot(dirNum) && INODE_DATA_SIZE <= off
    requires Listed(b, Some(root), inoNum) == None && IsInode(b, Listed(b, Some(root), dirNum)) && ino.Ok() && Transaction.NoPages(ino)
    requires forall j :: j in s.cs ==> Locate(s.cs[j].off) != Place(dirNum) && Locate(s.cs[j].off) != Place(inoNum)
    ensures Enabled(s, Begin(i, c)) && Advanced(c, tx.Now())
    ensures ok ==> tx.inoAddr.Some?
    ensures ok ==> Enabled(Apply(s, Begin(i, c)), Commit(i, tx.Now(), tx.inoAddr.value, {Place(inoNum)}))
    ensures ok ==> BlocksOk(tx.blks) && IsInode(tx.blks, tx.inoAddr) && off < ADDRESSABLE
    ensures ok ==> IsInode(tx.blks, Listed(tx.blks, tx.inoAddr, inoNum)) && NewInodeOf(tx.blks, Listed(tx.blks, tx.inoAddr, inoNum), ino)
    ensures ok ==> IsInode(tx.blks, Listed(tx.blks, tx.inoAddr, dirNum))
    ensures ok ==> EntryWritten(b, Listed(b, Some(root), dirNum), off, entry, tx.blks, Listed(tx.blks, tx.inoAddr, dirNum))
    ensures StartCredit(free) >= NewInodeCost(inoNum) + DirectoryCost(dirNum, off) && InRange(inoNum, dirNum, off) ==> ok
    ensures !ok ==> tx.room == 0 || Transaction.SlotOf(inoNum) >= MAX_FILE_SIZE || Transaction.SlotOf(dirNum) >= MAX_FILE_SIZE || off >= MAX_FILE_SIZE
  {
    c := FirstClient(s, i, dirNum);
    ok, tx := Transactions.CreateFile(b, l, root, inoNum, ino, dirNum, off, entry, free, Tree(b, root));
    if ok {
      CreateIs(s, i, c, tx.Now(), tx.inoAddr, inoNum, dirNum);
    }
  }

  lemma CreateIs(s: Shared, i: nat, c: Client, t: Tx, root: Ref, inoNum: nat, dirNum: nat)
    requires Together(s) && Enabled(s, Begin(i, c)) && Advanced(c, t)
    requires 0 < inoNum && 0 < dirNum && inoNum != dirNum && Slot(inoNum) && Slot(dirNum) && c.off == Transaction.SlotOf(dirNum)
    requires BlocksOk(s.b) && IsInode(s.b, Some(s.root)) && IsInode(t.blks, root)
    requires ListsElse(s.b, Some(s.root), {Place(inoNum), Place(dirNum)}, t.blks, root)
    requires Ledger(t.blks, InodePages(t.blks, root, true), t.chain, t.was)
    requires forall j :: j in s.cs ==> Locate(s.cs[j].off) != Place(inoNum)
    ensures root.Some? && Enabled(Apply(s, Begin(i, c)), Commit(i, t, root.value, {Place(inoNum)}))
  {
    hide InodePages, Books, Grew, Ledger, Resolve, Locate, ClientOk, TreeOk, Apart, ListsElse;
    assert {Place(inoNum), Place(dirNum)} == {Locate(c.off)} + {Place(inoNum)};
  }

  /** removeFile: the commit lists nothing in the file's place. */
  method RemoveOf(tx: Transaction, ghost s: Shared, ghost i: nat, root: LogAddr, inoNum: nat) returns (ok: bool)
    requires Together(s) && i in s.cs && tx.Ready() && !tx.inode0 && tx.fileOffset < 0 && 0 < inoNum && root == s.root
    requires s.cs[i] == Client(tx.Now(), tx.TheFile(), Transaction.SlotOf(inoNum)) && IsInode(tx.blks, tx.inoAddr)
    modifies tx
    ensures Advanced(s.cs[i], tx.Now())
    ensures ok ==> tx.inoAddr.Some? && Enabled(s, Commit(i, tx.Now(), tx.inoAddr.value, {}))
    ensures !ok ==> tx.room == 0 || Transaction.SlotOf(inoNum) >= MAX_FILE_SIZE
  {
    hide TreeOk, ClientOk, Apart, InodePages, Books, Ledger, Grew, Serves, Outside, Resolve, OwnPages, Together, Shaped, BlocksOk, IsInode,
      Removal.FileRemoved;
    ghost var c := s.cs[i];
    ClientRuns(s, i);
    ok := Removal.Remove(tx, root, inoNum);
    if ok {
      RemoveIs(s, c, tx.Now(), tx.inoAddr);
    }
  }

  lemma RemoveIs(s: Shared, c: Client, t: Tx, root: Ref)
    requires ClientOk(s, c) && Advanced(c, t) && BlocksOk(s.b) && IsInode(s.b, Some(s.root)) && c.off < ADDRESSABLE
    requires Removal.FileRemoved(s.b, Some(s.root), c.off, t.blks, root)
    requires Ledger(t.blks, InodePages(t.blks, root, true), t.chain, t.was)
    ensures root.Some? && Committing(s, c, t, root.value, {})
  {
    hide Resolve, InodePages, Books, Grew, Ledger;
  }

  lemma ClientRuns(s: Shared, i: nat)
    requires Together(s) && i in s.cs
    ensures var c := s.cs[i]; ClientOk(s, c) && c.t.blks == s.b && c.off < ADDRESSABLE && Outside(s.b, Some(s.root), c.off, c.f.rem)
  {
  }

  lemma CommitIs(s: Shared, c: Client, f: File, max: nat, t: Tx, rest: multiset<LogAddr>, root: Ref)
    requires ClientOk(s, c) && f == c.f && Advanced(c, t)
    requires Shaped(s.b, f) && IsInode(s.b, Some(s.root)) && BlocksOk(s.b) && c.off < ADDRESSABLE && Locate(c.off).Ok()
    requires Transaction.FileCommitted(s.b, f, max, Some(s.root), c.off, t.blks, rest, root)
    requires Ledger(t.blks, InodePages(t.blks, root, true), t.chain, t.was)
    ensures root.Some? && Committing(s, c, t, root.value, {})
  {
  }
}

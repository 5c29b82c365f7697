/** A running transaction when another one commits: the other's new tree takes the place of
    the old one under this transaction's feet. */
module TxRebase {
  import opened Flash
  import opened FsIndex
  import opened FsTree
  import opened FsCopy
  import opened TxLedger
  import opened TxFile

  /** Always true; mentioning it makes the verifier look inside predicates about a reference. */
  predicate Reached(r: Ref) { true }

  /** rem is everything below root except the file that it lists at off. */
  ghost predicate Outside(b: Blocks, root: Ref, off: nat, rem: multiset<LogAddr>)
    requires off < ADDRESSABLE
  {
    && BlocksOk(b) && IsInode(b, root) && Locate(off).Ok() && INODE_DATA_SIZE <= off
    && forall r {:trigger Reached(r)} :: Reached(r) && r == root ==>
      && Within(InodePages(b, r, true), b)
      && rem + InodePages(b, Resolve(b, InodeAt(b, r), Locate(off)), false) == InodePages(b, r, true)
  }

  lemma OutsideIs(b: Blocks, root: Ref, off: nat, rem: multiset<LogAddr>)
    requires off < ADDRESSABLE && Outside(b, root, off, rem)
    ensures Within(InodePages(b, root, true), b)
    ensures rem + FilePages(b, root, off) == InodePages(b, root, true)
  {
    assert Reached(root);
  }

  /** The pages of the file that root lists at off. */
  ghost function FilePages(b: Blocks, root: Ref, off: nat): multiset<LogAddr>
    requires BlocksOk(b) && IsInode(b, root) && Locate(off).Ok()
  {
    InodePages(b, Resolve(b, InodeAt(b, root), Locate(off)), false)
  }

  // ----- the transaction's own pages

  /** Everything below the inode at a is a page of the file or was written by the transaction. */
  ghost predicate OwnPages(b: Blocks, a: Ref, rem: multiset<LogAddr>, was: multiset<LogAddr>, chain: seq<LogAddr>) {
    forall x :: x in InodePages(b, a, false) ==> (x in was || x in chain) && x !in rem
  }

  lemma OwnSettled(t: Tx, f: File)
    requires Books(t) && Rests(t.blks, t.rest, f) && !f.root
    ensures OwnPages(t.blks, f.ino, f.rem, t.was, t.chain)
  {
    hide InodePages;
    LookSettled(t.blks, t.rest, f);
    forall x | x in InodePages(t.blks, f.ino, false) ensures (x in t.was || x in t.chain) && x !in f.rem {
      assert x in t.rest;
      CurrentIs(t, x);
    }
  }

  lemma CurrentIs(t: Tx, x: LogAddr)
    requires Books(t) && x in t.rest
    ensures t.rest[x] == 1 && (x in t.was || x in t.chain)
  {
    RestWithin(t, x);
    Audit(t);
    assert (t.rest + Gone(t))[x] == (t.was + multiset(t.chain))[x];
    assert x in t.chain <==> x in multiset(t.chain);
  }

  lemma OwnGrows(t: Tx, u: Tx, a: Ref, rem: multiset<LogAddr>)
    requires Books(t) && Grew(t, u) && u.was == t.was && OwnPages(t.blks, a, rem, t.was, t.chain)
    ensures OwnPages(u.blks, a, rem, u.was, u.chain)
  {
    Audit(t);
    assert SameOn(InodePages(t.blks, a, false), t.blks, u.blks);
    InodeFrame(t.blks, u.blks, a, false);
  }

  // ----- what another transaction's commit does

  /** The root has moved from root0 to root1 and the pages to b2. The file at off is still listed
      with the same pages, this transaction's pages are untouched, and the new tree has none of them. */
  ghost predicate Elsewhere(t: Tx, root0: Ref, off: nat, b2: Blocks, l2: map<LogAddr, Ref>, root1: Ref)
    requires BlocksOk(t.blks) && IsInode(t.blks, root0) && off < ADDRESSABLE && Locate(off).Ok()
  {
    && BlocksOk(b2) && IsInode(b2, root1)
    && Resolve(b2, InodeAt(b2, root1), Locate(off)) == Resolve(t.blks, InodeAt(t.blks, root0), Locate(off))
    && SameOn(FilePages(t.blks, root0, off) + multiset(t.chain), t.blks, b2)
    && (forall a :: a in t.chain && a in t.links ==> a in l2 && l2[a] == t.links[a])
    && Once(InodePages(b2, root1, true)) && Within(InodePages(b2, root1, true), b2)
    && (forall a :: a in t.chain ==> a !in InodePages(b2, root1, true))
  }

  function Only(b: Blocks, m: multiset<LogAddr>): Blocks {
    map a | a in b && a in m :: b[a]
  }

  /** The same transaction on top of the new tree; pages are those of its file in the root. */
  ghost function Rebased(t: Tx, rem: multiset<LogAddr>, pages: multiset<LogAddr>, b2: Blocks, l2: map<LogAddr, Ref>, tree: multiset<LogAddr>): Tx {
    Tx(b2, l2, t.prev, t.votes, t.chain, t.rest - rem + (tree - pages), Only(b2, tree), tree)
  }

  lemma {:induction false} VotesFrame(b: Blocks, b2: Blocks, chain: seq<LogAddr>)
    requires forall a :: a in chain ==> a in b && a in b2 && b2[a] == b[a]
    ensures ChainVotes(b2, chain) == ChainVotes(b, chain) && VotePages(b2, chain) == VotePages(b, chain)
  {
    if chain != [] {
      VotesFrame(b, b2, chain[1..]);
    }
  }

  lemma {:induction false} LinkedFrame(l: map<LogAddr, Ref>, l2: map<LogAddr, Ref>, a: Ref, chain: seq<LogAddr>)
    requires Linked(l, a, chain) && forall x :: x in chain && x in l ==> x in l2 && l2[x] == l[x]
    ensures Linked(l2, a, chain)
    decreases |chain|
  {
    if chain != [] {
      LinkedFrame(l, l2, l[chain[0]], chain[1..]);
    }
  }

  /** Books balance on top of the new tree. */
  lemma BooksRebased(t: Tx, rem: multiset<LogAddr>, pages: multiset<LogAddr>, b2: Blocks, l2: map<LogAddr, Ref>, tree: multiset<LogAddr>)
    requires Books(t) && rem <= t.rest && t.was == rem + pages && pages <= tree && Once(tree) && Within(tree, b2) && BlocksOk(b2)
    requires forall a :: a in t.chain ==> a in t.blks && a in b2 && b2[a] == t.blks[a] && a !in tree
    requires forall a :: a in t.chain && a in t.links ==> a in l2 && l2[a] == t.links[a]
    ensures Books(Rebased(t, rem, pages, b2, l2, tree))
  {
    Audit(t);
    var u := Rebased(t, rem, pages, b2, l2, tree);
    VotesFrame(t.blks, b2, t.chain);
    LinkedFrame(t.links, l2, t.prev, t.chain);
    RebasedSums(t.rest, rem, pages, tree, Gone(t), multiset(t.chain));
    assert BooksDef(u);
  }

  lemma RebasedSums(rest: multiset<LogAddr>, rem: multiset<LogAddr>, pages: multiset<LogAddr>, tree: multiset<LogAddr>,
                    gone: multiset<LogAddr>, chain: multiset<LogAddr>)
    requires rest + gone == rem + pages + chain && rem <= rest && pages <= tree
    ensures rest - rem + (tree - pages) + gone == tree + chain
  {
    forall a ensures (rest - rem + (tree - pages) + gone)[a] == (tree + chain)[a] {
      assert (rest + gone)[a] == (rem + pages + chain)[a] && rem[a] <= rest[a] && pages[a] <= tree[a];
    }
  }

  // ----- the file on top of the new tree

  /** A file ready for reading and writing, whatever it has pending. */
  ghost predicate Serves(b: Blocks, rest: multiset<LogAddr>, f: File) {
    && BlocksOk(b) && Shaped(b, f) && !f.root
    && if f.offset >= 0 then Holds(b, rest, f) else Rests(b, rest, f)
  }

  /** A running transaction on the file that the current root lists at off. */
  ghost predicate Runs(t: Tx, f: File, root: Ref, off: nat) {
    && Books(t) && Serves(t.blks, t.rest, f) && off < ADDRESSABLE && Outside(t.blks, root, off, f.rem)
    && t.was == InodePages(t.blks, root, true)
    && OwnPages(t.blks, f.ino, f.rem, t.was, t.chain)
  }

  /** Pages of the file, old or new, that are not outside it. */
  ghost predicate Inside(t: Tx, rem: multiset<LogAddr>, m: multiset<LogAddr>) {
    forall x :: x in m ==> (x in t.was || x in t.chain) && x !in rem
  }

  lemma Untouched(t: Tx, f: File, root0: Ref, off: nat, b2: Blocks, l2: map<LogAddr, Ref>, root1: Ref, m: multiset<LogAddr>)
    requires off < ADDRESSABLE && Outside(t.blks, root0, off, f.rem) && t.was == InodePages(t.blks, root0, true)
    requires Elsewhere(t, root0, off, b2, l2, root1) && Inside(t, f.rem, m)
    ensures SameOn(m, t.blks, b2)
  {
    OutsideIs(t.blks, root0, off, f.rem);
    var pages := FilePages(t.blks, root0, off);
    forall x | x in m ensures x in t.blks && x in b2 && b2[x] == t.blks[x] {
      if x in t.was {
        assert x in f.rem + pages;
        assert x in pages + multiset(t.chain);
      } else {
        assert x in pages + multiset(t.chain);
      }
    }
  }

  /** What is current and not outside the file is inside it. */
  lemma InsideRest(t: Tx, rem: multiset<LogAddr>, m: multiset<LogAddr>)
    requires Books(t) && rem + m <= t.rest
    ensures Inside(t, rem, m)
  {
    forall x | x in m ensures (x in t.was || x in t.chain) && x !in rem {
      assert (rem + m)[x] <= t.rest[x];
      CurrentIs(t, x);
    }
  }

  lemma SwapRem(rest: multiset<LogAddr>, rem: multiset<LogAddr>, w: multiset<LogAddr>, rem2: multiset<LogAddr>, b: Blocks)
    requires rest == rem + w
    ensures rem <= rest && rest - rem + rem2 == rem2 + w
    ensures Within(rem2, b) && Within(w, b) ==> Within(rest - rem + rem2, b)
  {
    assert rest - rem + rem2 == rem2 + w;
  }

  lemma SameWithin(m: multiset<LogAddr>, b: Blocks, b2: Blocks)
    requires SameOn(m, b, b2)
    ensures Within(m, b2)
  {
  }

  lemma RestsMoves(b: Blocks, b2: Blocks, f: File, rest: multiset<LogAddr>, rem2: multiset<LogAddr>)
    requires BlocksOk(b) && BlocksOk(b2) && Shaped(b, f) && f.offset < 0 && !f.root && Settled(b, rest, f)
    requires SameOn(InodePages(b, f.ino, false), b, b2)
    ensures f.rem <= rest && Serves(b2, rest - f.rem + rem2, f.(rem := rem2))
  {
    InodeFrame(b, b2, f.ino, false);
    InodeKept(b, b2, f.ino, false);
    hide InodePages;
    SwapRem(rest, f.rem, InodePages(b, f.ino, false), rem2, b2);
    assert Settled(b2, rest - f.rem + rem2, f.(rem := rem2));
  }

  lemma RestsRebased(t: Tx, f: File, root0: Ref, off: nat, b2: Blocks, l2: map<LogAddr, Ref>, root1: Ref, rem2: multiset<LogAddr>)
    requires Runs(t, f, root0, off) && Elsewhere(t, root0, off, b2, l2, root1) && f.offset < 0
    ensures f.rem <= t.rest && Serves(b2, t.rest - f.rem + rem2, f.(rem := rem2))
  {
    hide InodePages, Books;
    OwnInside(t, f);
    Untouched(t, f, root0, off, b2, l2, root1, InodePages(t.blks, f.ino, false));
    LookSettled(t.blks, t.rest, f);
    RestsMoves(t.blks, b2, f, t.rest, rem2);
  }

  lemma InodeMoves(b: Blocks, b2: Blocks, f: File, rest: multiset<LogAddr>, rem2: multiset<LogAddr>)
    requires BlocksOk(b) && BlocksOk(b2) && Shaped(b, f) && f.offset == 0 && !f.root && OpenAtInode(b, rest, f) && Within(rem2, b2)
    requires SameOn(Opt(f.ino) + InodeUnder(b, f.active.ino, false), b, b2)
    ensures f.rem <= rest && Serves(b2, rest - f.rem + rem2, f.(rem := rem2))
  {
    SameParts(Opt(f.ino), InodeUnder(b, f.active.ino, false), b, b2);
    InodeUnderFrame(b, b2, f.active.ino, false);
    hide InodeUnder, SameOn, Within, Opt;
    var rest2, g := rest - f.rem + rem2, f.(rem := rem2);
    var w := Opt(f.ino) + InodeUnder(b, f.active.ino, false);
    SameWithin(w, b, b2);
    SwapRem(rest, f.rem, w, rem2, b2);
    assert OpenAtInode(b2, rest2, g);
    assert Open(b2, rest2, g);
  }

  lemma InodeRebased(t: Tx, f: File, root0: Ref, off: nat, b2: Blocks, l2: map<LogAddr, Ref>, root1: Ref, rem2: multiset<LogAddr>)
    requires Runs(t, f, root0, off) && Elsewhere(t, root0, off, b2, l2, root1) && f.offset == 0 && Within(rem2, b2)
    ensures f.rem <= t.rest && Serves(b2, t.rest - f.rem + rem2, f.(rem := rem2))
  {
    hide InodePages, InodeUnder, Books;
    LookOpen(t.blks, t.rest, f);
    var w := Opt(f.ino) + InodeUnder(t.blks, f.active.ino, false);
    InsideRest(t, f.rem, w);
    Untouched(t, f, root0, off, b2, l2, root1, w);
    InodeMoves(t.blks, b2, f, t.rest, rem2);
  }

  lemma LeafSplit(rest: multiset<LogAddr>, rem: multiset<LogAddr>, w: multiset<LogAddr>, s: multiset<LogAddr>, k: multiset<LogAddr>)
    requires Traded(rest, rem + w, multiset{}, multiset{}, s, k) && s <= w
    ensures rem + k <= rest && rem <= rest
  {
    forall a ensures (rem + k)[a] <= rest[a] { assert Any(a) && s[a] <= w[a]; }
  }

  lemma LeafRebasedSums(rest: multiset<LogAddr>, rem: multiset<LogAddr>, w: multiset<LogAddr>, s: multiset<LogAddr>, k: multiset<LogAddr>,
                        rem2: multiset<LogAddr>)
    requires Traded(rest, rem + w, multiset{}, multiset{}, s, k) && rem <= rest
    ensures Traded(rest - rem + rem2, rem2 + w, multiset{}, multiset{}, s, k)
  {
    forall a ensures (rest - rem + rem2)[a] + s[a] == (rem2 + w)[a] + k[a] {
      assert Any(a) && rem[a] <= rest[a];
    }
  }

  lemma StoredIn(b: Blocks, f: File)
    requires BlocksOk(b) && IsInode(b, f.ino) && INDIRECT_OFFSET <= f.offset < MAX_FILE_SIZE && !f.root
    ensures UnderAll(b, Stored(b, f), 0, false) <= InodePages(b, f.ino, false)
  {
    LocateOk(f.offset);
    LeafNumberIs(f.offset);
    LeafKids(b, f.ino, Locate(f.offset), false);
  }

  lemma LeafMoves(b: Blocks, b2: Blocks, f: File, rest: multiset<LogAddr>, rem2: multiset<LogAddr>)
    requires BlocksOk(b) && BlocksOk(b2) && Shaped(b, f) && f.offset > 0 && !f.root && OpenAtLeaf(b, rest, f) && f.rem <= rest
    requires SameOn(InodePages(b, f.ino, false), b, b2) && SameOn(UnderAll(b, f.active.refs, 0, false), b, b2)
    ensures Serves(b2, rest - f.rem + rem2, f.(rem := rem2))
  {
    hide InodePages, UnderAll, Stored;
    var w, s, k := InodePages(b, f.ino, false), UnderAll(b, Stored(b, f), 0, false), UnderAll(b, f.active.refs, 0, false);
    InodeFrame(b, b2, f.ino, false);
    UnderAllFrame(b, b2, f.active.refs, 0, false);
    StoredFrame(b, b2, f);
    LeafRebasedSums(rest, f.rem, w, s, k, rem2);
    var rest2, g := rest - f.rem + rem2, f.(rem := rem2);
    StoredSame(b2, f, g);
    assert OpenAtLeaf(b2, rest2, g);
    assert Open(b2, rest2, g);
  }

  lemma LeafRebased(t: Tx, f: File, root0: Ref, off: nat, b2: Blocks, l2: map<LogAddr, Ref>, root1: Ref, rem2: multiset<LogAddr>)
    requires Runs(t, f, root0, off) && Elsewhere(t, root0, off, b2, l2, root1) && f.offset > 0
    ensures f.rem <= t.rest && Serves(b2, t.rest - f.rem + rem2, f.(rem := rem2))
  {
    hide InodePages, UnderAll, Stored, Books;
    LookOpen(t.blks, t.rest, f);
    var w, s, k := InodePages(t.blks, f.ino, false), UnderAll(t.blks, Stored(t.blks, f), 0, false), UnderAll(t.blks, f.active.refs, 0, false);
    StoredIn(t.blks, f);
    LeafSplit(t.rest, f.rem, w, s, k);
    InsideRest(t, f.rem, k);
    OwnInside(t, f);
    Untouched(t, f, root0, off, b2, l2, root1, w);
    Untouched(t, f, root0, off, b2, l2, root1, k);
    LeafMoves(t.blks, b2, f, t.rest, rem2);
  }

  lemma OwnInside(t: Tx, f: File)
    requires OwnPages(t.blks, f.ino, f.rem, t.was, t.chain)
    ensures Inside(t, f.rem, InodePages(t.blks, f.ino, false))
  {
  }

  lemma NewBlocks(t: Tx, root0: Ref, off: nat, b2: Blocks, l2: map<LogAddr, Ref>, root1: Ref)
    requires BlocksOk(t.blks) && IsInode(t.blks, root0) && off < ADDRESSABLE && Locate(off).Ok()
    requires Elsewhere(t, root0, off, b2, l2, root1)
    ensures BlocksOk(b2) && IsInode(b2, root1)
  {
  }

  lemma StoredSame(b: Blocks, f: File, g: File)
    requires BlocksOk(b) && IsInode(b, f.ino) && 0 <= f.offset < MAX_FILE_SIZE && g.ino == f.ino && g.offset == f.offset
    ensures Stored(b, g) == Stored(b, f)
  {
  }

  /** The transaction goes on: whatever another transaction's commit did, the books balance again,
      now against the new root, and the file reads, and will commit, as before. */
  lemma Rebase(t: Tx, f: File, root0: Ref, off: nat, b2: Blocks, l2: map<LogAddr, Ref>, root1: Ref)
    requires Runs(t, f, root0, off) && Elsewhere(t, root0, off, b2, l2, root1)
    ensures var pages, tree := FilePages(t.blks, root0, off), InodePages(b2, root1, true);
            Runs(Rebased(t, f.rem, pages, b2, l2, tree), f.(rem := tree - pages), root1, off)
  {
    var pages, tree := FilePages(t.blks, root0, off), InodePages(b2, root1, true);
    hide InodePages, Books, OwnPages, Serves, Holds, Rests, FilePages, Outside, Elsewhere, Locate;
    PagesListed(t, f, root0, off, b2, l2, root1);
    if f.offset < 0 {
      RestsRebased(t, f, root0, off, b2, l2, root1, tree - pages);
    } else if f.offset == 0 {
      InodeRebased(t, f, root0, off, b2, l2, root1, tree - pages);
    } else {
      LeafRebased(t, f, root0, off, b2, l2, root1, tree - pages);
    }
    BooksRebased(t, f.rem, pages, b2, l2, tree);
    OwnRebased(t, f, root0, off, b2, l2, root1);
  }

  /** The file's pages in the old root are its pages in the new one. */
  lemma PagesListed(t: Tx, f: File, root0: Ref, off: nat, b2: Blocks, l2: map<LogAddr, Ref>, root1: Ref)
    requires Runs(t, f, root0, off) && Elsewhere(t, root0, off, b2, l2, root1)
    ensures var pages, tree := FilePages(t.blks, root0, off), InodePages(b2, root1, true);
            && t.was == f.rem + pages && pages <= tree && Once(tree) && Within(tree, b2) && BlocksOk(b2)
            && Within(tree - pages, b2)
            && (forall a :: a in t.chain ==> a in t.blks && a in b2 && b2[a] == t.blks[a] && a !in tree)
            && (forall a :: a in t.chain && a in t.links ==> a in l2 && l2[a] == t.links[a])
            && Outside(b2, root1, off, tree - pages)
  {
    var pages, tree := FilePages(t.blks, root0, off), InodePages(b2, root1, true);
    NewBlocks(t, root0, off, b2, l2, root1);
    NewChain(t, root0, off, b2, l2, root1);
    OutsideIs(t.blks, root0, off, f.rem);
    NewPages(t.blks, root0, off, b2, root1, t, l2);
    NewOutside(b2, root1, off, pages);
  }

  lemma NewChain(t: Tx, root0: Ref, off: nat, b2: Blocks, l2: map<LogAddr, Ref>, root1: Ref)
    requires BlocksOk(t.blks) && IsInode(t.blks, root0) && off < ADDRESSABLE && Locate(off).Ok()
    requires Elsewhere(t, root0, off, b2, l2, root1)
    ensures forall a :: a in t.chain ==> a in t.blks && a in b2 && b2[a] == t.blks[a] && a !in InodePages(b2, root1, true)
    ensures forall a :: a in t.chain && a in t.links ==> a in l2 && l2[a] == t.links[a]
    ensures Once(InodePages(b2, root1, true)) && Within(InodePages(b2, root1, true), b2)
  {
    hide InodePages, FilePages, Resolve;
    forall a | a in t.chain ensures a in t.blks && a in b2 && b2[a] == t.blks[a] {
      assert a in FilePages(t.blks, root0, off) + multiset(t.chain);
    }
  }

  lemma NewPages(b: Blocks, root0: Ref, off: nat, b2: Blocks, root1: Ref, t: Tx, l2: map<LogAddr, Ref>)
    requires b == t.blks && BlocksOk(b) && IsInode(b, root0) && off < ADDRESSABLE && Locate(off).Ok() && !Locate(off).InInode?
    requires Elsewhere(t, root0, off, b2, l2, root1)
    ensures FilePages(b2, root1, off) == FilePages(b, root0, off)
    ensures FilePages(b, root0, off) <= InodePages(b2, root1, true)
  {
    hide InodePages, Resolve, Locate;
    SameParts(FilePages(b, root0, off), multiset(t.chain), b, b2);
    InodeFrame(b, b2, Resolve(b, InodeAt(b, root0), Locate(off)), false);
    FileInRoot(b2, root1, Locate(off));
  }

  lemma NewOutside(b: Blocks, root: Ref, off: nat, pages: multiset<LogAddr>)
    requires BlocksOk(b) && IsInode(b, root) && INODE_DATA_SIZE <= off < ADDRESSABLE && Locate(off).Ok()
    requires pages == FilePages(b, root, off) && pages <= InodePages(b, root, true) && Within(InodePages(b, root, true), b)
    ensures Outside(b, root, off, InodePages(b, root, true) - pages)
    ensures Within(InodePages(b, root, true) - pages, b)
  {
    hide InodePages, Resolve, Locate;
    var tree := InodePages(b, root, true);
    assert tree - pages + pages == tree;
  }

  lemma OwnRebased(t: Tx, f: File, root0: Ref, off: nat, b2: Blocks, l2: map<LogAddr, Ref>, root1: Ref)
    requires Runs(t, f, root0, off) && Elsewhere(t, root0, off, b2, l2, root1)
    requires var pages, tree := FilePages(t.blks, root0, off), InodePages(b2, root1, true);
             t.was == f.rem + pages && pages <= tree && Once(tree)
    ensures var pages, tree := FilePages(t.blks, root0, off), InodePages(b2, root1, true);
            OwnPages(b2, f.ino, tree - pages, tree, t.chain)
  {
    var pages, tree := FilePages(t.blks, root0, off), InodePages(b2, root1, true);
    OwnInside(t, f);
    Untouched(t, f, root0, off, b2, l2, root1, InodePages(t.blks, f.ino, false));
    InodeFrame(t.blks, b2, f.ino, false);
    hide InodePages, Serves, Books, Outside, FilePages;
    forall x | x in InodePages(b2, f.ino, false) ensures (x in tree || x in t.chain) && x !in tree - pages {
      if x in t.chain {
        assert x !in tree;
      } else {
        assert x in f.rem + pages && x in pages;
        assert pages[x] <= tree[x] <= 1;
      }
    }
  }
}

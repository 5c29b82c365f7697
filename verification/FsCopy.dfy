/** Path copying: a new inode that resolves one range of the file through a
    new block of addresses, and everything else as before. */
module FsCopy {
  import opened Flash
  import opened FsIndex
  import opened FsTree

  // ----- which pages are exchanged

  predicate Any(a: LogAddr) { true }

  /** x' and the pages o and u are the same pages as x, n and v. */
  ghost predicate Traded(x': multiset<LogAddr>, x: multiset<LogAddr>, o: multiset<LogAddr>, n: multiset<LogAddr>,
                         u: multiset<LogAddr>, v: multiset<LogAddr>) {
    forall a {:trigger Any(a)} :: Any(a) ==> x'[a] + o[a] + u[a] == x[a] + n[a] + v[a]
  }

  /** A copied block of addresses at height n: entry k has changed. */
  lemma CopyLevel(b: Blocks, b': Blocks, old_: Ref, k: nat, child: Ref, new_: Ref, n: nat, root: bool)
    requires BlocksOk(b) && n > 0 && k < REFS_PER_BLOCK && SameOn(Under(b, old_, n, root), b, b')
    requires |RefsAt(b, old_)| == REFS_PER_BLOCK && RefsAt(b', new_) == RefsAt(b, old_)[k := child]
    ensures Traded(Under(b', new_, n, root), Under(b, old_, n, root), Opt(old_), Opt(new_),
                   Under(b, RefsAt(b, old_)[k], n - 1, root), Under(b', child, n - 1, root))
  {
    var refs := RefsAt(b, old_);
    UnderIs(b, old_, n, root);
    UnderIs(b', new_, n, root);
    CopyEntries(b, b', old_, k, child, n, root);
    CopySums(Under(b', new_, n, root), Under(b, old_, n, root),
             UnderAll(b', refs[k := child], n - 1, root), UnderAll(b, refs, n - 1, root),
             Under(b, refs[k], n - 1, root), Under(b', child, n - 1, root), Opt(old_), Opt(new_));
  }

  lemma CopyEntries(b: Blocks, b': Blocks, old_: Ref, k: nat, child: Ref, n: nat, root: bool)
    requires n > 0 && SameOn(Under(b, old_, n, root), b, b') && k < |RefsAt(b, old_)|
    ensures var refs := RefsAt(b, old_);
         UnderAll(b', refs[k := child], n - 1, root) + Under(b, refs[k], n - 1, root)
         == UnderAll(b, refs, n - 1, root) + Under(b', child, n - 1, root)
  {
    var refs := RefsAt(b, old_);
    EntriesFrame(b, b', old_, n, root);
    UnderAllFrame(b, b', refs, n - 1, root);
    EntryFrame(b, b', refs, k, n - 1, root);
    ReplaceEntry(b', refs, k, child, n - 1, root);
  }

  lemma EntriesFrame(b: Blocks, b': Blocks, a: Ref, n: nat, root: bool)
    requires n > 0 && SameOn(Under(b, a, n, root), b, b')
    ensures SameOn(Opt(a), b, b') && SameOn(UnderAll(b, RefsAt(b, a), n - 1, root), b, b')
  {
    UnderIs(b, a, n, root);
    SameParts(Opt(a), UnderAll(b, RefsAt(b, a), n - 1, root), b, b');
  }

  lemma CopySums(x': multiset<LogAddr>, x: multiset<LogAddr>, e': multiset<LogAddr>, e: multiset<LogAddr>,
                 u: multiset<LogAddr>, v: multiset<LogAddr>, o: multiset<LogAddr>, n: multiset<LogAddr>)
    requires e' + u == e + v && x' == n + e' && x == o + e
    ensures Traded(x', x, o, n, u, v)
  {
    forall a ensures x'[a] + o[a] + u[a] == x[a] + n[a] + v[a] {
      assert (e' + u)[a] == (e + v)[a];
    }
  }

  lemma EntryFrame(b: Blocks, b': Blocks, refs: seq<Ref>, k: nat, n: nat, root: bool)
    requires k < |refs| && SameOn(UnderAll(b, refs, n, root), b, b')
    ensures SameOn(Under(b, refs[k], n, root), b, b')
    ensures Under(b', refs[k], n, root) == Under(b, refs[k], n, root)
  {
    EntryWithin(b, refs, k, n, root);
    UnderFrame(b, b', refs[k], n, root);
  }

  /** The block of addresses that a path ends in. */
  function LeafRef(b: Blocks, ino: Inode, l: Loc): Ref
    requires BlocksOk(b) && ino.Ok() && l.Ok()
  {
    match l
    case Indirect(_) => ino.indirect
    case Double(j, _) => RefAt(b, ino.double, j)
    case Triple(k, j, _) => RefAt(b, RefAt(b, ino.triple, k), j)
    case _ => None
  }

  /** The new inode of a commit at path l: every block of addresses on the path
      has been rewritten with one changed entry, the last one holds buf. */
  ghost predicate CopiedPath(b: Blocks, ino: Inode, l: Loc, buf: seq<Ref>, b': Blocks, ino': Inode)
    requires BlocksOk(b) && ino.Ok() && l.Ok()
  {
    match l
    case Indirect(_) =>
      ino' == ino.(indirect := ino'.indirect) && RefsAt(b', ino'.indirect) == buf
    case Double(j, _) =>
      && ino' == ino.(double := ino'.double)
      && RewrittenBlock(b, ino.double, j, b', ino'.double)
      && RefsAt(b', RefsAt(b', ino'.double)[j]) == buf
    case Triple(k, j, _) =>
      && ino' == ino.(triple := ino'.triple)
      && RewrittenBlock(b, ino.triple, k, b', ino'.triple)
      && RewrittenBlock(b, RefsAt(b, ino.triple)[k], j, b', RefsAt(b', ino'.triple)[k])
      && RefsAt(b', RefsAt(b', RefsAt(b', ino'.triple)[k])[j]) == buf
    case _ => false
  }

  /** Only entry k differs. */
  ghost predicate RewrittenBlock(b: Blocks, old_: Ref, k: nat, b': Blocks, new_: Ref) {
    && |RefsAt(b, old_)| == REFS_PER_BLOCK && |RefsAt(b', new_)| == REFS_PER_BLOCK && k < REFS_PER_BLOCK
    && RefsAt(b', new_) == RefsAt(b, old_)[k := RefsAt(b', new_)[k]]
  }

  /** The index pages on the path. */
  ghost function PathPages(b: Blocks, ino: Inode, l: Loc): multiset<LogAddr>
    requires BlocksOk(b) && ino.Ok() && l.Ok()
  {
    match l
    case Indirect(_) => Opt(ino.indirect)
    case Double(j, _) => Opt(ino.double) + Opt(RefAt(b, ino.double, j))
    case Triple(k, j, _) =>
      Opt(ino.triple) + (Opt(RefAt(b, ino.triple, k)) + Opt(RefAt(b, RefAt(b, ino.triple, k), j)))
    case _ => multiset{}
  }

  lemma Chain(x': multiset<LogAddr>, x: multiset<LogAddr>, o: multiset<LogAddr>, n: multiset<LogAddr>,
              u: multiset<LogAddr>, v: multiset<LogAddr>, p: multiset<LogAddr>, q: multiset<LogAddr>,
              l: multiset<LogAddr>, l': multiset<LogAddr>)
    requires Traded(x', x, o, n, u, v) && Traded(v, u, p, q, l, l')
    ensures Traded(x', x, o + p, n + q, l, l')
  {
    forall a ensures x'[a] + (o + p)[a] + l[a] == x[a] + (n + q)[a] + l'[a] {
      assert Any(a);
    }
  }

  lemma CopyLeaf(b: Blocks, b': Blocks, old_: Ref, new_: Ref, buf: seq<Ref>, root: bool)
    requires RefsAt(b', new_) == buf
    ensures Traded(Under(b', new_, 1, root), Under(b, old_, 1, root), Opt(old_), Opt(new_),
                   UnderAll(b, RefsAt(b, old_), 0, root), UnderAll(b', buf, 0, root))
  {
    hide Under, UnderAll, Traded, Opt;
    UnderIs(b, old_, 1, root);
    UnderIs(b', new_, 1, root);
    LeafSums(Under(b', new_, 1, root), Under(b, old_, 1, root), Opt(old_), Opt(new_),
             UnderAll(b, RefsAt(b, old_), 0, root), UnderAll(b', buf, 0, root));
  }

  lemma LeafSums(x': multiset<LogAddr>, x: multiset<LogAddr>, o: multiset<LogAddr>, n: multiset<LogAddr>,
                 l: multiset<LogAddr>, l': multiset<LogAddr>)
    requires x == o + l && x' == n + l'
    ensures Traded(x', x, o, n, l, l')
  {
  }

  lemma CopyTwo(b: Blocks, b': Blocks, old_: Ref, j: nat, new_: Ref, buf: seq<Ref>, root: bool)
    requires BlocksOk(b) && BlocksOk(b') && SameOn(Under(b, old_, 2, root), b, b')
    requires RewrittenBlock(b, old_, j, b', new_) && RefsAt(b', RefsAt(b', new_)[j]) == buf
    ensures var oi, ni := RefsAt(b, old_)[j], RefsAt(b', new_)[j];
         Traded(Under(b', new_, 2, root), Under(b, old_, 2, root), Opt(old_) + Opt(oi), Opt(new_) + Opt(ni),
                UnderAll(b, RefsAt(b, oi), 0, root), UnderAll(b', buf, 0, root))
  {
    var oi, ni := RefsAt(b, old_)[j], RefsAt(b', new_)[j];
    CopyLevel(b, b', old_, j, ni, new_, 2, root);
    CopyLeaf(b, b', oi, ni, buf, root);
    Chain(Under(b', new_, 2, root), Under(b, old_, 2, root), Opt(old_), Opt(new_),
              Under(b, oi, 1, root), Under(b', ni, 1, root), Opt(oi), Opt(ni),
              UnderAll(b, RefsAt(b, oi), 0, root), UnderAll(b', buf, 0, root));
  }

  lemma CopyThree(b: Blocks, b': Blocks, old_: Ref, k: nat, j: nat, new_: Ref, buf: seq<Ref>, root: bool)
    requires BlocksOk(b) && BlocksOk(b') && SameOn(Under(b, old_, 3, root), b, b')
    requires RewrittenBlock(b, old_, k, b', new_)
    requires RewrittenBlock(b, RefsAt(b, old_)[k], j, b', RefsAt(b', new_)[k])
    requires RefsAt(b', RefsAt(b', RefsAt(b', new_)[k])[j]) == buf
    ensures var od, nd := RefsAt(b, old_)[k], RefsAt(b', new_)[k];
         var oi, ni := RefsAt(b, od)[j], RefsAt(b', nd)[j];
         Traded(Under(b', new_, 3, root), Under(b, old_, 3, root),
                Opt(old_) + (Opt(od) + Opt(oi)), Opt(new_) + (Opt(nd) + Opt(ni)),
                UnderAll(b, RefsAt(b, oi), 0, root), UnderAll(b', buf, 0, root))
  {
    var od, nd := RefsAt(b, old_)[k], RefsAt(b', new_)[k];
    var oi, ni := RefsAt(b, od)[j], RefsAt(b', nd)[j];
    BelowFrame(b, b', old_, k, 3, root);
    CopyTwo(b, b', od, j, nd, buf, root);
    CopyLevel(b, b', old_, k, nd, new_, 3, root);
    Chain(Under(b', new_, 3, root), Under(b, old_, 3, root), Opt(old_), Opt(new_),
              Under(b, od, 2, root), Under(b', nd, 2, root), Opt(od) + Opt(oi), Opt(nd) + Opt(ni),
              UnderAll(b, RefsAt(b, oi), 0, root), UnderAll(b', buf, 0, root));
  }

  lemma BelowFrame(b: Blocks, b': Blocks, a: Ref, k: nat, n: nat, root: bool)
    requires n > 0 && k < |RefsAt(b, a)| && SameOn(Under(b, a, n, root), b, b')
    ensures SameOn(Under(b, RefsAt(b, a)[k], n - 1, root), b, b')
    ensures a.Some? ==> RefsAt(b', a) == RefsAt(b, a)
  {
    EntriesFrame(b, b', a, n, root);
    EntryFrame(b, b', RefsAt(b, a), k, n - 1, root);
    if a.Some? { assert a.value in Opt(a); }
  }

  lemma InodeParts(b: Blocks, ino: Inode, root: bool, b': Blocks)
    requires SameOn(InodeUnder(b, ino, root), b, b')
    ensures SameOn(UnderAll(b, ino.direct, 0, root), b, b') && SameOn(Under(b, ino.indirect, 1, root), b, b')
    ensures SameOn(Under(b, ino.double, 2, root), b, b') && SameOn(Under(b, ino.triple, 3, root), b, b')
    ensures UnderAll(b', ino.direct, 0, root) == UnderAll(b, ino.direct, 0, root)
    ensures Under(b', ino.indirect, 1, root) == Under(b, ino.indirect, 1, root)
    ensures Under(b', ino.double, 2, root) == Under(b, ino.double, 2, root)
    ensures Under(b', ino.triple, 3, root) == Under(b, ino.triple, 3, root)
  {
    var x, y := UnderAll(b, ino.direct, 0, root) + Under(b, ino.indirect, 1, root), Under(b, ino.double, 2, root);
    SameParts(x + y, Under(b, ino.triple, 3, root), b, b');
    SameParts(x, y, b, b');
    SameParts(UnderAll(b, ino.direct, 0, root), Under(b, ino.indirect, 1, root), b, b');
    UnderAllFrame(b, b', ino.direct, 0, root);
    UnderFrame(b, b', ino.indirect, 1, root);
    UnderFrame(b, b', ino.double, 2, root);
    UnderFrame(b, b', ino.triple, 3, root);
  }

  /** A trade in one of four parts is a trade in their sum. */
  lemma Part(w: multiset<LogAddr>, w': multiset<LogAddr>, p: multiset<LogAddr>, q: multiset<LogAddr>, r: multiset<LogAddr>,
             x': multiset<LogAddr>, x: multiset<LogAddr>,
             o: multiset<LogAddr>, n: multiset<LogAddr>, l: multiset<LogAddr>, l': multiset<LogAddr>)
    requires (w == p + x + q + r && w' == p + x' + q + r)
          || (w == p + q + x + r && w' == p + q + x' + r)
          || (w == p + q + r + x && w' == p + q + r + x')
    requires Traded(x', x, o, n, l, l')
    ensures Traded(w', w, o, n, l, l')
  {
    forall a ensures w'[a] + o[a] + l[a] == w[a] + n[a] + l'[a] {
      assert Any(a);
    }
  }

  /** Conservation: the pages below the new inode, the old pages of the path and
      what was below the old last block are the pages below the old inode, the
      new pages of the path and what is below the buffer. */
  lemma CopyConserves(b: Blocks, ino: Inode, l: Loc, buf: seq<Ref>, b': Blocks, ino': Inode, root: bool)
    requires BlocksOk(b) && BlocksOk(b') && ino.Ok() && ino'.Ok() && l.Ok()
    requires CopiedPath(b, ino, l, buf, b', ino') && SameOn(InodeUnder(b, ino, root), b, b')
    ensures Traded(InodeUnder(b', ino', root), InodeUnder(b, ino, root), PathPages(b, ino, l), PathPages(b', ino', l),
                   UnderAll(b, RefsAt(b, LeafRef(b, ino, l)), 0, root), UnderAll(b', buf, 0, root))
  {
    match l
    case Indirect(_) => CopyAtIndirect(b, ino, l, buf, b', ino', root);
    case Double(_, _) => CopyAtDouble(b, ino, l, buf, b', ino', root);
    case Triple(_, _, _) => CopyAtTriple(b, ino, l, buf, b', ino', root);
  }

  lemma CopyAtIndirect(b: Blocks, ino: Inode, l: Loc, buf: seq<Ref>, b': Blocks, ino': Inode, root: bool)
    requires BlocksOk(b) && BlocksOk(b') && ino.Ok() && ino'.Ok() && l.Ok() && l.Indirect?
    requires CopiedPath(b, ino, l, buf, b', ino') && SameOn(InodeUnder(b, ino, root), b, b')
    ensures Traded(InodeUnder(b', ino', root), InodeUnder(b, ino, root), PathPages(b, ino, l), PathPages(b', ino', l),
                   UnderAll(b, RefsAt(b, LeafRef(b, ino, l)), 0, root), UnderAll(b', buf, 0, root))
  {
    InodeParts(b, ino, root, b');
    CopyLeaf(b, b', ino.indirect, ino'.indirect, buf, root);
    Part(InodeUnder(b, ino, root), InodeUnder(b', ino', root), UnderAll(b, ino.direct, 0, root), Under(b, ino.double, 2, root), Under(b, ino.triple, 3, root),
         Under(b', ino'.indirect, 1, root), Under(b, ino.indirect, 1, root), PathPages(b, ino, l), PathPages(b', ino', l),
         UnderAll(b, RefsAt(b, LeafRef(b, ino, l)), 0, root), UnderAll(b', buf, 0, root));
  }

  lemma CopyAtDouble(b: Blocks, ino: Inode, l: Loc, buf: seq<Ref>, b': Blocks, ino': Inode, root: bool)
    requires BlocksOk(b) && BlocksOk(b') && ino.Ok() && ino'.Ok() && l.Ok() && l.Double?
    requires CopiedPath(b, ino, l, buf, b', ino') && SameOn(InodeUnder(b, ino, root), b, b')
    ensures Traded(InodeUnder(b', ino', root), InodeUnder(b, ino, root), PathPages(b, ino, l), PathPages(b', ino', l),
                   UnderAll(b, RefsAt(b, LeafRef(b, ino, l)), 0, root), UnderAll(b', buf, 0, root))
  {
    InodeParts(b, ino, root, b');
    CopyTwo(b, b', ino.double, l.j, ino'.double, buf, root);
    Part(InodeUnder(b, ino, root), InodeUnder(b', ino', root), UnderAll(b, ino.direct, 0, root), Under(b, ino.indirect, 1, root), Under(b, ino.triple, 3, root),
         Under(b', ino'.double, 2, root), Under(b, ino.double, 2, root), PathPages(b, ino, l), PathPages(b', ino', l),
         UnderAll(b, RefsAt(b, LeafRef(b, ino, l)), 0, root), UnderAll(b', buf, 0, root));
  }

  lemma CopyAtTriple(b: Blocks, ino: Inode, l: Loc, buf: seq<Ref>, b': Blocks, ino': Inode, root: bool)
    requires BlocksOk(b) && BlocksOk(b') && ino.Ok() && ino'.Ok() && l.Ok() && l.Triple?
    requires CopiedPath(b, ino, l, buf, b', ino') && SameOn(InodeUnder(b, ino, root), b, b')
    ensures Traded(InodeUnder(b', ino', root), InodeUnder(b, ino, root), PathPages(b, ino, l), PathPages(b', ino', l),
                   UnderAll(b, RefsAt(b, LeafRef(b, ino, l)), 0, root), UnderAll(b', buf, 0, root))
  {
    InodeParts(b, ino, root, b');
    CopyThree(b, b', ino.triple, l.k, l.j, ino'.triple, buf, root);
    Part(InodeUnder(b, ino, root), InodeUnder(b', ino', root), UnderAll(b, ino.direct, 0, root), Under(b, ino.indirect, 1, root), Under(b, ino.double, 2, root),
         Under(b', ino'.triple, 3, root), Under(b, ino.triple, 3, root), PathPages(b, ino, l), PathPages(b', ino', l),
         UnderAll(b, RefsAt(b, LeafRef(b, ino, l)), 0, root), UnderAll(b', buf, 0, root));
  }

  // ----- what the new inode resolves to

  function LeafIndex(l: Loc): nat
    requires !l.InInode?
  {
    l.i
  }

  lemma ResolveIsLeaf(b: Blocks, ino: Inode, l: Loc)
    requires BlocksOk(b) && ino.Ok() && l.Ok() && !l.InInode? && !l.Direct?
    ensures Resolve(b, ino, l) == RefAt(b, LeafRef(b, ino, l), LeafIndex(l))
  {
  }

  /** A reference below an unchanged block is unchanged, and so on downwards. */
  lemma RefFrame(b: Blocks, b': Blocks, a: Ref, k: nat, n: nat, root: bool)
    requires BlocksOk(b) && BlocksOk(b') && n > 0 && k < REFS_PER_BLOCK && SameOn(Under(b, a, n, root), b, b')
    ensures RefAt(b', a, k) == RefAt(b, a, k)
    ensures SameOn(Under(b, RefAt(b, a, k), n - 1, root), b, b')
  {
    RefsAtLength(b, a);
    BelowFrame(b, b', a, k, n, root);
  }

  lemma RefFrame2(b: Blocks, b': Blocks, a: Ref, j: nat, i: nat, n: nat, root: bool)
    requires BlocksOk(b) && BlocksOk(b') && n > 1 && j < REFS_PER_BLOCK && i < REFS_PER_BLOCK
    requires SameOn(Under(b, a, n, root), b, b')
    ensures RefAt(b', RefAt(b', a, j), i) == RefAt(b, RefAt(b, a, j), i)
    ensures SameOn(Under(b, RefAt(b, RefAt(b, a, j), i), n - 2, root), b, b')
  {
    RefFrame(b, b', a, j, n, root);
    RefFrame(b, b', RefAt(b, a, j), i, n - 1, root);
  }

  lemma LeafFrame(b: Blocks, b': Blocks, ino: Inode, m: Loc, root: bool)
    requires BlocksOk(b) && BlocksOk(b') && ino.Ok() && m.Ok() && SameOn(InodeUnder(b, ino, root), b, b')
    ensures LeafRef(b', ino, m) == LeafRef(b, ino, m)
    ensures SameOn(Under(b, LeafRef(b, ino, m), 1, root), b, b')
  {
    hide UnderAll, InodeUnder, BlocksOk;
    InodeParts(b, ino, root, b');
    if m.Double? {
      RefFrame(b, b', ino.double, m.j, 2, root);
    } else if m.Triple? {
      LeafFrame3(b, b', ino.triple, m.k, m.j, root);
    }
  }

  lemma LeafFrame3(b: Blocks, b': Blocks, a: Ref, k: nat, j: nat, root: bool)
    requires BlocksOk(b) && BlocksOk(b') && k < REFS_PER_BLOCK && j < REFS_PER_BLOCK
    requires SameOn(Under(b, a, 3, root), b, b')
    ensures RefAt(b', RefAt(b', a, k), j) == RefAt(b, RefAt(b, a, k), j)
    ensures SameOn(Under(b, RefAt(b, RefAt(b, a, k), j), 1, root), b, b')
  {
    RefFrame(b, b', a, k, 3, root);
    RefFrame(b, b', RefAt(b, a, k), j, 2, root);
  }

  /** An inode whose pages are all still there resolves as before. */
  lemma ResolveFrame(b: Blocks, b': Blocks, ino: Inode, m: Loc, root: bool)
    requires BlocksOk(b) && BlocksOk(b') && ino.Ok() && m.Ok() && SameOn(InodeUnder(b, ino, root), b, b')
    ensures Resolve(b', ino, m) == Resolve(b, ino, m)
    ensures LeafRef(b', ino, m) == LeafRef(b, ino, m)
    ensures RefsAt(b', LeafRef(b, ino, m)) == RefsAt(b, LeafRef(b, ino, m))
  {
    LeafFrame(b, b', ino, m, root);
    RefsFrame(b, b', LeafRef(b, ino, m), 1, root);
    if !m.InInode? && !m.Direct? {
      ResolveIsLeaf(b, ino, m);
      ResolveIsLeaf(b', ino, m);
    }
  }

  lemma RefsFrame(b: Blocks, b': Blocks, a: Ref, n: nat, root: bool)
    requires n > 0 && SameOn(Under(b, a, n, root), b, b')
    ensures RefsAt(b', a) == RefsAt(b, a)
  {
    UnderIs(b, a, n, root);
    if a.Some? { assert a.value in Under(b, a, n, root); }
  }

  /** Path copying is exact: offsets under the rewritten block resolve to its
      entries, every other offset resolves as before. */
  lemma CopyResolves(b: Blocks, ino: Inode, l: Loc, buf: seq<Ref>, b': Blocks, ino': Inode, m: Loc, root: bool)
    requires BlocksOk(b) && BlocksOk(b') && ino.Ok() && ino'.Ok() && l.Ok() && m.Ok() && |buf| == REFS_PER_BLOCK
    requires CopiedPath(b, ino, l, buf, b', ino') && SameOn(InodeUnder(b, ino, root), b, b')
    ensures Resolve(b', ino', m) == if SameLeaf(l, m) then buf[LeafIndex(m)] else Resolve(b, ino, m)
  {
    ResolveFrame(b, b', ino, m, root);
    InodeParts(b, ino, root, b');
    if l.Double? && m.Double? {
      CopyResolvesTwo(b, ino.double, l.j, buf, b', ino'.double, m.j, m.i, root);
    } else if l.Triple? && m.Triple? {
      CopyResolvesThree(b, ino.triple, l.k, l.j, buf, b', ino'.triple, m.k, m.j, m.i, root);
    }
  }

  lemma CopyResolvesTwo(b: Blocks, old_: Ref, j: nat, buf: seq<Ref>, b': Blocks, new_: Ref, j': nat, i: nat, root: bool)
    requires BlocksOk(b) && BlocksOk(b') && SameOn(Under(b, old_, 2, root), b, b') && |buf| == REFS_PER_BLOCK
    requires RewrittenBlock(b, old_, j, b', new_) && RefsAt(b', RefsAt(b', new_)[j]) == buf
    requires j' < REFS_PER_BLOCK && i < REFS_PER_BLOCK
    ensures RefAt(b', RefAt(b', new_, j'), i) == if j' == j then buf[i] else RefAt(b, RefAt(b, old_, j'), i)
  {
    if j' != j {
      assert RefAt(b', new_, j') == RefAt(b, old_, j');
      RefFrame(b, b', old_, j', 2, root);
      RefFrame(b, b', RefAt(b, old_, j'), i, 1, root);
    }
  }

  lemma CopyResolvesThree(b: Blocks, old_: Ref, k: nat, j: nat, buf: seq<Ref>, b': Blocks, new_: Ref,
                          k': nat, j': nat, i: nat, root: bool)
    requires BlocksOk(b) && BlocksOk(b') && SameOn(Under(b, old_, 3, root), b, b') && |buf| == REFS_PER_BLOCK
    requires RewrittenBlock(b, old_, k, b', new_)
    requires RewrittenBlock(b, RefsAt(b, old_)[k], j, b', RefsAt(b', new_)[k])
    requires RefsAt(b', RefsAt(b', RefsAt(b', new_)[k])[j]) == buf
    requires k' < REFS_PER_BLOCK && j' < REFS_PER_BLOCK && i < REFS_PER_BLOCK
    ensures RefAt(b', RefAt(b', RefAt(b', new_, k'), j'), i)
         == if k' == k && j' == j then buf[i] else RefAt(b, RefAt(b, RefAt(b, old_, k'), j'), i)
  {
    RefFrame(b, b', old_, k', 3, root);
    if k' == k {
      CopyResolvesTwo(b, RefsAt(b, old_)[k], j, buf, b', RefsAt(b', new_)[k], j', i, root);
    } else {
      assert RefAt(b', new_, k') == RefAt(b, old_, k');
      RefFrame2(b, b', RefAt(b, old_, k'), j', i, 2, root);
    }
  }
}

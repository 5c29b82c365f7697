/** The pages reachable from an inode, and how path copying changes them. */
module FsTree {
  import opened Flash
  import opened FsIndex

  /** Everything below a reference at height n over the data pages; in inode0
      (root) the data pages are the inodes of the files. */
  ghost function Under(b: Blocks, a: Ref, n: nat, root: bool): multiset<LogAddr>
    decreases root, n, 0
  {
    match a
    case None => multiset{}
    case Some(x) =>
      if n == 0 then (if root then InodePages(b, a, false) else multiset{x})
      else multiset{x} + UnderAll(b, RefsAt(b, a), n - 1, root)
  }

  ghost function Each(b: Blocks, refs: seq<Ref>, n: nat, root: bool): seq<multiset<LogAddr>>
    decreases root, n, 1
  {
    seq(|refs|, i requires 0 <= i < |refs| => Under(b, refs[i], n, root))
  }

  ghost function UnderAll(b: Blocks, refs: seq<Ref>, n: nat, root: bool): multiset<LogAddr>
    decreases root, n, 2
  {
    Total(Each(b, refs, n, root))
  }

  ghost function Total(ms: seq<multiset<LogAddr>>): multiset<LogAddr> {
    if ms == [] then multiset{} else Total(ms[..|ms| - 1]) + ms[|ms| - 1]
  }

  /** Everything reachable from the inode at a, itself included. */
  ghost function InodePages(b: Blocks, a: Ref, root: bool): multiset<LogAddr>
    decreases root, 5, 0
  {
    match a
    case None => multiset{}
    case Some(x) =>
      multiset{x} + if x in b && b[x].InodeBlk? then InodeUnder(b, b[x].ino, root) else multiset{}
  }

  ghost function InodeUnder(b: Blocks, ino: Inode, root: bool): multiset<LogAddr>
    decreases root, 4, 0
  {
    UnderAll(b, ino.direct, 0, root) + Under(b, ino.indirect, 1, root)
      + Under(b, ino.double, 2, root) + Under(b, ino.triple, 3, root)
  }

  function Opt(a: Ref): multiset<LogAddr> {
    match a
    case None => multiset{}
    case Some(x) => multiset{x}
  }

  /** Every page of m is there. */
  ghost predicate Within(m: multiset<LogAddr>, b: Blocks) {
    forall x :: x in m ==> x in b
  }

  /** b' has all the pages of b, unchanged. */
  ghost predicate Extends(b: Blocks, b': Blocks) {
    forall x :: x in b ==> x in b' && b'[x] == b[x]
  }

  /** The pages of m are in both, unchanged. */
  ghost predicate SameOn(m: multiset<LogAddr>, b: Blocks, b': Blocks) {
    forall x :: x in m ==> x in b && x in b' && b'[x] == b[x]
  }

  // ----- frames

  lemma SameParts(m: multiset<LogAddr>, n: multiset<LogAddr>, b: Blocks, b': Blocks)
    requires SameOn(m + n, b, b')
    ensures SameOn(m, b, b') && SameOn(n, b, b')
  {
    forall x | x in m ensures x in b && x in b' && b'[x] == b[x] { assert x in m + n; }
    forall x | x in n ensures x in b && x in b' && b'[x] == b[x] { assert x in m + n; }
  }

  /** The tree depends only on the pages it reaches. */
  lemma {:induction false} UnderFrame(b: Blocks, b': Blocks, a: Ref, n: nat, root: bool)
    requires SameOn(Under(b, a, n, root), b, b')
    ensures Under(b', a, n, root) == Under(b, a, n, root)
    decreases root, n, 0
  {
    if a.Some? {
      if n > 0 {
        var refs := RefsAt(b, a);
        assert Under(b, a, n, root) == multiset{a.value} + UnderAll(b, refs, n - 1, root);
        SameParts(multiset{a.value}, UnderAll(b, refs, n - 1, root), b, b');
        assert a.value in multiset{a.value};
        UnderAllFrame(b, b', refs, n - 1, root);
      } else if root {
        InodeFrame(b, b', a, false);
      }
    }
  }

  lemma {:induction false} UnderAllFrame(b: Blocks, b': Blocks, refs: seq<Ref>, n: nat, root: bool)
    requires SameOn(UnderAll(b, refs, n, root), b, b')
    ensures UnderAll(b', refs, n, root) == UnderAll(b, refs, n, root)
    decreases root, n, 2
  {
    var each := Each(b, refs, n, root);
    forall i | 0 <= i < |refs| ensures Under(b', refs[i], n, root) == each[i] {
      TotalHas(each, i);
      UnderFrame(b, b', refs[i], n, root);
    }
    assert Each(b', refs, n, root) == each;
  }

  lemma {:induction false} InodeUnderFrame(b: Blocks, b': Blocks, ino: Inode, root: bool)
    requires SameOn(InodeUnder(b, ino, root), b, b')
    ensures InodeUnder(b', ino, root) == InodeUnder(b, ino, root)
    decreases root, 4, 0
  {
    UnderAllFrame(b, b', ino.direct, 0, root);
    UnderFrame(b, b', ino.indirect, 1, root);
    UnderFrame(b, b', ino.double, 2, root);
    UnderFrame(b, b', ino.triple, 3, root);
  }

  lemma {:induction false} InodeFrame(b: Blocks, b': Blocks, a: Ref, root: bool)
    requires SameOn(InodePages(b, a, root), b, b')
    ensures InodePages(b', a, root) == InodePages(b, a, root)
    decreases root, 5, 0
  {
    if a.Some? {
      assert a.value in InodePages(b, a, root);
      if b[a.value].InodeBlk? {
        InodeUnderFrame(b, b', b[a.value].ino, root);
      }
    }
  }

  // ----- replacing one entry

  lemma {:induction false} TotalHas(ms: seq<multiset<LogAddr>>, k: nat)
    requires k < |ms|
    ensures ms[k] <= Total(ms)
  {
    var m := |ms| - 1;
    if k < m {
      TotalHas(ms[..m], k);
      assert ms[..m][k] == ms[k];
    }
  }

  lemma {:induction false} TotalReplace(ms: seq<multiset<LogAddr>>, k: nat, x: multiset<LogAddr>)
    requires k < |ms|
    ensures Total(ms[k := x]) + ms[k] == Total(ms) + x
  {
    var m, q := |ms| - 1, ms[k := x];
    if k == m {
      assert q[..m] == ms[..m];
    } else {
      TotalReplace(ms[..m], k, x);
      assert q[..m] == ms[..m][k := x];
      AddBoth(Total(q[..m]), ms[k], Total(ms[..m]), x, ms[m]);
    }
  }

  lemma AddBoth(x: multiset<LogAddr>, u: multiset<LogAddr>, y: multiset<LogAddr>, v: multiset<LogAddr>, w: multiset<LogAddr>)
    requires x + u == y + v
    ensures x + w + u == y + w + v
  {
    assert x + w + u == (x + u) + w && y + w + v == (y + v) + w;
  }

  lemma EachReplace(b: Blocks, refs: seq<Ref>, k: nat, r: Ref, n: nat, root: bool)
    requires k < |refs|
    ensures var es := Each(b, refs, n, root);
      && |es| == |refs| && es[k] == Under(b, refs[k], n, root)
      && UnderAll(b, refs, n, root) == Total(es)
      && UnderAll(b, refs[k := r], n, root) == Total(es[k := Under(b, r, n, root)])
  {
    hide Under, Total;
    assert Each(b, refs[k := r], n, root) == Each(b, refs, n, root)[k := Under(b, r, n, root)];
  }

  /** Exchanging one reference exchanges exactly what lies below it. */
  lemma ReplaceEntry(b: Blocks, refs: seq<Ref>, k: nat, r: Ref, n: nat, root: bool)
    requires k < |refs|
    ensures UnderAll(b, refs[k := r], n, root) + Under(b, refs[k], n, root)
         == UnderAll(b, refs, n, root) + Under(b, r, n, root)
  {
    hide Total, Under, UnderAll, Each;
    EachReplace(b, refs, k, r, n, root);
    TotalReplace(Each(b, refs, n, root), k, Under(b, r, n, root));
  }

  lemma EntryWithin(b: Blocks, refs: seq<Ref>, k: nat, n: nat, root: bool)
    requires k < |refs|
    ensures Under(b, refs[k], n, root) <= UnderAll(b, refs, n, root)
  {
    TotalHas(Each(b, refs, n, root), k);
  }

  lemma {:induction false} TotalNone(ms: seq<multiset<LogAddr>>)
    requires forall i :: 0 <= i < |ms| ==> ms[i] == multiset{}
    ensures Total(ms) == multiset{}
  {
    if ms != [] {
      TotalNone(ms[..|ms| - 1]);
    }
  }

  lemma NothingUnder(b: Blocks, refs: seq<Ref>, n: nat, root: bool)
    requires forall i :: 0 <= i < |refs| ==> refs[i] == None
    ensures UnderAll(b, refs, n, root) == multiset{}
  {
    forall i | 0 <= i < |refs| ensures Each(b, refs, n, root)[i] == multiset{} {
      assert Under(b, refs[i], n, root) == multiset{};
    }
    TotalNone(Each(b, refs, n, root));
  }

  /** The references at an address, and everything below them. */
  lemma UnderIs(b: Blocks, a: Ref, n: nat, root: bool)
    requires n > 0
    ensures Under(b, a, n, root) == Opt(a) + UnderAll(b, RefsAt(b, a), n - 1, root)
  {
    if a.None? {
      NothingUnder(b, NoRefs(), n - 1, root);
    }
  }
}

/** Removing a file: the walk that votes its pages, and what the walk leaves out. */
module Removal {
  import opened Flash
  import opened FsIndex
  import opened FsTree
  import opened FsCopy
  import opened TxLedger
  import opened TxFile
  import opened TxRebase
  import opened Transactions

  // ----- prefixes of a block of addresses

  lemma PrefixStep(b: Blocks, refs: seq<Ref>, i: nat, n: nat)
    requires i < |refs|
    ensures UnderAll(b, refs[..i + 1], n, false) == UnderAll(b, refs[..i], n, false) + Under(b, refs[i], n, false)
  {
    var es, next := Each(b, refs[..i], n, false), Each(b, refs[..i + 1], n, false);
    hide Under;
    assert next[..i] == es && next[i] == Under(b, refs[i], n, false);
  }

  lemma {:induction false} PrefixPart(b: Blocks, refs: seq<Ref>, i: nat, n: nat)
    requires i <= |refs|
    ensures UnderAll(b, refs[..i], n, false) <= UnderAll(b, refs, n, false)
    decreases |refs| - i
  {
    if i == |refs| {
      assert refs[..i] == refs;
    } else {
      PrefixPart(b, refs, i + 1, n);
      PrefixStep(b, refs, i, n);
    }
  }

  /** What is left to vote of a block is current when the entries before i are voted. */
  lemma NextCurrent(r0: multiset<LogAddr>, done: multiset<LogAddr>, next: multiset<LogAddr>, all: multiset<LogAddr>)
    requires done + next <= all && all <= r0
    ensures next <= r0 - done && r0 - done - next == r0 - (done + next)
  {
    forall a ensures next[a] <= (r0 - done)[a] && (r0 - done - next)[a] == (r0 - (done + next))[a] {
      assert (done + next)[a] <= all[a] <= r0[a];
    }
  }

  lemma SameUnder(t: Tx, u: Tx, a: Ref, n: nat)
    requires Books(t) && Grew(t, u) && Under(t.blks, a, n, false) <= t.rest
    ensures Under(u.blks, a, n, false) == Under(t.blks, a, n, false)
  {
    hide Books, Under;
    forall x | x in Under(t.blks, a, n, false) ensures x in t.blks && x in u.blks && u.blks[x] == t.blks[x] {
      assert Under(t.blks, a, n, false)[x] <= t.rest[x];
      RestWithin(t, x);
    }
    UnderFrame(t.blks, u.blks, a, n, false);
  }

  lemma SameBelow(t: Tx, u: Tx, refs: seq<Ref>, n: nat)
    requires Books(t) && Grew(t, u) && UnderAll(t.blks, refs, n, false) <= t.rest
    ensures UnderAll(u.blks, refs, n, false) == UnderAll(t.blks, refs, n, false)
  {
    hide Books, UnderAll;
    forall x | x in UnderAll(t.blks, refs, n, false) ensures x in t.blks && x in u.blks && u.blks[x] == t.blks[x] {
      assert UnderAll(t.blks, refs, n, false)[x] <= t.rest[x];
      RestWithin(t, x);
    }
    UnderAllFrame(t.blks, u.blks, refs, n, false);
  }

  // ----- the walk

  /** The loops of votFile over a block of addresses whose entries lead n levels down. */
  method VoteEntries(t: Transaction, refs: seq<Ref>, n: nat) returns (ok: bool)
    requires t.Valid() && UnderAll(t.blks, refs, n, false) <= t.rest
    modifies t`blks, t`links, t`prev, t`votsBuf, t`chain, t`room, t`rest
    ensures !ok ==> t.room == 0
    ensures old(t.Credit()) >= |UnderAll(old(t.blks), refs, n, false)| ==> ok
    ensures ok ==> t.Credit() == old(t.Credit()) - |UnderAll(old(t.blks), refs, n, false)|
    ensures Books(t.Now()) && t.Metered() && BlocksOk(t.blks) && Grew(old(t.Now()), t.Now())
    ensures ok ==> t.Valid() && t.rest == old(t.rest) - UnderAll(old(t.blks), refs, n, false)
    decreases n, 1
  {
    hide Books, Grew, BlocksOk, Under, UnderAll;
    ghost var t0, r0, c0 := t.Now(), t.rest, t.Credit();
    GrewSame(t0);
    NothingYet(t0.blks, refs, n, r0);
    for i := 0 to |refs|
      invariant t.Valid() && Grew(t0, t.Now())
      invariant t.rest == r0 - UnderAll(t0.blks, refs[..i], n, false)
      invariant t.Credit() == c0 - |UnderAll(t0.blks, refs[..i], n, false)|
    {
      ghost var u, r := t.Now(), t.rest;
      EntryCurrent(t0, u, refs, i, n, r);
      PrefixVotes(t0.blks, refs, i, n);
      ok := VoteTree(t, refs[i], n);
      GrewOver(t0, u, t.Now());
      if !ok { return; }
    }
    assert refs[..|refs|] == refs;
    ok := true;
  }

  lemma NothingYet(b: Blocks, refs: seq<Ref>, n: nat, r: multiset<LogAddr>)
    ensures r == r - UnderAll(b, refs[..0], n, false) && |UnderAll(b, refs[..0], n, false)| == 0
  {
    assert Each(b, refs[..0], n, false) == [];
  }

  lemma Fewer(m: multiset<LogAddr>, n: multiset<LogAddr>)
    requires m <= n
    ensures |m| <= |n|
  {
    assert n == m + (n - m);
  }

  lemma PrefixVotes(b: Blocks, refs: seq<Ref>, i: nat, n: nat)
    requires i < |refs|
    ensures |UnderAll(b, refs[..i + 1], n, false)| == |UnderAll(b, refs[..i], n, false)| + |Under(b, refs[i], n, false)|
    ensures |UnderAll(b, refs[..i + 1], n, false)| <= |UnderAll(b, refs, n, false)|
  {
    hide Under, UnderAll;
    PrefixStep(b, refs, i, n);
    PrefixPart(b, refs, i + 1, n);
    Fewer(UnderAll(b, refs[..i + 1], n, false), UnderAll(b, refs, n, false));
  }

  lemma EntryCurrent(t: Tx, u: Tx, refs: seq<Ref>, i: nat, n: nat, r: multiset<LogAddr>)
    requires Books(t) && Grew(t, u) && UnderAll(t.blks, refs, n, false) <= t.rest && i < |refs|
    requires r == t.rest - UnderAll(t.blks, refs[..i], n, false)
    ensures Under(u.blks, refs[i], n, false) == Under(t.blks, refs[i], n, false) <= r
    ensures r - Under(t.blks, refs[i], n, false) == t.rest - UnderAll(t.blks, refs[..i + 1], n, false)
  {
    hide Books, Grew, Under, UnderAll;
    PrefixStep(t.blks, refs, i, n);
    PrefixPart(t.blks, refs, i + 1, n);
    NextCurrent(t.rest, UnderAll(t.blks, refs[..i], n, false), Under(t.blks, refs[i], n, false), UnderAll(t.blks, refs, n, false));
    EntryWithin(t.blks, refs, i, n, false);
    SameUnder(t, u, refs[i], n);
  }

  /** The part of votFile for one address: an empty one is skipped, a block of addresses is read
      and its entries are voted before it. */
  method VoteTree(t: Transaction, a: Ref, n: nat) returns (ok: bool)
    requires t.Valid() && Under(t.blks, a, n, false) <= t.rest
    modifies t`blks, t`links, t`prev, t`votsBuf, t`chain, t`room, t`rest
    ensures !ok ==> t.room == 0
    ensures old(t.Credit()) >= |Under(old(t.blks), a, n, false)| ==> ok
    ensures ok ==> t.Credit() == old(t.Credit()) - |Under(old(t.blks), a, n, false)|
    ensures Books(t.Now()) && t.Metered() && BlocksOk(t.blks) && Grew(old(t.Now()), t.Now())
    ensures ok ==> t.Valid() && t.rest == old(t.rest) - Under(old(t.blks), a, n, false)
    decreases n, 0
  {
    hide Books, Grew, BlocksOk, Under, UnderAll, Opt;
    ghost var t0 := t.Now();
    GrewSame(t0);
    OptVotes(a);
    if n == 0 {
      LeafIs(t0.blks, a);
      ok := t.WriteVot(a);
      return;
    }
    ghost var below := UnderAll(t.blks, RefsAt(t.blks, a), n - 1, false);
    UnderIs(t.blks, a, n, false);
    NextCurrent(t.rest, below, Opt(a), Opt(a) + below);
    PartFirst(Opt(a), below, t.rest);
    ok := VoteEntries(t, RefsAt(t.blks, a), n - 1);
    ghost var t1 := t.Now();
    if !ok { return; }
    ok := t.WriteVot(a);
    GrewOver(t0, t1, t.Now());
  }

  lemma OptVotes(a: Ref)
    ensures |Opt(a)| == if a.Some? then 1 else 0
  {
  }

  lemma LeafIs(b: Blocks, a: Ref)
    ensures Under(b, a, 0, false) == Opt(a)
  {
  }

  lemma PartFirst(o: multiset<LogAddr>, m: multiset<LogAddr>, r: multiset<LogAddr>)
    requires o + m <= r
    ensures m <= r && o <= r - m && r - m - o == r - (o + m) && m + o == o + m
  {
    forall a ensures m[a] <= r[a] && o[a] <= (r - m)[a] && (r - m - o)[a] == (r - (o + m))[a] {
      assert (o + m)[a] <= r[a];
    }
  }

  /** The levels of the index that votFile goes through for an inode of this size: the direct
      entries, the indirect, the double and the triple block. */
  function Levels(size: nat): (n: nat)
    ensures n <= 4
  {
    if size <= 447 then 0 else if size <= 5567 then 1 else if size <= 71103 then 2 else if size <= 8459711 then 3 else 4
  }

  ghost function Level(b: Blocks, ino: Inode, k: nat): multiset<LogAddr> {
    if k == 0 then UnderAll(b, ino.direct, 0, false)
    else if k == 1 then Under(b, ino.indirect, 1, false)
    else if k == 2 then Under(b, ino.double, 2, false)
    else Under(b, ino.triple, 3, false)
  }

  /** The pages below the inode on its first k levels. */
  ghost function Walked(b: Blocks, ino: Inode, k: nat): multiset<LogAddr> {
    if k == 0 then multiset{} else Walked(b, ino, k - 1) + Level(b, ino, k - 1)
  }

  lemma WalkedAll(b: Blocks, ino: Inode)
    ensures Walked(b, ino, 4) == InodeUnder(b, ino, false)
  {
    assert Walked(b, ino, 1) == multiset{} + Level(b, ino, 0);
    assert Walked(b, ino, 2) == Walked(b, ino, 1) + Level(b, ino, 1);
    assert Walked(b, ino, 3) == Walked(b, ino, 2) + Level(b, ino, 2);
  }

  lemma {:induction false} WalkedPart(b: Blocks, ino: Inode, k: nat, n: nat)
    requires k <= n
    ensures Walked(b, ino, k) <= Walked(b, ino, n)
  {
    if k < n {
      WalkedPart(b, ino, k, n - 1);
    }
  }

  lemma SameLevel(t: Tx, u: Tx, ino: Inode, k: nat)
    requires Books(t) && Grew(t, u) && Level(t.blks, ino, k) <= t.rest
    ensures Level(u.blks, ino, k) == Level(t.blks, ino, k)
  {
    if k == 0 {
      SameBelow(t, u, ino.direct, 0);
    } else if k == 1 {
      SameUnder(t, u, ino.indirect, 1);
    } else if k == 2 {
      SameUnder(t, u, ino.double, 2);
    } else {
      SameUnder(t, u, ino.triple, 3);
    }
  }

  lemma LevelCurrent(t: Tx, u: Tx, ino: Inode, k: nat, rem: multiset<LogAddr>, r: multiset<LogAddr>)
    requires Books(t) && Grew(t, u) && k < 4 && Walked(t.blks, ino, 4) <= rem <= t.rest
    requires r == rem - Walked(t.blks, ino, k)
    ensures Level(u.blks, ino, k) == Level(t.blks, ino, k) <= r
    ensures r - Level(t.blks, ino, k) == rem - Walked(t.blks, ino, k + 1)
  {
    hide Books, Grew, Level;
    WalkedPart(t.blks, ino, k + 1, 4);
    NextCurrent(rem, Walked(t.blks, ino, k), Level(t.blks, ino, k), Walked(t.blks, ino, 4));
    PartFirst(Walked(t.blks, ino, k), Level(t.blks, ino, k), t.rest);
    SameLevel(t, u, ino, k);
  }

  method VoteLevel(t: Transaction, ino: Inode, k: nat) returns (ok: bool)
    requires t.Valid() && k < 4 && Level(t.blks, ino, k) <= t.rest
    modifies t`blks, t`links, t`prev, t`votsBuf, t`chain, t`room, t`rest
    ensures !ok ==> t.room == 0
    ensures old(t.Credit()) >= |Level(old(t.blks), ino, k)| ==> ok
    ensures ok ==> t.Credit() == old(t.Credit()) - |Level(old(t.blks), ino, k)|
    ensures Books(t.Now()) && t.Metered() && BlocksOk(t.blks) && Grew(old(t.Now()), t.Now())
    ensures ok ==> t.Valid() && t.rest == old(t.rest) - Level(old(t.blks), ino, k)
  {
    hide Books, Grew, BlocksOk, Under, UnderAll;
    if k == 0 {
      ok := VoteEntries(t, ino.direct, 0);
    } else if k == 1 {
      ok := VoteTree(t, ino.indirect, 1);
    } else if k == 2 {
      ok := VoteTree(t, ino.double, 2);
    } else {
      ok := VoteTree(t, ino.triple, 3);
    }
  }

  /** How many votes that is. */
  ghost function WalkVotes(b: Blocks, a: Ref): nat
    requires BlocksOk(b) && IsInode(b, a)
  {
    1 + |Walked(b, InodeAt(b, a), Levels(InodeAt(b, a).size))|
  }

  /** The pages below the inode, level by level. */
  method VoteLevels(t: Transaction, ino: Inode, n: nat) returns (ok: bool)
    requires t.Valid() && n <= 4 && Walked(t.blks, ino, 4) <= t.rest
    modifies t`blks, t`links, t`prev, t`votsBuf, t`chain, t`room, t`rest
    ensures !ok ==> t.room == 0
    ensures old(t.Credit()) >= |Walked(old(t.blks), ino, n)| ==> ok
    ensures ok ==> t.Credit() == old(t.Credit()) - |Walked(old(t.blks), ino, n)|
    ensures Books(t.Now()) && t.Metered() && BlocksOk(t.blks) && Grew(old(t.Now()), t.Now())
    ensures ok ==> t.Valid() && t.rest == old(t.rest) - Walked(old(t.blks), ino, n)
  {
    hide Books, Grew, Level, Walked, BlocksOk, Once;
    ghost var t0, r0, c0 := t.Now(), t.rest, t.Credit();
    GrewSame(t0);
    NoneWalked(t0.blks, ino, r0);
    var k := 0;
    while k < n
      invariant k <= n && t.Valid() && Grew(t0, t.Now())
      invariant t.rest == r0 - Walked(t0.blks, ino, k)
      invariant t.Credit() == c0 - |Walked(t0.blks, ino, k)|
    {
      WalkedVotes(t0.blks, ino, k, n);
      ghost var u := t.Now();
      LevelCurrent(t0, u, ino, k, r0, t.rest);
      ok := VoteLevel(t, ino, k);
      GrewOver(t0, u, t.Now());
      if !ok { return; }
      k := k + 1;
    }
    ok := true;
  }

  /** votFile: the inode is voted, and then the pages below it, as far as its size says that there
      are any. */
  method VotFile(t: Transaction) returns (ok: bool)
    requires t.Valid() && IsInode(t.blks, t.inoAddr) && InodePages(t.blks, t.inoAddr, false) <= t.rest
    modifies t`blks, t`links, t`prev, t`votsBuf, t`chain, t`room, t`rest
    ensures !ok ==> t.room == 0
    ensures old(t.Credit()) >= WalkVotes(old(t.blks), t.inoAddr) ==> ok
    ensures ok ==> t.Credit() == old(t.Credit()) - WalkVotes(old(t.blks), t.inoAddr)
    ensures Books(t.Now()) && t.Metered() && BlocksOk(t.blks) && Grew(old(t.Now()), t.Now())
    ensures ok ==> var ino := InodeAt(old(t.blks), t.inoAddr);
      t.Valid() && t.rest == old(t.rest) - Opt(t.inoAddr) - Walked(old(t.blks), ino, Levels(ino.size))
  {
    hide Books, Grew, Level, Opt, Walked, InodePages, BlocksOk, Within, Once, Transaction.Buffered, Levels;
    ghost var t0 := t.Now();
    var ino := InodeAt(t.blks, t.inoAddr);
    InodeIs(t.blks, t.inoAddr, t.rest);
    ok := t.WriteVot(t.inoAddr);
    ghost var t1 := t.Now();
    if !ok { return; }
    WalkedLater(t0, t1, ino);
    ok := VoteLevels(t, ino, Levels(ino.size));
    GrewOver(t0, t1, t.Now());
  }

  lemma WalkedLater(t: Tx, u: Tx, ino: Inode)
    requires Books(t) && Grew(t, u) && Walked(t.blks, ino, 4) <= t.rest
    ensures forall k :: 0 <= k <= 4 ==> Walked(u.blks, ino, k) == Walked(t.blks, ino, k)
  {
    hide Books, Grew, Level;
    forall k | 0 <= k < 4 ensures Level(u.blks, ino, k) == Level(t.blks, ino, k) {
      WalkedPart(t.blks, ino, k + 1, 4);
      SameLevel(t, u, ino, k);
    }
    assert Walked(u.blks, ino, 1) == Walked(t.blks, ino, 1);
    assert Walked(u.blks, ino, 2) == Walked(t.blks, ino, 2);
    assert Walked(u.blks, ino, 3) == Walked(t.blks, ino, 3);
  }

  lemma InodeIs(b: Blocks, a: Ref, r: multiset<LogAddr>)
    requires BlocksOk(b) && IsInode(b, a) && InodePages(b, a, false) <= r
    ensures InodePages(b, a, false) == Opt(a) + Walked(b, InodeAt(b, a), 4)
    ensures Opt(a) <= r && Walked(b, InodeAt(b, a), 4) <= r - Opt(a) <= r
  {
    WalkedAll(b, InodeAt(b, a));
    hide Walked, InodeUnder;
    var w := Walked(b, InodeAt(b, a), 4);
    assert InodePages(b, a, false) == Opt(a) + w == w + Opt(a);
    PartFirst(w, Opt(a), r);
  }

  lemma WalkedVotes(b: Blocks, ino: Inode, k: nat, n: nat)
    requires k < n
    ensures |Walked(b, ino, k + 1)| == |Walked(b, ino, k)| + |Level(b, ino, k)| && |Walked(b, ino, k + 1)| <= |Walked(b, ino, n)|
  {
    hide Level;
    WalkedPart(b, ino, k + 1, n);
    Fewer(Walked(b, ino, k + 1), Walked(b, ino, n));
  }

  lemma NoneWalked(b: Blocks, ino: Inode, r: multiset<LogAddr>)
    ensures r == r - Walked(b, ino, 0) && |Walked(b, ino, 0)| == 0
  {
  }

  // ----- what the walk leaves out

  predicate Empty(ino: Inode, k: nat) {
    if k == 0 then forall i :: 0 <= i < |ino.direct| ==> ino.direct[i] == None
    else if k == 1 then ino.indirect == None
    else if k == 2 then ino.double == None
    else ino.triple == None
  }

  lemma EmptyLevel(b: Blocks, ino: Inode, k: nat)
    ensures Level(b, ino, k) == multiset{} <==> Empty(ino, k)
  {
    if k == 0 {
      if Empty(ino, 0) {
        NothingUnder(b, ino.direct, 0, false);
      } else {
        var i :| 0 <= i < |ino.direct| && ino.direct[i] != None;
        EntryWithin(b, ino.direct, i, 0, false);
        assert ino.direct[i].value in Under(b, ino.direct[i], 0, false);
      }
    } else if !Empty(ino, k) {
      var a := if k == 1 then ino.indirect else if k == 2 then ino.double else ino.triple;
      assert a.value in Level(b, ino, k);
    }
  }

  lemma {:induction false} WalkedRest(b: Blocks, ino: Inode, k: nat, n: nat)
    requires k <= n
    ensures Walked(b, ino, k) == Walked(b, ino, n) <==> forall i :: k <= i < n ==> Empty(ino, i)
    decreases n - k
  {
    hide Level, Empty;
    if k < n {
      WalkedRest(b, ino, k, n - 1);
      WalkedPart(b, ino, k, n - 1);
      EmptyLevel(b, ino, n - 1);
      PartSums(Walked(b, ino, k), Walked(b, ino, n - 1), Level(b, ino, n - 1));
    }
  }

  lemma PartSums(w: multiset<LogAddr>, m: multiset<LogAddr>, l: multiset<LogAddr>)
    requires w <= m
    ensures w == m + l <==> w == m && l == multiset{}
  {
    if w == m + l {
      forall a ensures w[a] == m[a] && l[a] == 0 { assert w[a] <= m[a] && w[a] == (m + l)[a]; }
    }
  }

  /** The walk votes exactly the pages of the file if and only if the size covers every entry of
      the inode; pages behind entries that it does not cover are neither listed nor voted any
      more. */
  lemma VotesExactly(b: Blocks, a: Ref)
    requires BlocksOk(b) && IsInode(b, a)
    ensures var ino := InodeAt(b, a);
      Opt(a) + Walked(b, ino, Levels(ino.size)) == InodePages(b, a, false) <==> ino.Sized()
  {
    var ino := InodeAt(b, a);
    WalkedAll(b, ino);
    WalkedRest(b, ino, Levels(ino.size), 4);
    SizedLevels(ino);
    SameSums(Opt(a), Walked(b, ino, Levels(ino.size)), Walked(b, ino, 4));
  }

  lemma SameSums(o: multiset<LogAddr>, m: multiset<LogAddr>, n: multiset<LogAddr>)
    ensures o + m == o + n <==> m == n
  {
    if o + m == o + n {
      forall a ensures m[a] == n[a] { assert (o + m)[a] == (o + n)[a]; }
    }
  }

  lemma SizedLevels(ino: Inode)
    ensures ino.Sized() <==> forall i :: Levels(ino.size) <= i < 4 ==> Empty(ino, i)
  {
    var n := Levels(ino.size);
    assert (forall i :: n <= i < 4 ==> Empty(ino, i)) <==>
      (n <= 0 ==> Empty(ino, 0)) && (n <= 1 ==> Empty(ino, 1)) && (n <= 2 ==> Empty(ino, 2)) && (n <= 3 ==> Empty(ino, 3));
  }

  // ----- the whole removal

  /** A path of inode0 and the last votes. */
  function UnlistCost(inoNum: nat): nat
    requires 0 < inoNum
  {
    Transaction.PathCost(Transaction.SlotOf(inoNum)) + (REFS_PER_BLOCK - 1)
  }

  /** removeFile on the file's side: its pages are voted and inode0 lists nothing in its place. The
      books balance: what the new root reaches, the votes and the vote pages are the old tree and
      the pages written. */
  method Remove(t: Transaction, root0: LogAddr, inoNum: nat) returns (ok: bool)
    requires t.Ready() && !t.inode0 && t.fileOffset < 0 && 0 < inoNum && Transaction.SlotOf(inoNum) < ADDRESSABLE
    requires IsInode(t.blks, t.inoAddr)
    requires Outside(t.blks, Some(root0), Transaction.SlotOf(inoNum), t.rem)
    modifies t
    ensures !ok ==> t.room == 0 || Transaction.SlotOf(inoNum) >= MAX_FILE_SIZE
    ensures old(t.Credit()) >= WalkVotes(old(t.blks), old(t.inoAddr)) + UnlistCost(inoNum) && Transaction.SlotOf(inoNum) < MAX_FILE_SIZE ==> ok
    ensures ok ==> t.Credit() >= old(t.Credit()) - (WalkVotes(old(t.blks), old(t.inoAddr)) + UnlistCost(inoNum))
    ensures Books(t.Now()) && BlocksOk(t.blks) && Extends(old(t.blks), t.blks) && t.was == old(t.was)
    ensures ok ==> FileRemoved(old(t.blks), Some(root0), Transaction.SlotOf(inoNum), t.blks, t.inoAddr)
    ensures ok ==> Ledger(t.blks, InodePages(t.blks, t.inoAddr, true), t.chain, t.was)
    ensures Grew(old(t.Now()), t.Now())
  {
    hide Books, InodePages, Grew, Ledger, Outside, BlocksOk, FileRemoved, Rests, Holds, OwnPages, Walked, Levels;
    ghost var t0, f := t.Now(), t.TheFile();
    ok := VoteAway(t, Some(root0), Transaction.SlotOf(inoNum));
    ghost var t1 := t.Now();
    GrewOver(t0, t1, t1);
    if !ok { return; }
    ok := Unlist(t, root0, inoNum, t0.blks);
    GrewOver(t0, t1, t.Now());
  }

  /** The file's pages are voted, and the transaction has no file any more. */
  method VoteAway(t: Transaction, ghost root0: Ref, ghost off: nat) returns (ok: bool)
    requires t.Valid() && Rests(t.blks, t.rest, t.TheFile()) && !t.inode0 && off < ADDRESSABLE
    requires IsInode(t.blks, t.inoAddr) && Outside(t.blks, root0, off, t.rem)
    modifies t`blks, t`links, t`prev, t`votsBuf, t`chain, t`room, t`rest, t`inoAddr
    ensures !ok ==> t.room == 0
    ensures old(t.Credit()) >= WalkVotes(old(t.blks), old(t.inoAddr)) ==> ok
    ensures ok ==> t.Credit() == old(t.Credit()) - WalkVotes(old(t.blks), old(t.inoAddr))
    ensures Books(t.Now()) && t.Metered() && BlocksOk(t.blks) && Grew(old(t.Now()), t.Now())
    ensures ok ==> t.Valid() && t.inoAddr == None && Rests(t.blks, t.rest, t.TheFile()) && Outside(t.blks, root0, off, t.rem)
    ensures ok ==> SameList(old(t.blks), t.blks, root0)
  {
    hide Books, InodePages, Grew, Outside, BlocksOk, Rests, Walked, Levels, Opt, SameList, IsInode, InodeAt, Once;
    assert BlocksOk(t.blks);
    hide Transaction.Valid;
    ghost var t0, f := t.Now(), t.TheFile();
    InodeHeld(t0, f);
    ok := VotFile(t);
    if ok {
      AfterVotes(t0, f, t.Now(), root0, off);
      DropFile(t);
    }
  }

  lemma AfterVotes(t: Tx, f: File, u: Tx, root0: Ref, off: nat)
    requires BlocksOk(t.blks) && BlocksOk(u.blks) && Grew(t, u) && Rests(t.blks, t.rest, f) && !f.root
    requires IsInode(t.blks, f.ino) && off < ADDRESSABLE && Outside(t.blks, root0, off, f.rem)
    requires u.rest == t.rest - Opt(f.ino) - Walked(t.blks, InodeAt(t.blks, f.ino), Levels(InodeAt(t.blks, f.ino).size))
    ensures Rests(u.blks, u.rest, f.(ino := None)) && Outside(u.blks, root0, off, f.rem) && SameList(t.blks, u.blks, root0)
  {
    hide InodePages, BlocksOk, Outside, Rests, Walked, Levels, Opt, SameList, IsInode, InodeAt;
    NothingHeld(t.blks, t.rest, f, u.rest, u.blks);
    StillOutside(t.blks, u.blks, root0, off, f.rem);
  }

  method DropFile(t: Transaction)
    modifies t`inoAddr
    ensures t.inoAddr == None && t.TheFile() == old(t.TheFile()).(ino := None)
  {
    t.inoAddr := None;
  }

  /** Both list the same files. */
  ghost predicate SameList(b: Blocks, b2: Blocks, root: Ref) {
    && BlocksOk(b) && BlocksOk(b2) && IsInode(b, root) && IsInode(b2, root) && Transaction.SameListing(b, b2, root)
  }

  lemma StillOutside(b: Blocks, b2: Blocks, root: Ref, off: nat, rem: multiset<LogAddr>)
    requires off < ADDRESSABLE && Outside(b, root, off, rem) && Extends(b, b2) && BlocksOk(b2)
    ensures Outside(b2, root, off, rem) && SameList(b, b2, root)
  {
    Transaction.OutsideKept(b, b2, root, off, rem);
  }

  /** inode0 lists nothing in place of the file, and the last votes are written. */
  method Unlist(t: Transaction, root0: LogAddr, inoNum: nat, ghost b: Blocks) returns (ok: bool)
    requires t.Valid() && Rests(t.blks, t.rest, t.TheFile()) && !t.inode0 && t.inoAddr == None
    requires 0 < inoNum && Transaction.SlotOf(inoNum) < ADDRESSABLE
    requires Outside(t.blks, Some(root0), Transaction.SlotOf(inoNum), t.rem) && SameList(b, t.blks, Some(root0))
    modifies t
    ensures !ok ==> t.room == 0 || Transaction.SlotOf(inoNum) >= MAX_FILE_SIZE
    ensures old(t.Credit()) >= UnlistCost(inoNum) && Transaction.SlotOf(inoNum) < MAX_FILE_SIZE ==> ok
    ensures ok ==> t.Credit() >= old(t.Credit()) - UnlistCost(inoNum)
    ensures Books(t.Now()) && BlocksOk(t.blks) && Grew(old(t.Now()), t.Now()) && t.was == old(t.was)
    ensures ok ==> BlocksOk(b) && FileRemoved(b, Some(root0), Transaction.SlotOf(inoNum), t.blks, t.inoAddr)
    ensures ok ==> Ledger(t.blks, InodePages(t.blks, t.inoAddr, true), t.chain, t.was)
  {
    hide Books, InodePages, Grew, Outside, BlocksOk, Rests, Ledger, Transaction.NewRoot, FileRemoved, SameList, Within;
    ghost var t1 := t.Now();
    ok := t.CommitInodeToInode0(root0, inoNum);
    ghost var t2 := t.Now();
    GrewOver(t1, t2, t2);
    if !ok { return; }
    t.AllWithin();
    ok := t.FinishVotes();
    GrewOver(t1, t2, t.Now());
    if ok {
      RemovedIs(b, t1.blks, t2.blks, t.blks, Some(root0), Transaction.SlotOf(inoNum), t2.rest, t.inoAddr);
    }
  }

  lemma InodeHeld(t: Tx, f: File)
    requires Rests(t.blks, t.rest, f) && !f.root
    ensures InodePages(t.blks, f.ino, false) <= t.rest
  {
    LookSettled(t.blks, t.rest, f);
  }

  /** When the walk voted the whole file, what is left is what lies outside it. */
  lemma NothingHeld(b: Blocks, rest: multiset<LogAddr>, f: File, rest2: multiset<LogAddr>, b2: Blocks)
    requires BlocksOk(b) && Rests(b, rest, f) && !f.root && IsInode(b, f.ino)
    requires rest2 == rest - Opt(f.ino) - Walked(b, InodeAt(b, f.ino), Levels(InodeAt(b, f.ino).size))
    ensures Rests(b2, rest2, f.(ino := None))
  {
    hide Walked, InodePages, Opt;
    VotesExactly(b, f.ino);
    LookSettled(b, rest, f);
    TakenAway(f.rem, Opt(f.ino), Walked(b, InodeAt(b, f.ino), Levels(InodeAt(b, f.ino).size)), rest);
    NoPagesHeld(b2, rest2, f.(ino := None));
  }

  lemma TakenAway(rem: multiset<LogAddr>, o: multiset<LogAddr>, w: multiset<LogAddr>, rest: multiset<LogAddr>)
    requires rest == rem + (o + w)
    ensures rest - o - w == rem
  {
    forall a ensures (rest - o - w)[a] == rem[a] { assert rest[a] == (rem + (o + w))[a]; }
  }

  lemma NoPagesHeld(b: Blocks, rest: multiset<LogAddr>, f: File)
    requires f.ino == None && !f.root && rest == f.rem
    ensures Rests(b, rest, f)
  {
    assert InodePages(b, None, false) == multiset{};
  }

  /** The new root lists nothing at off and everything else as before. */
  ghost predicate FileRemoved(b: Blocks, root0: Ref, off: nat, b2: Blocks, root: Ref)
    requires BlocksOk(b) && BlocksOk(b2) && off < ADDRESSABLE
  {
    && IsInode(b, root0) && IsInode(b2, root)
    && forall l: Loc {:trigger Walk(l)} :: Walk(l) && l.Ok() ==>
         Resolve(b2, InodeAt(b2, root), l) == if l == Locate(off) then None else Resolve(b, InodeAt(b, root0), l)
  }

  lemma RemovedIs(b0: Blocks, b1: Blocks, b2: Blocks, b3: Blocks, root0: Ref, off: nat, rest: multiset<LogAddr>, root: Ref)
    requires BlocksOk(b2) && BlocksOk(b3) && Extends(b2, b3) && off < ADDRESSABLE && SameList(b0, b1, root0)
    requires Transaction.NewRoot(b1, root0, off, None, b2, rest, root) && Within(rest, b2)
    ensures BlocksOk(b0) && FileRemoved(b0, root0, off, b3, root) && rest == InodePages(b3, root, true)
  {
    hide InodePages, Resolve;
    Transaction.TreeKept(b2, b3, root, true);
  }
}

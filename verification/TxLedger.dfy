/** The books of a transaction: what it wrote, what it superseded, and what the
    file system will consist of when it commits. */
module TxLedger {
  import opened Flash
  import opened FsIndex
  import opened FsTree

  /** The pages clients can read, the prev links, the last page written, the
      votes not yet written, all pages written (newest first), and the pages
      that are neither voted nor vote pages. base and was are the pages at the
      start and those reachable from the root then. */
  datatype Tx = Tx(
    blks: Blocks,
    links: map<LogAddr, Ref>,
    prev: Ref,
    votes: seq<LogAddr>,
    chain: seq<LogAddr>,
    rest: multiset<LogAddr>,
    base: Blocks,
    was: multiset<LogAddr>)

  /** The chain starts at a and each page links to the one written before it. */
  ghost predicate Linked(links: map<LogAddr, Ref>, a: Ref, chain: seq<LogAddr>)
    decreases |chain|
  {
    if chain == [] then a == None
    else a == Some(chain[0]) && chain[0] in links && Linked(links, links[chain[0]], chain[1..])
  }

  /** The addresses listed in the vote pages of a chain. */
  ghost function ChainVotes(b: Blocks, chain: seq<LogAddr>): multiset<LogAddr> {
    if chain == [] then multiset{}
    else ChainVotes(b, chain[1..]) + VotesAt(b, chain[0])
  }

  function VotesAt(b: Blocks, a: LogAddr): multiset<LogAddr> {
    if a in b && b[a].Vots? then multiset(b[a].votes) else multiset{}
  }

  /** The vote pages of a chain. */
  ghost function VotePages(b: Blocks, chain: seq<LogAddr>): multiset<LogAddr> {
    if chain == [] then multiset{}
    else VotePages(b, chain[1..]) + if chain[0] in b && b[chain[0]].Vots? then multiset{chain[0]} else multiset{}
  }

  /** Everything the transaction will have obsoleted after it commits. */
  ghost function Gone(t: Tx): multiset<LogAddr> {
    ChainVotes(t.blks, t.chain) + VotePages(t.blks, t.chain) + multiset(t.votes)
  }

  ghost predicate Once(m: multiset<LogAddr>) {
    forall x :: m[x] <= 1
  }

  /** Pages are conserved: those kept and those given up are those there were
      and those written. */
  ghost predicate BooksDef(t: Tx) {
    && BlocksOk(t.blks)
    && Linked(t.links, t.prev, t.chain)
    && t.rest + Gone(t) == t.was + multiset(t.chain)
    && Written(t)
    && |t.votes| <= REFS_PER_BLOCK
  }

  /** Always true; mentioning it makes the verifier look inside Books. */
  predicate Opened(t: Tx) { true }

  ghost predicate Books(t: Tx) {
    forall u {:trigger Opened(u)} :: Opened(u) && u == t ==> BooksDef(u)
  }

  lemma Audit(t: Tx)
    requires Books(t)
    ensures BooksDef(t)
  {
    assert Opened(t);
  }

  /** New pages went to addresses that were not in use. */
  ghost predicate Written(t: Tx) {
    && Extends(t.base, t.blks)
    && Within(t.was, t.base) && Once(t.was)
    && Once(multiset(t.chain))
    && (forall a :: a in t.chain ==> a in t.blks && a !in t.base)
  }

  /** From t to u the transaction only added pages, at fresh addresses: no page, no prev link and
      no link of its chain was touched. */
  ghost predicate Grew(t: Tx, u: Tx) {
    && Extends(t.blks, u.blks)
    && (forall a :: a in t.chain ==> a in u.chain)
    && (forall a :: a in u.chain ==> a in t.chain || a !in t.blks)
    && (forall a :: a in t.blks && a in t.links ==> a in u.links && u.links[a] == t.links[a])
  }

  lemma GrewSame(t: Tx)
    ensures Grew(t, t)
  {
  }

  lemma GrewOver(t: Tx, u: Tx, v: Tx)
    requires Grew(t, u) && Grew(u, v)
    ensures Grew(t, v) && Extends(t.blks, u.blks) && Extends(u.blks, v.blks) && Extends(t.blks, v.blks)
  {
  }

  // ----- the chain

  lemma {:induction false} LinkedExtend(links: map<LogAddr, Ref>, a: Ref, chain: seq<LogAddr>, x: LogAddr, r: Ref)
    requires Linked(links, a, chain) && x !in chain
    ensures Linked(links[x := r], a, chain)
    decreases |chain|
  {
    if chain != [] {
      LinkedExtend(links, links[chain[0]], chain[1..], x, r);
    }
  }

  /** prev links determine the chain, so every traversal of it ends and visits
      the same pages. */
  lemma {:induction false} ChainUnique(links: map<LogAddr, Ref>, a: Ref, c: seq<LogAddr>, d: seq<LogAddr>)
    requires Linked(links, a, c) && Linked(links, a, d)
    ensures c == d
    decreases |c|
  {
    if c != [] && d != [] {
      ChainUnique(links, links[c[0]], c[1..], d[1..]);
      assert c == [c[0]] + c[1..] && d == [d[0]] + d[1..];
    }
  }

  lemma {:induction false} VotesExtend(b: Blocks, chain: seq<LogAddr>, x: LogAddr, p: Blk)
    requires x !in chain
    ensures ChainVotes(b[x := p], chain) == ChainVotes(b, chain)
    ensures VotePages(b[x := p], chain) == VotePages(b, chain)
  {
    if chain != [] {
      VotesExtend(b, chain[1..], x, p);
    }
  }

  // ----- the books keep balancing

  lemma RestWithin(t: Tx, x: LogAddr)
    requires Books(t) && x in t.rest
    ensures x in t.blks && t.rest[x] == 1 && x !in t.votes
  {
    Audit(t);
    assert x in t.votes ==> x in multiset(t.votes);
    assert x in t.chain <==> x in multiset(t.chain);
    assert (t.rest + Gone(t))[x] == (t.was + multiset(t.chain))[x];
    assert x in t.was || x in multiset(t.chain);
  }

  /** An index or data page goes to a fresh address. */
  function Wrote(t: Tx, a: LogAddr, p: Blk): Tx {
    t.(blks := t.blks[a := p], links := t.links[a := t.prev], prev := Some(a),
       chain := [a] + t.chain, rest := t.rest + multiset{a})
  }

  lemma WroteOk(t: Tx, a: LogAddr, p: Blk)
    requires Books(t) && a !in t.blks && !p.Vots? && BlkOk(p)
    ensures Books(Wrote(t, a, p))
  {
    Audit(t);
    var u := Wrote(t, a, p);
    assert a !in t.chain;
    WroteLinks(t.links, t.prev, t.chain, a);
    WrittenGrows(t, a, p, u);
    GoneWrote(t, a, p);
    WroteSums(t.rest, Gone(t), t.was, multiset(t.chain), multiset{a});
  }

  lemma GoneWrote(t: Tx, a: LogAddr, p: Blk)
    requires a !in t.chain && !p.Vots?
    ensures Gone(Wrote(t, a, p)) == Gone(t) && multiset(Wrote(t, a, p).chain) == multiset(t.chain) + multiset{a}
  {
    VotesExtend(t.blks, t.chain, a, p);
    Cons(a, t.chain);
  }

  lemma WroteSums(r: multiset<LogAddr>, g: multiset<LogAddr>, w: multiset<LogAddr>, c: multiset<LogAddr>, a: multiset<LogAddr>)
    requires r + g == w + c
    ensures (r + a) + g == w + (c + a)
  {
    forall x ensures ((r + a) + g)[x] == (w + (c + a))[x] { assert (r + g)[x] == (w + c)[x]; }
  }

  lemma Cons(a: LogAddr, c: seq<LogAddr>)
    ensures ([a] + c)[1..] == c && multiset([a] + c) == multiset(c) + multiset{a}
  {
  }

  lemma WroteLinks(links: map<LogAddr, Ref>, prev: Ref, chain: seq<LogAddr>, a: LogAddr)
    requires Linked(links, prev, chain) && a !in chain
    ensures Linked(links[a := prev], Some(a), [a] + chain)
  {
    LinkedExtend(links, prev, chain, a, prev);
    Cons(a, chain);
  }

  lemma WrittenGrows(t: Tx, a: LogAddr, p: Blk, u: Tx)
    requires Written(t) && a !in t.blks && u.base == t.base && u.was == t.was
    requires u.blks == t.blks[a := p] && u.chain == [a] + t.chain
    ensures Written(u)
  {
    Cons(a, t.chain);
    assert a in multiset(t.chain) ==> a in t.chain;
  }

  /** The buffered votes are written out as a vote page. */
  function Flushed(t: Tx, a: LogAddr): Tx {
    t.(blks := t.blks[a := Vots(t.votes)], links := t.links[a := t.prev], prev := Some(a),
       chain := [a] + t.chain, votes := [])
  }

  lemma FlushedOk(t: Tx, a: LogAddr)
    requires Books(t) && a !in t.blks
    ensures Books(Flushed(t, a))
  {
    Audit(t);
    var u := Flushed(t, a);
    assert a !in t.chain;
    WroteLinks(t.links, t.prev, t.chain, a);
    WrittenGrows(t, a, Vots(t.votes), u);
    VotesExtend(t.blks, t.chain, a, Vots(t.votes));
    Cons(a, t.chain);
    FlushSums(t.rest, multiset(t.votes), ChainVotes(t.blks, t.chain), VotePages(t.blks, t.chain),
              t.was, multiset(t.chain), multiset{a});
  }

  lemma FlushSums(r: multiset<LogAddr>, v: multiset<LogAddr>, c: multiset<LogAddr>, p: multiset<LogAddr>,
                  w: multiset<LogAddr>, k: multiset<LogAddr>, a: multiset<LogAddr>)
    requires r + (c + p + v) == w + k
    ensures r + ((c + v) + (p + a) + multiset{}) == w + (k + a)
  {
    forall x ensures (r + ((c + v) + (p + a) + multiset{}))[x] == (w + (k + a))[x] {
      assert (r + (c + p + v))[x] == (w + k)[x];
    }
  }

  lemma WroteGrew(t: Tx, a: LogAddr, p: Blk)
    requires Books(t) && BlocksOk(t.blks) && a !in t.blks && BlkOk(p)
    ensures Grew(t, Wrote(t, a, p)) && BlocksOk(Wrote(t, a, p).blks)
  {
    Audit(t);
  }

  lemma FlushedGrew(t: Tx, a: LogAddr)
    requires Books(t) && BlocksOk(t.blks) && a !in t.blks
    ensures Grew(t, Flushed(t, a)) && BlocksOk(Flushed(t, a).blks)
  {
    Audit(t);
  }

  /** One more superseded page. */
  function Voted(t: Tx, x: LogAddr): Tx {
    t.(votes := t.votes + [x], rest := t.rest - multiset{x})
  }

  lemma VotedOk(t: Tx, x: LogAddr)
    requires Books(t) && x in t.rest && |t.votes| < REFS_PER_BLOCK
    ensures Books(Voted(t, x))
  {
    Audit(t);
    assert multiset(t.votes + [x]) == multiset(t.votes) + multiset{x};
    VotedSums(t.rest, ChainVotes(t.blks, t.chain) + VotePages(t.blks, t.chain), multiset(t.votes),
              t.was + multiset(t.chain), x);
  }

  lemma VotedSums(r: multiset<LogAddr>, g: multiset<LogAddr>, v: multiset<LogAddr>, w: multiset<LogAddr>, x: LogAddr)
    requires r + (g + v) == w && x in r
    ensures (r - multiset{x}) + (g + (v + multiset{x})) == w
  {
    forall y ensures ((r - multiset{x}) + (g + (v + multiset{x})))[y] == w[y] { assert (r + (g + v))[y] == w[y]; }
  }

  // ----- at the end

  /** The commit ledger: the pages of the new tree, the voted pages and the vote
      pages are exactly the pages of the old tree and the pages written, and no
      page is counted twice. */
  ghost predicate Ledger(b: Blocks, tree: multiset<LogAddr>, chain: seq<LogAddr>, was: multiset<LogAddr>) {
    && tree + ChainVotes(b, chain) + VotePages(b, chain) == was + multiset(chain)
    && Once(tree + ChainVotes(b, chain) + VotePages(b, chain))
  }

  lemma BooksClose(t: Tx)
    requires Books(t) && t.votes == []
    ensures Ledger(t.blks, t.rest, t.chain, t.was)
    ensures forall a :: a in t.rest ==> a !in ChainVotes(t.blks, t.chain) && a !in VotePages(t.blks, t.chain) && a in t.blks
  {
    Audit(t);
    var v, p := ChainVotes(t.blks, t.chain), VotePages(t.blks, t.chain);
    assert t.rest + v + p == t.rest + Gone(t);
    forall a ensures (t.rest + v + p)[a] <= 1 {
      assert (t.rest + v + p)[a] == (t.was + multiset(t.chain))[a];
      assert a in t.chain <==> a in multiset(t.chain);
    }
    forall a | a in t.rest ensures a !in v && a !in p && a in t.blks {
      assert (t.rest + v + p)[a] <= 1;
      RestWithin(t, a);
    }
  }
}

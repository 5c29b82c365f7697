/** Writing a checkpoint page by page among copied pages, and reading it back on boot. */
module Checkpoint {
  import opened Flash

  /** Two words of the random generator end every checkpoint. */
  const TAIL := 8

  /** A page of a segment with its checkpoint flag. */
  datatype Leaf = Leaf(mark: CpMark, bytes: Block)

  type Log = seq<Leaf>

  // ----- the pages of a checkpoint

  /** CALCULATE_IN_PAGES */
  function Pages(size: nat): (n: nat)
    ensures size <= PAGE * n && (size > 0 ==> PAGE * (n - 1) < size)
  {
    (size + PAGE - 1) / PAGE
  }

  function PageOf(bytes: Block, k: nat): (p: Block)
    ensures |p| == PAGE
  {
    seq(PAGE, j requires 0 <= j => if PAGE * k + j < |bytes| then bytes[PAGE * k + j] else EMPTY_BYTE)
  }

  function CheckpointPages(bytes: Block): (ps: Log)
    requires bytes != []
    ensures |ps| == Pages(|bytes|) > 0
    ensures forall k :: 0 <= k < |ps| ==> ps[k] == Leaf(CpMarkOf(k, |ps| - 1), PageOf(bytes, k))
  {
    seq(Pages(|bytes|), k requires 0 <= k => Leaf(CpMarkOf(k, Pages(|bytes|) - 1), PageOf(bytes, k)))
  }

  // ----- checkpoint pages of a log

  /** The checkpoint pages of a log, without the pages copied in between. */
  ghost function Strip(log: Log): Log {
    if log == [] then []
    else
      var n := |log| - 1;
      Strip(log[..n]) + (if log[n].mark == NotCp then [] else [log[n]])
  }

  lemma {:induction false} StripConcat(a: Log, b: Log)
    ensures Strip(a + b) == Strip(a) + Strip(b)
  {
    if b == [] {
      assert a + b == a;
    } else {
      var n := |b| - 1;
      StripConcat(a, b[..n]);
      assert (a + b)[..|a| + n] == a + b[..n] && (a + b)[|a| + n] == b[n];
    }
  }

  lemma {:induction false} StripNothing(a: Log)
    requires forall p :: p in a ==> p.mark == NotCp
    ensures Strip(a) == []
  {
    if a != [] {
      StripNothing(a[..|a| - 1]);
    }
  }

  ghost function Payload(ps: Log): Block {
    if ps == [] then [] else Payload(ps[..|ps| - 1]) + ps[|ps| - 1].bytes
  }

  lemma {:induction false} PayloadConcat(a: Log, b: Log)
    ensures Payload(a + b) == Payload(a) + Payload(b)
  {
    if b == [] {
      assert a + b == a;
    } else {
      var n := |b| - 1;
      PayloadConcat(a, b[..n]);
      assert (a + b)[..|a| + n] == a + b[..n];
    }
  }

  /** The first k pages of a checkpoint hold its first bytes. */
  lemma {:induction false} PayloadOfPages(bytes: Block, k: nat)
    requires bytes != [] && k <= |CheckpointPages(bytes)|
    ensures var p := Payload(CheckpointPages(bytes)[..k]);
            |p| == PAGE * k && forall i :: 0 <= i < |p| && i < |bytes| ==> p[i] == bytes[i]
  {
    var ps := CheckpointPages(bytes);
    if k > 0 {
      PayloadOfPages(bytes, k - 1);
      assert ps[..k][..k - 1] == ps[..k - 1];
    }
  }

  lemma PayloadOfCheckpoint(bytes: Block)
    requires bytes != []
    ensures |bytes| <= |Payload(CheckpointPages(bytes))| && Payload(CheckpointPages(bytes))[..|bytes|] == bytes
  {
    var ps := CheckpointPages(bytes);
    PayloadOfPages(bytes, |ps|);
    assert ps[..|ps|] == ps;
  }

  /** A stretch of a log, from its first to its last page, that holds the checkpoint. */
  ghost predicate IsCheckpoint(ck: Log, bytes: Block) {
    && ck != [] && bytes != [] && Strip(ck) == CheckpointPages(bytes)
    && ck[0].mark == CpFirst && ck[|ck| - 1].mark != NotCp
  }

  // ----- finding a checkpoint

  /** findCheckpointInSegment: the last page with the mark; the header page at 0 is not looked at. */
  ghost function LastMarked(log: Log, m: CpMark): (i: nat)
    ensures i < |log| || (i == 0 && log == [])
    ensures i > 0 ==> log[i].mark == m
    ensures forall j :: i < j < |log| ==> log[j].mark != m
    decreases |log|
  {
    if |log| <= 1 then 0
    else if log[|log| - 1].mark == m then |log| - 1
    else LastMarked(log[..|log| - 1], m)
  }

  /** findCheckpointStart */
  ghost function StartBefore(log: Log, i: nat): (s: nat)
    requires i < |log|
    ensures s <= i && (s > 0 ==> log[s].mark == CpFirst)
    ensures forall j :: s < j <= i ==> log[j].mark != CpFirst
  {
    if i == 0 || log[i].mark == CpFirst then i else StartBefore(log, i - 1)
  }

  /** IS_CHECKPOINT_MORE_THAN_ONE_PAGE */
  predicate MoreThanOnePage(size: nat) { 1 + size > PAGE }

  ghost predicate Found(log: Log, size: nat) {
    LastMarked(log, if MoreThanOnePage(size) then CpLast else CpFirst) > 0
  }

  ghost function FoundAt(log: Log, size: nat): (s: nat)
    requires Found(log, size)
    ensures s < |log|
  {
    if MoreThanOnePage(size) then StartBefore(log, LastMarked(log, CpLast)) else LastMarked(log, CpFirst)
  }

  /** What boot reads of a log. */
  ghost function Restored(log: Log, size: nat): Option<Block> {
    if !Found(log, size) then None
    else
      var p := Payload(Strip(log[FoundAt(log, size)..]));
      if |p| < size then None else Some(p[..size])
  }

  // ----- the round trip

  ghost predicate No(log: Log, m: CpMark) { forall p :: p in log ==> p.mark != m }

  lemma {:induction false} StripHas(log: Log, j: nat)
    requires j < |log| && log[j].mark != NotCp
    ensures log[j] in Strip(log)
  {
    if j < |log| - 1 {
      StripHas(log[..|log| - 1], j);
    }
  }

  /** Only the first page of a checkpoint is marked first. */
  lemma OneFirst(ck: Log, bytes: Block, j: nat)
    requires IsCheckpoint(ck, bytes) && 0 < j < |ck|
    ensures ck[j].mark != CpFirst
    ensures ck[j].mark != NotCp ==> |CheckpointPages(bytes)| > 1
  {
    hide CheckpointPages;
    var ps := CheckpointPages(bytes);
    hide Strip;
    StripConcat(ck[..1], ck[1..]);
    assert ck[..1] + ck[1..] == ck && Strip(ck[..1]) == [ck[0]] by { StripOne(ck[0]); assert ck[..1] == [ck[0]]; }
    assert Strip(ck[1..]) == ps[1..];
    if ck[j].mark != NotCp {
      StripHas(ck[1..], j - 1);
      var k :| 0 <= k < |ps[1..]| && ps[1..][k] == ck[j];
      assert ps[k + 1] == ck[j];
    }
  }

  lemma StripEmpty()
    ensures Strip([]) == []
  {
  }

  lemma StripOne(p: Leaf)
    requires p.mark != NotCp
    ensures Strip([p]) == [p]
  {
    assert [p][..0] == [];
  }

  lemma {:induction false} StripEnds(ck: Log)
    requires ck != [] && ck[|ck| - 1].mark != NotCp
    ensures Strip(ck) != [] && Strip(ck)[|Strip(ck)| - 1] == ck[|ck| - 1]
  {
  }

  /** Reading from where a checkpoint starts restores it, whatever follows. */
  lemma ReadsCheckpoint(ck: Log, after: Log, bytes: Block)
    requires IsCheckpoint(ck, bytes)
    ensures var p := Payload(Strip(ck + after));
            |bytes| <= |p| && p[..|bytes|] == bytes
  {
    hide CheckpointPages;
    StripConcat(ck, after);
    PayloadConcat(Strip(ck), Strip(after));
    PayloadOfCheckpoint(bytes);
  }

  /** A checkpoint of several pages is restored although pages follow of an older one that was
      overtaken (after1) or of a newer one that was not finished (after2). */
  lemma RoundTrip(before: Log, ck: Log, after1: Log, after2: Log, bytes: Block)
    requires before != [] && IsCheckpoint(ck, bytes) && |bytes| > PAGE
    requires No(after1, CpFirst) && No(after2, CpLast)
    ensures Restored(before + ck + after1 + after2, |bytes|) == Some(bytes)
  {
    hide Strip, Payload, CheckpointPages, LastMarked, StartBefore, IsCheckpoint;
    var log, b, c := before + ck + after1 + after2, |before|, |ck|;
    LastIsLast(ck, bytes);
    var e := LastMarked(log, CpLast);
    assert log[b + c - 1] == ck[c - 1];
    assert forall j :: b + c + |after1| <= j < |log| ==> log[j] == after2[j - b - c - |after1|];
    var s := StartBefore(log, e);
    forall j | b < j <= e ensures log[j].mark != CpFirst {
      if j < b + c {
        assert log[j] == ck[j - b];
        OneFirst(ck, bytes, j - b);
      } else {
        assert log[j] == after1[j - b - c];
      }
    }
    assert log[b] == ck[0] && log[b..] == ck + (after1 + after2);
    ReadsCheckpoint(ck, after1 + after2, bytes);
  }

  lemma LastIsLast(ck: Log, bytes: Block)
    requires IsCheckpoint(ck, bytes) && |bytes| > PAGE
    ensures ck != [] && ck[0].mark == CpFirst && ck[|ck| - 1].mark == CpLast
  {
    StripEnds(ck);
  }

  lemma OnlyPage(ck: Log, bytes: Block)
    requires IsCheckpoint(ck, bytes) && |bytes| <= PAGE
    ensures |ck| == 1 && ck[0].mark == CpFirst
  {
    if |ck| > 1 {
      OneFirst(ck, bytes, |ck| - 1);
    }
  }

  /** A checkpoint below one page is restored as long as no other was begun. */
  lemma SmallRoundTrip(before: Log, ck: Log, after: Log, bytes: Block)
    requires before != [] && IsCheckpoint(ck, bytes) && |bytes| < PAGE && No(after, CpFirst)
    ensures Restored(before + ck + after, |bytes|) == Some(bytes)
  {
    hide Strip, Payload, CheckpointPages, LastMarked, IsCheckpoint;
    var log, b := before + ck + after, |before|;
    OnlyPage(ck, bytes);
    assert log[b] == ck[0] && log[b..] == ck + after;
    assert forall j :: b + 1 <= j < |log| ==> log[j] == after[j - b - 1];
    ReadsCheckpoint(ck, after, bytes);
  }

  /** A checkpoint of exactly one page carries the first mark only, but boot looks for the last
      mark: of the first checkpoint of a segment nothing is found exactly for that size. */
  lemma LostExactlyAtOnePage(before: Log, ck: Log, bytes: Block)
    requires before != [] && No(before, CpLast) && IsCheckpoint(ck, bytes)
    ensures Found(before + ck, |bytes|) <==> |bytes| != PAGE
  {
    if |bytes| > PAGE {
      RoundTrip(before, ck, [], [], bytes);
      assert before + ck + [] + [] == before + ck;
    } else if |bytes| < PAGE {
      SmallRoundTrip(before, ck, [], bytes);
      assert before + ck + [] == before + ck;
    } else {
      OnlyPage(ck, bytes);
    }
  }

  // ----- the writer

  /** The checkpoint pages written so far, in the stretch of log since the first of them. */
  ghost predicate Underway(ck: Log, bytes: Block, k: nat)
    requires bytes != [] && k <= |CheckpointPages(bytes)|
  {
    && Strip(ck) == CheckpointPages(bytes)[..k]
    && (k > 0 ==> ck != [] && ck[0].mark == CpFirst && ck[|ck| - 1].mark != NotCp)
    && (k == 0 ==> ck == [])
  }

  /** The next page of the checkpoint, behind pages copied to make room for it. */
  lemma NextPage(ck: Log, bytes: Block, k: nat, copied: Log)
    requires bytes != [] && k < |CheckpointPages(bytes)| && Underway(ck, bytes, k) && AllCopied(copied)
    ensures var p := CheckpointPages(bytes)[k];
            Underway(if k == 0 then [p] else ck + copied + [p], bytes, k + 1)
  {
    hide Strip, CheckpointPages;
    var ps := CheckpointPages(bytes);
    StripEmpty();
    StripNothing(copied);
    StripConcat(ck, copied);
    StripConcat(ck + copied, [ps[k]]);
    StripOne(ps[k]);
    assert ps[..k] + [ps[k]] == ps[..k + 1];
  }

  /** Copied pages carry no checkpoint flag. */
  ghost predicate AllCopied(copied: Log) { forall p :: p in copied ==> p.mark == NotCp }

  lemma Begun(bytes: Block)
    requires bytes != []
    ensures Underway([], bytes, 0)
  {
  }

  lemma Finished(ck: Log, bytes: Block)
    requires bytes != [] && Underway(ck, bytes, Pages(|bytes|))
    ensures IsCheckpoint(ck, bytes)
  {
    assert CheckpointPages(bytes)[..Pages(|bytes|)] == CheckpointPages(bytes);
  }

  lemma Longer(log: Log, lead: Log, ck: Log, copied: Log, p: Leaf)
    ensures log + lead + ck + copied + [p] == log + lead + (ck + copied + [p])
  {
  }

  class Segment {
    /** The pages of the current segment, and the layer's page buffer. */
    var log: Log
    const buffer: array<bv8>

    constructor (header: Leaf)
      requires header.mark == NotCp
      ensures log == [header] && buffer.Length == PAGE && fresh(buffer)
    {
      log := [header];
      buffer := new bv8[PAGE];
    }

    /** allocAndWriteBlock: pages may be copied forward before the buffer is written. */
    method AllocAndWrite(mark: CpMark, copied: Log)
      modifies `log
      ensures log == old(log) + copied + [Leaf(mark, buffer[..])]
    {
      log := log + copied + [Leaf(mark, buffer[..])];
    }

    /** init_buf, and then byte by byte what is left of the checkpoint. */
    method FillPage(data: Block, counters: Block, tail: Block, ghost k: nat, from: nat) returns (next: nat)
      requires buffer.Length == PAGE && from == PAGE * k < |data| + |counters| + |tail|
      modifies buffer
      ensures buffer[..] == PageOf(data + counters + tail, k)
      ensures next == if from + PAGE < |data| + |counters| + |tail| then from + PAGE else |data| + |counters| + |tail|
    {
      var i := 0;
      while i < PAGE
        invariant i <= PAGE && forall j :: 0 <= j < i ==> buffer[j] == EMPTY_BYTE
      {
        buffer[i] := EMPTY_BYTE;
        i := i + 1;
      }
      next := from;
      i := 0;
      ghost var bytes := data + counters + tail;
      while i < PAGE && next < |data| + |counters| + |tail|
        invariant i <= PAGE && next == from + i <= |bytes|
        invariant forall j :: 0 <= j < PAGE ==> buffer[j] == if j < i then bytes[from + j] else EMPTY_BYTE
      {
        var b;
        if next < |data| {
          b := data[next];
        } else if next < |data| + |counters| {
          b := counters[next - |data|];
        } else {
          b := tail[next - |data| - |counters|];
        }
        buffer[i] := b;
        i, next := i + 1, next + 1;
      }
    }

    /** commit: gaps are the pages copied before each page of the checkpoint (none in a header). */
    method Commit(data: Block, counters: Block, tail: Block, gaps: seq<Log>) returns (ghost lead: Log, ghost ck: Log)
      requires buffer.Length == PAGE && |tail| == TAIL
      requires forall g :: 0 <= g < |gaps| ==> AllCopied(gaps[g])
      modifies `log, buffer
      ensures log == old(log) + lead + ck && AllCopied(lead)
      ensures IsCheckpoint(ck, data + counters + (if |data| + |counters| + TAIL >= PAGE then tail else BlankTail()))
    {
      hide IsCheckpoint, CheckpointPages;
      lead, ck := if gaps == [] then [] else gaps[0], [];
      if |data| + |counters| + TAIL >= PAGE {
        ck := CommitPages(data, counters, tail, gaps, lead);
      } else {
        SmallPage(data, counters);
        AllocAndWrite(CpFirst, if gaps == [] then [] else gaps[0]);
        ck := [Leaf(CpFirst, buffer[..])];
        SmallIsCheckpoint(data + counters + BlankTail(), ck);
      }
    }

    method CommitPages(data: Block, counters: Block, tail: Block, gaps: seq<Log>, ghost lead: Log) returns (ghost ck: Log)
      requires buffer.Length == PAGE && |data| + |counters| + |tail| >= PAGE
      requires forall g :: 0 <= g < |gaps| ==> AllCopied(gaps[g])
      requires lead == if gaps == [] then [] else gaps[0]
      modifies `log, buffer
      ensures log == old(log) + lead + ck && IsCheckpoint(ck, data + counters + tail)
    {
      hide IsCheckpoint, Underway, CheckpointPages;
      var size := |data| + |counters| + |tail|;
      ghost var bytes, log0 := data + counters + tail, log;
      var from, k, last := 0, 0, Pages(size) - 1;
      Begun(bytes);
      ck := [];
      while from < size
        invariant k <= Pages(size) && |bytes| == size && from == (if PAGE * k < size then PAGE * k else size)
        invariant log == (if k == 0 then log0 else log0 + lead + ck)
        invariant Underway(ck, bytes, k)
        decreases size - from
      {
        from := FillPage(data, counters, tail, k, from);
        var copied := if k < |gaps| then gaps[k] else [];
        NextPage(ck, bytes, k, copied);
        AllocAndWrite(CpMarkOf(k, last), copied);
        ghost var p := CheckpointPages(bytes)[k];
        Longer(log0, lead, ck, copied, p);
        ck := if k == 0 then [p] else ck + copied + [p];
        k := k + 1;
      }
      Finished(ck, bytes);
    }

    /** A small checkpoint is copied to the buffer whole. */
    method SmallPage(data: Block, counters: Block)
      requires buffer.Length == PAGE && |data| + |counters| + TAIL < PAGE
      modifies buffer
      ensures buffer[..] == PageOf(data + counters + BlankTail(), 0)
    {
      var next := FillPage(data, counters, BlankTail(), 0, 0);
    }
  }

  function BlankTail(): Block { seq(TAIL, i => EMPTY_BYTE) }

  lemma SmallIsCheckpoint(bytes: Block, ck: Log)
    requires bytes != [] && |bytes| < PAGE && ck == [Leaf(CpFirst, PageOf(bytes, 0))]
    ensures IsCheckpoint(ck, bytes)
  {
    StripOne(ck[0]);
  }

  // ----- the reader

  /** findCheckpointInSegment, from the last page of the log. */
  method FindCheckpoint(log: Log, size: nat) returns (off: nat)
    requires log != []
    ensures off == LastMarked(log, if MoreThanOnePage(size) then CpLast else CpFirst)
  {
    var m := if MoreThanOnePage(size) then CpLast else CpFirst;
    off := |log| - 1;
    while off > 0
      invariant off < |log| && LastMarked(log[..off + 1], m) == LastMarked(log, m)
      decreases off
    {
      if log[off].mark == m {
        return;
      }
      assert log[..off + 1][..off] == log[..off];
      off := off - 1;
    }
  }

  /** findCheckpointStart */
  method FindStart(log: Log, from: nat) returns (off: nat)
    requires from < |log|
    ensures off == StartBefore(log, from)
  {
    off := from;
    while off > 0
      invariant off <= from && StartBefore(log, off) == StartBefore(log, from)
      decreases off
    {
      if log[off].mark == CpFirst {
        return;
      }
      off := off - 1;
    }
  }

  lemma PayloadStep(log: Log, start: nat, off: nat)
    requires start <= off < |log|
    ensures Payload(Strip(log[start..off + 1]))
         == Payload(Strip(log[start..off])) + (if log[off].mark == NotCp then [] else log[off].bytes)
    ensures Payload(Strip(log[start..off + 1])) <= Payload(Strip(log[start..]))
  {
    hide Strip, Payload;
    var a, b, p := log[start..off], log[start..off + 1], log[off];
    assert b == a + [p] && log[start..] == b + log[off + 1..];
    StripConcat(b, log[off + 1..]);
    PayloadConcat(Strip(b), Strip(log[off + 1..]));
    StripConcat(a, [p]);
    PayloadConcat(Strip(a), Strip([p]));
    OnePayload(p);
  }

  lemma OnePayload(p: Leaf)
    ensures Payload(Strip([p])) == if p.mark == NotCp then [] else p.bytes
  {
    assert [p][..0] == [];
    if p.mark != NotCp {
      StripOne(p);
    }
  }

  method CopyPage(p: Block, out: array<bv8>, from: nat) returns (i: nat)
    requires from <= out.Length
    modifies out
    ensures i == (if from + |p| < out.Length then from + |p| else out.Length)
    ensures out[..from] == old(out[..from]) && out[from..i] == p[..i - from]
  {
    i := from;
    var j := 0;
    while j < |p| && i < out.Length
      invariant j <= |p| && i == from + j <= out.Length
      invariant out[..from] == old(out[..from]) && out[from..i] == p[..j]
    {
      out[i] := p[j];
      i, j := i + 1, j + 1;
    }
  }

  lemma Appended(a: Block, b: Block, all: Block, i: nat, n: nat, o: Block)
    requires a + b <= all && i == (if |a| < n then |a| else n) && n <= |all| && i < n && i <= |o| <= n
    requires o[..i] == all[..i] && |o| == (if i + |b| < n then i + |b| else n) && o[i..] == b[..|o| - i]
    ensures o == all[..|o|]
  {
    assert o == o[..i] + o[i..];
    assert all[..|a| + |b|] == a + b;
    assert forall k :: i <= k < |o| ==> o[k] == b[k - i] == (a + b)[k] == all[k];
  }

  /** The bytes of the checkpoint pages between two positions. */
  ghost function Between(log: Log, start: nat, off: nat): Block
    requires start <= off <= |log|
  {
    Payload(Strip(log[start..off]))
  }

  /** The pages before off have been read, as far as o has room. */
  ghost predicate ReadUpTo(log: Log, start: nat, off: nat, o: Block, i: nat) {
    && start <= off <= |log| && i <= |o| <= |Between(log, start, |log|)|
    && i == (if |Between(log, start, off)| < |o| then |Between(log, start, off)| else |o|)
    && o[..i] == Between(log, start, |log|)[..i]
  }

  lemma ReadStep(log: Log, start: nat, off: nat)
    requires start <= off < |log|
    ensures Between(log, start, off + 1) == Between(log, start, off) + (if log[off].mark == NotCp then [] else log[off].bytes)
    ensures Between(log, start, off + 1) <= Between(log, start, |log|)
  {
    hide Strip, Payload;
    assert log[start..|log|] == log[start..];
    PayloadStep(log, start, off);
  }

  lemma ReadFirst(log: Log, start: nat, o: Block)
    requires start <= |log| && |o| <= |Between(log, start, |log|)|
    ensures ReadUpTo(log, start, start, o, 0)
  {
    assert log[start..start] == [];
  }

  lemma ReadLast(log: Log, start: nat, off: nat, o: Block)
    requires ReadUpTo(log, start, off, o, |o|)
    ensures var all := Payload(Strip(log[start..]));
      |o| <= |all| && o == all[..|o|]
  {
    hide Strip, Payload;
    assert log[start..|log|] == log[start..] && o[..|o|] == o;
  }

  method ReadPage(log: Log, start: nat, off: nat, out: array<bv8>, i: nat) returns (j: nat)
    requires ReadUpTo(log, start, off, out[..], i) && i < out.Length
    modifies out
    ensures off < |log| && ReadUpTo(log, start, off + 1, out[..], j)
  {
    hide Between;
    ReadStep(log, start, off);
    j := i;
    if log[off].mark != NotCp {
      j := CopyPage(log[off].bytes, out, i);
      Appended(Between(log, start, off), log[off].bytes, Between(log, start, |log|), i, out.Length, out[..j]);
      assert out[..][..j] == out[..j];
    }
  }

  /** readCheckpointToMemory after its start was found: pages without a checkpoint flag are skipped. */
  method ReadPages(log: Log, start: nat, out: array<bv8>)
    requires start <= |log| && out.Length <= |Payload(Strip(log[start..]))|
    modifies out
    ensures out[..] == Payload(Strip(log[start..]))[..out.Length]
  {
    assert log[start..|log|] == log[start..];
    ReadFirst(log, start, out[..]);
    hide ReadUpTo, Strip, Payload;
    var i: nat, off: nat := 0, start;
    while i < out.Length
      invariant ReadUpTo(log, start, off, out[..], i) && i <= out.Length && off <= |log|
      decreases |log| - off
    {
      i := ReadPage(log, start, off, out, i);
      off := off + 1;
    }
    ReadLast(log, start, off, out[..]);
  }

  /** The steps of boot that restore the state saved in a segment. */
  method Restore(log: Log, out: array<bv8>) returns (found: bool)
    requires log != []
    requires Restored(log, out.Length).Some? || !Found(log, out.Length)
    modifies out
    ensures found == Found(log, out.Length)
    ensures found ==> Some(out[..]) == Restored(log, out.Length)
  {
    hide Strip, Payload, LastMarked, StartBefore;
    var off := FindCheckpoint(log, out.Length);
    if off == 0 {
      return false;
    }
    if MoreThanOnePage(out.Length) {
      off := FindStart(log, off);
    }
    ReadPages(log, off, out);
    found := true;
  }
}

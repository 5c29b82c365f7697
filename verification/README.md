# NANDFS

A model of NANDFS, a file system for raw NAND flash in small devices, with proofs of what it
keeps: nothing that was committed is lost, no page is counted twice or forgotten, and what was
written is read back. It also says, each time as an exact condition, where the code does not do
what it is for.

## The system

**Store.** The sequencing layer turns slots of erase units into an append-only store of logical
pages. Segments are written one after the other behind a header and a checkpoint; when all are in
use, the segment with the most obsolete pages is reclaimed: its live pages are copied forward to a
spare slot at their old logical addresses, the others are overwritten. Slots are swapped at random
for wear leveling. (`Flash`, `SeqState`, `SeqSteps`, `SeqSegments`, `SeqRoom`, `SeqCrash`, `SeqTurn`,
`SeqWorld`, and the class in `Sequencer`; the searches of boot in `Checkpoint` and `Search`; bad
erase units in `Reserve`.)

**File system.** Files are inodes with direct, indirect, double and triple blocks; all inodes are
listed in the file inode0. A transaction never overwrites: it writes changed pages and the path
above them to new addresses, links each page to the one before, and votes the pages it replaces.
A commit enters the new inode0 in a checkpoint and then marks the voted pages obsolete. Boot carries
out the votes again and deletes the pages of transactions that did not commit. (`FsIndex`,
`FsTree`, `FsCopy` for the tree; `TxLedger`, `TxFile`, and the class in `Transactions` for one
transaction; `TxRebase`, `Interleave` for several; `FileIo` for bytes, `FileCost` for the pages they
take; `Removal` for unlink; `Recovery` and `Replay` for crashes and boot.)

**Between them.** `Layers` shows that the pages of the store are the disk of the recovery system
and that every operation of the store is one of its steps or invisible; `Format` is where both
begin. `Incidents` has runs that end badly. `Lru` is the page cache, `Ecc` the error-correcting
code of the driver.

## How it is stated

Two notions carry most of the results.

The *image* is every page at a logical position, live or obsolete. Everything the store does
besides writing and marking (copying, reclaiming, leveling, headers, checkpoints over dead pages)
leaves it alone. `Durable` records the last complete checkpoint: where it ends, its own pages, the
image and the counters then, and the marks made since. The invariant says that dropping the pages
behind it gives that image back, and that reading back from its end gives its pages. What a
checkpoint says is up to a writer and a reader: all that is asked of them is that the reader reads,
from pages that the writer wrote, the state and the segment counters that it was given (`Saves`).
Counters have predicates of their own, exact and sufficient, since a crash can break them while the
contents stay.

The *ledger* of a transaction is an equation of multisets: the pages of the tree as it will be, the
voted pages and the vote pages are the pages of the tree as it was and the pages written, and none
occurs twice. It holds from the first call to the commit, for one transaction and for any
interleaving of several.

A transaction's *credit* is what it can still write: a page counts 128, the votes of a full buffer,
and a vote counts one. So a call's pages and votes add up to one number, and each call has two
clauses: with that much credit it succeeds, and it takes no more.

## Where the code falls short

Each item names the exact condition and, where it is not plain from it, an input.

- **Nothing to reclaim.** When all segments are in use and no other one has a count,
  `moveToNextSegment` fails (the guard is in the contract of `MoveToNextSegment`, both ways). By then
  the old slot of the finished segment is erased while the reclaimed address still points to its end,
  so exactly the pages of that segment read as erased (`StuckReads`; `Incidents.FillBothSegments` is a
  run that gets there).
- **A round too few.** `findNextFreePage` looks at as many segments as there are. When it starts
  inside one and all others have a count, it gives up before the last of them
  (`SeqRoom.SeekExactly` says when it succeeds, `SeqRoom.LastOneMissed` is an input).
- **A crash while a segment is retired.** The old slot is erased, unit by unit, before the next header
  is complete (sequencingUtils.c:1740-1818). Boot then drops what follows the last checkpoint, so pages
  copied forward since and already erased in the old slot are lost although nothing replaced them
  (`Layers.WindowAtomicIff`; the run `Incidents.CopyAndRetire`). While segments are still being
  allocated nothing is lost (`Layers.AllocationAtomic`).
- **Counters after a crash.** Boot restores the counters of the last checkpoint; marks found on the
  flash raise the global count but not their segment's counter (sequencing.c:59-71). The counters are
  sufficient afterwards if and only if, for each segment, the pages obsolete at the checkpoint and
  those found marked are no more than the counter saved (`SeqCrash.BootCover`); the run
  `Incidents.ForgetMark` ends with a full flash and a page that could be reclaimed. The global count
  is exact again if and only if boot marks as many pages as have become obsolete
  (`SeqCrash.ReplayCount`). Contents and crash recovery do not depend on counters.
- **The free count** stays one too high when commit() is called with every counter at its maximum, and
  only then (`Sequencing.Sequencer.Commit`, `Incidents.CommitOnFull`).
- **Leaked pages.** A segment header written inside `allocAndWriteBlock` is checkpointed before the
  new address is stored, and one written by boot after the chains in RAM are empty; after a crash
  those pages stay live for good. These are the only two places (`Recovery.LeaksExactly`).
- **close and fsync** hand the root in RAM itself to the code that commits, so the new root is
  visible to a header checkpoint before the transaction is closed; boot then deletes it
  (`Recovery.RootNeedsClosed`). unlink and creat pass a copy.
- **A checkpoint of exactly one page** carries the mark of a first page while boot looks for the
  mark of a last one (`Checkpoint.LostExactlyAtOnePage`).
- **The two unused check bits** of a chunk are outside the promise of the code
  (`Ecc.UnusedBits`).

## Model

| member | source | states |
|---|---|---|
| `Sequencing.Sequencer.constructor` | NANDFS/src/sequencing/sequencingUtils.c:2949-2975 | an erased flash becomes an empty store with exact counters; its first segment header is a complete checkpoint, whose pages are the writer's for the first counters |
| `Sequencing.Sequencer.ReadBlock` | NANDFS/src/sequencing/sequencing.c:772-805 | every stored page reads back what was stored, wherever copying and wear leveling have put it |
| `Sequencing.Sequencer.MarkAsObsolete` | NANDFS/src/sequencing/sequencing.c:46-113 | exactly this page leaves the store, its flag is programmed in the slot that holds it, and its segment counts one more; of a page marked already only a call after a reboot changes anything, the global count; no segment's counter falls short by it |
| `Sequencing.Sequencer.AllocAndWriteBlock` | NANDFS/src/sequencing/sequencing.c:205-344 | the page goes to an address that was not live and no other address changes, unless every segment counter is at its maximum; then the search goes on behind it, and the call fails exactly when that search does; a header on the way, and the last page of a checkpoint, make the whole contents durable; of a checkpoint being written the pages so far are kept, followed by this one; without a header the flash is as it was but for the page and the live pages copied behind it |
| `Sequencing.Sequencer.Commit` | NANDFS/src/sequencing/sequencing.c:363-540 | afterwards the pages of the last checkpoint are the writer's, each in its place and with the segment counters as they are, whether commit() completed its own or a header was written on the way; checkpoint pages only overwrite pages that are not live; it succeeds exactly when not every counter is at its maximum and the pages fit; with all at their maximum nothing changes but the free count, which ends one too high |
| `Sequencing.Sequencer.FindNextFreePage` | NANDFS/src/sequencing/sequencingUtils.c:1469-1625 | copying forward, changing segments and claiming a page leave the image of all pages, obsolete ones included, as it was, and of the global counts only the claimed page is taken off; where the search ends, or that it fails, is known from the live addresses, the position and the counters before the call |
| `SeqRoom.SeekExactly` | NANDFS/src/sequencing/sequencingUtils.c:1469-1625 | that search succeeds if and only if there is a page in the segment being written, a segment to allocate, or another one with a count and a free position, not counting the one looked at last when there is a round too few |
| `SeqRoom.LastOneMissed` | NANDFS/src/sequencing/sequencingUtils.c:1469-1625 | a position of the counters in which it reports a full flash although a segment with a count has a free page |
| `SeqRoom.FitsWhileAllocating` | NANDFS/src/sequencing/sequencing.c:363-540 | while segments are still to be allocated, a checkpoint of any length fits |
| `SeqRoom.FitsInSegment` | NANDFS/src/sequencing/sequencing.c:363-540 | and so it does in the room left in a segment being allocated |
| `Sequencing.Sequencer.MoveToNextSegment` | NANDFS/src/sequencing/sequencingUtils.c:1728-1844 | another segment is opened behind its header with the image unchanged, and the header's checkpoint has the pages that the writer gives for the counters before; it fails if and only if all segments are in use and no other one has a count |
| `Sequencing.Sequencer.FindSegmentToReclaim` | NANDFS/src/sequencing/sequencingUtils.c:1419-1454 | the first segment of the highest level other than the current one; fails only when all other counters are zero |
| `Sequencing.Sequencer.PerformWearLeveling` | NANDFS/src/sequencing/sequencingUtils.c:1150-1351 | the slot drawn, or its mirror image if that is the spare slot, is copied page by page to the spare slot and erased, the two change places in the map, and no logical position changes |
| `Sequencing.Sequencer.CopySlot` | NANDFS/src/sequencing/sequencingUtils.c:1211-1334 | page for page the target shows the source, of a reserve slot the units in use, one behind the other |
| `Sequencing.Sequencer.LeaveAndLevel` | NANDFS/src/sequencing/sequencingUtils.c:1728-1844 | the finished segment is left, and a slot leveled if and only if the coin says so, the one that was drawn |
| `SeqSegments.PackedSkip` | NANDFS/src/sequencing/sequencingUtils.c:1264-1289 | an erase unit not in use adds nothing to what is copied |
| `Sequencing.Sequencer.WriteSegmentHeader` | NANDFS/src/sequencing/sequencingUtils.c:1648-1695 | behind the header page, page i of the slot holds page i - 1 of the checkpoint that the writer gives for the counters, with its mark; the last one carries the mark that boot looks for; no other slot changes; before each page the slots of all segments hold what they held |
| `Sequencing.Sequencer.Translate` | NANDFS/src/sequencing/sequencingUtils.c:176-250 | addresses behind the write position of the reclaimed segment lead to the old slot, those before it to the new one |
| `Sequencing.Sequencer.IsFlashFull` | NANDFS/src/sequencing/sequencingUtils.c:965-974 | true exactly when every data segment counts all its pages |
| `Sequencing.Sequencer.EraseUnits` | NANDFS/src/sequencing/sequencingUtils.c:1360-1399 | exactly the pages of the slot are erased, unit by unit from the last |
| `Sequencing.Sequencer.ErasedIs` | NANDFS/src/sequencing/sequencingUtils.c:1360-1399 | between two units the flash is as it was with the pages from some offset on erased |
| `Sequencing.Sequencer.Boot` | NANDFS/src/sequencing/sequencing.c:563-763 | what the flash shows is the last checkpoint with later marks; the counters are loaded from the pages of that checkpoint as they are read back from the flash; they suffice if and only if they cover the marks found |
| `Sequencing.Sequencer.ReadCheckpoint` | NANDFS/src/sequencing/sequencingUtils.c:834-959 | from the start of the checkpoint that ends at an offset its pages are read in their order, pages copied in between skipped |
| `Sequencing.Sequencer.StuckReads` | NANDFS/src/sequencing/sequencingUtils.c:1419-1454 | when no segment can be reclaimed a stored page still reads back if and only if it is not in the segment just finished |
| `SeqSteps.WriteStepOk` | NANDFS/src/sequencing/sequencing.c:205-344 | a write keeps the invariant, with exact page counters, and changes the image at its address only |
| `SeqSteps.MarkStepOk` | NANDFS/src/sequencing/sequencing.c:46-113 | a mark keeps the invariant and sets the flag of one live page |
| `SeqSteps.CopyStepOk` | NANDFS/src/sequencing/sequencingUtils.c:1091-1126 | copying a live page forward changes no position |
| `SeqSteps.ClaimStepOk` | NANDFS/src/sequencing/sequencingUtils.c:1049-1080 | a position that is not copied leaves the counters and is ready for the next write |
| `SeqSegments.RetireImage` | NANDFS/src/sequencing/sequencingUtils.c:1728-1844 | erasing the old slot of a finished segment and moving the segment to the new one changes no position |
| `SeqSegments.LevelImage` | NANDFS/src/sequencing/sequencingUtils.c:1150-1351 | swapping a segment with the spare slot changes no position |
| `SeqSegments.SlotPermutation` | NANDFS/src/sequencing/sequencingUtils.c:1150-1351 | while segments are reclaimed the mapped segments and the spare slot are a permutation of all slots |
| `SeqCrash.PagesConserved` | NANDFS/src/sequencing/sequencingUtils.c:1469-1625 | live, obsolete and free pages and the claimed one always add up to the pages that headers leave over |
| `SeqCrash.CrashRecovers` | NANDFS/src/sequencing/sequencing.c:563-763 | dropping everything behind the last checkpoint gives a well-formed flash with the pages of that checkpoint, obsolete at most where marked since |
| `SeqCrash.ProgramDurable` | NANDFS/src/sequencing/sequencing.c:205-344 | pages programmed behind the last checkpoint do not touch what a crash recovers |
| `SeqCrash.MarkDurable` | NANDFS/src/sequencing/sequencing.c:46-113 | a mark can only mark its own page in what a crash recovers |
| `SeqCrash.LostObsolete` | NANDFS/src/sequencing/sequencing.c:563-763 | what is obsolete after a crash was obsolete at the checkpoint or was marked since |
| `SeqCrash.BootCover` | NANDFS/src/sequencing/sequencing.c:46-113 | after boot no segment's counter falls short if and only if each saved counter covers the pages obsolete at the checkpoint and those found marked since |
| `SeqCrash.ReplayCount` | NANDFS/src/sequencing/sequencing.c:46-113 | the global count is exact after boot has carried out the votes if and only if it marked as many pages as have become obsolete since the checkpoint |
| `SeqCrash.ReplayExact` | NANDFS/src/sequencing/sequencing.c:46-113 | which holds when boot marks no page twice, none marked before the checkpoint, and all those left marked |
| `SeqTurn.TruncationWindow` | NANDFS/src/sequencing/sequencingUtils.c:1728-1844 | a crash when the old slot is erased from an offset on recovers the last checkpoint if and only if no page from there on was copied forward since it (marked ones aside); each such page is lost |
| `SeqTurn.PartBootIs` | NANDFS/src/sequencing/sequencing.c:623-683 | between two erases boot keeps to the segment and shows exactly the pages that are left |
| `SeqTurn.BackToIs` | NANDFS/src/sequencing/sequencing.c:623-683 | with the next header unfinished boot falls back to the finished segment and shows exactly those pages, and while segments are allocated the whole checkpoint |
| `SeqTurn.BackHolds` | NANDFS/src/sequencing/sequencing.c:623-683 | in that segment it reads the pages of the last checkpoint |
| `SeqTurn.RetireLeaves` | NANDFS/src/sequencing/sequencingUtils.c:1728-1844 | erasing the old slot of the finished segment leaves all segments the pages they have |
| `SeqTurn.LevelLeaves` | NANDFS/src/sequencing/sequencingUtils.c:1150-1351 | so does wear leveling before the next header |
| `SeqTurn.HeaderLeaves` | NANDFS/src/sequencing/sequencingUtils.c:1648-1695 | and each page of the next header |
| `Incidents.FillBothSegments` | NANDFS/src/sequencing/sequencingUtils.c:1419-1454 | a run from an erased flash after which the stored pages of the last segment, and only those, no longer read back |
| `Incidents.CopyAndRetire` | NANDFS/src/sequencing/sequencingUtils.c:1728-1844 | a run from an erased flash to the end of a segment where retiring it loses a stored page |
| `Incidents.ForgetMark` | NANDFS/src/sequencing/sequencing.c:46-113 | a run with a crash after which a full flash is reported although an obsolete page lies in another segment, whose counter is zero |
| `Incidents.CommitOnFull` | NANDFS/src/sequencing/sequencing.c:363-540 | commit() with every counter at its maximum leaves the free count wrong by one |
| `Incidents.FullIsReal` | NANDFS/src/sequencing/sequencingUtils.c:965-974 | a store with every counter at its maximum in which all invariants hold |
| `Checkpoint.RoundTrip` | NANDFS/src/sequencing/sequencing.c:563-763 | a checkpoint of several pages is restored byte for byte although pages of overtaken or unfinished checkpoints follow and copied pages lie between |
| `Checkpoint.SmallRoundTrip` | NANDFS/src/sequencing/sequencing.c:483-535 | the same for a checkpoint that fits into one page with room to spare |
| `Checkpoint.LostExactlyAtOnePage` | NANDFS/src/sequencing/sequencing.c:563-763 | the first checkpoint of a segment is found if and only if it does not fill exactly one page |
| `Checkpoint.Segment.Commit` | NANDFS/src/sequencing/sequencing.c:363-540 | the pages written form a checkpoint of the state followed by the counters, with the marks in place |
| `Checkpoint.FindCheckpoint` | NANDFS/src/sequencing/sequencingUtils.c:777-825 | the last page of the segment with the mark looked for |
| `Checkpoint.FindStart` | NANDFS/src/sequencing/sequencingUtils.c:834-852 | the last first-page mark before it |
| `Checkpoint.ReadPages` | NANDFS/src/sequencing/sequencingUtils.c:867-959 | the bytes of the checkpoint pages, copied pages skipped |
| `Checkpoint.Restore` | NANDFS/src/sequencing/sequencing.c:563-763 | boot reads back what was saved, or reports that there is none |
| `Search.FindLastInEu` | NANDFS/src/sequencing/sequencingUtils.c:2085-2126 | the bisection of an erase unit finds its last programmed page |
| `Search.FindLastInSlot` | NANDFS/src/sequencing/sequencingUtils.c:2177-2273 | the bisection of a slot finds its last begun unit past bad ones, and the last page in it |
| `Reserve.TagRoundTrip` | NANDFS/src/sequencing/sequencing.h:226-262 | a tag names the unit it was made for and different units have different tags |
| `Reserve.Find` | NANDFS/src/sequencing/sequencingUtils.c:116-167 | the replacement tagged for the unit, or none exists |
| `Reserve.CopyBackEu` | NANDFS/src/sequencing/sequencingUtils.c:1963-1986 | the second good unit of the slot, or there are not two |
| `Reserve.Alloc` | NANDFS/src/sequencing/sequencingUtils.c:987-1040 | an untagged good unit other than the copy-back unit whenever there is one |
| `Reserve.TaggedFound` | NANDFS/src/sequencing/sequencingUtils.c:987-1040 | a unit allocated and tagged is the only one that stands for its unit, and the others stay what they were |
| `Reserve.Translate` | NANDFS/src/sequencing/sequencingUtils.c:237-250 | the page of a good unit, or its replacement, or none exists |
| `Reserve.ReadAfterWrite` | NANDFS/src/sequencing/sequencingUtils.c:116-167 | with any set of bad units translation is one-to-one: a page reads back what was last written through its own address |
| `FsIndex.LocateCovers` | NANDFS/src/fs/fs.h:104-122 | the offset macros divide the file into stretches that neither overlap nor leave a byte out |
| `FsIndex.ActiveIsSameLeaf` | NANDFS/src/fs/transactions.c:1278-1303 | an offset is in the active range exactly when its path shares the last block of addresses |
| `FsTree.InodeFrame` | NANDFS/src/fs/transactions.c:885-1268 | what lies below an inode depends on the pages it reaches only |
| `FsTree.ReplaceEntry` | NANDFS/src/fs/transactions.c:885-1268 | exchanging one address exchanges exactly what lies below it |
| `FsCopy.CopyConserves` | NANDFS/src/fs/transactions.c:885-1268 | path copying conserves pages: new tree plus old path and old block equals old tree plus new path and buffer |
| `FsCopy.CopyResolves` | NANDFS/src/fs/transactions.c:885-1268 | after path copying the offsets under the rewritten block resolve to its entries and all others as before |
| `TxFile.WithEntryView` | NANDFS/src/fs/transactions.c:1388-1538 | an entry stored in the active block changes what one offset leads to |
| `TxFile.LoadView` | NANDFS/src/fs/fsUtils.c:697-820 | loading a block of addresses changes nothing the file leads to |
| `TxLedger.ChainUnique` | NANDFS/src/sequencing/sequencing.c:819-847 | prev addresses determine the chain of a transaction |
| `TxLedger.BooksClose` | NANDFS/src/fs/transactions.c:1718-1895 | with all votes written, tree, votes and vote pages are the old tree and the pages written, each once |
| `Transactions.Transaction.AllocAndWrite` | NANDFS/src/fs/transactions.c:372-386 | a page goes to a fresh address with a link to the previous one; fails exactly when the room is used up |
| `Transactions.Transaction.WriteVot` | NANDFS/src/fs/transactions.c:627-725 | the page is counted out of the file once; while the buffer has room the vote waits in it and nothing else changes; the vote that fills it takes exactly one page, which holds all of them, and fails exactly when there is none |
| `Transactions.Transaction.CreditIs` | NANDFS/src/fs/transactions.c:627-725 | the credit for some pages and votes is room for the pages and for those that the votes fill together with the ones waiting |
| `Transactions.Transaction.WriteEntries` | NANDFS/src/fs/transactions.c:442-549 | in a directory or inode0 a block of addresses is stored if and only if it is not empty, in any other file always, and takes one page; either way it reads back as written |
| `Transactions.Transaction.FinishVotes` | NANDFS/src/fs/transactions.c:1790-1801 | the votes left take one page, or none if there are none, and the ledger closes |
| `Transactions.Transaction.CommitInode` | NANDFS/src/fs/transactions.c:885-1268 | the new inode leads every offset where the transaction saw it lead, and the books balance; it succeeds whenever there is room for a page and a vote for each level of the path, and takes no more |
| `Transactions.Transaction.WriteFileBlock` | NANDFS/src/fs/transactions.c:1388-1538 | one block of the file changes, whatever block of addresses was active before; it succeeds whenever there is room for that block's page and vote and for the path that it makes way for, and takes no more |
| `Transactions.Transaction.WriteInline` | NANDFS/src/fs/transactions.c:1388-1538 | the bytes kept in the inode change and nothing else |
| `Transactions.Transaction.FindBlock` | NANDFS/src/fs/fsUtils.c:839-986 | the address that the transaction sees at an offset |
| `Transactions.Transaction.CommitInodeToInode0` | NANDFS/src/fs/transactions.c:1642-1703 | the new root lists the file's new inode and every other file as before, at the cost of one path |
| `Transactions.Transaction.Commit` | NANDFS/src/fs/transactions.c:1718-1895 | the new root lists a file that reads as the transaction saw it; tree, votes and vote pages account for every page exactly once; it succeeds whenever there is room for two paths and the last votes and the file number is in range, and takes no more |
| `Transactions.CreateFile` | NANDFS/src/fs/transactions.c:2216-2337 | a new inode, the directory and two copies of inode0 in one transaction, with one balanced ledger: the new root lists the new inode, and the directory as it was but for the block with the entry, which the offset leads to, and a size that covers it; it succeeds whenever there is room for these pages and votes |
| `Transactions.FillDirectory` | NANDFS/src/fs/transactions.c:2300-2337 | the directory's part of that, with its cost |
| `Transactions.EntryCommitted` | NANDFS/src/fs/transactions.c:2216-2337 | the block that was written is in the directory that was committed |
| `Removal.VotFile` | NANDFS/src/fs/transactions.c:1960-2106 | the walk votes the inode and the levels that its size covers; it takes one vote for each of these pages and succeeds whenever there is room for them |
| `Removal.VoteLevels` | NANDFS/src/fs/transactions.c:1960-2106 | level by level, with the room after each known from the pages voted |
| `Removal.VotesExactly` | NANDFS/src/fs/transactions.c:1960-2106 | it votes exactly the file's pages if and only if the size covers every entry of the inode, which every stored inode's size does |
| `Removal.Remove` | NANDFS/src/fs/transactions.c:2419-2525 | inode0 lists nothing in the file's place, all else as before, and the ledger is balanced; it succeeds whenever there is room for a vote for each page of the file and for one path |
| `Transactions.Transaction.CopySized` | NANDFS/src/fs/transactions.c:836-869 | the size recorded with a copied path covers the entries it adds |
| `Transactions.Transaction.WriteCovers` | NANDFS/src/fs/transactions.c:1388-1538 | a write notes a size that covers its entry |
| `TxRebase.BooksRebased` | NANDFS/src/fs/transactions.c:1718-1895 | when another commit replaces the tree around a running transaction its books balance against the new tree |
| `TxRebase.Rebase` | NANDFS/src/fs/transactions.c:1642-1703 | and its file reads, and will commit, as before |
| `Transactions.Transaction.MoveRoot` | NANDFS/src/fs/transactions.c:1642-1703 | the running transaction goes on against the new root |
| `Interleave.RunTogether` | NANDFS/src/fs/fs.h:44 | in every interleaving of calls, commits, aborts and new transactions each transaction keeps its books, its file and its share of the current tree |
| `Interleave.CommitsBalance` | NANDFS/src/fs/transactions.c:1718-1895 | every commit of every such run closes its ledger against the root current at that time |
| `Interleave.GuardHolds` | NANDFS/src/fs/transactions.c:1803-1819 | the new root is therefore one that the recovery system accepts |
| `Interleave.CommitOf` | NANDFS/src/fs/transactions.c:1718-1895 | commitTransaction, called in any such run, is a commit step of it |
| `Interleave.CreateOf` | NANDFS/src/fs/transactions.c:2216-2337 | so is createNewFile, which lists the new file, and the directory anew with the entry in it |
| `Interleave.RemoveOf` | NANDFS/src/fs/transactions.c:2419-2525 | and removeFile, which lists nothing in the file's place |
| `Interleave.BeginOf` | NANDFS/src/fs/transactions.c:69-93 | a new transaction is a step of the run |
| `Interleave.WriteOf` | NANDFS/src/fs/transactions.c:1388-1538 | writeFileBlock, called in any such run, is a step of it |
| `Interleave.InlineOf` | NANDFS/src/fs/transactions.c:1388-1538 | also on the part of the file kept in the inode |
| `FileIo.OpenFile.Write` | NANDFS/src/fs/fs.c:214-381 | the contents afterwards are the contents before with the bytes spliced in at the offset; it succeeds whenever the file stays within the largest size and there is room for the blocks and paths that the bytes touch (FileCost.WriteCost), and takes no more |
| `FileCost.WriteMore` | NANDFS/src/fs/fs.c:260-381 | the cost of a write is the sum of the costs of its pieces: the path of each range of addresses is committed once, when the next range is come to |
| `FileIo.OpenFile.Read` | NANDFS/src/fs/fs.c:413-576 | the bytes of the contents from the offset to the count or the end of the file, and nothing else of the buffer |
| `FileIo.OpenFile.FileSize` | NANDFS/src/fs/fsUtils.c:264-273 | the size that the transaction sees |
| `FileIo.PutSplices` | NANDFS/src/fs/transactions.c:1388-1538 | merging bytes into one block splices them into the file |
| `FileIo.CommitKeepsContents` | NANDFS/src/fs/transactions.c:1718-1895 | whoever opens the file after the commit reads the bytes the transaction had |
| `Recovery.VisitedIsChain` | NANDFS/src/fs/transactions.c:204-234 | following prev addresses ends and visits the pages of the chain |
| `Recovery.RunInv` | NANDFS/src/fs/transactions.c:1718-1895 | the invariant of pages, chains, votes and checkpoints holds over every run of writes, checkpoints, commits, aborts, crashes and boots |
| `Recovery.Recovered` | NANDFS/src/fs/fs.c:643-665 | boot after a crash between any two steps comes up with the whole tree of the last checkpoint, and nothing else live but leaked pages |
| `Recovery.ReplayIdempotent` | NANDFS/src/fs/fs.c:643-665 | marks that earlier boots left on the flash make no difference |
| `Recovery.Committed` | NANDFS/src/fs/transactions.c:1816-1819 | until the checkpoint of a commit completes, boot finds the old root and its pages |
| `Recovery.AbortExact` | NANDFS/src/fs/transactions.c:247-265 | an abort gives up exactly the pages of its transaction |
| `Recovery.AbortSafe` | NANDFS/src/fs/transactions.c:247-265 | and keeps the invariant, the whole tree and every page of the other transactions |
| `Recovery.RootNeedsClosed` | NANDFS/src/fs/fsUtils.c:2048-2158 | a checkpoint taken with the new root is sound if and only if it records the transaction as closed; close and fsync leave a window without |
| `Recovery.EarlyRootLost` | NANDFS/src/fs/fsUtils.c:2048-2158 | boot from a checkpoint in that window deletes the new root |
| `Recovery.NoLeaks` | NANDFS/src/fs/fs.c:643-665 | without header checkpoints in two places boot comes up with exactly the committed tree |
| `Recovery.ExactWithoutLeaks` | NANDFS/src/fs/fs.c:643-665 | boot comes up with exactly the committed tree if and only if every page that the checkpoint lost track of is obsolete |
| `Recovery.LeaksExactly` | NANDFS/src/sequencing/sequencing.c:205-344 | a step leaks pages if and only if it is a header written before the new address is stored, or one written by boot over open transactions with live pages |
| `Recovery.FirstInv` | NANDFS/src/fs/fsUtils.c:498-564 | the state after the first checkpoint of a fresh file system |
| `Replay.Volume.HandleTransactionVots` | NANDFS/src/fs/transactions.c:790-825 | the loop makes the marks of the chain's vote pages, each page after its votes |
| `Replay.Volume.DeleteTransactionPages` | NANDFS/src/fs/transactions.c:204-234 | the loop marks the pages of the chain |
| `Replay.Volume.FinishBoot` | NANDFS/src/fs/fs.c:643-665 | votes of the closed transaction, then the chains of all transactions but that one |
| `Replay.Boot` | NANDFS/src/fs/fs.c:603-669 | the loops of boot leave the disk that Recovery.Recovered describes |
| `Format.HandleNoFs` | NANDFS/src/fs/fsUtils.c:498-564 | on an erased flash the two first inodes and a checkpoint put store and recovery system in step, with all their invariants; the root is read back from that checkpoint; it succeeds when the first segment has room for two pages and a checkpoint |
| `Layers.WriteBlock` | NANDFS/src/sequencing/sequencing.c:205-344 | a page of a transaction written to the store is one write step of the recovery system, and a header on the way holds the state that this step calls durable; nothing changes exactly when every counter is at its maximum, and it succeeds exactly when the search behind the page does |
| `Layers.Commit` | NANDFS/src/sequencing/sequencing.c:363-540 | a checkpoint is a run of scrap steps and a checkpoint step, and from its pages the root, the closed transaction and the open ones are read as that step makes them durable; it succeeds exactly when not every counter is at its maximum and the pages fit |
| `Layers.MarkNext` | NANDFS/src/sequencing/sequencing.c:46-113 | a mark is a mark step, before a crash or after |
| `Layers.FindPage` | NANDFS/src/sequencing/sequencingUtils.c:1469-1625 | the search for a free page is invisible, or a checkpoint, or at boot the header that forgets open transactions; it succeeds exactly when the search from the present position does |
| `Layers.FoundIsDurable` | NANDFS/src/sequencing/sequencingUtils.c:777-825 | of the slot being written, boot finds the last complete checkpoint |
| `Layers.ReadIsDurable` | NANDFS/src/sequencing/sequencingUtils.c:867-959 | and reads from there, byte by byte, the pages of that checkpoint |
| `Layers.CrashJoined` | NANDFS/src/sequencing/sequencing.c:563-763 | crash and boot's search are the crash step, which loses at most the marks made since the checkpoint |
| `Layers.CrashAtomic` | NANDFS/src/sequencing/sequencing.c:563-763 | whatever page was written, copied or marked last, boot finds on the flash the whole tree of the last checkpoint, unchanged |
| `Layers.BootedSound` | NANDFS/src/sequencing/sequencing.c:563-763 | and leaves the flash in a state from which this holds again |
| `Layers.Reboot` | NANDFS/src/sequencing/sequencing.c:563-763 | boot of the store is the crash step: the store is valid again, in step, and holds the whole tree of the last checkpoint; root, transactions and counters are the ones read from its pages; the counters suffice if and only if they cover the marks found |
| `Layers.CarryOut` | NANDFS/src/fs/transactions.c:790-825 | the marks that boot carries out keep the store in step to the end |
| `Layers.WindowAtomicIff` | NANDFS/src/sequencing/sequencing.c:623-683 | in the window in which a segment is retired, wholly or up to some erase unit, it holds if and only if no page of the durable tree was copied forward since the checkpoint and erased in the old slot |
| `Layers.PartBooted` | NANDFS/src/sequencing/sequencing.c:623-683 | between two erases boot finds the last checkpoint in the newer slot and shows what the condition speaks of |
| `Layers.BackBooted` | NANDFS/src/sequencing/sequencing.c:623-683 | with an unfinished header boot finds no checkpoint in the new slot and the last one in the finished segment |
| `Layers.AllocationAtomic` | NANDFS/src/sequencing/sequencing.c:623-683 | a crash while the next header is half written, in a flash whose segments are still being allocated, loses nothing |
| `Layers.CutIsVisited` | NANDFS/src/fs/transactions.c:204-234 | a traversal ends at the first erased page |
| `Lru.Cache.constructor` | NANDFS/src/fs/cache.c:61-72 | the queue is empty and every buffer blank |
| `Lru.Cache.RemoveFromLru` | NANDFS/src/fs/cache.c:149-217 | the queue without the buffer, which is then linked to nothing |
| `Lru.Cache.InsertToLru` | NANDFS/src/fs/cache.c:227-274 | the buffer in front of the queue |
| `Lru.Cache.FlushCache` | NANDFS/src/fs/cache.c:584-657 | the buffer is given up, or one of the four reasons why not, with nothing changed |
| `Lru.Cache.GetLruCid` | NANDFS/src/fs/cache.c:403-439 | the least recently used buffer that may be evicted |
| `Lru.Cache.GetFreeCacheId` | NANDFS/src/fs/cache.c:666-704 | a free buffer if there is one, otherwise the least recently used one that may be evicted, which then is blank; none exactly when there is neither, or that one is dirty and cannot be written |
| `Lru.VictimUnique` | NANDFS/src/fs/cache.c:403-439 | there is only one buffer that this can be |
| `Lru.Cache.GetCidByRealAddr` | NANDFS/src/fs/cache.c:82-106 | the buffer that holds the address, or none does |
| `Lru.Cache.FreeByRealAddr` | NANDFS/src/fs/cache.c:293-324 | the buffer that holds the address leaves the queue and is blank; it fails exactly when that buffer is dirty, and without one nothing changes |
| `Lru.Cache.InitTidRelated` | NANDFS/src/fs/cache.c:974-992 | every buffer of the transaction is given up and no other |
| `Lru.Cache.Access` | NANDFS/src/fs/cache.c:825-966 | the buffer answered holds the page asked for and becomes the most recent; a miss evicts only the least recent; there is no buffer exactly on a miss that none can be had for; what protects a buffer from eviction an access leaves alone, but that a write counts its children anew |
| `Lru.RecentAccess` | NANDFS/src/fs/cache.c:825-966 | the queue is always in the order of last use |
| `Ecc.CorrectsOne` | SIM/utils/yaffs_ecc.c:164-240 | for every block any single wrong data or check bit is corrected |
| `Ecc.DetectsTwo` | SIM/utils/yaffs_ecc.c:164-240 | any two different wrong bits among data and used check bits are reported |
| `Ecc.OnlyDataBits` | SIM/utils/yaffs_ecc.c:164-240 | only the difference that one wrong data bit makes is corrected as one |
| `Ecc.UnusedBits` | SIM/utils/yaffs_ecc.c:164-240 | the two unused check bits are outside that promise |
| `Ecc.Calculate` | SIM/utils/yaffs_ecc.c:91-159 | for all 22 check bits: each is the complement of the parity of the data bits whose byte or bit number has the binary digit that it stands for, and the two unused ones are set |
| `Ecc.CodeChecks` | SIM/utils/yaffs_ecc.c:91-159 | these are the check bytes of a block, and no others are |
| `Ecc.ErasedCode` | SIM/utils/yaffs_ecc.c:91-159 | an erased block has the check bytes of erased flash, and so has one of zeros |
| `Ecc.Correct` | SIM/utils/yaffs_ecc.c:164-240 | the decoder repairs the buffer in place |
| `Ecc.CountBits` | SIM/utils/yaffs_ecc.c:79-88 | the number of ones |
| `Ecc.SetEcc` | SIM/peripherals/nand.c:124-140 | every chunk of the page is coded |
| `Ecc.VerifyEcc` | SIM/peripherals/nand.c:88-116 | the page is accepted with its data restored when no chunk is spoilt; an erased page is accepted and stays as it is |
| `Ecc.PageSurvives` | SIM/peripherals/nand.c:88-140 | a coded page with at most one wrong bit in each chunk is accepted and its data area restored |

## Left out

- Sequencing.Sequencer.constructor: all erase units are good and the headers of reserve slots are not written; bad units are modelled on their own in `Reserve`, over a fixed set.
- Sequencing.Sequencer.FindSegmentToReclaim: counters are exact, the probabilistic counters are not modelled; random draws are arbitrary choices.
- Sequencing.Sequencer.Commit: the writer is a function of the counters for the time of a call, the bytes within a page are in `Checkpoint`; the words of the random generator, which change between the pages, are not modelled.
- Layers.CrashAtomic: leaves aside a checkpoint that fills exactly one page, which boot does not find (`Checkpoint.LostExactlyAtOnePage` says that this is the only size), and the time between the last page of a segment and the end of the next header, for which there are `Layers.WindowAtomicIff`, `Layers.PartBooted`, `Layers.BackBooted` and `Layers.AllocationAtomic`.
- Sequencing.Sequencer.Boot: the counters are loaded by a function of the pages read, of which is asked that it finds the segment counters saved; how boot rebuilds the map of segments and slots is left out, and so is what follows when it lands inside the window in which a segment is retired.
- Recovery.Recovered: the crash step restores the last checkpoint; that the flash does so is `Layers.CrashAtomic`.
- Transactions.Transaction.AllocAndWrite: the address is any that is not live, and how many pages are left is a number given at the start; the cache is not in between (the build without cache buffers).
- Transactions.CreateFile: the first page of a new directory, that of the root directory in `Format.HandleNoFs` included, and path names are not modelled; the directory block with the new entry is a parameter.
- Removal.Remove: the directory entry is not modelled.
- Interleave.RunTogether: files are told apart by their slot in inode0; commits and aborts are single steps, as the code holds one lock during a call.
- Lru.Cache.Access: parent pointers are not modelled and the number of cached children of a written block is an input; flushing all buffers of a transaction is not modelled.
- Reserve.Translate: the units of one moment; that the set of bad units grows is not modelled.
- Search.FindLastInSlot: by unit numbers, without read errors.
- The boot scan for segment headers, reserve segments and interrupted wear leveling or copy-back.
- Holes, block counts, the copy of the file size in the transaction, directory entries, path lookup, open-file bookkeeping, permissions and the lock.
- Temporary commits and the emergency reserve of pages (handleMinPages).
- Read and program errors of the driver, other than the wrong bits in `Ecc`.
- The build with 2048-byte pages: page size, entries per block and tag widths are those of the build with 512-byte pages.

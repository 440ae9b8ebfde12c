# Verified models of e2fsprogs

A Dafny model of the algorithms inside e2fsck's passes and of debugfs's journal writer and readers,
with proofs of what they keep. Devices, bitmaps, inode tables and the answers to e2fsck's questions
are plain values: a set for a bitmap, a sequence of bytes for a block, an arbitrary boolean (or a
parameter, or a function from the number of a question) for an answer. Code that works in place is modelled in place, on arrays, linked nodes and
objects, and each method is proved against a specification on values.

| file | what it models |
|---|---|
| `DirBlock.dfy` | the directory-block check and salvage of pass 2 |
| `Htree.dfy` | the consistency check of a hashed directory's index in pass 2 |
| `Extents.dfy` | rebuilding an extent tree in pass 1E |
| `EaRefcount.dfy`, `EaAccounting.dfy` | the reference-count table for extended attribute blocks, and how pass 1 settles the counts |
| `Region.dfy`, `XattrScan.dfy` | the allocator of ranges, and the scan of in-inode attributes that uses it |
| `Bits.dfy`, `BlockBitmaps.dfy`, `InodeBitmaps.dfy` | pass 5: comparing bitmaps, recounting, discarding |
| `JournalFormat.dfy`, `JournalRevoke.dfy`, `JournalWriter.dfy` | journal blocks as bytes, and writing a transaction |
| `LogWalk.dfy`, `JournalReaders.dfy`, `JournalRuns.dfy` | walking the log, the two readers, and the two sides together |
| `JournalSession.dfy` | several transactions written in one session of debugfs |
| `DirInfo.dfy`, `Pass3.dfy` | the directory table, and connecting directories |
| `DupBlocks.dfy` | multiply-claimed blocks in passes 1B and 1D |
| `Dcache.dfy` | the directory list of fsstress and its cache |
| `Widths.dfy` | bytes and word sizes |

Where the code does not do what its comments or names promise, the model follows the code and the
proofs say exactly when the promise holds:

- coalescing extents checks a 32-bit sum that has already wrapped, so a file is preserved if and only
  if its runs are shorter than 2^32 blocks (`Extents.CoalesceKeepsMeaning`, `Extents.OverflowLosesTheFile`);
- declining to rename a long first entry and then accepting the split cuts its record shorter than its
  name, and this alone spoils it (`DirBlock.CheckDot`, `DirBlock.CutOneRecord`);
- pass 3 never breaks a loop of directories: if every offer is taken up, exactly those directories stay
  cut off that lie in a loop or lead into one (`Pass3.Pass.Run`, `Pass3.LoopOrEnd`, `Pass3.TwoInALoop`);
- repairing `..` puts the former parent into it and lost+found in the place of the parent, and a directory
  can be repaired twice, so that `..` becomes lost+found: this happens to one directory at most, and only if
  lost+found is made while it is checked (`Pass3.Pass.Run`, `Pass3.RepairedTwice`, `Pass3.GivenTwice`);
- what is written to the journal is replayed as it was given if and only if each block number fits its
  tag, 64 bits wide or 32 (`JournalWriter.Transaction.AddBlocks`);
- the two journal readers part exactly where tags lead round the log twice (`LogWalk.ReadersAgree`,
  `JournalReaders.ReadersPart`);
- the search for the head ends within one read more than there are blocks, or passes a block twice and
  never ends (`JournalReaders.SearchEnds`, `JournalReaders.RevokesNeverEnd`);
- a transaction that runs past the end of a journal kept in an inode is reported as written, and its
  last blocks go over block 0 of the file system; nothing strays if and only if it fits
  (`JournalWriter.Transaction.Write`). The estimate that should refuse it is too small for every
  committed transaction with something in it (`JournalSession.GuessTooSmall`,
  `JournalSession.AdmittedButTooLong`, `JournalSession.StrayCommit`);
- the next transaction of a session is put where that estimate ends and not where the last one does, so
  transactions lie back to back if and only if each but the last is as long as was estimated, and one with
  both blocks and revokes never is (`JournalSession.Session.WriteAll`, `JournalSession.NextIsNotBehind`,
  `JournalSession.CommitLost`);
- the dump of a revoke block reads on behind the block exactly if the count says so
  (`JournalRevoke.DumpRevoke`);
- pass 1D's report on metadata sticks from one inode to the next, and is right of an inode exactly if
  it holds some or none before it did (`DupBlocks.MetaDataIsSticky`, `DupBlocks.ReportThree`).

## Model

| member | source | states |
|---|---|---|
| `DirBlock.CheckDirBlock` | e2fsck/pass2.c:1156-1530 | for every content of the block and all answers the entry loop ends, the checksum tail is never written, and a block that changed is marked so; every salvage made was accepted, and the block is abandoned only at a salvage that was declined or where the table of directories lacks an entry; otherwise the records tile the usable part exactly and all but perhaps the first are good; unless the answers cut the name of the first entry it is good too, a salvage was asked for if and only if the block did not already tile, no record of a well-formed block is lost, and every record is as was decided about it: unused if it was to be cleared, and with a name free of slashes and NULs if that was to be repaired; in a first block the first record is then `.` and the second `..` if the answers allow it; and after the first block, if all lengths can be followed and the first record is good, the records left are exactly those that were good |
| `DirBlock.SalvageDirectory` | e2fsck/pass2.c:704-782 | guard by guard, what becomes of every byte and where the loop goes on: a hole of eight bytes is covered by what follows, a record that runs over the end is cut there if its name fits, one whose length can be followed is taken over by the record before it and no other is, and otherwise the record before it takes over the rest, or an empty record does |
| `DirBlock.SalvageEffect` | e2fsck/pass2.c:704-782 | the same of the salvage as a function on values |
| `DirBlock.SiftedSalvage` | e2fsck/pass2.c:756-762 | where lengths can be followed a salvage loses no good record: the records up to where the loop goes on are exactly the good ones |
| `DirBlock.SiftedEntry` | e2fsck/pass2.c:1486-1510 | and so it stays when a good record is passed |
| `DirBlock.SalvageKeepsPrefix` | e2fsck/pass2.c:704-782 | whichever way a salvage takes, the part already passed stays a chain of good records ending where the loop goes on, and the loop is ended only by a predecessor that reaches the end of the usable part |
| `DirBlock.SalvageMakesProgress` | e2fsck/pass2.c:704-782 | every salvage moves the offset on, or leaves a good record, or lowers the distance of the last non-zero byte: the measure behind termination |
| `DirBlock.ShiftLowersRank` | e2fsck/pass2.c:733-737 | the size-8 shift, which does not move the offset, strictly lowers that measure |
| `DirBlock.SalvageStep` | e2fsck/pass2.c:1203-1224 | a salvage inside the loop does exactly what the guards say, keeps the links, the chain and the tail, makes progress, and before the first good record leads to the same cleared block |
| `DirBlock.ApplyWay` | e2fsck/pass2.c:733-781 | a salvage writes nothing before the current record except the length of its predecessor, and nothing behind the usable part |
| `DirBlock.ChooseWay` | e2fsck/pass2.c:715-781 | the way chosen always fits: the record it produces lies inside the block and is a multiple of four long |
| `DirBlock.NonZeroSpan` | e2fsck/pass2.c:733-737 | the distance from a position to just past the last non-zero byte before another |
| `DirBlock.CheckDot` | e2fsck/pass2.c:374-431 | the first record stays good if and only if the answers do not cut its name (rename declined, split accepted, record over 24 bytes, name over 4); otherwise what is left is the record or two good records sharing its space; name, inode and split are changed exactly as the answers say |
| `DirBlock.CutOneRecord` | e2fsck/pass2.c:374-431 | a block and answers for which it does: one record of 1024 bytes with a name of five, the rename declined and the split accepted |
| `DirBlock.NameDot` | e2fsck/pass2.c:384-411 | a first entry that is no proper `.` is made one exactly when the rename is accepted, and the inode is corrected exactly when that is; no length changes |
| `DirBlock.CheckDotDot` | e2fsck/pass2.c:438-479 | the second record is made a `..` entry for the root exactly when it is not one and the repair is accepted, with its length unchanged, and the check fails exactly when it is one but the directory has no record |
| `DirBlock.SplitRecord` | e2fsck/pass2.c:412-428 | the record is cut to 12 bytes and the rest becomes one empty record; nothing else changes |
| `DirBlock.WriteDots` | e2fsck/pass2.c:397-401 | the entry becomes a `.` or `..` entry for the inode, and only its inode, type and name bytes change |
| `DirBlock.CheckName` | e2fsck/pass2.c:485-504 | every slash and NUL inside the name becomes a dot and no other byte changes |
| `DirBlock.CheckContents` | e2fsck/pass2.c:1268-1426 | nothing happens to an unused record; in any other exactly the inode number is cleared, or the slashes and NULs in the name become dots, the type is set and the number cleared, as was decided |
| `DirBlock.JudgedSalvage` | e2fsck/pass2.c:704-782 | no salvage undoes what was decided about the records before it |
| `DirBlock.JudgedEntry` | e2fsck/pass2.c:1486-1510 | nor does passing a further record |
| `DirBlock.CheckEntry` | e2fsck/pass2.c:1251-1426 | checking a good record leaves its length followable and, unless a name is cut, the record or two good records sharing its space; its contents are then as was decided, the first one is `.` with the inode of the directory, and the second `..`, if the answers allow it |
| `DirBlock.CheckDots` | e2fsck/pass2.c:1250-1258 | the first entry is checked as `.` and the second as `..`, and no other; it fails only at a `..` of a directory that the table does not know |
| `DirBlock.DottedSalvage` | e2fsck/pass2.c:704-782 | no salvage spoils the `.` and `..` found or made before it |
| `DirBlock.EntryPassed` | e2fsck/pass2.c:1486-1510 | passing a rewritten record extends the chain and leaves the rest of the block well formed exactly if it was, and then no record start disappears |
| `DirBlock.PassedIsTiled` | e2fsck/pass2.c:1156-1530 | what the loop keeps even when a name was cut makes the whole block tile with good records after the first |
| `DirBlock.PatchFinalRecLen` | e2fsck/pass2.c:1524-1530 | the repair of the final length never breaks the chain, because the two bytes it writes lie inside a record its predecessor has already absorbed |
| `DirBlock.MoveUp` | e2fsck/pass2.c:734-736 | the move and the clearing of the end give the shifted block |
| `Htree.DxDir.CheckIndex` | e2fsck/pass2.c:200-273 | for an index whose only interior block is the root: no problem is reported if and only if root, limit and count are as expected, the entries refer to every leaf exactly once and never to the root, the separators do not decrease, every name hash lies between the separator of its leaf and the next one, and the depth is one |
| `Htree.DxDir.ParseEntries` | e2fsck/pass2.c:636-685 | the loop accepts the entries if and only if they stay inside the directory and the separators do not decrease, and then each block record is what the entries referring to it say, and the bounds are the first and last separator |
| `Htree.DxDir.MarkBlock` | e2fsck/pass2.c:658-684 | one entry updates the record of the block it refers to, and no other |
| `Htree.DxDir.ReadRoot` | e2fsck/pass2.c:1088-1105 | the root is accepted if and only if its header, limit, count and entries are as expected |
| `Htree.DxDir.ScanLeaf` | e2fsck/pass2.c:1428-1436 | the observed bounds are the least and greatest hash of the names of the leaf |
| `Htree.DxDir.UpdateParents` | e2fsck/pass2.c:88-119 | with the root as the only parent, flags and links are kept, unless the root is referred to no leaf record changes, and the root gets the least hash of the last block marked first and the greatest of the last one marked last |
| `Htree.DxDir.UpdateParent` | e2fsck/pass2.c:96-117 | one block passes its bounds on to the root, and to the block before that; nothing else changes |
| `Htree.DxDir.Depth` | e2fsck/pass2.c:312-323 | a leaf under the root has depth one, and a walk that meets no root gives up at the limit |
| `Htree.DxDir.Compare` | e2fsck/pass2.c:224-268 | no problem is counted if and only if every block record is fine |
| `Htree.AfterFlags` | e2fsck/pass2.c:658-664 | a block is marked referenced if some entry refers to it and doubly so if two do |
| `Htree.AfterOnce` | e2fsck/pass2.c:673-684 | a block referred to once carries the separators of the entry that does so, and is first exactly if that is entry 0 |
| `Htree.OnlyRef` | e2fsck/pass2.c:659-664 | a block counted once is referred to by one entry alone |
| `Htree.EachLeafOnce` | e2fsck/pass2.c:659-664 | so in an index that can be relied upon every leaf has exactly one entry |
| `Htree.Separator` | e2fsck/pass2.c:641 | zero for the first entry, and for any other its hash without the lowest bit |
| `Htree.Upper` | e2fsck/pass2.c:675-681 | the separator of the next entry, or the greatest even number of 32 bits |
| `Htree.Target` | e2fsck/pass2.c:646 | the low 28 bits of the block number |
| `Htree.SpanWithin` | e2fsck/pass2.c:230-256 | the observed bounds pass the two hash tests exactly when every hash of the leaf does |
| `Htree.FineFits` | e2fsck/pass2.c:230-266 | the record of a leaf with one reference is fine exactly when its names fit and the depth is one |
| `Htree.FineMeansGood` | e2fsck/pass2.c:224-268 | if all records are fine the index can be relied upon |
| `Htree.GoodMeansFine` | e2fsck/pass2.c:224-268 | if the index can be relied upon every record is fine |
| `Extents.RebuildKeepsMeaning` | e2fsck/extents.c:71-303 | the extents written expand to exactly the blocks of the leaf extents read if and only if no run of adjoining extents is 2^32 blocks or longer |
| `Extents.CoalesceKeepsMeaning` | e2fsck/extents.c:100-118 | coalescing preserves the expansion to (logical, physical, uninit) blocks if and only if the ideal runs fit 32 bits: the length check compares a sum that has already wrapped |
| `Extents.OverflowLosesTheFile` | e2fsck/extents.c:106-113 | an input that fails, for every place on the disk: 2^32 contiguous blocks in full-size extents that pass 1 accepts are coalesced to an extent of length zero, and the file is lost |
| `Extents.FullSizeRunAccepted` | e2fsck/pass1.c:2807-2838 | each of these extents starts at a data block, is not empty, ends inside the file system, and begins where the one before it ended |
| `Extents.OverlongRunsLoseBlocks` | e2fsck/extents.c:106-113 | whenever a run does not fit, the coalesced list covers fewer blocks than were read |
| `Extents.PieceCount` | e2fsck/extents.c:268-288 | an extent is written as exactly ceil(len/max) pieces, none over the limit for its kind |
| `Extents.PiecesKeepMeaning` | e2fsck/extents.c:268-303 | the pieces of an extent expand to the blocks of the extent |
| `Extents.EmitKeepsMeaning` | e2fsck/extents.c:268-303 | the whole list written expands to the blocks of the list |
| `Extents.RebuildIsIdempotent` | e2fsck/extents.c:71-303 | coalescing what was written gives back the coalesced list, for every list of extents with 32-bit lengths |
| `Extents.ExtentList.LoadExtents` | e2fsck/extents.c:71-149 | the list left maps exactly the blocks that the leaves visited map, in order, if and only if no run of adjoining leaves is 2^32 blocks or longer; it is counted, and every interior block is freed once |
| `Extents.ExtentList.FindBlocks` | e2fsck/extents.c:151-207 | the list left maps logical block to disk block exactly as the block map does, in order, if and only if its runs are shorter than 2^32 blocks, as they are in every map of fewer; every indirect block is freed once, in order |
| `Extents.MappedByMeans` | e2fsck/extents.c:151-207 | what a block map maps: a logical block to a disk block if and only if it has such an entry, one block for each entry that is no indirect block |
| `Extents.VisitedByMeans` | e2fsck/extents.c:71-149 | what the extents visited map: the blocks of the leaves and no others |
| `Extents.DataBlocksMean` | e2fsck/extents.c:190-203 | the one-block extents of a block map map what it maps |
| `Extents.LeavesMean` | e2fsck/extents.c:84-137 | the leaf extents map what the visits map |
| `Extents.FewBlocksFit` | e2fsck/extents.c:106-113 | with fewer than 2^32 blocks no run is too long |
| `Extents.ExtentList.RebuildFromMap` | e2fsck/extents.c:209-360 | from a block map to the extents written: they map exactly what the map does, if and only if its runs are shorter than 2^32 blocks |
| `Extents.ExtentList.RebuildFromTree` | e2fsck/extents.c:209-360 | from an extent tree to the extents written: they map exactly what its leaves do, under the same condition |
| `Extents.ExtentList.WriteExtents` | e2fsck/extents.c:268-303 | the loop that steps its index back ends; what it has written maps the same blocks as the list, in order, and no extent written is over 32768 blocks, or 32767 if uninitialised |
| `Extents.ExtentList.AttachOrAdd` | e2fsck/extents.c:100-137 | an extent is merged into the last one exactly when it adjoins it in both numberings and kind, and added otherwise |
| `EaRefcount.Refcount.constructor` | e2fsck/ea_refcount.c:50-83 | a new table is the empty map |
| `EaRefcount.Refcount.Collapse` | e2fsck/ea_refcount.c:89-107 | compaction removes exactly the zero entries and preserves the map |
| `EaRefcount.Refcount.InsertEl` | e2fsck/ea_refcount.c:114-148 | an entry is inserted at its place, the list stays strictly sorted and the map is unchanged |
| `EaRefcount.Refcount.GetEl` | e2fsck/ea_refcount.c:156-208 | the entry is found through cursor or bisection exactly when the key is there, created on demand with at most one retry, and the map never changes; the array grows, by 100 entries, only if it is full of entries that are not zero |
| `EaRefcount.Refcount.Search` | e2fsck/ea_refcount.c:178-207 | the search finds the key or the place where it belongs |
| `EaRefcount.Refcount.Fetch` | e2fsck/ea_refcount.c:210-222 | the count of a key, zero if absent, and the map unchanged |
| `EaRefcount.Refcount.Increment` | e2fsck/ea_refcount.c:224-237 | the count of the key goes up by one modulo 2^64 and no other count changes |
| `EaRefcount.Refcount.Decrement` | e2fsck/ea_refcount.c:239-253 | fails if and only if the count is zero, and otherwise takes one off |
| `EaRefcount.Refcount.Store` | e2fsck/ea_refcount.c:255-268 | the map with the key set; storing zero removes it |
| `EaRefcount.Refcount.IntrBegin` | e2fsck/ea_refcount.c:278-281 | everything non-zero is ahead |
| `EaRefcount.Refcount.IntrNext` | e2fsck/ea_refcount.c:283-299 | the next non-zero entry, or the end, and the rest stays ahead |
| `EaRefcount.IterationIsExact` | e2fsck/ea_refcount.c:278-299 | an iteration meets strictly ascending keys, each with the count the map has |
| `EaRefcount.IterationMeets` | e2fsck/ea_refcount.c:278-299 | and meets every key of the map |
| `EaRefcount.CountsInserted` | e2fsck/ea_refcount.c:114-148 | inserting a zero entry does not change what the list means |
| `EaRefcount.NonZeroCounts` | e2fsck/ea_refcount.c:89-107 | nor does dropping the zero entries |
| `EaAccounting.Pass1.Run` | e2fsck/pass1.c:1976-1986 | conservation: for every stored count and any interleaving of references, after both corrections the count of every accepted block equals the number of accepted references modulo 2^32, no block is left in both tables, and every other count is untouched |
| `EaAccounting.Pass1.CheckExtAttr` | e2fsck/pass1.c:2421-2613 | a reference is accepted exactly when its block is in the file system and is known or valid, keeps that block in balance, and leaves the books of all other blocks alone |
| `EaAccounting.Pass1.ScanInodes` | e2fsck/pass1.c:2355-2613 | after any sequence of references the books of every block are in order |
| `EaAccounting.Pass1.AdjustExtAttr` | e2fsck/pass1.c:2311-2350 | one walk corrects exactly the headers whose count the table holds, by that count |
| `EaAccounting.WalkTable` | e2fsck/pass1.c:2324-2349 | the walk applies the correction to every non-zero entry once |
| `EaAccounting.Balance` | e2fsck/pass1.c:2437-2452 | promised references less those still owed plus the surplus is the number accepted, modulo 2^32 |
| `EaAccounting.BalanceStep` | e2fsck/pass1.c:2437-2451 | one more reference takes one off what is owed or adds one to the surplus, never both |
| `EaAccounting.CorrectAllMeans` | e2fsck/pass1.c:2324-2349 | correcting by a table is, for every block, adding or subtracting its count |
| `Region.RegionList.constructor` | e2fsck/region.c:36-48 | a new region covers nothing |
| `Region.RegionList.Allocate` | e2fsck/region.c:62-137 | succeeds if and only if the range is non-empty, in bounds and free; then exactly that range is added, and otherwise nothing changes; the list stays sorted with strict gaps and `last` is its tail |
| `Region.RegionList.PlaceRange` | e2fsck/region.c:85-136 | a range in bounds is taken if and only if it is free |
| `Region.RegionList.Locate` | e2fsck/region.c:92-119 | the search ends at the one node or gap where the range conflicts, adjoins or belongs |
| `Region.RegionList.GrowUp` | e2fsck/region.c:73-77 | a node grown at its end covers exactly the added addresses |
| `Region.RegionList.GrowDown` | e2fsck/region.c:97-100 | a node grown at its start covers exactly the added addresses |
| `Region.RegionList.FillGap` | e2fsck/region.c:101-113 | a range that fills a gap joins the two nodes, and exactly the gap is added |
| `Region.RegionList.Insert` | e2fsck/region.c:123-136 | a new node covers exactly its range |
| `Region.GapFilled` | e2fsck/region.c:105-112 | joining two neighbours adds exactly the gap between them |
| `Region.NewRange` | e2fsck/region.c:123-136 | a node put between its neighbours adds exactly its range and keeps the gaps |
| `Region.FitsMeansFree` | e2fsck/region.c:93-119 | where the range was found to fit, no address of it was taken; where it conflicts, one was |
| `XattrScan.CheckEaInInode` | e2fsck/pass1.c:449-534 | no problem is found if and only if header, entries, inline values and terminator occupy pairwise disjoint ranges inside the storage and every entry is sound; a collision is reported only if they do not; and then no byte of an inline value belongs to an entry or to another value, and all entries together fit in the storage |
| `XattrScan.AllApart` | e2fsck/pass1.c:461-526 | in a well-placed layout no byte of an entry or of its inline value belongs to anything else |
| `XattrScan.SoundMeans` | e2fsck/pass1.c:461-526 | the list is sound if and only if every entry is good and the entries, their padded names and inline values together fit in the room there is |
| `XattrScan.Padded` | e2fsck/pass1.c:466-469 | the next multiple of four |
| `XattrScan.ScanEntries` | e2fsck/pass1.c:461-531 | the loop accepts exactly the entry lists that are well placed and sound |
| `XattrScan.ScanEntry` | e2fsck/pass1.c:465-526 | one entry and its value are claimed, or the reason it is refused is true |
| `XattrScan.Claim` | e2fsck/pass1.c:456-459 | a range is claimed if and only if it keeps the ranges disjoint and inside |
| `XattrScan.PlacedParts` | e2fsck/pass1.c:461-526 | ranges that are well placed together are well placed part by part |
| `BlockBitmaps.Pass5.CheckBlockBitmaps` | e2fsck/pass5.c:366-554 | no block in use is ever discarded, nothing is if the file system was changed, and while discarding stays on every free block is; it stays on if the bitmap was right, the file system unchanged and the device carried out every discard, and goes off once it refused one; the bitmap is replaced exactly when it was wrong and the repair is accepted, with at most one recount; stored group counts are the clear bits of the bitmap that stays, and the total is their sum |
| `BlockBitmaps.Pass5.Scan` | e2fsck/pass5.c:366-500 | whether a group is compared at once or block by block, the counts are the clear bits of each group and of the whole, and a problem is noted if and only if the maps differ |
| `BlockBitmaps.Pass5.ScanBlock` | e2fsck/pass5.c:412-487 | one block: the open run of free blocks is kept, and discarded at its end while both maps have agreed so far; the first mismatch switches discarding off |
| `BlockBitmaps.Pass5.DiscardBlocks` | e2fsck/pass5.c:192-209 | a run is passed on exactly while discarding is on and the file system unchanged, and a refusal switches discarding off |
| `BlockBitmaps.Pass5.TakeGroup` | e2fsck/pass5.c:390-411 | a group in which the bitmaps agree is counted as a whole |
| `BlockBitmaps.Pass5.WholeGroup` | e2fsck/pass5.c:390-411 | a group found equal at once has the counts the block-by-block loop would give |
| `BlockBitmaps.Pass5.TotalIsSum` | e2fsck/pass5.c:466-494 | the clear bits of the whole are the sum over the groups |
| `BlockBitmaps.Pass5.Reconcile` | e2fsck/pass5.c:503-528 | there is at most one second round |
| `BlockBitmaps.Pass5.StoreCounts` | e2fsck/pass5.c:530-554 | exactly the accepted corrections are stored |
| `InodeBitmaps.Pass5.CheckInodeBitmaps` | e2fsck/pass5.c:561-834 | no inode-table block that holds an inode in use is ever discarded, nothing is if the file system was changed, and while discarding stays on every one that holds none is; a refusal of the device switches it off; the bitmap is replaced and the counting repeated exactly when the bits read of it differ from the inodes in use and the repair is accepted; the counts of free inodes and directories stored are those of the bits read, or of the inodes in use after the replacement, and the total is the sum; unless a differing bitmap is kept it agrees with the inodes in use wherever it counts; and the mark of a group is gone if and only if some inode of it is in use and clearing the mark at it was accepted |
| `InodeBitmaps.Pass5.Scan` | e2fsck/pass5.c:617-764 | the counts of free inodes and directories per group and in all are those of the bits seen, these are the bits of the bitmap except where a group is still taken to be empty, and a problem is noted if and only if they differ from the inodes in use; the marks are cleared exactly where that was called for and accepted |
| `InodeBitmaps.Pass5.Reconcile` | e2fsck/pass5.c:617-796 | there is at most one second round, made exactly when the bits read were wrong and the repair is accepted, and the counts are those of what the last round saw |
| `InodeBitmaps.Pass5.ReadIsReadBits` | e2fsck/pass5.c:623-664 | the bits seen in the first round are those of the bitmap in groups not marked empty, and in a marked group those after the first inode in use at which clearing the mark was accepted |
| `InodeBitmaps.Pass5.ReadIsFaithful` | e2fsck/pass5.c:659-666 | if the bits read are the inodes in use, so is the bitmap in every group whose bitmap counts |
| `InodeBitmaps.Pass5.DiscardInodes` | e2fsck/pass5.c:217-265 | rounding a run of unused inodes to whole blocks of the table takes in exactly the blocks that lie inside the run |
| `InodeBitmaps.Pass5.DiscardBlocks` | e2fsck/pass5.c:192-209 | a run is passed on exactly while discarding is on and the file system unchanged, and a refusal switches discarding off |
| `InodeBitmaps.RoundedInside` | e2fsck/pass5.c:255-264 | every inode of the blocks discarded lies inside the run given |
| `InodeBitmaps.RoundedWhole` | e2fsck/pass5.c:255-264 | every block that lies inside the run given is among those discarded |
| `InodeBitmaps.WholeBlocks` | e2fsck/pass5.c:255-260 | what is left of the run after rounding up is never a block or more below zero, so the truncated quotient is not negative |
| `InodeBitmaps.Pass5.Compare` | e2fsck/pass5.c:652-704 | one inode: what is seen of it, whether it differs, that the mark of its group is cleared exactly if the group is still taken to be empty, the inode is in use and the repair is accepted, and that a difference switches discarding off |
| `InodeBitmaps.Pass5.MarksAtEnd` | e2fsck/pass5.c:659-681 | what is known of each mark when its group is left adds up to the same for all groups |
| `InodeBitmaps.Pass5.Account` | e2fsck/pass5.c:706-745 | the open run of unused inodes is kept and discarded at its end, so that no unused block of the table is missed and none in use is taken |
| `InodeBitmaps.Pass5.TotalIsSum` | e2fsck/pass5.c:716-746 | the unused inodes of the whole are the sum over the groups |
| `InodeBitmaps.Pass5.StoreCounts` | e2fsck/pass5.c:797-829 | exactly the accepted corrections are stored |
| `JournalRuns.WrittenHeadIsFound` | debugfs/do_journal.c:647-761 | for every sequence of committed transactions back to back, any uncommitted part after them, and a foreign block then: the walk stops with the head just past the last commit block and the sequence one past its transaction |
| `JournalRuns.FindWrittenHead` | debugfs/do_journal.c:647-761 | the search itself, on the bytes of such a journal, returns that head and that sequence |
| `JournalRuns.WrittenEndsInTime` | debugfs/do_journal.c:647-761 | within one read more than there are blocks |
| `JournalSession.Session.Write` | debugfs/do_journal.c:411-535 | a request is written if and only if its estimate is admitted, its numbers are the file system's and its blocks can be mapped; what was there before its start stays; a committed request inside the log lies at its start as asked, and one that runs past the end leaves its commit block on block 0; the next start and number are set from the estimate |
| `JournalSession.Session.WriteAll` | debugfs/do_journal.c:436-535 | over any run of committed requests with something in them: nothing strays if and only if each ends inside the log, and then the transactions lie back to back if and only if each but the last is as long as was estimated |
| `JournalSession.GuessTooSmall` | debugfs/do_journal.c:411-434 | in every format the estimate leaves out a block for the descriptors and one for the revokes, whichever there are, so it is too small for every committed request with something in it |
| `JournalSession.AdmittedButTooLong` | debugfs/do_journal.c:436-462 | exactly the starts at which a request is admitted although it does not fit, and for a committed request with something in it there are such starts |
| `JournalSession.NextIsNotBehind` | debugfs/do_journal.c:464-493 | what follows such a request begins at its end or inside it, and inside it whenever it has both blocks and revokes |
| `JournalSession.EmptyLeavesGap` | debugfs/do_journal.c:464-493 | after a committed request with nothing in it one block is left out before the next |
| `JournalSession.TagsInDescriptors` | debugfs/do_journal.c:304-386 | the bytes of the tags against the descriptors the writer uses for them |
| `JournalSession.NumbersInBlocks` | debugfs/do_journal.c:203-253 | the bytes of the revoked numbers against the blocks the writer uses for them |
| `JournalSession.RunIsTight` | debugfs/do_journal.c:436-493 | if transactions begun where the estimates put them lie back to back, every estimate but the last was exact |
| `JournalSession.NoOtherControl` | debugfs/do_journal.c:263-409 | no block of a committed transaction can be taken for a control block of another |
| `JournalSession.StrayCommit` | debugfs/do_journal.c:436-535 | an input: one block to be committed two blocks before the end is reported as written, and its commit block goes over block 0 of the file system |
| `JournalSession.CommitLost` | debugfs/do_journal.c:464-493 | if the estimate leaves out the commit block only, a further transaction begins on it, and the search for the head finds neither of the two |
| `JournalSession.OneBlock` | debugfs/do_journal.c:411-434 | one block with one revoke is such a request, and one block alone is the one that strays |
| `JournalRuns.WrittenIsReported` | debugfs/logdump.c:499-556 | a written descriptor is reported as exactly the items logged, each with the log block holding its escaped contents, and under its own number if and only if that fits 32 bits |
| `JournalRuns.RunSeen` | debugfs/do_journal.c:708-749 | what was written is what the walk sees: descriptors with their tag counts, revoke blocks and commits |
| `JournalRuns.DataIsNoControl` | debugfs/do_journal.c:361-364 | an escaped data block is never taken for a control block |
| `JournalWriter.Transaction.AddBlocks` | debugfs/do_journal.c:263-409 | succeeds if and only if the transaction is open, all blocks belong to the file system and all log blocks can be mapped; then descriptors whose tags are those of the items, in order, are followed by the escaped items, by their numbers in the log; as many blocks go over block 0 as lie past its end, and nothing else in the log changes; and a replay, which reads both halves of each number and puts the magic word back where the tag says so, gives exactly the items if and only if each number fits its tag |
| `JournalWriter.DescReplayed` | debugfs/do_journal.c:321-409 | one descriptor with the blocks after it is replayed as its items, in every tag format |
| `JournalWriter.DescsReplayed` | debugfs/do_journal.c:321-409 | and so is any number of them |
| `JournalWriter.RestoredEscaped` | debugfs/do_journal.c:361-364 | putting the magic word back undoes the escape |
| `JournalWriter.NumberRead` | debugfs/do_journal.c:364-366 | the number read from a tag is the number given if and only if it fits: 64 bits in a journal with wide tags, 32 in another |
| `JournalWriter.Transaction.AddRevoke` | debugfs/do_journal.c:160-261 | succeeds under the same kind of condition; then a reader of the blocks takes exactly the numbers given to be revoked, in order, and as many blocks go over block 0 as lie past the end |
| `JournalWriter.Transaction.Commit` | debugfs/do_journal.c:67-158 | an open transaction whose next block can be mapped gets a commit block, in the log or, past its end, over block 0, and is closed; otherwise nothing changes |
| `JournalWriter.Transaction.WriteAt` | debugfs/journal.c:102-123 | a block past the end of a journal in an inode goes over block 0 of the file system, and this is no failure |
| `JournalWriter.Transaction.Write` | debugfs/do_journal.c:516-528 | a whole request is written if and only if its numbers are the file system's and its blocks can be mapped; nothing strays, and the log then holds it, if and only if the log is long enough; if it is not and the request was committed, block 0 is left with the commit block |
| `JournalWriter.FitsMeansInside` | debugfs/do_journal.c:516-528 | whether the log is long enough for a request is a matter of the blocks it takes |
| `JournalWriter.FilledTags` | debugfs/do_journal.c:321-386 | a descriptor filled tag by tag is read back as exactly those tags, both halves of the number and the escape mark, whether it ends full or with the last-tag mark |
| `JournalWriter.WithTag` | debugfs/do_journal.c:348-368 | a tag holds both halves of the number, the flags and the checksum where the format has them, and nothing outside it changes |
| `JournalWriter.OneMoreTag` | debugfs/do_journal.c:348-368 | a further tag disturbs none before it, in every tag format |
| `JournalWriter.WithUuid` | debugfs/do_journal.c:353-358 | the copy of the uuid, placed in units of whole tags, leaves the first tag intact |
| `JournalRevoke.DumpRevoke` | debugfs/logdump.c:559-599 | every number of a revoke block is reported, in order, for any count; the loop goes on to read behind the block if and only if the count, as a signed number, is beyond the last entry that lies in the block whole |
| `JournalRevoke.CountedIsRevoke` | debugfs/do_journal.c:203-252 | a revoke block written with its count is read back as the numbers put in |
| `JournalRevoke.KeptInFull` | debugfs/do_journal.c:231-237 | the numbers read back are the numbers given if and only if each fits an entry |
| `JournalFormat.CountTags` | debugfs/do_journal.c:620-645 | the loop counts the tags that a reader would take |
| `JournalFormat.LowHalves` | debugfs/do_journal.c:620-645 | a reader of whole tags and a reader of their low halves take the same tags |
| `JournalFormat.BePut` | debugfs/do_journal.c:305-308 | a number stored big end first is read back |
| `JournalReaders.FindTurn` | debugfs/do_journal.c:690-749 | one turn of the loop, on bytes, is one step of the walk; a read past the end of a journal in an inode gives block 0 of the file system |
| `JournalReaders.FindHead` | debugfs/do_journal.c:647-761 | if the walk ends at all, the loop ends with its result |
| `JournalReaders.SearchEnds` | debugfs/do_journal.c:686-750 | for every journal and starting point: the walk ends at some time if and only if it has ended after one read more than there are blocks, and it never ends if and only if some block is passed twice; numbers past the end count as blocks just if block 0 of the file system bears the journal's magic |
| `JournalReaders.RevokesNeverEnd` | debugfs/do_journal.c:686-750 | a journal, in bytes, on which it never ends: a log of any length that holds nothing but revoke blocks of the expected transaction |
| `JournalReaders.DumpDescriptor` | debugfs/logdump.c:499-556 | every tag is reported with the log block it describes, and the walk goes on one block past the last of them |
| `JournalReaders.BigLogsAreRoomy` | debugfs/logdump.c:499-556 | in a log with a block for every eight bytes of a block after its header no content can make the two readers disagree; so it is for every full journal of 1024 blocks or more that logdump has room to read |
| `JournalReaders.ReadersPart` | debugfs/do_journal.c:730-734 | a journal, in bytes, on which the two readers go on to different blocks: 1024 blocks of 1024 bytes of which ten are in use, each a descriptor filled with tags that share a uuid |
| `JournalReaders.ManyTags` | debugfs/do_journal.c:620-645 | such a descriptor has a tag for every eight bytes |
| `LogWalk.ReadersAgree` | debugfs/do_journal.c:730-734 | for every block content the reader that wraps once and the reader that wraps at each step go on to the same block if and only if the tags do not lead round the log twice |
| `LogWalk.WalksAgree` | debugfs/logdump.c:418-477 | in a roomy log the two readers agree on the whole walk, whatever they see |
| `LogWalk.FindsTheHead` | debugfs/do_journal.c:647-761 | the theorem about the head, for any way of laying the transactions round the log, wrapping included |
| `LogWalk.FindCanRunForever` | debugfs/do_journal.c:690-750 | in a log of revoke blocks of the expected transaction the walk never ends |
| `LogWalk.EndsInTime` | debugfs/do_journal.c:690-750 | where a block can be of one transaction only, a walk that has not ended after one read more than there are blocks of a journal never does, and a walk never ends if and only if it passes a block twice |
| `LogWalk.TooLongGoesRound` | debugfs/do_journal.c:690-750 | a walk longer than the log has passed some block twice |
| `LogWalk.RunsForever` | debugfs/do_journal.c:690-750 | a walk that passes a block twice runs on for any number of reads |
| `LogWalk.OneWrap` | debugfs/do_journal.c:610-614 | wrapping once agrees with going round step by step if and only if the step is less than two laps |
| `LogWalk.TidArithmetic` | debugfs/do_journal.c:736-739 | transaction numbers count modulo 2^32 |
| `DirInfo.DirInfoDb.Add` | e2fsck/dirinfo.c:130-198 | in whatever order directories are added, the array stays strictly sorted and the map gets the entry |
| `DirInfo.DirInfoDb.Get` | e2fsck/dirinfo.c:204-285 | binary search and the remembered entry find an inode if and only if it is in the map |
| `DirInfo.DirInfoDb.GetLinks` | e2fsck/dirinfo.c:461-487 | parent and dotdot as the map has them, failing exactly when the inode is not in it |
| `DirInfo.DirInfoDb.SetParent` | e2fsck/dirinfo.c:427-438 | the parent of a known directory is set and nothing else changes |
| `DirInfo.DirInfoDb.SetDotdot` | e2fsck/dirinfo.c:444-455 | the dotdot of a known directory is set and nothing else changes |
| `DirInfo.DirInfoDb.Iterate` | e2fsck/dirinfo.c:380-421 | the entry at the index, which moves on, until the end |
| `DirInfo.DirInfoDb.Locate` | e2fsck/dirinfo.c:183-188 | the loop from the end finds the first entry not below the inode |
| `DirInfo.DirInfoDb.ShiftUp` | e2fsck/dirinfo.c:189-191 | the entries from the place on move up by one |
| `DirInfo.DirInfoDb.Grow` | e2fsck/dirinfo.c:143-160 | room for one more entry, with the same contents; a full array gets ten more entries, and the remembered one is forgotten |
| `DirInfo.AddedMeans` | e2fsck/dirinfo.c:183-197 | adding an entry to the sorted array is setting it in the map |
| `DirInfo.IterationIsComplete` | e2fsck/dirinfo.c:411-420 | however insertions are mixed into an iteration, once it ends every directory present at its start has been given out, and no more entries than the table holds |
| `DirInfo.AddMissesNone` | e2fsck/dirinfo.c:183-197 | an insertion moves directories away from the iterator, never behind it |
| `Pass3.Pass.Run` | e2fsck/pass3.c:92-117 | over a whole pass every directory it began with is offered a place in lost+found exactly once if pass 2 left it without a parent and never otherwise, and the chasing loop makes no more turns than there are directories, and one per call; reconnected are exactly those offered for which the answer was yes and the linking succeeded, if there is a lost+found, and the table then has it as their parent and dotdot; asked about `..` are only directories whose dotdot and parent differed and that were not reconnected, all of them if the parents are in the table, and repaired are those for which the answer was yes; what is recorded as lost+found in the end is the one found when it was first needed, or else at the end; every other directory keeps its links, and one repaired once has its former parent as dotdot; no directory is repaired twice but for one at most, if lost+found was made; in the tree the pass leaves, which is the one in the table if none was repaired twice, no member of a set closed under parents was reconnected or is connected to the root, and any directory is connected if and only if following parents leads to the root or to a directory that was reconnected; if every offer was taken up, and the directory map has all directories without a parent, these are exactly the ones reconnected |
| `Pass3.Pass.CheckAll` | e2fsck/pass3.c:92-108 | the loop over the table: the books are in order, every directory of the start has been dealt with and, if it was odd, asked about; repairs are in ascending order, but for one repetition if lost+found was made |
| `Pass3.TableAfter` | e2fsck/pass3.c:729-769 | what the books say of the table: lost+found as both links of those reconnected, the former parent as dotdot of those repaired once, and the old links of all others |
| `Pass3.StandingIsHung` | e2fsck/pass3.c:729-769 | the directory above each, as the table has it, is lost+found for those reconnected and what it was for all others |
| `Pass3.RepairedOnce` | e2fsck/pass3.c:729-769 | a repair puts the former parent into dotdot and lost+found in the place of the parent |
| `Pass3.RepairedTwice` | e2fsck/pass3.c:729-769 | a second repair puts what was lost+found at the first into dotdot |
| `Pass3.ShiftedByOne` | e2fsck/dirinfo.c:183-197 | one insertion moves the entries ahead of the iterator by one place at most |
| `Pass3.GivenTwice` | e2fsck/dirinfo.c:411-420 | a table on which a directory comes up twice: lost+found is made in a smaller inode while it is checked |
| `Pass3.OddNow` | e2fsck/pass3.c:362-372 | the links of a directory differ in the table only if they did at the start, and still do unless it was reconnected or asked about |
| `Pass3.Pass.Chase` | e2fsck/pass3.c:290-355 | the chase ends, each turn but the last marks a directory not marked before, and switching loop detection on ends it at once; marked are exactly the directories on the way up to one that is done, unknown or without a parent, 2050 of them at most, and it fails exactly at an unknown one |
| `Pass3.Pass.CheckDirectory` | e2fsck/pass3.c:283-372 | after the call the directory is dealt with, and the table has changed only for directories that are; if its links differed it was reconnected or asked about |
| `Pass3.Pass.Offer` | e2fsck/pass3.c:314-328 | an orphan is offered, and becomes reconnected, with lost+found as both its links in the table, exactly if the answer is yes, there is a lost+found and the linking succeeds |
| `Pass3.Pass.Rehome` | e2fsck/pass3.c:319-325 | the accepted half of that |
| `Pass3.Pass.FixDotdot` | e2fsck/pass3.c:729-769 | the `..` recorded is the one asked for and the parent recorded becomes lost+found whatever was asked; no other entry changes |
| `Pass3.Pass.Reconnect` | e2fsck/pass3.c:592-638 | the directory is named in lost+found unless there is none or the linking fails, and once there is none it stays so; no known directory changes |
| `Pass3.Pass.GetLostAndFound` | e2fsck/pass3.c:378-587 | lost+found is the directory that the root names if it can be used, or else a new one if one may be made, there is room and an inode for it; it is created at most once, and where there is no room for it the root is recorded and none is returned |
| `Pass3.LinkedMeansLeads` | e2fsck/pass3.c:20-29 | with some orphans hung in a lost+found below the root, a directory is connected if and only if following parents leads to the root or to one of them |
| `Pass3.LoopOrEnd` | e2fsck/pass3.c:20-29 | following parents comes to no end if and only if the directory belongs to a set closed under parents |
| `Pass3.LoopsStay` | e2fsck/pass3.c:20-29 | whatever orphans are reconnected, directories whose parents are all among themselves stay cut off, contrary to what the comment says |
| `Pass3.TwoInALoop` | e2fsck/pass3.c:20-29 | a pass over a table with two directories that are each other's parents: neither is offered, and both are cut off afterwards |
| `DupBlocks.Dupes.AddDupe` | e2fsck/pass1b.c:120-169 | both tables gain the record and their counts stay exact |
| `DupBlocks.ToCluster` | e2fsck/pass1b.c:390-391 | the cluster that the block lies in |
| `DupBlocks.Inverse` | e2fsck/pass1b.c:120-169 | the tables are inverse multirelations: an inode is listed for a cluster as often as the cluster for the inode |
| `DupBlocks.Dupes.ScanFile` | e2fsck/pass1b.c:374-427 | exactly the duplicated clusters of the inode are recorded, with one record for each duplicated block that is metadata or not in the cluster of the block before it, in order; and the duplicated blocks are counted |
| `DupBlocks.Dupes.ScanFiles` | e2fsck/pass1b.c:288-372 | after all inodes exactly the duplicated clusters claimed are on record |
| `DupBlocks.Dupes.FindShared` | e2fsck/pass1b.c:536-565 | `shared` gets exactly the other inodes that hold a duplicated cluster of this one, each once, and stays below its room of one entry per inode on record |
| `DupBlocks.Dupes.Merge` | e2fsck/pass1b.c:555-564 | inodes are merged into the list without repetition |
| `DupBlocks.Dupes.Report` | e2fsck/pass1b.c:522-579 | every inode wanted is reported with exactly the inodes it shares with; metadata is reported if this inode or one before it holds some |
| `DupBlocks.MetaDataIsSticky` | e2fsck/pass1b.c:505-547 | what is reported of metadata is true of the inode itself if and only if it holds some or none before it did: the flag is never reset |
| `DupBlocks.ReportThree` | e2fsck/pass1b.c:505-547 | three records and two inodes asked for: metadata is reported of the second, which holds none |
| `DupBlocks.ShareIsCommonClaim` | e2fsck/pass1b.c:530-565 | to share is to claim a duplicated cluster in common |
| `Bits.DistinctFits` | e2fsck/pass1b.c:519-521 | a list without repetition of inodes on record is no longer than their number |
| `Dcache.DirList.Find` | contrib/fsstress.c:759-775 | through the cache or by a scan the slot holds the id if any does, and with distinct ids it is the slot a plain scan finds |
| `Dcache.Run` | contrib/fsstress.c:584-775 | over any run of makings, removals and lookups from an empty list, every cached lookup answers what a plain scan would |
| `Dcache.AlwaysFresh` | contrib/fsstress.c:860-885 | ids drawn in sequence keep the list free of repetitions, whatever is made and removed |
| `Dcache.DirList.Delete` | contrib/fsstress.c:744-757 | the last entry takes the place of the one removed, and no cell is left with a stale slot |
| `Dcache.DirList.Purge` | contrib/fsstress.c:735-742 | no cell holds a slot with this id any more |
| `Dcache.DirList.Add` | contrib/fsstress.c:584-597 | a directory is appended and every cell stays right |
| `Dcache.DirList.Lookup` | contrib/fsstress.c:724-733 | a slot given is one that holds the id |
| `Dcache.RemovedMeans` | contrib/fsstress.c:751-756 | a removal loses nothing else |
| `Dcache.RemovedDistinct` | contrib/fsstress.c:751-756 | distinct ids stay distinct |

## Left out

- Device and file I/O, buffer heads, messages, signals, progress, allocation failure, debugfs's command line.
- The ext2fs library: bitmaps are sets, inserting an extent after the current one is appending, reading and writing inodes and blocks is access to a map or sequence.
- Inline-data directories, blocks of 64K, big-endian byte swapping and the contents of checksums; where a checksum is stored is modelled, and its value is arbitrary.
- DirBlock.CheckContents: which records are to have their inode cleared, their name repaired or their type set depends on inode tables and bitmaps that are not part of this model; it is a parameter, one decision for each offset.
- DirBlock.CheckDirBlock: when the answers do cut the name of the first entry, whether that record ends up good is left open, because a later salvage may or may not give it its room back; so is whether a salvage is asked for.
- Htree indexes with interior blocks below the root, and runs that go on after the offer to clear a bad index was declined.
- Extents.ExtentList.LoadExtents: block numbers are at most 48 bits wide, so the 64-bit sums in it do not wrap; only the 32-bit sum of lengths is modelled as wrapping.
- EaAccounting.Pass1.Run: the second table is there from the start instead of at the first surplus reference; quota counts and the references of values kept in inodes of their own are not part of this model.
- XattrScan.CheckEaInInode: whether an entry's hash or its value inode is right is given by the set `good`; what is done to the inode after a problem is not part of this model.
- Region.RegionList.Allocate: lengths are not negative and the end of a range does not wrap around.
- BlockBitmaps.Pass5.CheckBlockBitmaps: cluster ratio one; clearing the flags of uninitialised groups is not part of this model.
- InodeBitmaps.Pass5.DiscardInodes: runs are recorded relative to the inode table of their group, whose place on disk is not part of this model.
- JournalReaders.FindHead: has no result where the loop never ends; `JournalReaders.SearchEnds` says exactly where that is.
- LogWalk.WalksAgree: logdump keeps no head; its walk carries one here only so that the two can be compared.
- JournalRevoke.DumpRevoke: what lies in memory behind the block is not part of this model; the loop stops where it would be read.
- JournalWriter.Transaction.AddBlocks: a data file too short for the block list is not part of this model.
- JournalWriter.Transaction.WriteAt: a journal inode has no holes before its end, and a journal on a device of its own fails past the end of the device.
- JournalSession.Session.WriteAll: committed requests with nothing in them are not part of the run; what a reader sees after one depends on what the block left out held before.
- The commit block's checksum over the transaction, time stamps, and the journal superblock.
- Pass3.Pass.Run: what a directory that is repaired twice has as its links is what `Pass3.RepairedTwice` says, and the tree in the table then differs there from the one that is spoken of; aborts and the restart after an unusable lost+found directory are not part of this model; nor is creating the root directory. What is connected is stated for a table whose parents are in the table and in which the directory that the root names lost+found has the root as its parent, as pass 2 leaves it.
- DupBlocks.Dupes.Report: cloning and deleting files, which pass 1D does between two reports, and the dictionary's comparison of keys as machine integers are not part of this model; the map of duplicates is by cluster.
- The database backend of the directory table.
- Quota, badblocks, resize2fs, mke2fs and the other tools, whose logic is mostly the order of their reads and writes.

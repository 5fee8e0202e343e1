# A verified model of LevelDB and nanopb

This project models, in Dafny, the two libraries with real logic in the repository: the LevelDB
store (`ios/Pods/leveldb-library`) and the nanopb Protocol Buffers codec (`ios/Pods/nanopb`), and
proves what they promise. `dafny verify dfyconfig.toml` checks everything.

## What is modelled

**The store** (`DbFormat` to `DbImpl`). Entries carry internal keys (user key, sequence number,
type); a read at a snapshot is the newest entry of the key not after the snapshot, a deletion
meaning absent. `VersionSet` searches level by level, `CompactionInputs` chooses the files of a
compaction, `CompactionWork` is the merge loop with its two drop rules, the moving cursors of
`IsBaseLevelForKey` and the cuts between outputs, `VersionBuilder` applies edits and replays a
MANIFEST, `Manifest` follows its records. `DbRun` is the store as a state machine (write, memtable
switch, flush, compaction, trivial move, snapshots), and class `DbImpl.DB` has the methods of
`db_impl.cc`, each proved to be one step of that machine that logs that step's record. `DbReads`
says what readers see in terms of the operations written, without entries. The theorems over whole
runs are `RunKeepsInvariant` (level order always holds), `RunIsFaithful` (readers get what the
history of writes says), `RunAnswersOperations` (a reader at sequence number q sees the first q
operations ever written, applied to an empty map) and `Manifest.ReplayManifest` (recovering the
MANIFEST of a run gives back the running store's file lists).

**A finding.** `SetupOtherInputs` closes the chosen files over a shared last user key at `level`
only, not at `level + 1` (`ios/Pods/leveldb-library/db/version_set.cc:1407`, `:1422`). A tombstone
in the last chosen file of `level + 1` can therefore be dropped while an older value of the same
user key stays behind in the next, unchosen file, and the deleted key comes back. `TrapExample` is a
concrete run of fourteen steps from the empty store on which this happens: the deleted key reads as
absent before its last compaction and as present after it, with no snapshot held and no write in
between. Its flushes and compactions are those of three calls of `CompactRange` over all keys, under
the default options: flushed tables go where `PickLevelForMemTableOutput` puts them, no compaction
is a trivial move, and the 2 MB limit cuts the outputs. `CompactionPreservesReads` and
`CompactAndReads` give the exact condition on the layout and the memtables under which a compaction
changes no read, `RunIsFaithful` lifts it to runs in both directions, and `NoSharedBoundaryNoTrap`
gives a sufficient check that looks at file bounds only.

**Iterators** (`Merger`, `DbIter`, `InternalIterators`). The merging iterator is a cursor over the
sorted union of its children and `DBIter` a cursor over the visible map, both with arbitrary changes
of direction.

**Group commit** (`GroupCommit`). Writers as program counters over one queue; every interleaving is a
run. Log records, inserted entries and the published sequence number are separate steps, so partly
inserted groups and failures are states of their own.

**The log** (`LogFormat`, `LogWriter`, `LogReader`). Records cut into 32 KB blocks; a log cut off at
any byte gives back the records wholly in it and no complaint, and from a file that holds anything
at all only records made of intact fragments come back.

**Tables** (`BlockFormat` to `Table`, `Comparator`, `Bloom`, `FilterBlock`). Prefix-compressed blocks
as bytes, shortened index keys, the two-level iterator as a cursor over the concatenated blocks,
point lookups through the filter block.

**Formats** (`Coding`, `Varint`, `Readers`, `Slices`, `VersionEdit`, `WriteBatch`, `Crc32c`).
MANIFEST edits and write batches: what they read as is stated for every byte string, and for those
that were written it is what was written. The four-stride checksum loop equals CRC-32C byte by byte
(section 12.1 of RFC 3720).

**In memory** (`SkipList`, `CacheLists`, `CacheLedger`, `Cache`). The skip list with searches that
run while nodes are being linked, and the LRU cache over its two rings, hash table and reference
counts. `CacheLedger` holds the bookkeeping as a value; the class's methods are proved to follow it.

**nanopb** (`PbSchema` to `PbRoundTrip`). Schemas with required, optional, proto3, repeated and
oneof fields and nested messages. The encoder's contract is exact for sizing and writing streams
alike. `PbWire` and `PbMeaning` say what any bytes mean to the decoder, and the methods of
`PbStream` and `PbDecode` are proved to make exactly that of them; `PbWireLaws`, `PbLaws` and
`PbReadsBack` prove what it is worth: a message is its parts, none of the checked required fields
may be missing, unknown fields are skipped whole, concatenated messages merge, and decoding what was
encoded gives the message back.

**A second finding.** The round trip fails for two families of messages. `pb_enc_string` takes a
string that fills its whole buffer without a terminator, while `pb_dec_string` asks for one byte more
than the string (`ios/Pods/nanopb/pb_encode.c:873-896`, `ios/Pods/nanopb/pb_decode.c:1487-1523`);
`FullStringIsLost` is such a message. And lengths are written with as many bits as they need but read
with 32. `RoundTrip` shows that decoding succeeds exactly when the message has neither.

Two smaller facts the proofs needed: `VersionEdit::Clear` keeps the compaction pointers, so decoding
into a used edit appends to them, and `Block::Iter::Prev` and the forward scan never meet the
corruption branches on a block that the builder wrote.

## Model

| member | source | states |
|---|---|---|
| DbFormat.ReadIsNewest | ios/Pods/leveldb-library/db/db_impl.cc:1100-1110 | The specification of a read is well defined: with unique internal keys the newest entry of a key visible at the snapshot decides it, a deletion meaning absent |
| DbFormat.PackedFits | ios/Pods/leveldb-library/db/dbformat.h:64-67 | Sequence numbers have the 56 bits that 64 leave beside the type |
| DbFormat.NewestExists | ios/Pods/leveldb-library/db/db_impl.cc:1100-1110 | Among finitely many visible entries of a key there is a newest one |
| VersionSet.FindFile | ios/Pods/leveldb-library/db/version_set.cc:88-106 | The binary search gives the first file whose largest key is not before the target |
| VersionSet.SomeFileOverlapsRange | ios/Pods/leveldb-library/db/version_set.cc:122-157 | For sorted disjoint files (binary search) and for level 0 (scan) alike: true if and only if some file meets the user-key range |
| VersionSet.TableGetFinds | ios/Pods/leveldb-library/db/version_set.cc:263-276 | A seek in one table plus the user-key comparison answers with that table's newest visible entry, or there is none |
| VersionSet.LevelGetFinds | ios/Pods/leveldb-library/db/version_set.cc:364-382 | In a sorted disjoint level the one file the binary search names decides for the whole level |
| VersionSet.LevelZeroHit | ios/Pods/leveldb-library/db/version_set.cc:345-363 | In level 0, searched newest file first, the first hit is the newest visible entry of the level |
| VersionSet.GetLevelZero | ios/Pods/leveldb-library/db/version_set.cc:345-363 | First-hit search of level 0 returns its newest visible entry, or none is visible |
| VersionSet.FirstHitIsNewest | ios/Pods/leveldb-library/db/version_set.cc:326-421 | Under level order the first level with a hit holds the newest visible entry of the whole version |
| VersionSet.Get | ios/Pods/leveldb-library/db/version_set.cc:326-421 | Level by level first-hit search returns the newest entry visible at the snapshot over all files, or none is visible |
| CompactionInputs.GetOverlappingInputs | ios/Pods/leveldb-library/db/version_set.cc:519-559 | The scan with restarts ends, and its result is the function whose meaning is given by the next rows |
| CompactionInputs.WidenedIsLeast | ios/Pods/leveldb-library/db/version_set.cc:543-556 | Every restart widens the range only as far as any overlap-closed choice must reach |
| CompactionInputs.LevelZeroClosure | ios/Pods/leveldb-library/db/version_set.cc:519-559 | At level 0 the chosen files are the least set that holds every file meeting the range and is closed under user-key overlap |
| CompactionInputs.FindLargestKey | ios/Pods/leveldb-library/db/version_set.cc:1326-1340 | The largest key of the files, and none exactly for no files |
| CompactionInputs.LargestOfIs | ios/Pods/leveldb-library/db/version_set.cc:1326-1340 | That key is the bound of one of the files and no file ends after it |
| CompactionInputs.FindSmallestBoundaryFile | ios/Pods/leveldb-library/db/version_set.cc:1344-1362 | Of the files that start after the key with its user key, the one that starts first; none exactly if there is no such file |
| CompactionInputs.AddBoundaryInputs | ios/Pods/leveldb-library/db/version_set.cc:1378-1401 | Terminates; adds a chain of boundary files after which no file starts after the chosen largest key with the same user key |
| CompactionInputs.ExtensionLeavesOnlyNewer | ios/Pods/leveldb-library/db/version_set.cc:1378-1401 | So what stays behind at the level is newer than what was chosen, for every user key they share |
| CompactionInputs.OverlappingIsPickable | ios/Pods/leveldb-library/db/version_set.cc:1464-1495 | Files picked by a range are a choice that boundary files can complete |
| CompactionInputs.TotalFileSizeAdds | ios/Pods/leveldb-library/db/version_set.cc:60-66 | The size of a list of files is the sum of theirs |
| CompactionInputs.GetRange | ios/Pods/leveldb-library/db/version_set.cc:1205-1224 | Smallest and largest key over the files |
| CompactionInputs.SetupOtherInputs | ios/Pods/leveldb-library/db/version_set.cc:1403-1462 | The inputs are proper: the upper ones leave only newer entries behind, the lower ones are all that overlap the upper ones; the upper set grows exactly when it then picks up no further lower file and stays small; the grandparents are the files they all overlap |
| CompactionInputs.PickCompaction | ios/Pods/leveldb-library/db/version_set.cc:1270-1322 | From any file of any level, proper inputs that contain it, set up from it or, at level 0, from all it forces in |
| CompactionInputs.CompactRange | ios/Pods/leveldb-library/db/version_set.cc:1464-1495 | A manual compaction is found exactly when a file overlaps the range; deeper than level 0 it takes the first files that together reach the limit, and its inputs are proper all the same |
| CompactionInputs.PickLevelForMemTableOutput | ios/Pods/leveldb-library/db/version_set.cc:491-516 | A flushed table sinks exactly as far as it meets no overlap and no too many bytes two levels down, and no deeper than allowed |
| CompactionWork.Compaction.IsBaseLevelForKey | ios/Pods/leveldb-library/db/version_set.cc:1533-1552 | For keys asked in ascending order the moving cursors answer exactly the stateless question: does no file at level + 2 or deeper cover the key |
| CompactionWork.Compaction.NextQuery | ios/Pods/leveldb-library/db/db_impl.cc:920-998 | The merge loop asks in ascending order |
| CompactionWork.DoCompactionWork | ios/Pods/leveldb-library/db/db_impl.cc:878-1036 | The outputs in order are exactly the input without the entries the two drop rules name, and two successive kept entries lie in different files exactly if the first filled its file or the loop was told to stop before the second or before a dropped entry between; a smallest snapshot at the largest sequence number drops everything |
| CompactionWork.CutsAreAsTold | ios/Pods/leveldb-library/db/db_impl.cc:909-996 | Cuts follow from when a file is open: it stays open from a kept entry on until something closes it |
| CompactionWork.FinishCompactionOutputFile | ios/Pods/leveldb-library/db/db_impl.cc:811-858 | A finished output has the bounds of the entries put into it |
| CompactionReads.OlderIsDropped | ios/Pods/leveldb-library/db/db_impl.cc:937-951 | Rule (A) removes every entry older than one that all live snapshots see |
| CompactionReads.LostNewestIsTombstone | ios/Pods/leveldb-library/db/db_impl.cc:952-963 | The only newest visible entries that disappear are tombstones of base-level keys no newer than the smallest snapshot |
| CompactionReads.ReadSurvives | ios/Pods/leveldb-library/db/db_impl.cc:937-963 | A read at any snapshot from the smallest on survives the drops unless its key is trapped |
| CompactionReads.TrapSprings | ios/Pods/leveldb-library/db/db_impl.cc:952-963 | A trapped key was deleted before the drops and reads as a value after them |
| CompactionReads.DropsPreserveReads | ios/Pods/leveldb-library/db/db_impl.cc:937-963 | The two drop rules preserve every read of every live snapshot if and only if no key is trapped |
| VersionChanges.CutIsDisjoint | ios/Pods/leveldb-library/db/db_impl.cc:967-996 | However the sorted output is cut, the files are valid and do not interleave |
| VersionChanges.ReplacedContents | ios/Pods/leveldb-library/db/db_impl.cc:860-876 | The installed version holds the other files and the outputs |
| VersionChanges.ReplacedIsWellFormed | ios/Pods/leveldb-library/db/db_impl.cc:860-876 | Replacing inputs by outputs keeps level order: shallower stays strictly newer per user key, levels above 0 sorted and disjoint |
| CompactionStep.OlderRestIsSibling | ios/Pods/leveldb-library/db/version_set.cc:1403-1462 | With inputs chosen as they are, an untouched entry older than an input entry of a base-level key can only be in an unchosen file of level + 1 |
| CompactionStep.IsDropStep | ios/Pods/leveldb-library/db/version_set.cc:1403-1462 | A compaction with proper inputs of a well-formed version is an instance of the abstract drop step |
| CompactionStep.CompactionKeepsLevelOrder | ios/Pods/leveldb-library/db/db_impl.cc:860-876 | A whole compaction keeps the version well formed and adds no entry |
| CompactionStep.CompactionAndRead | ios/Pods/leveldb-library/db/db_impl.cc:937-963 | Key by key: one that is not trapped reads the same after the compaction at every live snapshot, a trapped one comes back from deletion |
| CompactionStep.CompactionPreservesReads | ios/Pods/leveldb-library/db/db_impl.cc:878-1036 | A compaction preserves every read of every live snapshot if and only if no key is in the tombstone trap that the unclosed level + 1 inputs leave open |
| CompactionStep.NoSharedBoundaryNoTrap | ios/Pods/leveldb-library/db/version_set.cc:1407-1422 | If no unchosen file of level + 1 starts with the last user key of a chosen one, there is no trap |
| TrapExample.DeletedKeyComesBack | ios/Pods/leveldb-library/db/version_set.cc:1403-1440 | A run from the empty store, of steps the code takes (no compaction of it is a trivial move, flushes go to the level picked, outputs are cut by size), whose last compaction brings a deleted key back while no snapshot is held |
| VersionBuilder.InsertFileIs | ios/Pods/leveldb-library/db/version_set.cc:593-607 | Inserting into the ordered set of added files keeps its order |
| VersionBuilder.Builder.Apply | ios/Pods/leveldb-library/db/version_set.cc:650-692 | An edit's deletions are taken first and its additions cancel pending deletions of their numbers |
| VersionBuilder.MergeLevel | ios/Pods/leveldb-library/db/version_set.cc:704-722 | The merge of base and added files comes out sorted by smallest key and holds exactly the surviving files |
| VersionBuilder.Builder.SaveTo | ios/Pods/leveldb-library/db/version_set.cc:695-754 | Every level is (base + added - deleted), sorted by smallest key |
| VersionBuilder.ReplayIsVersionByVersion | ios/Pods/leveldb-library/db/version_set.cc:932-947 | One builder fed every edit keeps exactly the files that applying each edit to its own version gives, if no (level, number) is added twice |
| VersionBuilder.InOrderIsUnique | ios/Pods/leveldb-library/db/version_set.cc:704-722 | A level's list is determined by its set of files, so equal sets are equal lists |
| VersionBuilder.SnapshotFilesIs | ios/Pods/leveldb-library/db/version_set.cc:1088-1116 | The snapshot record holds every file of every level |
| VersionBuilder.SnapshotThenEdits | ios/Pods/leveldb-library/db/version_set.cc:1088-1116 | A MANIFEST that starts with a snapshot record tells the history of the version it was taken from |
| VersionBuilder.Recover | ios/Pods/leveldb-library/db/version_set.cc:886-1011 | Replaying snapshot record and edits in one builder over the empty version gives the lists the running store had reached edit by edit |
| Manifest.FlushEdits | ios/Pods/leveldb-library/db/db_impl.cc:517-526 | The record of a flush adds its table at its level and leaves every other level alone |
| Manifest.MoveEdits | ios/Pods/leveldb-library/db/db_impl.cc:718-735 | The record of a trivial move takes the file out of its level and puts it into the next |
| Manifest.InstallEdits | ios/Pods/leveldb-library/db/db_impl.cc:860-876 | The record of a compaction takes exactly the inputs out of both levels and puts the outputs in, outputs' numbers being fresh |
| Manifest.RecordIsTracked | ios/Pods/leveldb-library/db/version_set.cc:801-884 | One more record keeps the MANIFEST replayable (no level sees a number twice) and true, because what a record adds is new or comes from one level up |
| Manifest.StepIsTracked | ios/Pods/leveldb-library/db/version_set.cc:801-884 | So does every step of the store with the record it logs, and a step without a record leaves the lists alone |
| Manifest.RunIsTracked | ios/Pods/leveldb-library/db/version_set.cc:801-884 | So does every run, from the snapshot record of any well-formed store on |
| Manifest.ReplayManifest | ios/Pods/leveldb-library/db/version_set.cc:886-1011 | Recovering the MANIFEST of any run gives back the very lists the running store holds |
| DbRun.AddEntriesIs | ios/Pods/leveldb-library/db/memtable.cc:75-98 | A batch added to the memtable keeps it sorted and adds exactly the batch |
| DbRun.BatchIs | ios/Pods/leveldb-library/db/write_batch.cc:115-137 | A batch's entries have consecutive numbers and distinct internal keys |
| DbRun.WriteKeepsInvariant | ios/Pods/leveldb-library/db/db_impl.cc:1185-1256 | A write keeps the invariant |
| DbRun.FlushKeepsInvariant | ios/Pods/leveldb-library/db/db_impl.cc:491-566 | A flush to the level chosen for it keeps the invariant |
| DbRun.CompactKeepsInvariant | ios/Pods/leveldb-library/db/db_impl.cc:878-1036 | A compaction keeps the invariant |
| DbRun.MoveKeepsInvariant | ios/Pods/leveldb-library/db/db_impl.cc:718-735 | A trivial move keeps the invariant |
| DbRun.StepKeepsInvariant | ios/Pods/leveldb-library/db/db_impl.cc:688-767 | Every step keeps level order, disjointness, memtables over tables, unique file numbers and sequence bounds |
| DbRun.RunKeepsInvariant | ios/Pods/leveldb-library/db/db_impl.cc:688-767 | So does every run from the empty store |
| DbRun.CompactAndReads | ios/Pods/leveldb-library/db/db_impl.cc:878-1036 | With the memtables on top, a compaction leaves every read of every live snapshot alone if and only if every trapped key has a newer entry in memory |
| DbRun.SnapshotsOnlyRise | ios/Pods/leveldb-library/db/snapshot.h:39-91 | Taking and releasing snapshots never lowers the oldest sequence number a reader can hold |
| DbRun.StepStaysFaithful | ios/Pods/leveldb-library/db/db_impl.cc:878-1036 | From a store that answers like its history, a step leads to one that does if and only if it springs no trap |
| DbRun.RunIsFaithful | ios/Pods/leveldb-library/db/db_impl.cc:878-1036 | Along a run every reader at every live snapshot and at the last sequence number gets what the complete history of writes says, if and only if no compaction of the run springs a trap |
| DbReads.AnswerIsLast | ios/Pods/leveldb-library/db/write_batch.cc:115-137 | Of the operations on a key the last one decides: a put its value, whatever it is, and a delete absence |
| DbReads.BatchRead | ios/Pods/leveldb-library/db/write_batch.cc:115-137 | A reader after the first n operations of a batch sees just them, on top of what it saw before |
| DbReads.WriteShows | ios/Pods/leveldb-library/db/db_impl.cc:1185-1256 | A write changes no read at an earlier snapshot, and after its first n operations a key answers with the last of them on it |
| DbReads.ReadYourWrites | ios/Pods/leveldb-library/db/db_impl.cc:1185-1256 | Read your writes: at the new last sequence number a key answers with the last operation of the batch on it, and one without operations answers as before |
| DbReads.HistoryIsMap | ios/Pods/leveldb-library/db/db_impl.cc:1100-1110 | Sequence numbers count the operations written, and the history read at q is the first q of them applied to an empty map |
| DbReads.RunAnswersOperations | ios/Pods/leveldb-library/db/db_impl.cc:878-1036 | Along a run every live reader at q sees the first q operations ever written, applied to an empty map, if and only if no compaction springs a trap |
| DbImpl.MemTableGetFinds | ios/Pods/leveldb-library/db/memtable.cc:100-134 | A seek in the memtable plus the user-key comparison finds its newest visible entry, or there is none |
| DbImpl.LayersDecide | ios/Pods/leveldb-library/db/db_impl.cc:1100-1136 | Memtable, then immutable memtable, then tables: the first layer with a hit decides the read of the whole store |
| DbImpl.DB.Get | ios/Pods/leveldb-library/db/db_impl.cc:1100-1145 | Returns exactly the specified read of all stored entries |
| DbImpl.DB.NewIterator | ios/Pods/leveldb-library/db/db_impl.cc:1062-1157 | The iterator is over exactly the stored entries, at the snapshot asked for or the last sequence number |
| DbImpl.DB.Write | ios/Pods/leveldb-library/db/db_impl.cc:1185-1256 | Is the write step of the store machine, shows exactly its operations to readers, and logs nothing to the MANIFEST |
| DbImpl.DB.SwitchMemTable | ios/Pods/leveldb-library/db/db_impl.cc:1350-1366 | Is the switch step |
| DbImpl.DB.GetSnapshot | ios/Pods/leveldb-library/db/db_impl.cc:1166-1169 | Takes the last sequence number as a snapshot |
| DbImpl.DB.ReleaseSnapshot | ios/Pods/leveldb-library/db/db_impl.cc:1171-1174 | Removes just that snapshot |
| DbImpl.DB.CompactMemTable | ios/Pods/leveldb-library/db/db_impl.cc:491-566 | Is a flush step to exactly the level picked for the table, or just drops an empty memtable; the MANIFEST gains the step's record |
| DbImpl.DB.BackgroundCompaction | ios/Pods/leveldb-library/db/db_impl.cc:688-767 | Is a trivial move exactly if there is one upper input, no lower one and no more grandparent bytes than allowed, and otherwise the compaction of the inputs set up from the file; the MANIFEST gains the step's record |
| DbImpl.DB.DoCompaction | ios/Pods/leveldb-library/db/db_impl.cc:878-1036 | Merging, dropping, cutting and installing together are one compaction step, its outputs cut where the size rules say and nowhere else |
| DbImpl.DB.LogAndApply | ios/Pods/leveldb-library/db/version_set.cc:801-884 | The edit is logged, and the installed version is the current one with the edit applied, lists in order |
| DbImpl.MergeAndCut | ios/Pods/leveldb-library/db/db_impl.cc:890-999 | Over merged children the loop's outputs are what a compaction step demands, for every smallest snapshot the store can have |
| DbImpl.ChildrenAreMergeable | ios/Pods/leveldb-library/db/version_set.cc:1237-1268 | The input iterator's children are sorted and share no internal key |
| DbImpl.InstallApplied | ios/Pods/leveldb-library/db/db_impl.cc:860-876 | The edit of a compaction installs exactly inputs out, outputs in |
| Merger.CursorOverSorted | ios/Pods/leveldb-library/table/merger.cc:110-118 | On the sorted union the cursor's next and previous are index steps |
| Merger.SmallestPastCut | ios/Pods/leveldb-library/table/merger.cc:148-161 | When all children stand past a key the smallest of them is the first entry of the union past it |
| Merger.LargestBefore | ios/Pods/leveldb-library/table/merger.cc:163-176 | When all children stand before a key the largest of them is the last entry of the union before it |
| Merger.MergingIterator.FindSmallest | ios/Pods/leveldb-library/table/merger.cc:148-161 | Takes a child with the least key |
| Merger.MergingIterator.FindLargest | ios/Pods/leveldb-library/table/merger.cc:163-176 | Takes a child with the greatest key |
| Merger.MergingIterator.SeekToFirst | ios/Pods/leveldb-library/table/merger.cc:31-37 | Lands on the first entry of the union |
| Merger.MergingIterator.SeekToLast | ios/Pods/leveldb-library/table/merger.cc:39-45 | Lands on the last entry of the union |
| Merger.MergingIterator.Seek | ios/Pods/leveldb-library/table/merger.cc:47-53 | Lands on the first entry of the union not before the target |
| Merger.MergingIterator.Next | ios/Pods/leveldb-library/table/merger.cc:55-79 | Moves to the next entry of the union, also after a change of direction, and keeps the per-direction place of every child |
| Merger.MergingIterator.Prev | ios/Pods/leveldb-library/table/merger.cc:81-108 | Moves to the previous entry of the union, also after a change of direction |
| Merger.MergeAll | ios/Pods/leveldb-library/db/db_impl.cc:900-999 | Walking forward yields the sorted union |
| InternalIterators.AddIterators | ios/Pods/leveldb-library/db/version_set.cc:230-246 | Memtables, level-0 files and one concatenation per deeper level are mergeable and together hold exactly the store |
| DbIter.FirstVisibleDecides | ios/Pods/leveldb-library/db/db_iter.cc:168-198 | In key order the first visible entry of a user key decides its read |
| DbIter.ReadFromFront | ios/Pods/leveldb-library/db/db_iter.cc:227-267 | Backward, each further entry of a key replaces what the read of the key is |
| DbIter.DBIter.FindNextUserEntry | ios/Pods/leveldb-library/db/db_iter.cc:168-198 | Stops at the least key above the bound that a read finds, with the value it finds, or past the end |
| DbIter.DBIter.FindPrevUserEntry | ios/Pods/leveldb-library/db/db_iter.cc:227-267 | Ends in front of the greatest key below the bound that a read finds, with the value it finds |
| DbIter.DBIter.Seek | ios/Pods/leveldb-library/db/db_iter.cc:269-281 | Shows the least visible key not below the target |
| DbIter.DBIter.SeekToFirst | ios/Pods/leveldb-library/db/db_iter.cc:283-292 | Shows the least visible key |
| DbIter.DBIter.SeekToLast | ios/Pods/leveldb-library/db/db_iter.cc:294-299 | Shows the greatest visible key |
| DbIter.DBIter.Next | ios/Pods/leveldb-library/db/db_iter.cc:141-166 | Shows the least visible key above the one shown, from either direction |
| DbIter.DBIter.Prev | ios/Pods/leveldb-library/db/db_iter.cc:200-225 | Shows the greatest visible key below the one shown, from either direction |
| GroupCommit.BuildBatchGroup | ios/Pods/leveldb-library/db/db_impl.cc:1260-1306 | The group is the longest queue prefix within the size limit that puts no sync write under a leader that does not sync; the batch is its batches in order |
| GroupCommit.GroupIsBounded | ios/Pods/leveldb-library/db/db_impl.cc:1268-1276 | A leader's batch of at most 128 KB takes at most 128 KB along, a larger one fills up to 1 MB, and who is left out would have gone past that or waits for a leader that syncs |
| GroupCommit.StepKeepsInvariant | ios/Pods/leveldb-library/db/db_impl.cc:1185-1256 | Every step of every writer keeps the invariant |
| GroupCommit.RunKeepsInvariant | ios/Pods/leveldb-library/db/db_impl.cc:1185-1256 | So does every interleaving |
| GroupCommit.OneLeader | ios/Pods/leveldb-library/db/db_impl.cc:1192-1200 | At most one writer is past the wait loop, and it is the front of the queue |
| GroupCommit.EveryWriterOnce | ios/Pods/leveldb-library/db/db_impl.cc:1236-1248 | Every writer that came is in exactly one finished group, in order of arrival, or still queued; it has its status exactly if it is in a group |
| GroupCommit.DoneStaysDone | ios/Pods/leveldb-library/db/db_impl.cc:1198-1200 | A status once given never changes |
| GroupCommit.NumbersAreFresh | ios/Pods/leveldb-library/db/db_impl.cc:1206-1234 | The sequence numbers of an earlier group all lie before those of a later one |
| GroupCommit.PublishedIsWhole | ios/Pods/leveldb-library/db/db_impl.cc:1232-1234 | At the published number a reader sees every finished group whole and nothing of one under way |
| GroupCommit.SnapshotsAreStable | ios/Pods/leveldb-library/db/db_impl.cc:1206-1234 | What a reader saw at a published number never changes |
| GroupCommit.ReadersSeeOneState | ios/Pods/leveldb-library/db/db_impl.cc:1100-1110 | Along a run: a number published then shows later exactly the groups that were finished then |
| GroupCommit.OkMeansWritten | ios/Pods/leveldb-library/db/db_impl.cc:1206-1248 | A writer told ok has its whole batch in memory under consecutive published numbers, and the record with it in the log |
| GroupCommit.SyncIsHonoured | ios/Pods/leveldb-library/db/db_impl.cc:1281-1284 | No sync write is carried by a leader that does not sync |
| GroupCommit.GroupIsOneWrite | ios/Pods/leveldb-library/db/db_impl.cc:1206-1234 | A finished group is one write of the store machine: same operations, same numbers |
| WriteBatch.EncodeFixed64 | ios/Pods/leveldb-library/util/coding.cc:20-33 | Decodes to the number it was given |
| WriteBatch.WriteBatch.SetSequence | ios/Pods/leveldb-library/db/write_batch.cc:90-96 | Sets the sequence number and leaves the operations |
| WriteBatch.WriteBatch.Put | ios/Pods/leveldb-library/db/write_batch.cc:98-103 | Adds one put after the operations there, and counts it modulo 2^32 |
| WriteBatch.WriteBatch.Delete | ios/Pods/leveldb-library/db/write_batch.cc:105-109 | Adds one deletion after the operations there, and counts it modulo 2^32 |
| WriteBatch.WriteBatch.Append | ios/Pods/leveldb-library/db/write_batch.cc:144-148 | Adds the other batch's operations after this one's, the counts too; also for a batch appended to itself |
| WriteBatch.WriteBatch.Iterate | ios/Pods/leveldb-library/db/write_batch.cc:42-80 | Of any bytes it hands on exactly the operations that read one after the other, and succeeds if and only if no bytes are left and their number is the count; of a built batch these are its operations |
| WriteBatch.OpsReadOnce | ios/Pods/leveldb-library/db/write_batch.cc:53-73 | Bytes start with an operation's record in one way at most |
| WriteBatch.WriteBatch.ParsesItself | ios/Pods/leveldb-library/db/write_batch.cc:42-80 | The bytes of a built batch read as its own operations and in no other way |
| WriteBatch.WriteBatch.InsertInto | ios/Pods/leveldb-library/db/write_batch.cc:132-137 | Of any bytes it inserts the operations that read, a broken batch's too, under consecutive sequence numbers from the batch's own on |
| LogFormat.WrittenAppend | ios/Pods/leveldb-library/db/log_writer.cc:34-80 | A log of more records is the log of fewer plus the next record's encoding at its end |
| LogFormat.LastFragment | ios/Pods/leveldb-library/db/log_writer.cc:34-108 | By number: what fits the rest of its 32 KB block is its checksum, two bytes of length, type 1 or 4, and the data |
| LogFormat.FullFragment | ios/Pods/leveldb-library/db/log_writer.cc:34-108 | By number: what does not fit fills its block with type 2 or 3 and goes on at the next block |
| LogFormat.SkippedBytes | ios/Pods/leveldb-library/db/log_writer.cc:43-54 | By number: fewer than seven bytes at the end of a block are zeros |
| LogWriter.Writer.SwitchBlock | ios/Pods/leveldb-library/db/log_writer.cc:43-54 | Fewer bytes than a header left in a block are filled with zeros |
| LogWriter.Writer.EmitPhysicalRecord | ios/Pods/leveldb-library/db/log_writer.cc:82-108 | Appends checksum, length, type and payload, and moves the block offset past them |
| LogWriter.Writer.AddRecord | ios/Pods/leveldb-library/db/log_writer.cc:34-80 | Appends the fragments of the record, laid out by the place in the block the file has reached |
| LogReader.WriteLog | ios/Pods/leveldb-library/db/log_writer.cc:23-30 | A writer reopened at the file's length before any record continues identically |
| LogReader.Reader.FillBuffer | ios/Pods/leveldb-library/db/log_reader.cc:191-218 | Reads on only when less than a header is buffered, and skips exactly a block's trailer |
| LogReader.Reader.ParseRecord | ios/Pods/leveldb-library/db/log_reader.cc:220-271 | Of any bytes: a record cut off, an empty one of type zero and one whose checksum does not match are refused, with the complaints the source makes, and any other comes back; one cut off by the end of the file is taken for the end, without a complaint |
| LogReader.Reader.ReadPhysicalRecord | ios/Pods/leveldb-library/db/log_reader.cc:189-271 | Of any file a fragment that comes back is intact where it was found, at most a trailer ahead; of a well-formed file it is the next one if the file has all of it, and the end otherwise, without a complaint |
| LogReader.Reader.AddFragment | ios/Pods/leveldb-library/db/log_reader.cc:87-171 | A fragment of any type is taken as the switch says: 1 a whole record, 2 a first, 3 a middle, 4 a last, with a complaint exactly where it has no place or leaves a record without its end |
| LogReader.Reader.ReadRecord | ios/Pods/leveldb-library/db/log_reader.cc:56-174 | Of any file a record that comes back is made of intact fragments that follow one another, whole and in order; of a well-formed file it is the next record exactly if the file has all of it, and nothing is reported |
| LogReader.ReadLog | ios/Pods/leveldb-library/db/log_reader.cc:56-174 | Whatever the file holds, every record that comes back is made of intact fragments, in stretches that follow one another; of a log cut off at any byte, exactly the records wholly contained come back, in order, and no corruption is reported |
| LogReader.WholeFileHoldsAll | ios/Pods/leveldb-library/db/log_reader.cc:56-174 | The uncut file gives every record back |
| LogReader.ContainedIsUnique | ios/Pods/leveldb-library/db/log_reader.cc:56-174 | The cut determines how many records come back |
| Coding.EncodeFixed32 | ios/Pods/leveldb-library/util/coding.cc:9-18 | Four bytes that decode to the number |
| Coding.MaskIs | ios/Pods/leveldb-library/util/crc32c.h:29-38 | Masking rotates right by 15 bits and adds 0xa282ead8 |
| Coding.UnmaskMask | ios/Pods/leveldb-library/util/crc32c.h:29-38 | Unmasking a masked checksum gives it back |
| Coding.ExtendAppends | ios/Pods/leveldb-library/db/log_writer.cc:97-98 | Extending a checksum by one part and then another is extending it by both |
| Crc32c.BitIsTimesX | ios/Pods/leveldb-library/util/crc32c.cc:16-63 | One turn of the division is multiplication by x modulo the Castagnoli polynomial, given by its exponents, on reflected coefficients |
| Crc32c.ByteTableEntries | ios/Pods/leveldb-library/util/crc32c.cc:20-63 | The byte table's entries for single bits are the source's; by linearity they give the table |
| Crc32c.ZerosCheck | ios/Pods/leveldb-library/util/crc32c.cc:276-377 | The RFC's check value for 32 bytes of zeros |
| Crc32c.AscendingCheck | ios/Pods/leveldb-library/util/crc32c.cc:276-377 | The RFC's check value for 32 ascending bytes |
| Crc32c.AdvanceLinear | ios/Pods/leveldb-library/util/crc32c.cc:16-63 | Advancing by one zero byte is linear, which is what the tables rely on |
| Crc32c.StrideTables | ios/Pods/leveldb-library/util/crc32c.cc:65-244 | The four stride tables, by their linear meaning, compose to an advance by sixteen zero bytes |
| Crc32c.StepAdvances | ios/Pods/leveldb-library/util/crc32c.cc:288-292 | One table step is one byte of the checksum |
| Crc32c.WordStep | ios/Pods/leveldb-library/util/crc32c.cc:314-322 | Four byte steps are one advance of the state joined with a little-endian word |
| Crc32c.StrideStep | ios/Pods/leveldb-library/util/crc32c.cc:295-302 | One stride of the four-way state is one word of the checksum |
| Crc32c.Extend | ios/Pods/leveldb-library/util/crc32c.cc:276-377 | Alignment loop, four-stride loop, rotating words, final combination and tail compute the byte-at-a-time value for every buffer, length and address |
| Crc32c.ValueAppends | ios/Pods/leveldb-library/util/crc32c.cc:276-377 | Extend(Extend(c, a), b) is Extend(c, a + b) |
| SkipList.LinkKeepsStructure | ios/Pods/leveldb-library/db/skiplist.h:361-367 | Each of the two writes that link a node at a level leaves a whole structure behind, the old one and then the new one |
| SkipList.SkipList.FindGreaterOrEqual | ios/Pods/leveldb-library/db/skiplist.h:260-281 | The first node not before the key, and on every level in use the last node before it |
| SkipList.SkipList.FindLessThan | ios/Pods/leveldb-library/db/skiplist.h:284-302 | The last node before the key, or the head |
| SkipList.SkipList.FindLast | ios/Pods/leveldb-library/db/skiplist.h:305-322 | The last node, or the head of an empty list |
| SkipList.SkipList.Contains | ios/Pods/leveldb-library/db/skiplist.h:371-378 | Whether the key has been inserted |
| SkipList.SkipList.LinkAll | ios/Pods/leveldb-library/db/skiplist.h:361-367 | Links the node on its levels, lowest first, the structure whole in between |
| SkipList.SkipList.Insert | ios/Pods/leveldb-library/db/skiplist.h:337-368 | Adds exactly the key, on exactly the levels of its height; every level stays sorted and part of the one below |
| SkipList.SearchStepOk | ios/Pods/leveldb-library/db/skiplist.h:260-322 | Each step of each of the three searches keeps its place, and the answer is the exact neighbour in the list of that moment |
| SkipList.HappensKeepsOk | ios/Pods/leveldb-library/db/skiplist.h:337-368 | Every single pointer write of an insertion and every step of a search keeps the lists whole, half-linked levels included |
| SkipList.SearchIsAtomic | ios/Pods/leveldb-library/db/skiplist.h:260-368 | A search for the first key not before, the last key before, or the last key of all, its steps falling anywhere between the writer's pointer writes, returns the exact answer for the list at its last step, which lacks no key it started with |
| CacheLists.AppendKeepsRing | ios/Pods/leveldb-library/util/cache.cc:244-250 | Linking before the head appends to the circular list |
| CacheLists.RemoveKeepsRing | ios/Pods/leveldb-library/util/cache.cc:239-242 | Unlinking takes exactly that entry out of the circular list |
| CacheLists.HandleTable.FindPointer | ios/Pods/leveldb-library/util/cache.cc:114-120 | The entry of the key in its chain, or the chain's end |
| CacheLists.HandleTable.Lookup | ios/Pods/leveldb-library/util/cache.cc:74-76 | Agrees with the map |
| CacheLists.HandleTable.Insert | ios/Pods/leveldb-library/util/cache.cc:78-92 | The map with the entry put in; returns the one displaced; there are never more entries than buckets |
| CacheLists.HandleTable.Remove | ios/Pods/leveldb-library/util/cache.cc:94-102 | The map without the key; returns what it held |
| CacheLists.HandleTable.Resize | ios/Pods/leveldb-library/util/cache.cc:122-146 | Rehashing keeps the map, in the first power of two from four on with room for every entry |
| CacheLedger.ReferencedIsSound | ios/Pods/leveldb-library/util/cache.cc:217-223 | A reference taken keeps the invariant: refs are clients plus membership, each cached entry is on exactly one list, lru iff only the cache holds it |
| CacheLedger.ReleasedIsSound | ios/Pods/leveldb-library/util/cache.cc:225-237 | A reference given back keeps it; the deleter runs exactly at zero |
| CacheLedger.ErasedIsSound | ios/Pods/leveldb-library/util/cache.cc:307-316 | Erasure keeps it; the usage falls by the charge |
| CacheLedger.AllocatedIsSound | ios/Pods/leveldb-library/util/cache.cc:270-292 | A new entry keeps it; with capacity zero nothing is cached |
| CacheLedger.EvictedIs | ios/Pods/leveldb-library/util/cache.cc:293-300 | Eviction deletes a prefix of the lru list, oldest release first and no longer than needed; then usage is within capacity or the lru list empty |
| Cache.LRUCache.Ref | ios/Pods/leveldb-library/util/cache.cc:217-223 | Is the ledger's reference |
| Cache.LRUCache.Unref | ios/Pods/leveldb-library/util/cache.cc:225-237 | One reference less; zero deletes the entry, the cache's own left moves it to the end of the lru list |
| Cache.LRUCache.FinishErase | ios/Pods/leveldb-library/util/cache.cc:307-316 | Is the ledger's erasure of an entry already out of the table |
| Cache.LRUCache.Lookup | ios/Pods/leveldb-library/util/cache.cc:252-259 | A hit is the cached entry of the key with one more client; a miss changes nothing |
| Cache.LRUCache.Release | ios/Pods/leveldb-library/util/cache.cc:261-264 | Is the ledger's release |
| Cache.LRUCache.Erase | ios/Pods/leveldb-library/util/cache.cc:318-321 | The table loses the key and its entry is erased; nothing else changes |
| Cache.LRUCache.EvictOldest | ios/Pods/leveldb-library/util/cache.cc:293-300 | Erases exactly the head of the lru list |
| Cache.LRUCache.Prune | ios/Pods/leveldb-library/util/cache.cc:323-333 | Deletes every entry no client holds, in lru order |
| Cache.LRUCache.Insert | ios/Pods/leveldb-library/util/cache.cc:266-303 | The key maps to the new entry with one client, the one displaced is erased, then eviction; usage is within capacity or the lru list is empty |
| Slices.EncodeVarint32 | ios/Pods/leveldb-library/util/coding.cc:47-73 | The branches by length write the base-128 varint |
| Slices.EncodeVarint64 | ios/Pods/leveldb-library/util/coding.cc:81-90 | The loop writes the base-128 varint |
| Slices.GetVarint | ios/Pods/leveldb-library/util/coding.cc:112-169 | Succeeds exactly if the input starts with a varint of at most five or ten bytes, and then returns its groups' sum modulo the word and what follows |
| Slices.ReadsVarintOnce | ios/Pods/leveldb-library/util/coding.cc:119-139 | Bytes start with a varint in one way at most |
| Slices.WrittenVarintReads | ios/Pods/leveldb-library/util/coding.cc:47-169 | What the writers make reads back, whatever follows it |
| Slices.PutLengthPrefixedSlice | ios/Pods/leveldb-library/util/coding.cc:98-101 | Appends the low 32 bits of the length, and the bytes |
| Slices.GetLengthPrefixedSlice | ios/Pods/leveldb-library/util/coding.cc:181-190 | Succeeds exactly if a varint and that many bytes are there, and then returns them and what follows |
| Slices.WrittenSliceReads | ios/Pods/leveldb-library/util/coding.cc:98-190 | A slice of less than 4 GB reads back, whatever follows it |
| Readers.ParseIsUnique | ios/Pods/leveldb-library/db/write_batch.cc:53-73 | If records read in one way only, the bytes alone decide which ones read and where reading stops |
| BlockBuilder.Builder.SharedLength | ios/Pods/leveldb-library/table/block_builder.cc:79-85 | The longest prefix the key shares with the last one |
| BlockBuilder.Builder.Add | ios/Pods/leveldb-library/table/block_builder.cc:72-106 | Adds the pair; restart points stay a whole interval apart and every other entry leaves out all it shares with the one before |
| BlockBuilder.Builder.Finish | ios/Pods/leveldb-library/table/block_builder.cc:62-70 | Entries, restart offsets and their number are laid out as the reader expects them if and only if lengths and offsets fit 32 bits |
| BlockFormat.EntryAt | ios/Pods/leveldb-library/table/block_builder.cc:72-106 | Entry i lies at its offset, and the next one follows it |
| Block.DecodeEntry | ios/Pods/leveldb-library/table/block.cc:54-74 | Reads an entry's three lengths back, on the fast path and the slow one |
| Block.Iter.ParseNextKey | ios/Pods/leveldb-library/table/block.cc:224-251 | Reads the next entry and restores its whole key, or ends |
| Block.Iter.FindRestart | ios/Pods/leveldb-library/table/block.cc:163-192 | The binary search gives a restart point with no key at or after the target before it |
| Block.Iter.ValidOnEntry | ios/Pods/leveldb-library/table/block.cc:126 | The iterator is valid exactly on an entry |
| Block.Iter.Seek | ios/Pods/leveldb-library/table/block.cc:163-201 | Lands on the first entry not before the target, or the end |
| Block.Iter.Next | ios/Pods/leveldb-library/table/block.cc:137-140 | From entry i to i + 1 |
| Block.Iter.Prev | ios/Pods/leveldb-library/table/block.cc:142-161 | From entry i to i - 1, from the first to invalid |
| Block.Iter.SeekToFirst | ios/Pods/leveldb-library/table/block.cc:203-206 | Lands on entry 0 |
| Block.Iter.SeekToLast | ios/Pods/leveldb-library/table/block.cc:208-213 | Lands on the last entry |
| Comparator.CompareIsTotal | ios/Pods/leveldb-library/util/comparator.cc:25-27 | The bytewise order is total and antisymmetric |
| Comparator.LessIsTransitive | ios/Pods/leveldb-library/util/comparator.cc:25-27 | and transitive |
| Comparator.FindShortestSeparator | ios/Pods/leveldb-library/util/comparator.cc:29-50 | If the first byte in which the keys differ can be increased and stay below the limit's, the start cut off behind it, increased; otherwise the start; in either case not before the start and before the limit if changed |
| Comparator.FindShortSuccessor | ios/Pods/leveldb-library/util/comparator.cc:52-64 | The key cut off behind its first byte that can be increased, increased, or the key if there is none; if changed, after it |
| Comparator.BeforeIsOrder | ios/Pods/leveldb-library/db/dbformat.cc:47-67 | The internal order is total and transitive |
| Comparator.FindShortestInternalSeparator | ios/Pods/leveldb-library/db/dbformat.cc:69-86 | Not before the start and before the limit; changed exactly when the user key gets shorter, then of a user key strictly between with the largest packed number |
| Comparator.FindShortInternalSuccessor | ios/Pods/leveldb-library/db/dbformat.cc:88-101 | Not before the key; if changed, of a later user key |
| TableBuilder.Builder.Add | ios/Pods/leveldb-library/table/table_builder.cc:94-123 | Adds the entry behind those there, ends the block exactly when it is full, and keeps every index entry between its block and the next |
| TableBuilder.Builder.AddIndexEntry | ios/Pods/leveldb-library/table/table_builder.cc:102-109 | The delayed index entry is not before its block's last key and before the next key |
| TableBuilder.Builder.WriteDataBlock | ios/Pods/leveldb-library/table/table_builder.cc:141-194 | The block is stored under its handle, and no later one takes its place |
| TableBuilder.Builder.StartFilter | ios/Pods/leveldb-library/table/table_builder.cc:136-138 | Keys added so far stay in the filter group of their own block's offset |
| TableBuilder.Builder.Flush | ios/Pods/leveldb-library/table/table_builder.cc:125-139 | Writes the block under the next handle, five bytes of trailer behind it, without changing the entries; nothing for an empty block |
| TableBuilder.Builder.FinishIndex | ios/Pods/leveldb-library/table/table_builder.cc:229-236 | The last block gets its index entry |
| TableBuilder.Builder.Finish | ios/Pods/leveldb-library/table/table_builder.cc:198-253 | The table holds exactly the entries added and its index bounds every block from both sides; its filter covers every key if it stays below 4 GB |
| TableFormat.IndexedPartitions | ios/Pods/leveldb-library/table/table_builder.cc:50-57 | Shortened separators still bound every block: not before its keys, before all later keys |
| TwoLevelIterator.SeekLands | ios/Pods/leveldb-library/table/two_level_iterator.cc:82-87 | The block the index names holds the first row not before the target, or ends right before it |
| TwoLevelIterator.Iter.InitDataBlock | ios/Pods/leveldb-library/table/two_level_iterator.cc:146-161 | The data iterator is over the block the index names, also when it is kept |
| TwoLevelIterator.Iter.SkipEmptyDataBlocksForward | ios/Pods/leveldb-library/table/two_level_iterator.cc:115-126 | Keeps the position, past any number of empty blocks |
| TwoLevelIterator.Iter.SkipEmptyDataBlocksBackward | ios/Pods/leveldb-library/table/two_level_iterator.cc:128-139 | Lands on the row before, past any number of empty blocks, or becomes invalid |
| TwoLevelIterator.Iter.Seek | ios/Pods/leveldb-library/table/two_level_iterator.cc:82-87 | The first row of the concatenation not before the target |
| TwoLevelIterator.Iter.SeekToFirst | ios/Pods/leveldb-library/table/two_level_iterator.cc:89-94 | Position 0 of the concatenation |
| TwoLevelIterator.Iter.SeekToLast | ios/Pods/leveldb-library/table/two_level_iterator.cc:96-101 | The last position |
| TwoLevelIterator.Iter.Next | ios/Pods/leveldb-library/table/two_level_iterator.cc:103-107 | Position p to p + 1 |
| TwoLevelIterator.Iter.Prev | ios/Pods/leveldb-library/table/two_level_iterator.cc:109-113 | Position p to p - 1, from the first to invalid |
| TwoLevelIterator.Iter.Current | ios/Pods/leveldb-library/table/two_level_iterator.cc:31-39 | Key and value of the row at the position |
| Table.NewIterator | ios/Pods/leveldb-library/table/table.cc:211-215 | A cursor over all rows of the table |
| Table.AnswerInBlock | ios/Pods/leveldb-library/table/table.cc:216-244 | If any row answers a lookup, the block the index names has one |
| Table.InternalGet | ios/Pods/leveldb-library/table/table.cc:216-244 | Hands on a row of the target's user key exactly when the table has one at or after the target, and whatever it hands on is the first row at or after it; filter included |
| Bloom.OrBitSets | ios/Pods/leveldb-library/util/bloom.cc:50 | Or-ing a bit in sets that bit and no other |
| Bloom.CreateFilter | ios/Pods/leveldb-library/util/bloom.cc:28-54 | A filter of the stated size has exactly the bits set that the keys' probes select, for any hash function |
| Bloom.Delta | ios/Pods/leveldb-library/util/bloom.cc:43 | The step between probes is the hash rotated right by 17 bits |
| Bloom.KeyMayMatch | ios/Pods/leveldb-library/util/bloom.cc:56-80 | True exactly if every bit the key's probes select is set |
| Bloom.FilterMatchesItsKeys | ios/Pods/leveldb-library/util/bloom.cc:28-80 | No key of a filter is ruled out by it |
| FilterBlock.FilterBlockBuilder.AddKey | ios/Pods/leveldb-library/table/filter_block.cc:29-33 | The key joins the pending ones |
| FilterBlock.FilterBlockBuilder.SplitKeys | ios/Pods/leveldb-library/table/filter_block.cc:59-66 | The flattened keys come apart again |
| FilterBlock.FilterBlockBuilder.GenerateFilter | ios/Pods/leveldb-library/table/filter_block.cc:51-75 | The pending keys become the next group, with an empty filter for none |
| FilterBlock.FilterBlockBuilder.StartBlock | ios/Pods/leveldb-library/table/filter_block.cc:21-27 | Groups are closed up to the 2 KB of the new offset, the pending keys in the first of them |
| FilterBlock.FilterBlockBuilder.Finish | ios/Pods/leveldb-library/table/filter_block.cc:35-49 | Every group's filter, the offset array and the parameter, as the reader expects them |
| FilterBlock.KeyMayMatch | ios/Pods/leveldb-library/table/filter_block.cc:77-104 | Of any contents: errors are potential matches, an empty filter matches nothing, and the filter between two offsets answers for itself; on a finished block that is the filter for the block's offset |
| FilterBlock.IndexIs | ios/Pods/leveldb-library/table/filter_block.cc:91 | The shift to the filter's index is a division by a power of two |
| FilterBlock.BlockMayMatch | ios/Pods/leveldb-library/table/filter_block.cc:77-104 | No key added for a block is ruled out at the block's offset |
| VersionEdit.PutRecords | ios/Pods/leveldb-library/db/version_edit.cc:41-85 | Reading an edit's records into a cleared edit makes the edit, behind any compaction pointers already there |
| VersionEdit.InOrderIs | ios/Pods/leveldb-library/db/version_edit.cc:69-74 | The deleted files are written each once, in the order of their set |
| VersionEdit.VersionEdit.EncodeTo | ios/Pods/leveldb-library/db/version_edit.cc:41-85 | Appends the records of the edit, of lengths their low 32 bits |
| VersionEdit.VersionEdit.Clear | ios/Pods/leveldb-library/db/version_edit.cc:26-39 | Everything is cleared but the compaction pointers |
| VersionEdit.VersionEdit.ReadRecord | ios/Pods/leveldb-library/db/version_edit.cc:121-193 | A tag's record is read and put into the edit exactly if one is there; if not, the message names what is missing and the edit stays |
| VersionEdit.VersionEdit.DecodeFrom | ios/Pods/leveldb-library/db/version_edit.cc:107-205 | Of any bytes it makes the cleared edit with exactly the records put in that read one after the other; there is a message exactly if bytes are left, the one for the next tag |
| VersionEdit.RecordsReadOnce | ios/Pods/leveldb-library/db/version_edit.cc:121-193 | Bytes start with a record in one way at most |
| VersionEdit.EditParses | ios/Pods/leveldb-library/db/version_edit.cc:41-205 | The bytes of an edit that fits its encoding read as its records and in no other way |
| VersionEdit.RoundTrip | ios/Pods/leveldb-library/db/version_edit.cc:41-205 | An edit reads back as it was written if and only if it fits its encoding: strings below 4 GB and levels that exist |
| PbFields.FieldIter.Next | ios/Pods/nanopb/pb_common.c:29-85 | Moves to the next field, or back to the first at the end |
| PbFields.FieldIter.Find | ios/Pods/nanopb/pb_common.c:87-105 | Finds the field with the tag from any place in the circle, or there is none and it stays |
| PbFields.DefaultsAreTyped | ios/Pods/nanopb/pb_decode.c:917-932 | The defaults are a message of the schema |
| PbFields.ZeroIsDefault | ios/Pods/nanopb/pb_encode.c:240-338 | A value that proto3 leaves off the wire is the one the decoder starts from |
| PbEncode.OStream.Write | ios/Pods/nanopb/pb_encode.c:103-124 | Succeeds exactly when there is room, then counts the bytes and, if writing, appends them |
| PbEncode.OStream.EncodeVarint | ios/Pods/nanopb/pb_encode.c:608-628 | Writes the base-128 varint |
| PbEncode.GroupsAreVarint | ios/Pods/nanopb/pb_encode.c:608-628 | The loop's groups are the varint's bytes |
| PbEncode.EncodeValue | ios/Pods/nanopb/pb_encode.c:769-911 | Writes the value's encoding exactly when it is in bounds and there is room |
| PbEncode.EncodeSubmessage | ios/Pods/nanopb/pb_encode.c:717-765 | Sizing pass and writing pass agree, so with room the submessage is written, length first |
| PbEncode.PackedSize | ios/Pods/nanopb/pb_encode.c:165-186 | The size written before a packed array is that of its elements |
| PbEncode.EncodePacked | ios/Pods/nanopb/pb_encode.c:158-212 | Writes key, size and elements, sizing or writing |
| PbEncode.EncodeArray | ios/Pods/nanopb/pb_encode.c:147-236 | Writes the array packed or element by element exactly when it is in bounds and there is room |
| PbEncode.EncodeBasicField | ios/Pods/nanopb/pb_encode.c:341-426 | Writes the field by its rule: required, optional, non-zero proto3, repeated, the chosen oneof member |
| PbEncode.Encode | ios/Pods/nanopb/pb_encode.c:528-550 | Succeeds exactly when the message is in bounds and there is room, and writes exactly its encoding |
| PbEncode.GetEncodedSize | ios/Pods/nanopb/pb_encode.c:567-576 | The sizing pass counts exactly the bytes of the encoding |
| PbEncode.EncodeToBuffer | ios/Pods/nanopb/pb_encode.c:86-124 | A buffer of the counted size is enough and no smaller one is |
| PbStream.IStream.Read | ios/Pods/nanopb/pb_decode.c:102-139 | Takes exactly the bytes asked for, or fails and takes none |
| PbStream.IStream.DecodeVarint | ios/Pods/nanopb/pb_decode.c:255-276 | Of any bytes: at most ten groups are taken, and 64 bits of their sum |
| PbStream.IStream.DecodeVarint32 | ios/Pods/nanopb/pb_decode.c:187-247 | Of any bytes: the groups up to the first byte without its top bit, with 32 bits kept and overflow refused as the source does |
| PbWireLaws.WrittenVarint | ios/Pods/nanopb/pb_decode.c:255-276 | A 64-bit number that was written reads back, whatever follows it |
| PbWireLaws.WrittenVarint32 | ios/Pods/nanopb/pb_decode.c:187-247 | A non-negative number that was written reads back exactly if it fits 32 bits |
| PbWireLaws.WrittenNegative32 | ios/Pods/nanopb/pb_decode.c:218-232 | A negative 32-bit number, sent with 64 bits, reads back as its low 32 bits |
| PbWireLaws.WrittenSized | ios/Pods/nanopb/pb_decode.c:372-385 | Delimited bytes read back exactly if their length fits 32 bits |
| PbWireLaws.ValueIsSkipped | ios/Pods/nanopb/pb_decode.c:321-332 | A reader that does not know a field skips exactly its value, by the number of its wire type, if its length fits 32 bits |
| PbStream.IStream.SkipField | ios/Pods/nanopb/pb_decode.c:321-332 | By number: 0 skips a varint, 1 eight bytes, 2 a length and that many bytes, 5 four bytes, and any other fails |
| PbStream.IStream.DecodeTag | ios/Pods/nanopb/pb_decode.c:298-319 | Of any bytes: field number and wire type of the key, and the end for no bytes or a zero key |
| PbStream.IStream.MakeStringSubstream | ios/Pods/nanopb/pb_decode.c:372-385 | Of any bytes: the substream is the delimited bytes, if there are as many, and the stream goes on behind them |
| PbStream.IStream.CloseStringSubstream | ios/Pods/nanopb/pb_decode.c:387-401 | What the substream left over is skipped |
| PbReadsBack.CastsAreExact | ios/Pods/nanopb/pb_decode.c:1334-1425 | An integer field takes exactly the numbers that fit its width, a signed one from any number with its low 32 or 64 bits |
| PbReadsBack.IntegersRoundTrip | ios/Pods/nanopb/pb_decode.c:1285-1428 | Every integer of every width survives sign extension or zigzag, the cast and the range check |
| PbReadsBack.LittleEndianRoundTrip | ios/Pods/nanopb/pb_decode.c:1299-1332 | Fixed-width numbers survive their bytes |
| PbReadsBack.CStringIsWhole | ios/Pods/nanopb/pb_encode.c:873-896 | A string without a zero byte is read back whole |
| PbDecode.DecodeBytes | ios/Pods/nanopb/pb_decode.c:1447-1523 | Of any bytes: the delimited bytes, exactly if they are shorter than the limit |
| PbDecode.DecodeValue | ios/Pods/nanopb/pb_decode.c:1334-1562 | Of any bytes: what they mean as a value of the type, read into what is there |
| PbReadsBack.ValueReadsBack | ios/Pods/nanopb/pb_decode.c:1334-1562 | A value's encoding means the value exactly if every string in it leaves room for its terminator and every length fits 32 bits, and nothing otherwise |
| PbReadsBack.PackedReadsBack | ios/Pods/nanopb/pb_decode.c:423-452 | A packed array's bytes mean the array |
| PbDecode.DecodeSubmessage | ios/Pods/nanopb/pb_decode.c:1525-1547 | Of any bytes: the message they mean, on top of the one there or, for array entries, of the defaults |
| PbDecode.DecodePacked | ios/Pods/nanopb/pb_decode.c:423-452 | Of any bytes: the entries to the end of the delimited bytes, refusing more than the array holds |
| PbDecode.DecodeStaticField | ios/Pods/nanopb/pb_decode.c:406-488 | Of any bytes: what the field's slot becomes by its rule, packed or not, a value that came before replaced, appended to or merged into |
| PbDecode.AllRequiredSeen | ios/Pods/nanopb/pb_decode.c:1039-1079 | The bitmap check passes exactly if the numbers of the first 64 required fields came |
| PbDecode.DecodeOneField | ios/Pods/nanopb/pb_decode.c:952-1029 | Each turn of the loop takes one key and what it announces, known or not, and stores it as the meaning of the bytes says |
| PbDecode.DecodeNoInit | ios/Pods/nanopb/pb_decode.c:934-1082 | Of any bytes: it succeeds exactly if they read as parts up to their end or a zero key, the parts can be stored one after the other, and every one of the first 64 required fields is among them; then it makes what storing them makes |
| PbDecode.Decode | ios/Pods/nanopb/pb_decode.c:1084-1096 | The same on top of the defaults |
| PbLaws.MessageIsParts | ios/Pods/nanopb/pb_decode.c:934-1082 | Bytes mean a message exactly if they read as parts up to an end, storing the parts makes it, and no checked required field is missing from the parts |
| PbLaws.NothingIsMessage | ios/Pods/nanopb/pb_decode.c:1039-1079 | No bytes at all are a message exactly if no field is required |
| PbLaws.ConcatenationMerges | ios/Pods/nanopb/pb_decode.c:952-1029 | What follows bytes that read as whole parts goes on from the message they make: concatenated messages merge |
| PbLaws.UnknownIsIgnored | ios/Pods/nanopb/pb_decode.c:991-994 | A part whose number no field has changes nothing, wherever it stands |
| PbReadsBack.MessageReadsBack | ios/Pods/nanopb/pb_decode.c:934-1082 | A message's encoding means the message exactly if every string leaves room for its terminator and every length fits 32 bits, and nothing otherwise |
| PbProgress.SomethingComes | ios/Pods/nanopb/pb_decode.c:952-1029 | While bytes are left, what comes next is a value or packed array of the message |
| PbRoundTrip.RoundTrip | ios/Pods/nanopb/pb_encode.c:528-550 | A message is sent exactly when in bounds and with room, comes back exactly when every string leaves room for its terminator and every length fits 32 bits, and then unchanged |
| PbRoundTrip.FullStringIsLost | ios/Pods/nanopb/pb_decode.c:1487-1523 | A concrete message that is in bounds and whose encoding means nothing to the decoder: its string fills the buffer |

## Left out

The store
- Flushes, compactions, trivial moves and edit installations are atomic steps; the memtable flush inside a running compaction (`db/db_impl.cc:908-918`) and the unlocked window of LogAndApply are not modelled.
- User keys are real numbers in the modules about levels, reads and iterators (every comparator's order embeds there); bytewise comparison is in module Comparator.
- When compactions start and which level and file they pick (scores, seek counts, read sampling, compaction pointers) is left open: the model allows any file of any level.
- The two rules by which output files are cut (grandparent overlap, file size) are arbitrary choices per entry, and file sizes are parameters; what the loop makes of the choices is exact.
- DbImpl.DB.Write: takes one batch at a time, and requires that sequence numbers stay below the 56-bit maximum, which the source never checks; groups of writers are in module GroupCommit.
- DbImpl.DB.BackgroundCompaction: background errors and shutdown are not modelled.
- Manifest.ReplayManifest: recovery is about file lists; the log and file numbers in the records (their bytes are in module VersionEdit), replaying log files into memtables, reusing a MANIFEST, CURRENT files and obsolete files are not modelled.
- The linked list behind snapshots is a sequence, oldest first.
- Memtable entries as arena bytes, and LookupKey's buffer: the memtable is a sorted list of entries.

Iterators
- Unparsable internal keys, iterator status and the read-sampling of DBIter are not modelled.
- Deeper levels enter the merging iterator as one concatenation per level; the file-number iterator of `db/version_set.cc:163-209` is not part of this model.

Group commit
- Mutex and condition variables are replaced by interleaved steps with sequentially consistent memory; MakeRoomForWrite may fail or succeed but its delays are not modelled.
- A log write that fails may have written its record or not; the background error it raises is not modelled.

The log
- Starting at an initial offset (resyncing) and I/O errors of the destination are not modelled; complaints are exact for each fragment but not added up over a damaged file.
- The checksum is an arbitrary step function there; the polynomial is in module Crc32c.

Tables and formats
- TableBuilder.Builder.Add: whether the block is full and the size it takes are parameters, since data blocks are lists of rows here; their bytes are in modules BlockBuilder and Block.
- TableBuilder.Builder.Finish: that the filter covers every key holds for filter blocks below 4 GB, because offsets are stored in 32 bits; the metaindex block and the footer are not modelled.
- TwoLevelIterator.Iter.InitDataBlock: reading a block cannot fail; status and errors are not modelled.
- Table.InternalGet: block cache, checksums and handle encoding are not modelled.
- Block.Iter.Seek: for blocks that a builder wrote and that fit their 32-bit lengths and offsets; corrupt blocks are not modelled.
- Bloom.CreateFilter: the number of probes is a parameter from 1 to 30, since the source computes it in floating point; the hash is any function.
- FilterBlock.FilterBlockBuilder.StartBlock: asks for offsets that do not fall back, as the source asserts.
- VersionEdit.VersionEdit.DecodeFrom: internal keys in an edit are byte strings, whatever they hold.
- Crc32c.StrideTables: the tables are given by their linear meaning and not by their numbers; hardware acceleration is not modelled.
- Snappy compression, the environment, loggers, `c.cc`, `dumpfile.cc`, `repair.cc`.

In memory
- SkipList.SkipList.Insert: nodes are named by their key and each level is a map of next pointers; heights are given, not random. Memory is sequentially consistent: the two writes of a link are separate events in program order.
- CacheLists.HandleTable.Insert: the chains are sequences in place of next_hash pointers; equal keys have equal hashes, as the source's hash function makes sure.
- Sharding, entry values and the destructor of the cache are not modelled; the deleter's runs are a list.

nanopb
- Callbacks, extensions, pointer fields, fixed-count arrays and struct offsets: a message is a list of typed field values.
- PbRoundTrip.RoundTrip: for buffers below 2^63 bytes, half the range of size_t; pb_size_t is taken with 32 bits (PB_FIELD_32BIT), narrower ones are not modelled.
- PbDecode.DecodeNoInit: what a failed call leaves in the message is not stated; explicit defaults of proto2 fields are not modelled, fields start from zero or empty.
- The bitmap of seen required fields is a list of bits, not 32-bit words.
- Delimited and null-terminated framing, and pb_release.

Elsewhere in the repository
- Window and plugin plumbing, AppAuth headers and BoringSSL's generated error table have no logic to model.

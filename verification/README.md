# A model of the storage engine behind the binding

This project models what a Node binding over LevelDB 1.20 and Snappy 1.1.4 does with data, and proves that the parts
that have to agree do agree. `dafny verify dfyconfig.toml` checks all of it.

Code that changes state is modelled by classes and methods with loops, arrays and linked nodes; each is proved against
a function of its inputs or of the old state, and what the code is for is proved about those functions, in terms that
do not name them. There are five groups.

- **Multi-version reads and writes.** Entries of a user key, a sequence number and a type are merged, hidden from
  snapshots, compacted away and committed through a queue of writers (`InternalKeys`, `DBIter`, `MergingIterator`,
  `LsmTree`, `Compaction*`, `DeletedValues`, `Overlap`, `Snapshots`, `VersionIterator`, `WriteBatch`, `WriteQueue*`,
  `Recovery`), and all of it together (`Flush`, `InstallVersion`, `Engine*`, `DBEngine`).
- **Files.** The write-ahead log, the manifest, table blocks, filter blocks and whole tables: writers and readers that
  undo each other, also when the end of the file is torn off or a block of it is damaged (`Log*`, `Manifest*`,
  `VersionBuilder`, `BlockFormat`, `Block`, `Bloom`, `FilterBlock`, `TwoLevelIterator`, `Table`, `TableBytes`,
  `KeyShortening`, and byte by byte in `FormatExamples`).
- **Compression.** Compressor and decompressor of the Snappy format, with their copies past the end of what they copy
  (`Snappy*`).
- **Pointer structures.** The skip list, also while a search and insertions interleave, and the block cache with its
  hash table and its circular lists (`SkipList*`, `LRUList`, `HandleTable`, `LRUCache`).
- **The binding's range iterator**: bounds, direction, limit, seeking, and entries that cross in chunks
  (`RangeIterator`).

Three readings are used throughout. The multi-version modules compare user keys only, so a user key is a real number
there; `RankedKeys` shows that byte strings in bytewise order are such keys, and that shortening bytes is shortening
those keys. A cursor over a sorted list stands for the contract of LevelDB's `Iterator`. A history of calls is the list
of what callers did, in the order in which they got the mutex.

## Model

| member | source | states |
|---|---|---|
| DBIters.Run | deps/leveldb/leveldb-1.20/db/db_iter.cc:146-304 | Any legal sequence of Seek, SeekToFirst, SeekToLast, Next and Prev, with changes of direction, shows exactly what the same sequence shows on the list of the snapshot's live pairs |
| DBIterSpec.ViewIsSnapshotMap | deps/leveldb/leveldb-1.20/db/db_iter.cc:34-40 | That list is strictly increasing in the user key and holds a pair exactly when a read of the key at the snapshot's sequence number returns the value |
| DBIters.DBIter.FindNextUserEntry | deps/leveldb/leveldb-1.20/db/db_iter.cc:173-203 | Scanning forward passes over exactly what is skipped, too new, hidden or deleted, and stops at the first live entry after it |
| DBIters.DBIter.FindPrevUserEntry | deps/leveldb/leveldb-1.20/db/db_iter.cc:232-272 | Scanning backward saves the key and value of the last live entry at or before the cursor, or finds that there is none |
| MergingIterators.MergingIterator.Next | deps/leveldb/leveldb-1.20/table/merger.cc:59-83 | One position on in the sorted union of the children, also after moving backwards |
| MergingIterators.MergingIterator.Prev | deps/leveldb/leveldb-1.20/table/merger.cc:85-112 | One position back in the sorted union of the children, also after moving forwards |
| MergingIterators.MergingIterator.Seek | deps/leveldb/leveldb-1.20/table/merger.cc:51-58 | The first entry of the union at or after the target |
| MergeSpec.UnionIsSortedUnion | deps/leveldb/leveldb-1.20/table/merger.cc:20-155 | The union is strictly sorted and holds exactly the entries of the children |
| LsmTree.SearchIsNewest | deps/leveldb/leveldb-1.20/db/version_set.cc:332-429 | A point read that stops at the first file with an entry of the key returns the newest visible entry of the whole version |
| LsmTree.FindFile | deps/leveldb/leveldb-1.20/db/version_set.cc:86-105 | Binary search returns the index of the first file whose largest key is at or after the target |
| VersionIterators.IteratorsAgreeWithGet | deps/leveldb/leveldb-1.20/db/version_set.cc:234-254 | What an iterator over a version shows of a user key at a sequence number is what a point read returns |
| VersionIterators.SeekIsFindFile | deps/leveldb/leveldb-1.20/db/version_set.cc:164-225 | Seeking in the list of a level's files is the binary search for the file |
| CompactionExact.ReadKeptIff | deps/leveldb/leveldb-1.20/db/db_impl.cc:887-1008 | A read at or above the smallest snapshot survives an installed compaction exactly when a condition on the files before it holds: what holds the newest entry, what is left out of the inputs, and whether deeper levels hold the key |
| CompactionExact.AllReadsKeptIff | deps/leveldb/leveldb-1.20/db/db_impl.cc:887-1008 | All reads at or above the smallest snapshot survive exactly when the condition holds for each of them |
| CompactionExact.CompactionKeepsReads | deps/leveldb/leveldb-1.20/db/db_impl.cc:887-1008 | Compaction keeps every live read and the shape of the version when the inputs share no user key with a file left out of their levels |
| CompactionRuns.RunKeepsReads | deps/leveldb/leveldb-1.20/db/db_impl.cc:686-769 | Every run of compactions keeps every live read as long as none but the last cuts its outputs inside a user key |
| CompactionRuns.TidyStep | deps/leveldb/leveldb-1.20/db/db_impl.cc:887-1008 | One compaction of a version with no user key in two files of a level above 0 keeps all live reads, and leaves such a version exactly when no output is cut inside a user key |
| CompactionRuns.OutputLevelApartIff | deps/leveldb/leveldb-1.20/db/db_impl.cc:930-936 | The files of the output level share no user key exactly when no two consecutive outputs split one |
| DeletedValues.DeletedValueReturns | deps/leveldb/leveldb-1.20/db/db_impl.cc:686-769 | Two memtables are flushed, a compaction cuts its outputs between a deletion and the value it deletes, and the next one moves only the file of the deletion down: the code's own methods, after which the deleted value is read again |
| CompactionRuns.MoveIsCompaction | deps/leveldb/leveldb-1.20/db/version_set.cc:1466-1474 | Moving a file down that overlaps nothing in the next level is a compaction that drops nothing |
| CompactionRuns.BackgroundCompaction | deps/leveldb/leveldb-1.20/db/db_impl.cc:686-769 | The inputs are those that the file picked or the range asked for lead to, grown exactly when that pays; one file is moved down exactly when it was picked, nothing of the next level goes with it and not too much lies two levels down; otherwise the inputs are merged and what is kept is written |
| Compactions.DoCompactionWork | deps/leveldb/leveldb-1.20/db/db_impl.cc:910-1008 | The output files are non-empty and hold exactly the entries of the inputs that no newer one at or below the smallest snapshot hides and that are no deletion at or below it of a key that no file two levels down or deeper spans; in order, and cut where the decisions to stop say |
| Compactions.Compaction.ShouldDrop | deps/leveldb/leveldb-1.20/db/db_impl.cc:938-973 | An entry is dropped exactly when a newer one of its key is at or below the smallest snapshot, or it is a deletion at or below it and no deeper level reaches its key |
| Compactions.Compaction.IsBaseLevelForKey | deps/leveldb/leveldb-1.20/db/version_set.cc:1484-1503 | For keys asked in non-decreasing order, the moving pointers answer exactly whether no file from two levels further down on spans the key |
| CompactionDrops.KeptIff | deps/leveldb/leveldb-1.20/db/db_impl.cc:938-973 | An entry is kept if and only if it is one of the inputs', none newer at or below the smallest snapshot hides it, and it is no deletion at or below that of a key that no file two levels down or deeper spans |
| CompactionDrops.OnlyNewestValues | deps/leveldb/leveldb-1.20/db/db_impl.cc:938-973 | With nothing two levels down and all numbers at or below the smallest snapshot, what is kept is of each user key the newest entry, if that is a value: no deletion is left |
| CompactionDrops.DroppedIff | deps/leveldb/leveldb-1.20/db/version_set.cc:1484-1503 | What the drop rule, with the number of the last entry of the key, drops is exactly what is hidden or obsolete |
| CompactionCuts.CutsIff | deps/leveldb/leveldb-1.20/db/db_impl.cc:928-1004 | Two entries that are kept one after the other are for the same output, unless the first makes that big enough, or the second or an entry dropped in between is not to go into the same file: then for the next; the first one kept is for the first output |
| CompactionCuts.InItsFile | deps/leveldb/leveldb-1.20/db/db_impl.cc:981-1004 | In the end every entry that is kept is in the output that it is for |
| CompactionReads.CompactionKeepsSearchable | deps/leveldb/leveldb-1.20/db/version_set.cc:665-773 | Every level of the new version is sorted without overlap, whatever the inputs share with files left out |
| CompactionReads.CompactionKeepsShape | deps/leveldb/leveldb-1.20/db/db_impl.cc:961-968 | Newer data stays above older when the inputs of the upper level share no user key with a file left out |
| CompactionInstalls.InstallCompactionResults | deps/leveldb/leveldb-1.20/db/db_impl.cc:866-885 | What the builder makes of the edit that deletes the inputs and adds the outputs is the version that the theorems about compactions start from, and it can be compacted again |
| CompactionInstalls.SavedIsInstalled | deps/leveldb/leveldb-1.20/db/version_set.cc:665-773 | The files of a saved version, looked up by number, are those before without the inputs and with the outputs, each level by smallest key |
| CompactionInstalls.InstalledKeepsReads | deps/leveldb/leveldb-1.20/db/db_impl.cc:866-885 | Installed in a version with no user key in two files of a level above 0, a compaction keeps every live read |
| Flushes.PickLevelForMemTableOutput | deps/leveldb/leveldb-1.20/db/version_set.cc:502-528 | As deep as the second level with no overlap in any level down to it and not too much two levels further down, and no less deep than that |
| Flushes.FlushReads | deps/leveldb/leveldb-1.20/db/db_impl.cc:488-532 | With the memtable's file at that level, a read finds what the memtable has and otherwise what was there |
| Flushes.FlushKeepsTidy | deps/leveldb/leveldb-1.20/db/db_impl.cc:534-565 | Such a file leaves newer data above older and no user key in two files of a level above 0 |
| NextVersions.CompactedIsInstalled | deps/leveldb/leveldb-1.20/db/db_impl.cc:866-885 | Taking the inputs out of a version and putting the outputs where they belong, by smallest key, is the step that the theorems speak of |
| VersionIterators.CompactionMerges | deps/leveldb/leveldb-1.20/db/version_set.cc:1258-1289 | The merging iterator over a compaction's inputs yields their entries, sorted |
| Snapshots.CompactionKeepsSnapshots | deps/leveldb/leveldb-1.20/db/db_impl.cc:900-904 | With the smallest snapshot taken from the list, every holder of a snapshot reads what it read before |
| Snapshots.SnapshotList.SmallestSnapshot | deps/leveldb/leveldb-1.20/db/snapshot.h:36-38 | The oldest snapshot's number is at or below every other one in the list, and the last sequence when there is none |
| Snapshots.SnapshotList.Delete | deps/leveldb/leveldb-1.20/db/snapshot.h:53-58 | Splicing the snapshot out leaves the circular list with the others, in order |
| Snapshots.SnapshotList.New | deps/leveldb/leveldb-1.20/db/snapshot.h:42-51 | Splicing a new snapshot in before the head makes it the newest |
| Overlap.GetOverlappingInputs | deps/leveldb/leveldb-1.20/db/version_set.cc:531-572 | Terminates and returns exactly the files that touch a range: the one asked for above level 0, and on level 0 the least range that contains it and is closed under overlap |
| Overlap.SomeFileOverlapsRange | deps/leveldb/leveldb-1.20/db/version_set.cc:121-155 | True exactly when some file touches the range, by scanning all files or by binary search |
| Overlap.SetupOtherInputs | deps/leveldb/leveldb-1.20/db/version_set.cc:1345-1411 | The inputs of the next level are exactly the files that overlap those of the first; the wider inputs, all files of the first level that overlap both, are taken exactly when there are more of them, together they are smaller than the limit, and no more files of the next level overlap them |
| Overlap.PickInputs | deps/leveldb/leveldb-1.20/db/version_set.cc:1291-1343 | The first inputs are the file picked; on level 0 exactly the files touched by every range that holds its keys and covers each file it touches |
| Overlap.ChosenUnshared | deps/leveldb/leveldb-1.20/db/version_set.cc:1345-1411 | Where the files of a level share no user keys, the chosen inputs share none with what is left out |
| Overlap.CompactRange | deps/leveldb/leveldb-1.20/db/version_set.cc:1413-1446 | On level 0 the files that overlap a range, with all that they lead to; on others the least number of files that overlap it, from the first on, that reaches a size, or all; the theorems allow them to be chosen |
| WriteQueue.Run | deps/leveldb/leveldb-1.20/db/db_impl.cc:1194-1314 | In every interleaving of calls with the steps of group commit, memtable switches, failures and background errors, the machine is where `After` says: which calls have ended and how, which wait, what is logged and what is in the memtables; when nothing fails no call does. Between groups the memtables hold exactly what the successful calls, executed one by one in the order of the calls, put there, with increasing numbers; each is in a log record, a synced one if it asked for that |
| WriteQueue.DBImpl.Serializable | deps/leveldb/leveldb-1.20/db/db_impl.cc:1194-1264 | The same of any state that the invariants allow, and no number is beyond the last sequence |
| WriteQueue.DBImpl.BuildBatchGroup | deps/leveldb/leveldb-1.20/db/db_impl.cc:1269-1314 | The group is the one that `FullGroup` allows: the first writers in order, as many as fit, never one that asks for a sync behind a leader that does not; its batch is theirs joined |
| WriteQueueSpec.GroupIsUnique | deps/leveldb/leveldb-1.20/db/db_impl.cc:1269-1314 | A queue has only one group that is as long as the limits allow and no longer |
| WriteQueueLaws.GroupLimits | deps/leveldb/leveldb-1.20/db/db_impl.cc:1269-1314 | A group ends where one more would take it beyond 128 KiB more than its first batch when that is no larger itself, beyond 1 MiB otherwise, or where a request asks for a sync that the first does not ask for |
| WriteQueueLaws.TurnOf | deps/leveldb/leveldb-1.20/db/db_impl.cc:1194-1264 | A turn of the queue, whatever the outcomes of the append and the sync: one group ends, its calls all OK or all failed, its updates join the log when the append worked and the memtable when the sync did too, and only a failed sync makes all later writes fail |
| WriteQueueLaws.NoneFails | deps/leveldb/leveldb-1.20/db/db_impl.cc:1194-1264 | In any run without a failed append, sync or background error no call fails |
| WriteQueueLaws.Drained | deps/leveldb/leveldb-1.20/db/db_impl.cc:1194-1264 | As many good turns as calls wait end all of them with OK, and all of their updates are in the memtable, in order |
| WriteQueueLaws.ErrorIsFinal | deps/leveldb/leveldb-1.20/db/db_impl.cc:1204-1248 | Once the background error is set, no step adds to the log or the memtable, and every call that ends fails |
| WriteQueueSpec.SerialIncreases | deps/leveldb/leveldb-1.20/db/db_impl.cc:1217-1247 | Executed in order, no sequence number is given twice |
| Engines.Run | deps/leveldb/leveldb-1.20/db/db_impl.cc:1109-1154 | After any run of the steps of group commit, memtable flushes, compactions that cut between user keys, and snapshots taken and released, the queue, the flushed part and the snapshots held are what `EngineAfter` says; when nothing fails no write does; and a read now or at any held snapshot, through memtables and tables, is the last write of the key up to that number among the successful writes in the order of the calls |
| EngineLaws.SnapshotReads | deps/leveldb/leveldb-1.20/db/db_impl.cc:1175-1184 | A snapshot that is taken is held with the number of the last write that had ended, until one is released, and what is read at it stays what it was, whatever is written, flushed or compacted meanwhile |
| EngineLaws.ReleasedIsGone | deps/leveldb/leveldb-1.20/db/db_impl.cc:1180-1184 | Releasing a snapshot lets exactly it go |
| EngineLaws.NoWriteFails | deps/leveldb/leveldb-1.20/db/db_impl.cc:1194-1264 | In any run of the engine without a failure no write fails |
| Engines.TakeEngineStep | deps/leveldb/leveldb-1.20/db/db_impl.cc:488-769 | What each step does to the version: a flush puts the earlier memtable at the level picked for it; a compaction puts in the outputs of the inputs asked for, merged at the smallest snapshot, exactly when they are cut between user keys; no other step changes it |
| Engines.Engine.ReadsAreSerial | deps/leveldb/leveldb-1.20/db/db_impl.cc:1109-1154 | The same of any state that the invariants allow, for every number from which on no compaction has dropped anything |
| Engines.Engine.Flush | deps/leveldb/leveldb-1.20/db/db_impl.cc:488-565 | Afterwards the earlier memtable is a file of the tables, at the level that `PickLevelForMemTableOutput` gives it, nothing else has changed, and the invariants hold |
| Engines.Engine.Compact | deps/leveldb/leveldb-1.20/db/db_impl.cc:686-769 | A compaction, picked or of a range, with the smallest snapshot held, is in the version afterwards, unless there is nothing to compact or it would cut inside a user key; the invariants hold |
| WriteBatches.InsertInto | deps/leveldb/leveldb-1.20/db/write_batch.cc:42-134 | A batch's updates go into the memtable with consecutive numbers up to where the bytes are malformed; it succeeds exactly when all of them parse and the count is right |
| WriteBatches.BatchRoundTrip | deps/leveldb/leveldb-1.20/db/write_batch.cc:42-111 | Reading the bytes of a batch gives back its updates, its count and its sequence number |
| FormatExamples.Batch | deps/leveldb/leveldb-1.20/db/write_batch.cc:5-14 | The header and the records of a batch, byte by byte |
| WriteBatches.WriteBatch.Append | deps/leveldb/leveldb-1.20/db/write_batch.cc:141-145 | The other batch's updates follow this one's, and the count is their sum |
| Recovery.RecoverAfterCrash | deps/leveldb/leveldb-1.20/db/db_impl.cc:365-486 | Whatever prefix of the log survives, replaying it succeeds, paranoid or not, and recovers exactly the batches wholly in it |
| Recovery.RecoverLogFile | deps/leveldb/leveldb-1.20/db/db_impl.cc:365-486 | On any file the records replayed are a prefix of those that the reader gives, and all of them when replay succeeds; it fails only when it is paranoid and the reader reports something or a record is too short or malformed |
| Recovery.CallIsRecovered | deps/leveldb/leveldb-1.20/db/db_impl.cc:1194-1264 | A successful call whose record survives is recovered whole |
| Recovery.NothingBeyondLast | deps/leveldb/leveldb-1.20/db/db_impl.cc:430-438 | No recovered entry has a number beyond the last sequence recovered, when no batch's numbers wrap |
| LogProperties.CrashPrefix | deps/leveldb/leveldb-1.20/db/log_reader.cc:60-281 | Reading any byte prefix of a log gives exactly the records wholly in it, and no corruption report |
| LogProperties.WriteThenRead | deps/leveldb/leveldb-1.20/db/log_writer.cc:36-109 | Records written one by one and read again come back, without a report |
| LogDamage.DamageStaysLocal | deps/leveldb/leveldb-1.20/db/log_reader.cc:75-179 | A log damaged in one block that is not the last, so that the first altered physical record is bad: reading gives the records before it and, of those after, exactly the ones that start in later blocks; nothing is spliced |
| Log.ReadAll | deps/leveldb/leveldb-1.20/db/log_reader.cc:60-281 | On any file, damaged or not, the reader gives the records and the number of reports that its scan makes of the physical records it meets, whatever their types |
| LogTypes.ReadAsDescribedIff | deps/leveldb/leveldb-1.20/db/log_reader.cc:75-179 | The reader gives the records and reports of the format description, where types that are not understood are skipped and reported, exactly when it meets no type that it takes for the end of the file, and none that it takes for a bad record while no record is open |
| LogTypes.LostBehindEnd | deps/leveldb/leveldb-1.20/db/log_reader.cc:152-167 | The records of the description that the reader does not give are exactly those behind the first type that it takes for the end of the file |
| LogTypes.SilentEnd | deps/leveldb/leveldb-1.20/db/log_reader.h:81-90 | A file where the one type hides the record behind it without a report |
| LogTypes.SilentSkip | deps/leveldb/leveldb-1.20/db/log_reader.h:81-90 | A file where the other type is skipped without a report |
| LogTypes.ParanoidReplay | deps/leveldb/leveldb-1.20/db/db_impl.cc:365-486 | A paranoid replay that succeeds has replayed all that the description finds in the file, nothing of it skipped, exactly under that condition |
| LogTypes.ReplayEndsEarly | deps/leveldb/leveldb-1.20/db/db_impl.cc:365-486 | A paranoid replay that succeeds with a record not replayed |
| Log.Writer.AddRecord | deps/leveldb/leveldb-1.20/db/log_writer.cc:36-109 | What is appended is the record cut into fragments that fit the blocks, each with its checksum, length and type, behind zeros where no header fits |
| LogLaws.RecordTypes | deps/leveldb/leveldb-1.20/db/log_format.h:14-29 | A record that fits in its block becomes one physical record, of type 1; any other fills the rest of the block with one of type 2, every whole block with one of type 3, and ends with one of type 4 |
| LogLaws.DescribedExample | deps/leveldb/leveldb-1.20/doc/log_format.md:40-53 | The example of the description: of records of 1000, 97270 and 8000 bytes the first is whole in the first block, the second is cut in three and leaves six bytes of the third, and the third is whole in the fourth |
| LogFailures.FallibleWriter.AddRecord | deps/leveldb/leveldb-1.20/db/log_writer.cc:36-109 | When appends may be short: what is in the file, where the writer thinks it is, and when the call succeeds; the offset moves past every physical record however much of it is there, and nobody looks at the append of a trailer |
| LogFailures.WriteThenRead | deps/leveldb/leveldb-1.20/db/log_writer.cc:36-109 | For every run of calls and every outcome of their appends: up to the first missing byte the records of the calls that got to their last physical record are read, in order; a call that succeeds has got there |
| LogFailures.WithoutLoss | deps/leveldb/leveldb-1.20/db/log_writer.cc:84-109 | While no byte is missing, calls that only failed to flush do no harm, whatever comes behind them, and at most the calls cut short are reported |
| LogLosses.LaterCallsLost | deps/leveldb/leveldb-1.20/db/log_writer.cc:84-109 | When the end of a payload is missing and the calls behind it are shorter than that, none of them is read, successful or not, and nothing more is reported |
| LogLosses.SuccessIsLost | deps/leveldb/leveldb-1.20/db/log_writer.cc:84-109 | Two calls at work: the first fails, the second succeeds, and reading the file gives nothing, without a report |
| LogLosses.TrailerLost | deps/leveldb/leveldb-1.20/db/log_writer.cc:46-56 | A call whose trailer is missing succeeds, and a record shorter than the trailer is not read |
| LogLosses.SuccessIsReadIff | deps/leveldb/leveldb-1.20/db/log_writer.cc:46-56 | On a log without a failure so far, the record of a call that succeeds is read exactly when the trailer before it got there |
| LogLosses.HarmlessIff | deps/leveldb/leveldb-1.20/db/log_writer.cc:84-109 | A call that lacks bytes at the end of its last payload, or none, does no harm to any later calls, exactly when it lacks none |
| Checksums.StoredIsFaithful | deps/leveldb/leveldb-1.20/util/crc32c.h:31-40 | Unmasking the stored word gives the checksum exactly when the stored bytes are the masked checksum |
| Rotations.TurnedBits | deps/leveldb/leveldb-1.20/util/crc32c.h:31-40 | The rotations of the mask, and of the Bloom filter's step, bit by bit |
| ManifestRecovery.LogThenRecover | deps/leveldb/leveldb-1.20/db/version_set.cc:905-1025 | The version recovered from the manifest is the one that the edits, applied one at a time, had built, file by file and in order |
| ManifestRecovery.Recover | deps/leveldb/leveldb-1.20/db/version_set.cc:905-1025 | Recovery succeeds exactly when every record decodes and suits the comparator and the three numbers are there; it gives the version of the edits, and of each of the four numbers the last one that any edit has |
| ManifestRecovery.LeftIsLast | deps/leveldb/leveldb-1.20/db/version_set.cc:966-984 | A number recovered is the one of the last edit that has it, and there is none exactly when no edit has one |
| ManifestRecovery.AllEditsIff | deps/leveldb/leveldb-1.20/db/version_set.cc:943-965 | All edits are taken exactly when every record is well formed and names no other comparator |
| VersionSpec.EveryPrefixAgreesIff | deps/leveldb/leveldb-1.20/db/version_set.cc:665-773 | One builder for all edits agrees with one edit at a time after every edit exactly when no edit brings back a deleted number with a different file |
| VersionSpec.OneMoreEdit | deps/leveldb/leveldb-1.20/db/version_set.cc:665-773 | The same for one more edit in a builder |
| VersionSpec.AddedAgainDiffers | deps/leveldb/leveldb-1.20/db/version_set.cc:674-708 | Two edits for which they differ: a deleted file comes back |
| Versions.Builder.SaveTo | deps/leveldb/leveldb-1.20/db/version_set.cc:711-773 | Each level comes out sorted by smallest key and holds what the edits make of the base |
| Versions.MergeLevel | deps/leveldb/leveldb-1.20/db/version_set.cc:711-739 | Merging the added files into the base gives both without the deleted ones, in order |
| VersionEdits.EncodeThenDecode | deps/leveldb/leveldb-1.20/db/version_edit.cc:41-210 | Decoding an encoded edit gives it back |
| FormatExamples.NumberFields | deps/leveldb/leveldb-1.20/db/version_edit.cc:12-24 | The tags of an edit's numbers, byte by byte |
| FormatExamples.OtherFields | deps/leveldb/leveldb-1.20/db/version_edit.cc:41-95 | The other fields of an edit, byte by byte |
| VersionEdits.VersionEdit.DecodeFrom | deps/leveldb/leveldb-1.20/db/version_edit.cc:109-210 | Succeeds exactly on well formed fields, and the edit is what they say, in order; compaction pointers that were in it stay |
| VersionEdits.LastFieldCounts | deps/leveldb/leveldb-1.20/db/version_edit.cc:109-210 | When a field is there more than once in an edit, the last one counts |
| VersionEdits.GetVarint64 | deps/leveldb/leveldb-1.20/util/coding.cc:143-159 | The loop reads the 64-bit number at the front, or refuses one that is cut off or longer than ten bytes |
| Blocks.BuildAndRead | deps/leveldb/leveldb-1.20/table/block.cc:75-253 | For any increasing list and any restart interval, iterating forwards gives the list, backwards its reverse, and Seek the first entry at or after the target |
| Blocks.Build | deps/leveldb/leveldb-1.20/table/block_builder.cc:63-106 | Every so many entries there is a restart point, with its whole key; every other entry shares all that its key has in common with the one before; the block ends with the offsets of the restart points and their number |
| BlockFormat.RestartsEvery | deps/leveldb/leveldb-1.20/table/block_builder.cc:76-86 | The restart points are the entries at the multiples of the interval |
| Blocks.Iter.Seek | deps/leveldb/leveldb-1.20/table/block.cc:165-203 | Binary search over the restart points and a linear scan find the first key that is not before the target |
| Blocks.Iter.Prev | deps/leveldb/leveldb-1.20/table/block.cc:144-163 | Scanning from an earlier restart point goes back by exactly one entry |
| BlockFormat.ParseEntry | deps/leveldb/leveldb-1.20/table/block.cc:53-73 | Parsing at an entry's offset with the key before it gives its key and value |
| Tables.GetThroughBloom | deps/leveldb/leveldb-1.20/table/table.cc:226-255 | For every increasing list of entries and every key, a read of the table built from it, with index keys shortened by the bytewise comparator and Bloom filters, finds what a search of the whole list finds |
| TableBytes.GetThroughBytes | deps/leveldb/leveldb-1.20/table/table.cc:226-255 | The same with data blocks and index block as the bytes that the block builder writes, read through the block iterator: the item found is the bytes of the entry that a search of the whole list finds |
| TableBytes.Store | deps/leveldb/leveldb-1.20/table/table_builder.cc:92-254 | Every block of a table that fits, and its index, can be written as bytes, each under its handle |
| TableBytes.StoredTable.InternalGet | deps/leveldb/leveldb-1.20/table/table.cc:226-255 | The same by seeking on bytes in the index block, asking the filter, and seeking in the data block |
| Tables.Table.InternalGet | deps/leveldb/leveldb-1.20/table/table.cc:226-255 | Passes on the first entry at or after the key in the block that the index leads to, none where the filter denies the key; the first of the whole table when that has the key's user key |
| Tables.BuildTable | deps/leveldb/leveldb-1.20/table/table_builder.cc:92-254 | The table built from an increasing list can be opened and holds the list; a block is closed with the entry that makes it large enough, and index keys are the separators of the last key of a block and the first of the next, and for the last block the successor |
| Tables.Table.ReadForward | deps/leveldb/leveldb-1.20/table/two_level_iterator.cc:91-136 | Iterating over a table forwards gives the whole list |
| Tables.Table.ReadBackward | deps/leveldb/leveldb-1.20/table/two_level_iterator.cc:105-149 | Iterating over a table backwards gives the whole list, last entry first |
| TwoLevelIterators.TwoLevelIterator.Seek | deps/leveldb/leveldb-1.20/table/two_level_iterator.cc:91-96 | The first entry of all blocks at or after the target, whatever blocks are empty |
| Bloom.BloomNeverDenies | deps/leveldb/leveldb-1.20/util/bloom.cc:35-87 | A key that a Bloom filter was made from always may match |
| Bloom.MayMatchIff | deps/leveldb/leveldb-1.20/util/bloom.cc:35-87 | A Bloom filter admits a key exactly when each of its probes is a probe of some key in it |
| Bloom.FilterShape | deps/leveldb/leveldb-1.20/util/bloom.cc:20-51 | A filter has the fewest whole bytes with the bits asked for, eight at least, and last its number of probes: 69 for every 100 bits of a key, rounded down, from 1 to 30 |
| Bloom.ProbeIs | deps/leveldb/leveldb-1.20/util/bloom.cc:52-64 | Probe j of a key is its hash plus j times the rotated hash, in 32 bits |
| Varints.VarintRoundTrip | deps/leveldb/leveldb-1.20/util/coding.cc:47-158 | Reading a variable-length integer gives back its value and how many bytes it takes |
| Varints.GetVarint32PtrFallback | deps/leveldb/leveldb-1.20/util/coding.cc:112-129 | The loop reads the 32-bit number at the front, or refuses one that is cut off or longer than five bytes |
| FilterBlocks.AddedMayMatch | deps/leveldb/leveldb-1.20/table/filter_block.cc:22-109 | A key added while a block was written is never denied at the block's offset |
| FormatExamples.FilterBlockEnd | deps/leveldb/leveldb-1.20/table/filter_block.cc:13-50 | Each filter is for 2048 bytes of the file, and the block ends with the logarithm of that |
| FilterBlocks.FilterBlockBuilder.FinishFits | deps/leveldb/leveldb-1.20/table/filter_block.cc:36-50 | Filters that are short for their keys fit a block with 32-bit offsets |
| RankedKeys.OptionsShorten | deps/leveldb/leveldb-1.20/db/dbformat.cc:68-99 | Separators and successors found on the bytes of user keys meet what the table builder asks of the comparator |
| RankedKeys.ShorteningCommutes | deps/leveldb/leveldb-1.20/db/dbformat.cc:68-99 | Shortening the bytes of internal keys gives the bytes of the shortened keys |
| RankedKeys.BytesOrderKeys | deps/leveldb/leveldb-1.20/db/dbformat.cc:50-66 | The order of internal keys as bytes is the order of the keys that they hold |
| FormatExamples.InternalKey | deps/leveldb/leveldb-1.20/db/dbformat.cc:14-23 | An internal key byte by byte: the user key, the type, and the sequence number, low bytes first |
| InternalKeyBytes.InternalSeparatorSeparates | deps/leveldb/leveldb-1.20/db/dbformat.cc:68-85 | A separator is at or after the start and before the limit, is no longer, and when it differs lies strictly between the user keys |
| InternalKeyBytes.InternalSuccessorSucceeds | deps/leveldb/leveldb-1.20/db/dbformat.cc:87-99 | A successor is at or after the key and no longer, and when it differs has a larger user key |
| ByteOrder.SeparatorSeparates | deps/leveldb/leveldb-1.20/util/comparator.cc:29-51 | A bytewise separator is at or after the start, before the limit, and no longer than the start |
| ByteOrder.SeparatorIsShortest | deps/leveldb/leveldb-1.20/util/comparator.cc:29-51 | Where the keys differ by more than one, no key from the start up to the limit is shorter than the separator; otherwise it is the start |
| ByteOrder.SuccessorIsShortest | deps/leveldb/leveldb-1.20/util/comparator.cc:53-65 | No key from a key on is shorter than its successor |
| ByteOrder.FindShortestSeparator | deps/leveldb/leveldb-1.20/util/comparator.cc:29-51 | The loop over the common prefix and the edit of one byte give that separator |
| SnappyStream.RoundTrip | deps/snappy/snappy-1.1.4/snappy.cc:400-888 | Uncompressing what was compressed gives the data back, for every hash function and for every way the two sources hand out their regions |
| SnappyStream.Compress | deps/snappy/snappy-1.1.4/snappy.cc:809-888 | The stream is the length and, block by block, the bytes of the plan of the block; it decodes to the input, is at most 32 + n + n/6 bytes, and every store stays in a buffer of that size |
| SnappyStream.RawUncompress | deps/snappy/snappy-1.1.4/snappy.cc:784-802 | Succeeds exactly on well formed streams, with their contents, and writes nothing past the stated length |
| SnappyCompress.CompressFragment | deps/snappy/snappy-1.1.4/snappy.cc:400-527 | What is written are the bytes of the plan: of the literals and matches that probing the table at the positions of the skip heuristic finds, each match as long as it goes. It stands for the fragment, takes at most a sixtieth more and one byte, at most three bytes for every 64 and five when all bytes are equal, and overwrites nothing before it |
| SnappyCompress.Scan | deps/snappy/snappy-1.1.4/snappy.cc:450-484 | Positions are probed, and entered in the table, until one has the four bytes of the position that the table gives for it, which is found, or the next one would be too near the end: only then none is found |
| SnappyLaws.ScansByLooks | deps/snappy/snappy-1.1.4/snappy.cc:450-471 | The positions probed are those of the skip heuristic, and when nothing is found the next one would be behind the margin |
| SnappyLaws.FirstLooks | deps/snappy/snappy-1.1.4/snappy.cc:448-459 | The positions probed are one apart 32 times, then two apart |
| SnappyLaws.RunPlan | deps/snappy/snappy-1.1.4/snappy.cc:400-527 | Equal bytes: the first as it is and one match for all others |
| SnappyLaws.TwoRunsPlan | deps/snappy/snappy-1.1.4/snappy.cc:400-527 | Two runs: of each the first byte as it is and one match for the others |
| SnappyLaws.AfterOtherPlan | deps/snappy/snappy-1.1.4/snappy.cc:400-527 | A byte and a run of another: the two first bytes as they are and one match |
| SnappyLaws.RunIsSmall | deps/snappy/snappy-1.1.4/snappy.cc:278-304 | A block of equal bytes takes at most five bytes and three for every 64 |
| FormatExamples.HundredEqualBytes | deps/snappy/snappy-1.1.4/snappy.cc:212-304 | A hundred equal bytes take nine, given byte by byte |
| FormatExamples.CompressedBlocks | deps/snappy/snappy-1.1.4/snappy.cc:809-888 | Data is compressed in blocks of 65536 bytes, each with a table of a power of two of slots, from 256 to 16384 |
| SnappyCompress.EmitLiteral | deps/snappy/snappy-1.1.4/snappy.cc:212-255 | The bytes written are the encoded literal, also when 16 bytes are copied for fewer |
| SnappyCompress.EmitCopy | deps/snappy/snappy-1.1.4/snappy.cc:278-304 | A match of any length becomes the copies of 64 bytes, of 60 before a rest of 65 to 67, and of the rest, that stand for it |
| SnappyCompress.FindMatchLength | deps/snappy/snappy-1.1.4/snappy-internal.h:84-134 | The number of bytes that agree, and whether it is under eight |
| SnappyCopy.IncrementalCopy | deps/snappy/snappy-1.1.4/snappy.cc:116-208 | Copying eight bytes at a time leaves up to the limit what copying byte by byte does, whatever the distance, and changes nothing past the buffer's limit |
| SnappyCopy.SnappyArrayWriter.AppendFromSelf | deps/snappy/snappy-1.1.4/snappy.cc:1120-1134 | Appends the copy, or refuses an offset of 0 or beyond what was produced, or a copy past the limit |
| SnappyDecompress.SnappyDecompressor.DecompressAllTags | deps/snappy/snappy-1.1.4/snappy.cc:636-781 | The end of the input is reached without an error exactly when the format decodes it, and what was produced is what it decodes to |
| SnappySource.ReadUncompressedLength | deps/snappy/snappy-1.1.4/snappy.cc:610-632 | Reads the length exactly when the format has one there, and leaves the rest |
| SnappyFormat.DecodeElement | deps/snappy/snappy-1.1.4/snappy.cc:212-304 | Decoding an encoded element applies it and goes on with the rest |
| SnappyFormat.LiteralLengthIff | deps/snappy/snappy-1.1.4/snappy.cc:680-686 | A literal has the length that section 2.1 of the format description gives it, exactly unless four bytes say 2 to the 32nd |
| SnappyFormat.LongestLiteralIsEmpty | deps/snappy/snappy-1.1.4/snappy.cc:680-686 | A stream with that literal and nothing behind it is accepted as empty |
| FormatExamples.Copies | deps/snappy/snappy-1.1.4/format_description.txt:84-110 | Tags and offsets of copies, byte by byte |
| FormatExamples.Literals | deps/snappy/snappy-1.1.4/format_description.txt:46-60 | Tags and lengths of literals, byte by byte |
| FormatExamples.Overlapping | deps/snappy/snappy-1.1.4/format_description.txt:70-77 | The example of the description: a copy that is longer than how far back it begins |
| SkipListReads.Run | deps/leveldb/leveldb-1.20/db/skiplist.h:8-27 | In every interleaving of a search with the single stores of insertions, both are where `After` says, and the search returns the least key at or after the target among the nodes linked when it ended, which include all that were linked when it began |
| SkipListSteps.InsertionEnds | deps/leveldb/leveldb-1.20/db/skiplist.h:336-370 | An insertion has put its key into each of its levels after two stores for each, and into no other, whatever the search does |
| SkipListSteps.SearchEnds | deps/leveldb/leveldb-1.20/db/skiplist.h:262-281 | Left alone, a search ends after no more looks than there are levels below it and keys past it |
| SkipListReads.Interleaving.LookOnce | deps/leveldb/leveldb-1.20/db/skiplist.h:262-281 | Each turn of the search goes to the next key on its level when that is before the target, else down a level, and at the lowest it ends with the first node at or after the target |
| SkipLists.SkipList.Insert | deps/leveldb/leveldb-1.20/db/skiplist.h:336-370 | The key goes to its place among the keys, and every level stays a sorted part of the one below |
| SkipLists.SkipList.Publish | deps/leveldb/leveldb-1.20/db/skiplist.h:363-368 | The one store that links a node into a level keeps every level a sorted part of the one below |
| SkipLists.SkipList.FindGreaterOrEqual | deps/leveldb/leveldb-1.20/db/skiplist.h:262-281 | The first node at or after the key, and the node before it on each level |
| SkipLists.SkipList.FindLessThan | deps/leveldb/leveldb-1.20/db/skiplist.h:284-302 | The last node before the key |
| SkipLists.SkipList.FindLast | deps/leveldb/leveldb-1.20/db/skiplist.h:304-322 | The last node |
| LRUCaches.Run | deps/leveldb/leveldb-1.20/util/cache.cc:200-333 | After any operations, once clients have given everything back and the cache is gone, the deleter has run exactly once for each insertion's handle |
| LRUCaches.TakeStep | deps/leveldb/leveldb-1.20/util/cache.cc:200-333 | What each operation hands out, takes out of the table, evicts, and moves between used and unused entries, and nothing else |
| LRUCaches.LRUCache.Insert | deps/leveldb/leveldb-1.20/util/cache.cc:269-303 | The new entry is in use and, unless the capacity is 0, in the table; besides the one of its key only the oldest unused ones leave, in order and no more than needed, and then the usage is within the capacity or nothing is unused |
| LRUCaches.LRUCache.Unref | deps/leveldb/leveldb-1.20/util/cache.cc:229-240 | With the last client's reference an entry moves to the unused ones as the newest; without any the deleter runs |
| LRUCaches.LRUCache.Erase | deps/leveldb/leveldb-1.20/util/cache.cc:307-321 | Exactly the entry of the key leaves the table, and lives on while clients hold it |
| HandleTables.HandleTable.Insert | deps/leveldb/leveldb-1.20/util/cache.cc:80-94 | The handle is in the table in place of the one of the same key, also when the table grows, and there are never more handles than buckets |
| HandleTables.HandleTable.Remove | deps/leveldb/leveldb-1.20/util/cache.cc:96-104 | Exactly the handle of the key leaves the table |
| HandleTables.HandleTable.Resize | deps/leveldb/leveldb-1.20/util/cache.cc:125-149 | Every handle is in the bucket of its hash in the larger table, which has as many buckets as there are handles or less than twice that |
| LRULists.Remove | deps/leveldb/leveldb-1.20/util/cache.cc:242-245 | The ring without the node, in the same order |
| RangeIterators.ReadAll | src/iterator.cc:146-314 | From the start or after a seek: the entries in range, at or past the target if there was one, in the direction asked, and all of them unless the limit cuts them off: then as many as it allows, which come before all others; whatever the chunk size |
| RangeIterators.Iterator.Seek | src/iterator.cc:393-451 | Reading goes on from the first entry at or past the target, or from nowhere when the target is out of range |
| RangeIterators.Iterator.IteratorNext | src/iterator.cc:292-314 | A chunk is the next entries: the first chunk one entry, any other the fewest that take more than highWaterMark bytes, and a failed one all that are left |
| RangeIterators.CachedIterator.NextSync | iterator.js:33-56 | Entries popped from the end of the chunk come in order, across chunks, until there is none |
| RangeIterators.CachedIterator.Seek | iterator.js:17-31 | Seeking drops the chunk and the finished flag, leaves the count of entries read as it is, and what comes next is what the binding's iterator has from there |
| RangeSpec.AheadOfLanding | src/iterator.cc:411-447 | What is ahead after landing is exactly the entries in range at or past the target |

## Findings

What the code or its documentation says and the model shows to fail, with the input and with exactly when it holds.

| what | where | fails | holds exactly when |
|---|---|---|---|
| Compaction keeps every live read | deps/leveldb/leveldb-1.20/db/db_impl.cc:930-1004, deps/leveldb/leveldb-1.20/db/db_impl.cc:717-728, deps/leveldb/leveldb-1.20/db/version_set.cc:747-766 | `DeletedValues.DeletedValueReturns`: an output cut between a deletion and the value that it deletes, and then only the first of the two files moved down | `CompactionExact.ReadKeptIff` for one compaction, by the files before it; `CompactionRuns.OutputLevelApartIff` and `CompactionRuns.TidyStep` for what the next compaction finds |
| A log reader skips record types that it does not understand, and may report it (deps/leveldb/leveldb-1.20/doc/log_format.md:31-32) | deps/leveldb/leveldb-1.20/db/log_reader.h:81-90, deps/leveldb/leveldb-1.20/db/log_reader.cc:152-167 | `LogTypes.SilentEnd`: type 5 with a right checksum ends reading without a report, and a paranoid replay succeeds (`LogTypes.ReplayEndsEarly`); `LogTypes.SilentSkip`: type 6 is not reported | `LogTypes.ReadAsDescribedIff`: no physical record met has type 5, and none has type 6 while no record is open |
| A record can be read when the call that added it succeeded | deps/leveldb/leveldb-1.20/db/log_writer.cc:46-56 | `LogLosses.TrailerLost`: the trailer before the record did not get to the file, which is not looked at | `LogLosses.SuccessIsReadIff`: after calls without a failure, if and only if the trailer got there |
| A call that fails does no harm to later ones | deps/leveldb/leveldb-1.20/db/log_writer.cc:84-109 | `LogLosses.SuccessIsLost`, `LogLosses.LaterCallsLost`: a failed call left a header without its payload, the offset moved on, and later calls that succeed are not read and not reported | `LogLosses.HarmlessIff`: when the header got there, if and only if all of the payload did. `LogFailures.WithoutLoss` for any number of failures |
| Replaying all edits in one builder is applying them one at a time | deps/leveldb/leveldb-1.20/db/version_set.cc:674-708 | `VersionSpec.AddedAgainDiffers`: a number that was deleted is added again | `VersionSpec.EveryPrefixAgreesIff`; for one edit `VersionSpec.OneMoreEdit` |
| The binding moves its cursor only from an entry | src/iterator.cc:413-420 | `RangeIterators.ReadAll`: seeking out of range on an empty snapshot calls Prev or Next on a cursor that is at no entry | `RangeIterators.ReadAll` and `RangeIterators.Iterator.Seek`: the cursor is misused if and only if the target is out of range and the snapshot is empty |
| A literal's length is the stored number plus one (section 2.1 of the Snappy format description) | deps/snappy/snappy-1.1.4/snappy.cc:680-686 | `SnappyFormat.LongestLiteralIsEmpty`: four bytes that say 2^32 wrap to a length of 0, and a stream that ends there is accepted as empty | `SnappyFormat.LiteralLengthIff`: for every other literal |

## Left out

- WriteQueue.Run: fewer than 2^32 steps, because 64-bit sequence numbers wrap after about 2^33 full batches and the code does not guard against that.
- WriteQueue.DBImpl.AddRecord: a failed append leaves nothing of its record in the log; what part of it may do there is in `LogFailures`, record by record.
- LogLosses.HarmlessIff: behind a header that is cut off itself, what is read is up to the checksum of misaligned bytes; the calls before it are read all the same (`LogFailures.WriteThenRead`).
- LogFailures.FallibleWriter.AddRecord: what gets to the file of one append is a prefix of it, ahead of what is appended later.
- Recovery.CallIsRecovered: with the log as `WriteQueue` has it, so not behind a failed append that left bytes; see `LogFailures.WriteThenRead`.
- Engines.Run: fewer than 2^25 steps, because the sequence numbers in keys have 56 bits and the code does not guard against passing them. A compaction that would cut inside a user key is not taken (`DeletedValues.DeletedValueReturns` says why). A flush or a compaction is one step, and a read is at one point of the run.
- Flushes.PickLevelForMemTableOutput: file sizes are any function, and the limit is a parameter.
- Recovery.NothingBeyondLast: only for batches whose numbers do not pass 2^64; a batch that wraps can end below its start, and the code takes the sum as it comes.
- ManifestRecovery.LogThenRecover: assumes that no edit adds a number that its level has had, which holds because file numbers are never reused; what happens otherwise is in the findings.
- RangeIterators.ReadAll: the seek comes before any reading; what is left of the limit after reading is in `RangeIterators.CachedIterator.Seek`. At most one of lt and lte, and one of gt and gte, is set.
- SnappyStream.Compress: takes `HashBytes` as any function into the table; regions handed out by a source are no longer than what it has left.
- Tables.BuildTable: at most 2^31 entries and filter blocks under 4 GB; sizes of blocks on disk, compressed or not, are a parameter, and writing never fails. Blocks are lists of entries here; `TableBytes` has them as bytes.
- TableBytes.GetThroughBytes: as many entries as would fit 4 GB if each took what the longest takes; a block is kept under its handle, without its compression, trailer and place in the file.
- Blocks.BuildAndRead: blocks under 4 GB, as restart offsets are 32 bits.
- SkipListReads.Run: loads and stores happen one at a time in some order; memory barriers are not modelled. The height of a node is a parameter.
- Bloom.BloomNeverDenies: the hash of a key is any 32-bit function.
- LRUCaches.Run: one shard of the cache, without the mutex; the usage does not wrap at 64 bits.
- Compactions.DoCompactionWork: keys that do not parse are handled by the loop, but the theorems about reads are for files whose keys parse; when to stop an output is any function of the position; a memtable flush in the middle, shutdown and file errors are left out.
- Log.ReadAll: no initial offset, and checksums on, as recovery and the manifest call the reader. The checksum is any function; damage is seen when the first altered record's header or checksum is wrong.
- SnappyCompress.CompressFragment: needs less room than `MaxCompressedLength` of the block, which is proved enough for what `RawCompress` gives it; loads of four bytes that are masked read only the bytes that the mask keeps.
- VersionEdits.VersionEdit.EncodeTo: deleted files are encoded in no particular order; numbers are written by a recursive function, not a loop.
- Blocks.Iter.Seek: the bytes are those of a built block; on corrupt bytes only the parsing of an entry is modelled.
- Tables.Table.InternalGet: the footer, the metaindex block and the block cache between a table and its file.
- SnappyStream.RawUncompress: only the writer into a flat array, not those into scattered buffers or the validator.
- Input and output, threads, mutexes and condition variables: outcomes of calls are parameters, and a region under a mutex is one step.
- The choice of the level to compact, seek-triggered compactions, read sampling, statistics and sizes: they do not change what is read. The file that is picked is a parameter.
- Repair, dumping, file names, options, the JavaScript argument handling, and buffers handed to callers: no state of their own worth a proof.

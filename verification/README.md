# Proofs about MLKV+

MLKV+ stores embeddings in a modified RocksDB and shards them over GPU ranks with a small Python layer.
This project models the parts of it that carry hard properties and proves those properties.

- **Log codec** (`LogFormat`, `LogWriter`, `LogParse`, `LogReader`, `LogSoundness`, `LogRecovery`, `LogDamage`,
  `TailParse`, `TailReader`, `TailSoundness`, `TailRecovery`, `TailDamage`): records become frames in 32 KiB blocks and are put together again, by a
  reader of finished logs and by one that follows a growing log. The writer and both readers are classes
  with the fields of the source, proved against functions of the file; the theorems are about those functions:
  the round trip, every truncation point, stale frames of recycled files, every way a log can grow, damaged
  frames and what is reported of them, and what can come out of arbitrary bytes.
- **MANIFEST group commit** (`ManifestWrite`, `ManifestRecovery`, `ManifestCommit`): batching of queued edits with
  repair of atomic groups, the buffer that collects a group at recovery, and what any commits and a crash at any
  byte leave installed.
- **WAL sync** (`WalSync`, `WalProtocol`): the sections under the mutex as methods, and a state machine over all
  interleavings of calls, waits, file syncs, writes and switches to a new log.
- **Point lookup** (`LsmFiles`, `LsmPicker`, `VersionGet`, `MultiPicker`): the file picker, `Get`, and the picker for
  batches, each against a plain filter over all files.
- **Version set** (`Overlaps`, `LiveSize`, `LevelTargets` with `Doubles`, `LevelIteration`, `FileRefs`): overlap
  closure and clean cuts, live-size estimate, level targets, the concatenating iterator, file lifetime.
- **Distributed lookup** (`Dist`): assignment by remainder, two all-to-all exchanges and reordering.

Where the modelled functions call into other parts of the system, the model takes any implementation that meets a
stated law: the checksum (`LogFormat.Checksum.Lawful`), the encoding of edits (`ManifestRecovery.Codec.Lawful`), the
index between levels (`LsmPicker.Indexer.Lawful`: files left of the bounds end before the key, files right of them
begin after it, and an empty level has the bounds [0, -1]), the rounding of doubles (`Doubles.Rounding.Lawful`), and
the grouping of keys (`Dist.Selection.Of`). That each of these laws can be met is proved.

Some promises hold only in part, and the exact condition is proved, with an input for which they fail.

- Reading back a recyclable log needs a log number below 2^32, whole or while it grows (`RoundTripExactly`,
  `TailKeepsPromiseExactly`).
- A tailing reader delivers only whole records unless the log is recycled. There a frame with a wrong checksum makes it
  drop the fragments it kept but not the mark that it is inside a record, and the end of that record is delivered
  later, as if it was one (`TailDeliversWritten`, `DeliversNeverWritten`).
- The computation of level targets divides and multiplies sizes as doubles. A quotient can be converted back if and
  only if the multiplier exceeds one or the size is below 2^64 - 1024, a product if and only if it is below that or
  the overflow test refuses it. If all conversions are defined no assertion fails (`CalculateBaseBytes`), and the
  targets never decrease except in the case stated by `WhenTargetsFall`.
- For keys below zero, the two sides of the distributed lookup agree on the owner if and only if the number of ranks
  divides 2^64 (`OwnersAgree`, `LookupFindsExactly`).

## Model

| member | source | states |
|---|---|---|
| `LogFormat.Fixed32RoundTrip` | libmlkvplus/rocksdb/db/log_writer.cc:366-367 | reading back a stored little-endian 32-bit word gives the word |
| `LogFormat.DataType` | libmlkvplus/rocksdb/db/log_writer.cc:166-190 | the type of a fragment tells exactly its place in the record, whether the log is recyclable and whether it is checksummed; it is never the zero type or a metadata type |
| `LogFormat.NonFinalFragmentFillsBlock` | libmlkvplus/rocksdb/db/log_writer.cc:134-164 | every fragment but the last of a record ends at a block boundary, so the next needs no padding and has room for payload |
| `LogFormat.LogBytesAppend` | libmlkvplus/rocksdb/db/log_writer.cc:93-213 | adding a record appends bytes that depend on the file size alone and changes none of the earlier ones |
| `LogWriter.EncodeFixed32` | libmlkvplus/rocksdb/db/log_writer.cc:366-367 | the word is stored at its place of the header buffer and the rest of the buffer is kept |
| `LogWriter.CombinedCrc` | libmlkvplus/rocksdb/db/log_writer.cc:366-383 | the checksum put together from the per-type table, the log number and the payload is the checksum of type, log number and payload in one piece |
| `LogWriter.PaddingFromBlockOffset` | libmlkvplus/rocksdb/db/log_writer.cc:117-134 | padding by `block_offset_` is padding by absolute file offset |
| `LogWriter.RecyclableTest` | libmlkvplus/rocksdb/db/log_writer.cc:354-363 | the test for the short header picks exactly the types that carry no log number |
| `LogWriter.Writer.constructor` | libmlkvplus/rocksdb/db/log_writer.cc:25-45 | an empty file, and a table with the checksum of every record type |
| `LogWriter.Writer.AddRecord` | libmlkvplus/rocksdb/db/log_writer.cc:93-213 | keeps the invariant that the file is the log of the records added, and adds this record to them |
| `LogWriter.Writer.AddFragments` | libmlkvplus/rocksdb/db/log_writer.cc:115-200 | the fragmentation loop appends the whole record, for any length and offset, and ends |
| `LogWriter.Writer.AddFragment` | libmlkvplus/rocksdb/db/log_writer.cc:117-199 | pads if the header does not fit, then emits as much as the block holds |
| `LogWriter.Writer.EmitPhysicalRecord` | libmlkvplus/rocksdb/db/log_writer.cc:333-429 | appends one frame and keeps `block_offset_` equal to the file size modulo the block size |
| `LogWriter.Writer.BuildHeader` | libmlkvplus/rocksdb/db/log_writer.cc:342-394 | the header holds the checksum word, the length, the type and the low 32 bits of the log number |
| `LogWriter.Writer.ComputeCrc` | libmlkvplus/rocksdb/db/log_writer.cc:346-394 | the stored word is the masked checksum of type, log number and payload, or zero for a type without checksum |
| `LogReader.Reader.ReadRecord` | libmlkvplus/rocksdb/db/log_reader.cc:81-371 | result, reports and new position are those of the functional reading of the file, for any bytes and every recovery mode |
| `LogReader.Reader.ReadPhysicalRecord` | libmlkvplus/rocksdb/db/log_reader.cc:566-687 | the same for one physical record: refills, header, length, log number, zero record, checksum |
| `LogReader.Reader.TryPhysicalRecord` | libmlkvplus/rocksdb/db/log_reader.cc:571-615 | one turn of its loop: a refill that changes nothing of the result, or the result |
| `LogReader.Reader.ReadMore` | libmlkvplus/rocksdb/db/log_reader.cc:525-564 | reads the next block, or tells the end of the file from a truncated header |
| `LogReader.ReadLog` | libmlkvplus/rocksdb/db/log_reader.cc:81-371 | reading until there is no next record gives the transcript of the file |
| `LogSoundness.PhysicalIsGenuine` | libmlkvplus/rocksdb/db/log_reader.cc:566-687 | a physical record with a data type is a frame of the file with right length, log number and checksum, within one block, and the next one: nothing but a trailer too short for a header lies before it |
| `LogSoundness.OneRecord` | libmlkvplus/rocksdb/db/log_reader.cc:81-371 | a delivered record is a full fragment, or a first, middle ones and a last, joined in order, each directly behind the other |
| `LogSoundness.EveryRecordIsGenuine` | libmlkvplus/rocksdb/db/log_reader.cc:81-371 | from any bytes, in any mode, every record returned is assembled from intact frames between which there is no other frame, and the records come in the order of their frames |
| `LogRecovery.WholeIsMaximal` | libmlkvplus/rocksdb/db/log_reader.cc:255-336 | the number of records wholly in front of a cut is the greatest number whose bytes fit |
| `LogRecovery.TruncatedLog` | libmlkvplus/rocksdb/db/log_reader.cc:255-336 | for every truncation point the reader returns exactly the records wholly before it and ends; something is reported exactly in the strict modes and if bytes of a frame are left, or incomplete padding shorter than a header: whole padding, and padding cut after at least a header, is not reported; and exactly which reports these are |
| `LogRecovery.CutShows` | libmlkvplus/rocksdb/db/log_reader.cc:255-336 | the reports expected of a cut are none exactly if no frame of an incomplete record shows |
| `LogRecovery.TruncatedLogCount` | libmlkvplus/rocksdb/db/log_reader.cc:255-336 | every truncation point has such a number of records |
| `LogRecovery.RoundTrip` | libmlkvplus/rocksdb/db/log_writer.cc:93-213 | any list of records of any lengths, with or without checksums, recyclable or not, is read back in order, then end of file, with no report, in every mode |
| `LogRecovery.RoundTripExactly` | libmlkvplus/rocksdb/db/log_reader.cc:601-634 | the round trip holds if and only if the log is not recyclable, or empty, or its number is below 2^32: the writer keeps 32 bits, the reader compares all |
| `LogRecovery.TooWideReadsNothing` | libmlkvplus/rocksdb/db/log_reader.cc:617-634 | a recyclable log with a wider number gives back no record at all |
| `LogRecovery.ChecksumChoiceKeepsRecordSize` | libmlkvplus/rocksdb/db/log_writer.cc:166-190 | the checksum choice does not change the size of a record |
| `LogRecovery.ChecksumChoiceKeepsOffsets` | libmlkvplus/rocksdb/db/log_writer.cc:166-190 | nor the offset of any record of a log |
| `LogRecovery.StaleRecordEndsLog` | libmlkvplus/rocksdb/db/log_reader.cc:255-336 | a complete record of another log number behind the end stops the reader at the end, except in the mode that skips anything corrupted, which goes on behind it |
| `LogRecovery.FirstPiecesArePrefix` | libmlkvplus/rocksdb/db/log_writer.cc:115-200 | the first fragments of a record are a prefix of its bytes, so a crash between two fragments leaves them |
| `LogRecovery.StaleRecordInsideRecord` | libmlkvplus/rocksdb/db/log_reader.cc:255-336 | a recycled file whose last record was cut after any number of its fragments, followed by a record of another log number: the records before are returned and reading ends, silently in the tolerant mode and with the size of the fragments reported in the strict ones; the mode that skips anything corrupted reports it too and goes on behind |
| `LogDamage.DamagedLog` | libmlkvplus/rocksdb/db/log_reader.cc:81-371 | a file put together from records, fragments without a beginning or an end, frames with a wrong checksum or length, blank space, frames of unknown types and of other logs, in any order: records, outcome and reports in every mode are the ones stated over these parts |
| `LogDamage.DamagedFrame` | libmlkvplus/rocksdb/db/log_reader.cc:317-336 | a log in which one frame is damaged, at the beginning of a record or behind any number of its fragments: the rest of the block is lost, the records before and those in later blocks are returned, and the damage and the fragments given up are reported with their sizes; only if the log is known to be recycled the tolerant mode stops there silently |
| `LogDamage.ExchangedPayload` | libmlkvplus/rocksdb/db/log_reader.cc:646-662 | a written frame whose payload was exchanged for one with another checksum is such a damaged frame |
| `TailReader.FragmentBufferedReader.ReadRecord` | libmlkvplus/rocksdb/db/log_reader.cc:788-973 | one call on the part of the file that is visible computes the functional reading, fragments and flags carried over |
| `TailReader.FragmentBufferedReader.TryReadFragment` | libmlkvplus/rocksdb/db/log_reader.cc:1024-1121 | waits for a header, then refuses or takes the frame |
| `TailReader.FragmentBufferedReader.TakeHeader` | libmlkvplus/rocksdb/db/log_reader.cc:1046-1081 | refuses foreign recyclable frames and waits for their longer header |
| `TailReader.FragmentBufferedReader.TakeBody` | libmlkvplus/rocksdb/db/log_reader.cc:1083-1121 | waits for the whole frame, checks it and consumes it |
| `TailReader.FragmentBufferedReader.FillBuffer` | libmlkvplus/rocksdb/db/log_reader.cc:1030-1097 | reads until enough bytes are buffered or a read brings nothing |
| `TailReader.FragmentBufferedReader.TryReadMore` | libmlkvplus/rocksdb/db/log_reader.cc:983-1022 | the next block, or the rest of the block in which the end was seen |
| `TailReader.FragmentBufferedReader.UnmarkEof` | libmlkvplus/rocksdb/db/log_reader.cc:448-505 | joins the rest of the block to what is buffered |
| `TailReader.FragmentBufferedReader.Grow` | libmlkvplus/rocksdb/db/log_reader.cc:975-981 | a longer visible file keeps the state of the reader valid |
| `TailRecovery.TryLongPadding` | libmlkvplus/rocksdb/db/log_reader.cc:1099-1103 | padding as long as a header, before recyclable frames, is taken for an empty record as soon as a header of it is visible, even if the rest is not |
| `TailRecovery.OneCall` | libmlkvplus/rocksdb/db/log_reader.cc:788-973 | a call returns the next record exactly if it ends within what is visible, and otherwise waits inside it without losing its place |
| `TailRecovery.TailKeepsPromise` | libmlkvplus/rocksdb/db/log_reader.cc:788-1121 | for every way a log, recyclable or not, can become visible, byte by byte, the calls return exactly the promised outcomes and nothing is ever reported |
| `TailRecovery.TailKeepsPromiseExactly` | libmlkvplus/rocksdb/db/log_reader.cc:1056-1081 | for logs of any number this holds if and only if the log is not recyclable, or its number is below 2^32, or it is empty, or no call sees a whole header; else the reader turns for ever |
| `TailRecovery.PromisedIsPrefix` | libmlkvplus/rocksdb/db/log_reader.cc:788-1121 | what was returned is always a prefix of what was written, and everything once enough calls saw the whole file |
| `TailSoundness.TryIsGenuine` | libmlkvplus/rocksdb/db/log_reader.cc:1024-1121 | a fragment taken by the tailing reader is an intact frame, and the next one |
| `TailSoundness.CallIsSound` | libmlkvplus/rocksdb/db/log_reader.cc:788-973 | one call: a record delivered is joined without a gap from intact frames, and what is kept for the next call is the beginning of such a record |
| `TailSoundness.EveryTailRecordIsGenuine` | libmlkvplus/rocksdb/db/log_reader.cc:788-1121 | from any bytes, however they become visible, every record delivered is joined without a gap from intact frames, in their order; it is a whole record unless the reader has seen a recyclable frame, when it may be the end of one |
| `TailDamage.TailOfDamagedLog` | libmlkvplus/rocksdb/db/log_reader.cc:788-973 | a log put together from such parts as above, which becomes visible part by part: every call returns and reports what is stated over the parts |
| `TailDamage.TailOfDamagedFrame` | libmlkvplus/rocksdb/db/log_reader.cc:940-951 | a log in which one frame has a wrong checksum: the rest of the block is lost and reported with the fragments given up, and the records of other blocks are returned; in a log taken for recycled the call ends there silently and later calls go on behind |
| `TailDamage.TailDeliversWritten` | libmlkvplus/rocksdb/db/log_reader.cc:940-951 | once all is visible often enough, exactly the records written have been delivered if and only if the end of a record nowhere stands where the reader thinks it is inside one; in a log that is not recyclable it never does |
| `TailDamage.DeliversNeverWritten` | libmlkvplus/rocksdb/db/log_reader.cc:940-951 | a recycled log in which the middle frame of a record is damaged: its last fragment is delivered as a record, although none was written, and nothing is reported |
| `ManifestWrite.Stamp` | libmlkvplus/rocksdb/db/version_set.cc:5998-6002 | an edit is written with the maximum of the numbers so far and its own, and that is the new maximum |
| `ManifestWrite.Append` | libmlkvplus/rocksdb/db/version_set.cc:5347-5374 | the edits of a live column family keep the batch consistent: groups, where the open group starts, sequence numbers |
| `ManifestWrite.Drop` | libmlkvplus/rocksdb/db/version_set.cc:5280-5312 | the edits of a dropped column family are taken out of the counts of the open group; the assertions on group start and counts hold |
| `ManifestWrite.ProcessManifestWrites` | libmlkvplus/rocksdb/db/version_set.cc:5267-5390 | a special edit alone, else all writers up to the next special edit; group by group exactly the edits of live column families, with counts descending by one to zero, each stamped with the running maximum |
| `ManifestWrite.RepairedIsGrouped` | libmlkvplus/rocksdb/db/version_set.cc:5407-5437 | what is left of every group after any drops is a whole group |
| `ManifestWrite.StampedNonDecreasing` | libmlkvplus/rocksdb/db/version_set.cc:5978-6009 | the sequence numbers written never decrease and start at or above the last one |
| `ManifestWrite.BatchIsSound` | libmlkvplus/rocksdb/db/version_set.cc:5267-5390 | any batch the writer produces, also one left empty by drops, consists of whole groups with sequence numbers that never decrease |
| `ManifestWrite.DropKeepsOk` | libmlkvplus/rocksdb/db/version_set.cc:5288-5312 | lowering the open group at once by the counted number of dropped edits keeps the batch consistent, and the assertions on group start and counts hold |
| `ManifestRecovery.AtomicGroupReadBuffer.AddEdit` | libmlkvplus/rocksdb/db/version_set.cc:5021-5053 | a member is accepted exactly if it is next in its group, a plain edit exactly if no group is open, with 32-bit counts |
| `ManifestRecovery.AtomicGroupReadBuffer.Clear` | libmlkvplus/rocksdb/db/version_set.cc:5061-5064 | the buffer is empty again |
| `ManifestRecovery.ApplyEdit` | libmlkvplus/rocksdb/db/version_set.cc:5021-5064 | one edit through the buffer: a plain edit is installed at once, a group when its last member arrives, nothing before |
| `ManifestRecovery.Replay` | libmlkvplus/rocksdb/db/version_set.cc:5021-5064 | for any edits: replay succeeds if and only if they are whole groups and plain edits followed by at most the beginning of a group; whole groups are installed, nothing else |
| `ManifestRecovery.Rejected` | libmlkvplus/rocksdb/db/version_set.cc:5030-5036 | an edit that is refused makes every continuation unreplayable |
| `ManifestRecovery.LastBoundary` | libmlkvplus/rocksdb/db/version_set.cc:5021-5064 | what is installed ends at the last group boundary |
| `ManifestRecovery.WriteBatch` | libmlkvplus/rocksdb/db/version_set.cc:5577-5605 | each edit of the batch becomes one record, in order |
| `ManifestRecovery.Recover` | libmlkvplus/rocksdb/db/log_reader.cc:81-371 | reading and replaying any file: the edits are what the records decode to, up to the first that does not |
| `ManifestRecovery.BatchesAreGrouped` | libmlkvplus/rocksdb/db/version_set.cc:5577-5605 | a MANIFEST of several batches consists of whole groups |
| `ManifestRecovery.CrashNeverSplitsGroup` | libmlkvplus/rocksdb/db/version_set.cc:5021-5064 | for every byte-prefix of a MANIFEST of batches, recovery reports nothing, succeeds, and installs the edits up to the last group boundary among the wholly written records |
| `ManifestCommit.CommittedIsSound` | libmlkvplus/rocksdb/db/version_set.cc:5267-5437 | what one commit writes is whole groups with counts that fit 32 bits and sequence numbers that never decrease |
| `ManifestCommit.HistoryIsSound` | libmlkvplus/rocksdb/db/version_set.cc:5577-5605 | the same for all that any sequence of commits writes, the numbers rising across commits |
| `ManifestCommit.CommitHead` | libmlkvplus/rocksdb/db/version_set.cc:5441-5605 | one commit: it serves the head alone if its edit is special, else all writers up to the next special one; the batch becomes records of the MANIFEST; a dummy edit writes nothing and keeps the last sequence number |
| `ManifestCommit.CommitWritesLive` | libmlkvplus/rocksdb/db/version_set.cc:5267-5390 | a commit writes exactly the edits of the live column families of the writers it serves, in order |
| `ManifestCommit.HistoryWritesLive` | libmlkvplus/rocksdb/db/version_set.cc:5577-5605 | so do any commits one after the other |
| `ManifestCommit.QueueableLess` | libmlkvplus/rocksdb/db/version_set.cc:5743-5746 | what a commit leaves in the queue can be served by the next |
| `ManifestCommit.CommitNext` | libmlkvplus/rocksdb/db/version_set.cc:5743-5746 | one more commit: nobody in the queue is passed over or served twice |
| `ManifestCommit.CommitAll` | libmlkvplus/rocksdb/db/version_set.cc:5743-5746 | writers arrive in rounds with commits in between, until the queue is empty: every writer is served once and in order, so exactly the live edits are written, in order, each commit going on from the sequence number the one before left |
| `ManifestCommit.CommitCrashRecover` | libmlkvplus/rocksdb/db/version_set.cc:5021-5064 | batching, writing, a cut at any byte, reading and replaying, for any writers in any rounds: exactly the live edits are written, and recovery succeeds without a report and installs those up to the last group boundary among the wholly written ones |
| `ManifestCommit.LawsCanBeMet` | libmlkvplus/rocksdb/db/version_set.cc:5577-5605 | there is an encoding of edits and a checksum that meet the laws assumed of them |
| `WalSync.WalList.PrepareLogs` | libmlkvplus/rocksdb/db/db_impl/db_impl.cc:1580-1600 | marks every log up to the number, keeps the others, and collects exactly the open ones |
| `WalSync.WalList.MarkLogsSynced` | libmlkvplus/rocksdb/db/db_impl/db_impl.cc:1787-1827 | unmarks the logs up to the number, moves the inactive and fully synced ones to the freed list, in order, and sets the directory flag only for the active log; the loop erases while it iterates |
| `WalSync.WalList.MarkLogsNotSynced` | libmlkvplus/rocksdb/db/db_impl/db_impl.cc:1829-1837 | unmarks the logs up to the number and changes nothing else |
| `WalSync.WalList.SwitchWal` | libmlkvplus/rocksdb/db/db_impl/db_impl_write.cc:2636-2643 | a new active log behind the others, and the directory flag cleared |
| `WalProtocol.HeadIsMarked` | libmlkvplus/rocksdb/db/db_impl/db_impl.cc:1574-1590 | the head is marked if any log is, so waiting for the head is enough |
| `WalProtocol.VisitsMarked` | libmlkvplus/rocksdb/db/db_impl/db_impl.cc:1793-1796 | every log visited at the end of a sync is marked: the assertion cannot fail |
| `WalProtocol.StepKeepsOwners` | libmlkvplus/rocksdb/db/db_impl/db_impl.cc:1554-1686 | every step keeps: a sync owns exactly the listed logs up to its number, which may be older than the active log, logs are marked exactly if owned, and no log is owned twice |
| `WalProtocol.ReleasedIsDurable` | libmlkvplus/rocksdb/db/db_impl/db_impl.cc:1798-1814 | a log that is freed is durable to its last byte |
| `WalProtocol.StepKeepsDurable` | libmlkvplus/rocksdb/db/db_impl/db_impl.cc:1554-1686 | every step keeps: closed and freed logs are durable, and the directory flag is true only if the active log has a durable directory entry |
| `WalProtocol.RunKeepsInv` | libmlkvplus/rocksdb/db/db_impl/db_impl.cc:1554-1686 | all this in every state of every interleaving of calls, waits, syncs, writes and switches; a call reads its numbers before it waits |
| `WalProtocol.SyncsAreSafe` | libmlkvplus/rocksdb/db/db_impl/db_impl.cc:1554-1686 | in every reachable state no log has two owners, the head is marked if any log is, every log a sync will visit is marked, the active log is listed and open and never freed |
| `WalProtocol.SyncIsDurable` | libmlkvplus/rocksdb/db/db_impl/db_impl.cc:1554-1686 | in every interleaving a call that succeeds has made durable everything that was flushed, when it was called, to the logs it covers, and their directory entries, also if logs were switched or freed while it waited |
| `WalProtocol.CallCovers` | libmlkvplus/rocksdb/db/db_impl/db_impl.cc:1570-1585 | in every run a call covers all inactive logs, and the active one exactly if asked to; only such a call can be refused |
| `WalProtocol.CoveredIsDurable` | libmlkvplus/rocksdb/db/db_impl/db_impl.cc:1787-1827 | what was flushed at any time before a successful sync marked its logs is durable afterwards, in a listed or a freed log |
| `WalProtocol.StepKeepsInFile` | libmlkvplus/rocksdb/db/db_impl/db_impl.cc:1787-1827 | no step loses flushed bytes: the log stays listed, or is freed and durable |
| `WalProtocol.WriteSyncIsDurable` | libmlkvplus/rocksdb/db/db_impl/db_impl_write.cc:1575-1594 | a sync in the write path has made durable everything flushed to any log before it marked them |
| `WalProtocol.CallsCanBeOvertaken` | libmlkvplus/rocksdb/db/db_impl/db_impl.cc:1570-1576 | a run in which a new log becomes active and the covered log is freed while a call waits |
| `WalProtocol.EndFrees` | libmlkvplus/rocksdb/db/db_impl/db_impl.cc:1787-1827 | a successful end frees exactly the inactive logs it covers that are closed, by this sync or before, or that may be closed in the background and were synced to their end |
| `WalProtocol.SuccessFrees` | libmlkvplus/rocksdb/db/db_impl/db_impl.cc:1787-1827 | in every run, after a successful sync: no covered log is marked, the covered inactive logs still listed are open and were written since they were marked, a sync that closes logs has freed every inactive log it marked, and the directory is known to be synced if the active log is covered |
| `WalProtocol.FailureFreesNothing` | libmlkvplus/rocksdb/db/db_impl/db_impl.cc:1829-1837 | a sync that fails frees nothing, unmarks what it marked and leaves the directory flag |
| `LsmFiles.FindFileInRange` | libmlkvplus/rocksdb/db/version_set.cc:105-113 | the first file of the range whose largest key is not before the key |
| `LsmPicker.Lookup.FromLevelExactly` | libmlkvplus/rocksdb/db/version_set.h:184-353 | the files to return are exactly those whose user-key range holds the key and which, above level 0, do not end before the lookup key; all files if filtering is off |
| `LsmPicker.Lookup.SearchedExactly` | libmlkvplus/rocksdb/db/version_set.h:184-353 | the same spelled out in user keys and sequence numbers: one level of at most three files is searched whole |
| `LsmPicker.Lookup.FromLevelInOrder` | libmlkvplus/rocksdb/db/version_set.h:184-353 | they are in level-then-index order, each once |
| `LsmPicker.FilePicker.constructor` | libmlkvplus/rocksdb/db/version_set.h:150-182 | a new picker has all of these files before it |
| `LsmPicker.FilePicker.PrepareNextLevel` | libmlkvplus/rocksdb/db/version_set.h:289-353 | skips exactly levels without a wanted file, and starts behind unwanted files only; the assertions on the bounds of an empty level hold |
| `LsmPicker.FilePicker.GetNextFile` | libmlkvplus/rocksdb/db/version_set.h:184-250 | returns the next of the remaining files, or none exactly when none remains; the search ends |
| `LsmPicker.FilePicker.CompareWithFile` | libmlkvplus/rocksdb/db/version_set.h:203-230 | the comparisons, and bounds that enclose the key in the next level; the assertion on file order holds |
| `LsmPicker.SearchSkips` | libmlkvplus/rocksdb/db/version_set.h:315-340 | everything the bounds and the binary search skip is unwanted |
| `LsmPicker.SomeIndexer` | libmlkvplus/rocksdb/db/version_set.h:219-224 | for any levels there is an index that meets the law assumed of it |
| `VersionGet.OlderBehind` | libmlkvplus/rocksdb/db/version_set.cc:2357-2507 | in a sorted level a later file has only older entries of a key, by the order of the files |
| `VersionGet.LeftOutHasNothing` | libmlkvplus/rocksdb/db/version_set.h:184-353 | a file that is not searched has no entry the snapshot can see |
| `VersionGet.FirstIsNewest` | libmlkvplus/rocksdb/db/version_set.cc:2363-2465 | the first file that knows the key has its newest visible entry of all files |
| `VersionGet.Get` | libmlkvplus/rocksdb/db/version_set.cc:2357-2507 | the value of the newest visible entry over all files of all levels; not found exactly for a deletion or no entry, and `key_exists` false exactly if there is no entry |
| `MultiPicker.FilePickerMultiGet.constructor` | libmlkvplus/rocksdb/db/version_set.cc:150-195 | each key of the batch has before it the files a picker for that key alone would return |
| `MultiPicker.FilePickerMultiGet.VisitKey` | libmlkvplus/rocksdb/db/version_set.cc:421-505 | one key against one file: hit or miss, bounds for the next level, and what is left for the key |
| `MultiPicker.FilePickerMultiGet.SkipDuplicates` | libmlkvplus/rocksdb/db/version_set.cc:470-492 | duplicates of a key that ends a file get the file too |
| `MultiPicker.FilePickerMultiGet.GetNextFileInLevelWithKeys` | libmlkvplus/rocksdb/db/version_set.cc:380-523 | one scan: the file goes to exactly the keys of the range that were not skipped, and no key is lost |
| `MultiPicker.FilePickerMultiGet.GetNextFileInLevel` | libmlkvplus/rocksdb/db/version_set.cc:224-282 | exactly the keys returned with the file have it taken off their lists; without a file no list changes |
| `MultiPicker.FilePickerMultiGet.PrepareNextLevel` | libmlkvplus/rocksdb/db/version_set.cc:527-633 | the next file of level 0 or the next level with keys; levels passed over have nothing for any key |
| `MultiPicker.MultiGet` | libmlkvplus/rocksdb/db/version_set.cc:2566-2690 | for every sorted batch, duplicates included, each key is offered exactly the files, in the same order, of its single-key picker, and the search ends |
| `Overlaps.OverlappingInputsLevel0` | libmlkvplus/rocksdb/db/version_set.cc:4271-4327 | with expansion, the least set of files closed under overlap with the hull of the range and the set; without, exactly the overlapping files; each once, and the loop ends |
| `Overlaps.LeastGrows` | libmlkvplus/rocksdb/db/version_set.cc:4296-4317 | a file that touches the hull belongs to every closed set |
| `Overlaps.RangeBinarySearch` | libmlkvplus/rocksdb/db/version_set.cc:4360-4458 | exactly the files overlapping the range; within an interval, a clean run inside it that contains every clean run inside it |
| `LiveSize.EstimateLiveDataSize` | libmlkvplus/rocksdb/db/version_set.cc:4771-4802 | the sizes of pairwise disjoint files, and every other file overlaps a counted file of its own or a deeper level |
| `LiveSize.AddLevel` | libmlkvplus/rocksdb/db/version_set.cc:4784-4801 | one level, with the shortcut once a file lies behind all counted ones |
| `LevelTargets.DivideDown` | libmlkvplus/rocksdb/db/version_set.cc:4696-4711 | the greatest size divided once per level, and the lowest level that would then be unnecessary; the two assertions on them hold |
| `LevelTargets.DivideByMore` | libmlkvplus/rocksdb/db/version_set.cc:4693-4702 | a size divided by more than one is smaller, although converting it to a double may round it up |
| `LevelTargets.FindBase` | libmlkvplus/rocksdb/db/version_set.cc:4738-4746 | the lowest level at which the divided size no longer exceeds the configured one, or level 1; when its conversions are defined |
| `LevelTargets.ChooseBase` | libmlkvplus/rocksdb/db/version_set.cc:4691-4754 | base level and size: the first level with data and one more than the least size if the divided size does not exceed that, else by the search above; if every conversion is defined, which is an exact condition on base, multiplier and greatest size, no assertion fails |
| `LevelTargets.CalculateBaseBytes` | libmlkvplus/rocksdb/db/version_set.cc:4659-4768 | base level in [1, n-1] with empty levels above it, its size, the lowest unnecessary level, and each target the one above it times the multiplier, converted by truncation, but not below the base; while products stay within 2^53 they are exact for whole multipliers; no assertion fails if all conversions are defined; exactly when they are; and exactly when the targets never decrease |
| `LevelTargets.Fill` | libmlkvplus/rocksdb/db/version_set.cc:4756-4767 | the targets from the base level on, and exactly when the products are defined |
| `LevelTargets.MultiplyDefinedExactly` | libmlkvplus/rocksdb/db/version_set.cc:4759-4759 | the conversion of a product is defined exactly if the overflow test refuses it or it lies below 2^64 - 1024 |
| `LevelTargets.MultiplyTruncates` | libmlkvplus/rocksdb/db/version_set.cc:4756-4767 | a size times the multiplier is the rounded product without its fraction, or the size itself if the overflow test refuses the product |
| `LevelTargets.OverflowsExactly` | libmlkvplus/rocksdb/db/version_set.cc:4756-4767 | for whole multipliers the overflow test refuses exactly the products of 2^64 and more |
| `LevelTargets.MultiplyExactly` | libmlkvplus/rocksdb/db/version_set.cc:4756-4767 | products by whole multipliers are exact up to 2^53 |
| `LevelTargets.GrownExactly` | libmlkvplus/rocksdb/db/version_set.cc:4756-4767 | so after k levels the size is the base level size times the k-th power of the multiplier |
| `LevelTargets.DivideTruncates` | libmlkvplus/rocksdb/db/version_set.cc:4693-4702 | a quotient is the rounded quotient without its fraction |
| `LevelTargets.DivideExactly` | libmlkvplus/rocksdb/db/version_set.cc:4693-4702 | quotients by whole multipliers are exact below 2^52 |
| `LevelTargets.DividedExactly` | libmlkvplus/rocksdb/db/version_set.cc:4696-4711 | so after k levels the greatest size is divided by the k-th power of the multiplier |
| `LevelTargets.BaseExactly` | libmlkvplus/rocksdb/db/version_set.cc:4691-4754 | for whole multipliers and sizes below 2^52, base level and base size are those of the same choice made with whole numbers |
| `LevelTargets.LowestExactly` | libmlkvplus/rocksdb/db/version_set.cc:4696-4711 | under the same conditions, the lowest unnecessary level is the last one, leaving out the level above the last if recent data is kept apart, whose share does not exceed the least base size |
| `LevelTargets.OrdinaryTargets` | libmlkvplus/rocksdb/db/version_set.cc:4659-4768 | 1000 bytes in the last of three levels, base 100 and multiplier 10: the targets are 100 and 1000 from level 1 on |
| `LevelTargets.GrownSteady` | libmlkvplus/rocksdb/db/version_set.cc:4756-4767 | after the first multiplication sizes never decrease: they are doubles, or stay the same for good |
| `LevelTargets.WhenTargetsFall` | libmlkvplus/rocksdb/db/version_set.cc:4714-4767 | targets decrease exactly if the multiplier is one, a level above the last has data, the sizes do not exceed the base, and one more than the rounded base rounds down again |
| `LevelTargets.CastCanFail` | libmlkvplus/rocksdb/db/version_set.cc:4693-4694 | a base of 2^64 - 1024 with multiplier 1 makes the first conversion undefined, whatever the levels hold |
| `LevelTargets.TargetsCanFall` | libmlkvplus/rocksdb/db/version_set.cc:4725-4767 | with base 2^53 + 3 and multiplier 1 every conversion is defined, the base level gets 2^53 + 5 and the next one 2^53 + 4 |
| `LevelTargets.FallingTargets` | libmlkvplus/rocksdb/db/version_set.cc:4659-4768 | the computation at this input: nothing undefined, no assertion fails, and the targets decrease |
| `LevelTargets.ProductCanFail` | libmlkvplus/rocksdb/db/version_set.cc:4759-4759 | a size of 1 times 2^64 passes the overflow test and cannot be converted |
| `Doubles.Rounding.QuotientDefined` | libmlkvplus/rocksdb/db/version_set.h:923-923 | the quotient of a 64-bit integer and a double multiplier can be converted back exactly if the multiplier exceeds one or the integer is below 2^64 - 1024 |
| `Doubles.LawsCanBeMet` | libmlkvplus/rocksdb/db/version_set.h:923-923 | some rounding meets the laws assumed of conversions to double |
| `LevelIteration.FindFile` | libmlkvplus/rocksdb/db/version_set.cc:667-672 | the first file that does not end before the target |
| `LevelIteration.LevelIterator.KeyAtCursor` | libmlkvplus/rocksdb/db/version_set.cc:1135-1483 | the key shown is the key at the cursor in the concatenation of all files |
| `LevelIteration.LevelIterator.Seek` | libmlkvplus/rocksdb/db/version_set.cc:1135-1226 | lands on the first key at or after the target, empty files included; the assertion on the kept file holds |
| `LevelIteration.LevelIterator.SeekForPrev` | libmlkvplus/rocksdb/db/version_set.cc:1228-1261 | lands on the last key at or before the target |
| `LevelIteration.LevelIterator.SeekToFirst` | libmlkvplus/rocksdb/db/version_set.cc:1263-1277 | the first key of all files |
| `LevelIteration.LevelIterator.SeekToLast` | libmlkvplus/rocksdb/db/version_set.cc:1279-1291 | the last key of all files |
| `LevelIteration.LevelIterator.Next` | libmlkvplus/rocksdb/db/version_set.cc:1293-1305 | one key on, or off the end |
| `LevelIteration.LevelIterator.Prev` | libmlkvplus/rocksdb/db/version_set.cc:1341-1352 | one key back, or off the beginning |
| `LevelIteration.LevelIterator.SkipEmptyFileForward` | libmlkvplus/rocksdb/db/version_set.cc:1354-1403 | the place in the concatenation is kept while files are skipped |
| `LevelIteration.LevelIterator.SkipEmptyFileBackward` | libmlkvplus/rocksdb/db/version_set.cc:1405-1433 | the same backwards |
| `FileRefs.GenerateFileLocationIndex` | libmlkvplus/rocksdb/db/version_set.cc:4128-4148 | the index finds exactly the file numbers of the version, each at its place |
| `FileRefs.DropFiles` | libmlkvplus/rocksdb/db/version_set.cc:646-664 | every file of the version loses one reference, and exactly those that had one become obsolete, once |
| `FileRefs.AddFiles` | libmlkvplus/rocksdb/db/version_set.cc:3807-3812 | every file of the version gains one reference |
| `FileRefs.VersionSet.Build` | libmlkvplus/rocksdb/db/version_set.cc:5332-5341 | a version built from the current one, on which its builder holds a reference: every count stays the number of versions holding the file, of the files ever built exactly those without references are obsolete, each once, and no file of the new version is |
| `FileRefs.VersionSet.Delete` | libmlkvplus/rocksdb/db/version_set.cc:638-665 | the same invariant when a version is deleted; exactly the files it alone held become obsolete |
| `FileRefs.VersionSet.Abandon` | libmlkvplus/rocksdb/db/version_set.cc:5362-5370 | the same for a version whose commit failed |
| `FileRefs.VersionSet.Release` | libmlkvplus/rocksdb/db/version_set.cc:5253-5253 | the builder lets go of its base, which loses a reference and, if it was the last, its files |
| `FileRefs.VersionSet.Ref` | libmlkvplus/rocksdb/db/version_set.cc:4217-4217 | a reference more on a version |
| `FileRefs.VersionSet.Unref` | libmlkvplus/rocksdb/db/version_set.cc:4219-4227 | by any holder but builders and list: the last reference deletes the version, and exactly the files it alone held become obsolete |
| `FileRefs.VersionSet.AppendVersion` | libmlkvplus/rocksdb/db/version_set.cc:5204-5230 | the new version is current and linked; the one before loses a reference and, if it was the last, its files |
| `FileRefs.VersionSet.RemoveLiveFiles` | libmlkvplus/rocksdb/db/version_set.cc:6933-6963 | a candidate keeps its physical file exactly if it did before or a version in the list has a file of its number; so no obsolete file is left for physical deletion whose number any undeleted version has, built and not yet appended ones included |
| `FileRefs.VersionSet.ObsoleteIsUnused` | libmlkvplus/rocksdb/db/version_set.cc:6933-6963 | a number that an obsolete file shares with a version outside the list is in a version of the list: the one it is built from |
| `FileRefs.RemoveFilesOf` | libmlkvplus/rocksdb/db/version_set.cc:4904-4913 | the same for one version, by the location index |
| `FileRefs.IndexFindsNumbers` | libmlkvplus/rocksdb/db/version_set.h:608-621 | a number has a location exactly if the version has a file of that number |
| `Dist.OwnersAgree` | third_party/HugeCTR/sparse_operation_kit/kit_src/lookup/impl/select_kernel.cu:59-61 | assignment and selection agree on the owner of a 64-bit key if and only if it is not negative or the number of ranks divides 2^64 |
| `Dist.OwnersCanDisagree` | third_party/HugeCTR/sparse_operation_kit/kit_src/lookup/impl/select_kernel.cu:59-61 | with 3 ranks the row of key -1 is assigned to rank 2 and looked up on rank 0 |
| `Dist.Store.DistAssign` | mlkv_plus/dist.py:48-57 | a rank stores exactly the rows of the keys it owns and keeps all others |
| `Dist.AssignAll` | mlkv_plus/dist.py:48-57 | after every rank assigned the same keys, each row is on its owner, and from empty tables nowhere else |
| `Dist.DistSelect` | third_party/HugeCTR/sparse_operation_kit/kit_src/lookup/impl/select_kernel.cu:50-66 | any list of keys can be grouped by owner as assumed of the selection: every place once, each key in the chunk of its owner |
| `Dist.SelectAll` | mlkv_plus/dist.py:28-28 | so all ranks can select any lists |
| `Dist.ChunkArrives` | mlkv_plus/communication.py:209-220 | the rows a rank receives from another are the chunk that was sent to it |
| `Dist.ReceivedTwice` | mlkv_plus/communication.py:209-213 | the splits received on the way back are those sent on the way out |
| `Dist.ExchangeUndone` | mlkv_plus/dist.py:30-40 | the second exchange with the received splits undoes the first: each row comes back to the place its key was sent from |
| `Dist.Reorder` | third_party/HugeCTR/sparse_operation_kit/kit_src/lookup/impl/reorder_kernel.cu:24-35 | row i goes to the place its key came from |
| `Dist.RowIsThere` | mlkv_plus/dist.py:27-36 | a key that arrives at a rank has its row there |
| `Dist.RowIsThereExactly` | mlkv_plus/dist.py:27-36 | on freshly assigned tables it has its row there if and only if it is not negative or the number of ranks divides 2^64 |
| `Dist.LookupFindsExactly` | mlkv_plus/dist.py:27-36 | so a lookup by all ranks finds all rows if and only if this holds of every key asked for |
| `Dist.All2AllDenseEmbedding` | mlkv_plus/dist.py:26-44 | for any number of ranks and any index lists of assigned keys, row i on each rank is the row assigned to its i-th key |
| `Dist.AssignThenLookup` | mlkv_plus/dist.py:26-57 | assignment on all ranks and then lookups by all ranks: row i on each rank is the row assigned to its i-th key |

## Left out

- Compression of logs, and the decoding of metadata records (compression type, timestamp sizes, predecessor
  information): a reader that meets one ends with a separate outcome.
- Record checksums by XXH3, `LastRecordOffset`, `MaybeSwitchToNewBlock`, and failing reads and appends; a crash is a
  file cut at any byte.
- `LogParse.ReadOne` ends with the outcome `Diverges` where the source would loop for ever on a recyclable frame in a
  log that did not begin with one.
- `TailReader.FragmentBufferedReader.TryReadFragment`: for a frame that claims to be longer than its block the source
  reads on in a buffer whose header has moved; the model stops there with the outcome `Torn`.
- `TailReader.FragmentBufferedReader.TakeHeader`: the same outcome `Torn` for a recyclable header that does not fit its
  block.
- `TailReader.FragmentBufferedReader.TakeBody`: the same outcome `Torn` for such a frame.
- `TailSoundness.EveryTailRecordIsGenuine`: speaks of the records up to the first call that meets a metadata record or ends
  with `Torn`.
- `TailDamage.TailOfDamagedLog`: the visible part ends between two parts of the log; frames with a wrong length, for
  which the tailing reader waits or ends with `Torn`, and frames of other logs, at which it turns for ever, are left out.
- `ManifestWrite.ProcessManifestWrites`: version building, callbacks and the write to the file are not part of the
  batching; `WriteBatch` appends the records.
- `ManifestRecovery.Recover`: the loop around the group buffer (apply when full, then clear) stands for the version
  edit handler, which is not part of this model.
- `WalProtocol.StepKeepsDurable`: the size remembered when a log is marked is the flushed size; the declaration of that
  helper is not part of this model.
- `WalSync.WalList.MarkLogsSynced`: recording of synced logs in the MANIFEST is left out, as is the wake-up of waiters.
- `LsmPicker.FilePicker.constructor`: table prefetching is left out.
- `VersionGet.Get`: merge operands, blobs, range deletions, timestamps and read errors; that files visited earlier hold
  newer entries of a key is a precondition for different levels and within level 0, and proved within sorted levels.
- `MultiPicker.MultiGet`: lookups that resolve early, and the coroutine version.
- `Overlaps.RangeBinarySearch`: the hint index and the next smallest key.
- `LiveSize.EstimateLiveDataSize`: blob files; sums are not taken modulo 2^64.
- `LevelTargets.CalculateBaseBytes`: the static targets. The body of `MultiplyCheckOverflow` is taken to be: zero for
  zero, the first factor if the greatest integer divided by it is below the multiplier, else the converted product.
- `ManifestCommit.CommitCrashRecover`: the snapshot of all column families at the head of a new MANIFEST; edits are
  opaque but for group, count and sequence number.
- `LevelIteration.LevelIterator.Seek`: range tombstones, iteration bounds, prefix seeks and scan options.
- `FileRefs.VersionSet.Build`: how edits are applied to the base; a builder holds its base from construction to
  destruction, and new files have new numbers or describe files of the base again.
- `FileRefs.VersionSet.AppendVersion`: one column family, no blob files; the circular list of versions is a sequence.
- `Dist.Store.DistAssign`: keys are distinct, as the order of equal keys is not fixed.
- `Dist.All2AllDenseEmbedding`: a key that was never assigned, and the caches behind the local read.
- Out of scope: compaction scores, file marking by age, options, tracing, statistics, ingestion, opening and closing.

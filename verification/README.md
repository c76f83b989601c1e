# TSEdge, modelled and proved

This project is a Dafny model of TSEdge, an embedded append-only time-series store written in C, together with proofs
of what the store is for: accepted points survive, in order, across flushes, closes and crashes; the two column codecs
and the file formats lose nothing; and queries that skip blocks or read only headers answer as if they had looked at
every point. `dafny verify dfyconfig.toml` checks everything.

The model has three levels.

* **Bytes.** `wire.dfy`, `codec.dfy`, `segments.dfy`, `segment_names.dfy` and `wal_format.dfy` define words, varints,
  the timestamp and value columns, block headers, segment files, their names and write-ahead-log records as functions
  on byte sequences, prove their round trips, and verify the two-pass compressors, in-place decoders, scanners and
  record writers, as loops over arrays and cursors, against those functions. `config.dfy` holds the build-time limits,
  left symbolic, and `doubles.dfy` binary64 patterns as numbers, with rounding to nearest, ties to even.
* **Steps.** `state.dfy`, `engine.dfy` and `quota.dfy` describe an open database as a state machine: records in wal.log
  and in the log buffer, segment directories, series with a bounded buffer and a volatile index, quota and settings.
  `invariants.dfy`, `retention.dfy`, `recovery.dfy`, `batch.dfy`, `loss.dfy` and `runs.dfy` prove what every step keeps,
  what a crash at each promised point leaves, and that whole runs refine a map from series name to accepted points.
  `trimming.dfy` and `shelves.dfy` do so for runs under a disk quota, block by block. `damage.dfy`, `torn_blocks.dfy` and
  `exhausted_ids.dfy` say when a directory still opens and what is missing after a crash has torn the log or a block, or
  after the segment ids have run out; `handles.dfy` and `sessions.dfy` follow series handles through such runs.
* **The program.** `index.dfy`, `cleanup.dfy` and `store.dfy` hold the classes: a disk of bytes, series objects with a
  fixed array as buffer and an in-memory index, and the database with its log buffer. Each method is proved to take
  exactly the step of the state machine it implements, and `api.dfy` runs lists of calls, closes and crashes on them.
  `points.dfy`, `query.dfy` and `windows.dfy` verify range reads, aggregates and windowed aggregates against filters
  and folds over all visible points.

Conventions. Signed timestamps are 64-bit; differences between timestamps are reduced modulo 2^64 in two's complement.
Segment ids are assumed to stay within six digits where a step can flush (`Room`, `Budget`); `SegmentNames.NameRoundTrip`
and `Recovery.RebuildAgreesUpToSixDigits` say exactly what fails beyond that. Values are raw 64-bit patterns; aggregates
add them up as the C code does, rounding at every addition.

Six results are about behaviour the repository's documentation does not mention.

* Opening a log with a torn last record does not cut the torn bytes off, and later records are written behind them.
  Those records are never replayed, and once the file has grown past the end of the record that the torn bytes announce
  the replay reports a damaged record and the database can no longer be opened (`WalFormat.AppendedIsReplayedIffWhole`,
  `Damage.LoggedBehindTear`, `Api.AppendBehindTear`); three calls lead there from every
  healthy state with room in a buffer (`Damage.TornThenDamaged`). Any call that rewrites the log heals the file, flush-all and close among them
  (`Runs.StepIntact`); until then a crash may lose points in STRICT mode too. While the log is not torn, closes and
  crashes between calls, inside writes of the log and between the blocks of a flush leave a directory that opens
  (`Damage.IntactAlwaysOpens`).
* A crash inside the append of a block leaves part of the block in the segment file, whatever the log holds. With less
  than its header there, no open succeeds any more; with the whole header, the open succeeds and the index holds an entry
  that cannot be read (`TornBlocks.TornBlock`, `TornBlocks.CrashInBlockWrite`).
* A segment past id 999999 is written under a name the directory scan no longer recognises
  (`Recovery.RebuildAgreesUpToSixDigits`), and its points are lost at the next restart (`ExhaustedIds.PastSixDigits`).
* One wrong byte in a log record is always noticed, except in the field with its size. There it can make the record reach
  past the end of the file, and then the open succeeds without it and without every record behind it
  (`WalFormat.OneByteIsDetected`, `WalFormat.WrongSizeHidesRecords`).
* A block that starts with a NaN keeps that NaN as minimum and maximum in its header, so an aggregate that takes the block
  as a whole does not see its other values (`Query.HeaderIsFold`, `Query.LeadingNaNHides`).
* The sum in a block header is rounded at every addition, so an aggregate over covered blocks need not be the exact sum
  even where that is a binary64 number (`Segments.StoredSumCanBeInexact`); `Query.TotalSumExact` says when it is.

## Model

| member | source | states |
|---|---|---|
| Runs.RunRefines | src/core/series.c:108-254 | Whole-engine refinement: without a quota, every run of creates, appends, batches, flushes, mode switches, deletes, retention calls, closes and crashes, also inside an append or between the blocks of a flush, is a run of a map from series name to accepted points, in append order; a crash loses nothing if the log is intact and no append outside STRICT mode has come since the last mode switch, quota call, flush-all or open |
| Runs.RunKeepsInv | src/core/db.c:257-326 | Safety over all runs and any quotas: registry, files, index, log and buffers stay consistent after every call, close and crash |
| Runs.StepRefines | src/api/tsedge.c:38-152 | Each single call has exactly the effect on every series' visible points that the specification allows, and no other; retention only leaves points out, all of them older than the threshold, and keeps the order of the rest |
| Runs.TearStep | src/storage/wal.c:189-258 | A crash while records are being logged, after any number of their bytes: no reader sees more than what was accepted and in flight and, if nothing was pending on an intact log, as in STRICT mode, nobody loses an accepted point |
| Runs.HaltStep | src/core/series.c:120-159 | At-least-once in runs: after a crash between the block writes and the truncation of a flush on an intact log, a flushed series shows its old points and then the end of them once more, every other series what it showed; on a torn log the former still loses nothing |
| Runs.StepIntact | src/storage/wal.c:329-362 | A torn record can only come from a crash while logging; every call that does not end the process leaves the tear where it is, in front of the same records, or removes it by rewriting the log; flushing everything and closing remove it. Only appends leave records in memory, not in STRICT mode, and mode switches, quota calls and flush-all write them out |
| Shelves.RunCleansUp | src/core/db_quota.c:250-313 | Refinement of whole runs under any quota, block by block: each call has the effect and the result code that the specification gives it; each flush puts its block into the active file while that stays within its size limit and else into one new file; and after each flush a cleanup may take sealed files, whole, but never the active file or the buffer, and none while the directory it finds is within the quota |
| Shelves.StepCleansUp | src/api/tsedge.c:38-237 | The same for one call: QuotaExceeded for appends while the quota is exceeded, otherwise NotFound exactly for an unknown name, and QuotaExceeded exactly when a cleanup of the call ends above the quota, in which case no sealed file is left; a batch goes in by rounds of what the buffer takes, and a refused round leaves the earlier ones |
| Shelves.ThinShows | src/core/db_quota.c:206-313 | Of a series that lost sealed files a reader sees the old points with some left out, in the old order |
| Shelves.HoldingsShow | src/core/series_query.c:136-188 | Files in the order of their ids and then the buffer are what the engine shows to readers, so the two specifications speak of the same points |
| Trimming.EnforceTrims | src/core/db_quota.c:206-313 | What a cleanup costs: of every series a set of whole sealed files with all their points; the other files, the active one and the buffer stay as they are |
| Trimming.FlushThenCleanup | src/core/series.c:108-164 | A flush under a quota, on its own or inside a retention call, has state and result of a cleanup after the flush without a quota, and is that flush if the directory then fits the quota |
| Trimming.RoomThenCleanup | src/core/series.c:181-247 | The same for the flush that makes room in front of a point or a round of a batch; without a full buffer nothing happens at all |
| Trimming.FlushAllThenCleanup | src/core/db.c:257-273 | The same for the flush of all series, on its own or inside a delete or a close |
| Runs.EmptyDatabase | src/core/db.c:275-317 | An empty directory opens to an empty database, so both theorems hold from creation on |
| Api.Execute | src/api/tsedge.c:92-192 | The running program, from bytes and arrays up: a list of calls, closes and crashes, inside appends and flushes too, leaves the state the state machine reaches, keeps the invariant, and refines both specifications, the one without a quota and the one with any quota, whose sizes are those of the files on the disk |
| Api.CreateDatabase | src/core/db.c:275-317 | Opening a fresh directory gives a valid, empty database in STRICT mode from which every run may start |
| Api.Perform | src/api/tsedge.c:38-237 | Every call, on an intact or a torn log, changes the program state exactly as the corresponding step of the state machine and returns its result code; switching the mode and enforcing the quota append the whole log buffer to wal.log |
| Api.Restart | src/core/db.c:275-326 | Closing or dying, also half-way through writing records or between the blocks of a flush, and opening what is on the disk yields exactly the reopened state, or no database if and only if the replay meets a damaged record |
| Api.AppendBehindTear | src/core/db.c:275-317 | The first append after an open that left a torn record, then a crash: the point is gone, every other point is as before, and the next open fails if and only if the torn bytes and the new record together do not lie inside the record they announce |
| Damage.LoggedBehindTear | src/storage/wal.c:579-626 | With a record logged behind a torn one, the file is replayed up to the tear and opens if and only if all bytes behind it lie inside the record they announce; for tears of 12 bytes or more that is a comparison of two sizes |
| Damage.TornThenDamaged | src/storage/wal.c:189-258 | It happens: from every intact state in the default mode, a crash after four bytes of an append, the open after it, one more append and one more crash leave a log that no open accepts; no assumption on checksums |
| Damage.DamageIsReachable | src/core/db.c:275-317 | The same as a run from the creation of a database |
| Damage.IntactAlwaysOpens | src/core/db.c:275-317 | While no torn record is in the log, every close leaves a directory that opens, and so does every crash between calls, at any byte of a write of the log, or between the blocks of a flush |
| Damage.FileReplays | src/storage/wal.c:579-626 | Of any log file the engine can leave, a replay finds the records in front of the torn one and whatever the bytes behind it parse to; the directory opens cleanly exactly when that is nothing |
| TornBlocks.TornBlock | src/storage/segment_writer.c:132-167 | A block cut while it was appended: with less than its header in the file the scan reports corruption, with the whole header it lists the block as if it were there, and in neither case can it be decoded |
| TornBlocks.CrashInBlockWrite | src/core/series_index.c:96-142 | A crash while a flush appends its block: whatever is in the log, the next scan of the series fails, and with it the open, if and only if less than the header was written; otherwise the index is that of the completed flush and its last entry leads to a block nobody can read |
| TornBlocks.AppendedBehindTornBlock | src/storage/segment_reader.c:77-131 | A block appended behind a torn payload is missed by the next scan when it ends inside the range that the torn header announces |
| Store.Database.LoadSeries | src/core/series.c:50-96 | Making a series object from any directory indexes its recognised files, or fails if and only if one of them is corrupt |
| Recovery.CrashRecovers | src/storage/wal.c:579-626 | Exact recovery: a crash between calls keeps all segments and, of each buffer, the prefix whose records reached wal.log in front of a torn one; with nothing pending on an intact log, as in STRICT mode, every visible point |
| Recovery.RecoveryIsIdempotent | src/core/db.c:275-317 | Crash, open, crash, open shows every reader what crash, open shows |
| Recovery.ReplayIs | src/core/series.c:249-254 | Replaying a log that mirrors the buffers never triggers a flush: it only fills the buffers |
| Recovery.ReplayDelivers | src/storage/wal.c:387-500 | Replaying any log, not only one that mirrors the buffers, registers the series it does not know and gives every series the points of its records in order, full buffers becoming blocks on the way |
| Recovery.OpenOk | src/core/db.c:275-317 | Open from any consistent directory and log, in any directory order: nothing on disk changes, readers see blocks and then the logged points |
| Recovery.TornCrashRecovers | src/storage/wal.c:579-626 | A crash while records that are not in wal.log yet are written to it, at any byte, before or after their points are buffered: open succeeds with a prefix of the records that contains all those written before |
| Recovery.CrashInAppendPoint | src/core/series.c:181-211 | The same for a crash while the record of a point is logged, before the point is buffered: every series shows a prefix of what it would show after the append and, if nothing was pending on an intact log, all of what it showed before |
| Recovery.CrashInAppendChunk | src/core/series.c:213-247 | The same for the records of a chunk of a batch, also when the log buffer fills up and is flushed between two of them |
| Recovery.RoundIsWhole | src/storage/wal.c:270-327 | A round of a batch of up to TSEDGE_WAL_MAX_BATCH_POINTS points is one record: a crash at any byte while it is logged shows all of the round's points or none |
| State.BatchEntriesFull | src/storage/wal.c:304-327 | Records of a batch are filled before another one is begun |
| Recovery.CrashWhileLogging | src/storage/wal.c:189-258 | The general form, also for a log that is torn already: the file afterwards, that it opens if it was intact, and that readers see between the durable and the accepted points |
| Recovery.CrashInFlush | src/core/series.c:120-159 | At-least-once inside a flush: after the block is appended and before the log is truncated, a crash loses nothing and repeats only the block just written |
| Recovery.CrashInFlushAll | src/core/db.c:257-273 | The same for a crash inside flush-all, series by series |
| Recovery.ReopenOk | src/core/db.c:319-326 | Close and open keeps the invariant and, without a quota, every reader's view |
| Recovery.FlushedSurvivesCrash | src/core/series_retention.c:59-130 | A series with nothing buffered, as after retention, looks the same after any crash: deleted points do not come back |
| Recovery.RebuildAgreesUpToSixDigits | src/storage/segment_files.c:27-45 | The incrementally kept index equals the rebuilt one after a flush if and only if the segment id has at most six digits |
| ExhaustedIds.PastSixDigits | src/storage/segment_files.c:27-45 | A flush to a file with a seven-digit id succeeds and no reader notices, but after any restart exactly the points of that block are missing; all other series are as before |
| ExhaustedIds.SixDigitsLosePoints | src/storage/segment_files.c:19-45 | A consistent database with id 999999 in use and full exists, and there an accepted, logged and flushed point is lost |
| Loss.CrashLosesPending | src/storage/wal.c:235-258 | After any run a crash loses, of each series, exactly the points of the records behind a torn one and in the log buffer; without a torn one that buffer is all, and it is empty in STRICT mode, otherwise within its threshold or one record |
| Loss.StepBounded | src/storage/wal.c:68-73 | Every call keeps the log buffer within TSEDGE_WAL_BALANCED_FLUSH_BYTES in BALANCED mode and within TSEDGE_WAL_BUFFER_BYTES otherwise, or at a single record |
| Loss.SwitchLosesNothing | src/api/tsedge.c:38-79 | After switching to any durability mode, and after enforcing the quota, no record is pending, and on an intact log a crash right then shows every reader what the call left, for a switch and without a quota what they saw before |
| Invariants.FlushOk | src/core/series.c:108-164 | A flush keeps the log mirroring every buffer, empties one buffer and, without a quota, changes no one's visible points; the buffer becomes the last block of the active file while their bytes together are within the limit, leaving the set of files as it is, and otherwise the only block of exactly one new file, the next id; a cleanup behind it never takes that file |
| Invariants.FlushedPlaces | src/storage/segment_rotation.c:7-52 | The rotation rule by the bytes of file and block, for every consistent series: same files and same active id while they fit, exactly one more file with the next id when they do not |
| Invariants.FlushedOk | src/core/series_index.c:30-69 | The index kept incrementally by a flush is what a scan of the new files would give, ids included, and the stored points grow by exactly the buffer |
| Invariants.TruncateMirrors | src/storage/wal.c:329-362 | After truncation the log holds, for every series, exactly its buffered points in order |
| Invariants.PushLogged | src/core/series.c:181-204 | Logging points and then buffering them keeps the mirror for all series and extends one series' visible points |
| Invariants.AppendPointOk | src/core/series.c:181-211 | An append keeps the invariant under any quota; an accepted point becomes the last visible point of its series |
| Invariants.AppendBatchOk | src/core/series.c:213-247 | A batch of any length keeps the invariant and, without a quota, is accepted completely and in order |
| Invariants.FlushAllOk | src/core/db.c:257-273 | After flush-all the log and every buffer are empty, and without a quota no visible point has changed |
| Invariants.AddSeriesOk | src/core/db.c:91-107 | Registering a series adds an empty one and leaves the others alone |
| Invariants.DeleteSeriesOk | src/core/series_delete.c:64-105 | A deleted series is gone, no other changes, and the log holds nothing that could resurrect it; unknown names change nothing |
| Batch.BatchRefinesAppends | src/core/series.c:213-247 | Without a quota a batch leaves the same blocks with the same boundaries, the same index and buffer, and the same logged points per series as its points appended one by one |
| Retention.DeleteBeforeOk | src/core/series_retention.c:59-130 | Exactly the segments whose points are all older than the threshold are deleted; points are only left out, all of them older, the rest keeps its order, other series are untouched |
| Retention.ExpiredExact | src/core/series_retention.c:28-57 | Judged by index entries alone, a segment expires if and only if every point in it is older than the threshold |
| Quota.QuotaIsGreedy | src/core/db_quota.c:250-313 | Cleanup deletes the shortest prefix of the sorted candidates that brings the directory within the limit, and reports quota-exceeded exactly when deleting all of them does not; `Store.SizeOnDisk` says that the size compared is that of the files |
| Quota.TrackedIsTotal | src/core/db_quota.c:284-294 | The loop's running size equals the recomputed size of the directory after each deletion |
| Quota.QuotaIsSafe | src/core/db_quota.c:162-204 | No cleanup deletes the active or the only segment of a series, and the registry stays consistent |
| Quota.SortedCandidatesExact | src/core/db_quota.c:224-235 | The sorted list holds every sealed segment of every series with more than one, each once |
| Quota.OldestFirst | src/core/db_quota.c:206-222 | Candidates are deleted by newest point, then registry position, then file id |
| Quota.SortUnique | src/core/db_quota.c:231-233 | Any correct sort gives the same order, because distinct candidates never compare equal |
| Quota.BoundsOfIndex | src/core/db_quota.c:91-123 | The bounds collected from the index are, file by file, the true largest timestamps |
| WalFormat.TornTail | src/storage/wal.c:579-626 | A log cut at any byte replays to exactly the records lying wholly before the cut; the strict verifier accepts it if and only if the cut is between records |
| WalFormat.WholeLog | src/storage/wal.c:628-679 | An uncut log replays completely and the verifier counts its records |
| WalFormat.EntryRoundTrip | src/storage/wal.c:396-577 | Every v2 point, v3 point and v3 batch record is read back exactly |
| WalFormat.ReplayedLogVerifies | src/storage/wal.c:628-679 | Whatever bytes the replay reads to the end, the verifier accepts with the same count |
| WalFormat.AppendedIsReplayedIffWhole | src/storage/wal.c:579-626 | Torn bytes are not cut off on open. Records appended behind them are replayed later if and only if nothing was torn; otherwise the log is torn while it ends inside the record the joined bytes announce and damaged from then on, for every length of the tear |
| WalFormat.EncodePoint | src/storage/wal.c:90-118 | The point encoder fills exactly the record's bytes, checksum included |
| WalFormat.EncodeBatch | src/storage/wal.c:120-154 | The batch encoder fills exactly the record's bytes, checksum included |
| WalFormat.PointFields | src/storage/wal.c:90-118 | Where every field of a point record stands, checksum included |
| WalFormat.BatchFields | src/storage/wal.c:120-154 | Where every field of a batch record stands; its points follow the name |
| WalFormat.PointAt | src/storage/wal.c:120-154 | Where timestamp and value of each point of a batch stand |
| WalFormat.RecordIsCanonical | src/storage/wal.c:396-577 | Nothing is read as a record but the bytes of that record, unless a zero byte cuts its name short |
| WalFormat.ReadIsSealed | src/storage/wal.c:502-577 | Replay and verifier take a record only with the right magic number and checksum |
| WalFormat.OneByteIsDetected | src/storage/wal.c:579-626 | One wrong byte in a record, anywhere but in its size field, whatever stands before and behind it: the records in front are replayed, the open fails and the verifier refuses the log |
| WalFormat.WrongSizeHidesRecords | src/storage/wal.c:579-626 | One wrong byte in the size field: if the size now reaches past the end of the file the record is taken for a torn one, so the open succeeds without it and without all records behind it; otherwise the log is damaged unless a checksum agrees by accident |
| WalFormat.ReplayLog | src/storage/wal.c:579-626 | The reader's cursor loop collects exactly the records of the format definition and classifies the end |
| WalFormat.VerifyFile | src/storage/wal.c:628-679 | The verifier's loop accepts and counts exactly as the format definition does |
| WalFormat.Checksum | src/storage/wal.c:43-50 | The byte loop computes FNV-1a over the record body |
| WalFormat.FnvDetectsByte | src/storage/wal.c:43-50 | The checksum changes with every single byte of its input |
| WalFormat.FnvKnown | src/storage/wal.c:43-50 | It agrees with the published FNV-1a values of the empty string and of one letter |
| Codec.TimestampRoundTrip | src/compression/compress.c:42-137 | Decompressing a compressed timestamp column restores every sequence of 64-bit timestamps and consumes the input exactly |
| Codec.ValueRoundTrip | src/compression/compress.c:139-274 | Decompressing a compressed value column restores every 64-bit pattern, NaN payloads and -0.0 included |
| Codec.TimestampSize | src/compression/compress.c:58-68 | The timestamp sizing pass equals the encoding to the byte |
| Codec.ValueSize | src/compression/compress.c:156-171 | The value sizing pass equals the encoding to the byte, for all three markers |
| Codec.CompressTimestamps | src/compression/compress.c:42-94 | The writing pass fills the sized buffer with exactly the encoded column |
| Codec.TimestampFields | src/compression/compress.c:42-94 | Where the first timestamp and the first delta stand in the column |
| Codec.RegularTimestamps | src/compression/compress.c:42-94 | Timestamps that keep their distance cost one zero byte each behind the first two |
| Codec.CompressValues | src/compression/compress.c:139-212 | The writing pass fills the sized buffer with exactly the encoded column |
| Codec.RecordFields | src/compression/compress.c:173-212 | A value like the one before costs a single zero byte; otherwise the record holds exactly the bytes of the difference that are needed, highest first, or all eight, lowest first, if at most two could be left out |
| Codec.DecompressTimestamps | src/compression/compress.c:96-137 | The in-place decoder accepts exactly the decodable columns and fills in their timestamps |
| Codec.TimestampLength | src/compression/compress.c:96-137 | A timestamp column is refused when bytes are missing at its end or stand behind it |
| Codec.DecompressValues | src/compression/compress.c:214-274 | The in-place decoder accepts exactly the decodable columns and fills in their patterns |
| Codec.ValueLength | src/compression/compress.c:214-274 | The same for a value column |
| Codec.WindowRestores | src/compression/compress.c:20-40 | The bytes between the leading and trailing zero bytes of a word determine it |
| Wire.ZigzagRoundTrip | src/compression/bitstream.c:32-39 | Zigzag is a bijection between signed and unsigned 64-bit words |
| Wire.VarintRoundTrip | src/compression/bitstream.c:50-75 | Every 64-bit value is read back from its LEB128 form with the cursor just behind it |
| Wire.VarintAtMostTen | src/compression/bitstream.c:41-48 | A varint takes at most ten bytes |
| Wire.VarintDigit | src/compression/bitstream.c:50-59 | Each byte of a varint carries seven bits, lowest first, and all but the last have the top bit set |
| Wire.WriteVarint | src/compression/bitstream.c:50-59 | The writing loop emits exactly the varint and advances the cursor by its size |
| Wire.ReadVarintLoop | src/compression/bitstream.c:61-75 | The reading loop decodes as the format says, overlong input included |
| Wire.WriteLe | src/compression/bitstream.c:3-14 | Little-endian stores write the value's bytes and touch no byte behind them |
| Wire.LeDigit | src/compression/bitstream.c:3-14 | The bytes of a word stand lowest first |
| Wire.XorSelfInverse | src/compression/compress.c:184-200 | Exclusive or with the previous pattern is undone by a second one |
| Wire.XorBit | src/compression/compress.c:184-200 | A bit is set where exactly one of the two words has it set |
| Segments.HeaderRoundTrip | src/storage/block.c:51-122 | A header is read back exactly when the reader's checks accept it |
| Segments.PayloadBound | src/storage/block.c:37-49 | The payload of 1 to capacity points is at most 19 bytes a point, so size validation never rejects a written block |
| Segments.WrittenHeaderIsValid | src/storage/segment_writer.c:11-56 | Every header the writer makes passes the reader's checks |
| Segments.BlockRoundTrip | src/storage/segment_reader.c:133-182 | Every block of a segment decodes, at its offset, to the header and the points written |
| Segments.ScanIsIndex | src/storage/segment_reader.c:77-131 | Scanning a segment's bytes yields the entries recorded when its blocks were appended, in order |
| Segments.MakeHeader | src/storage/segment_writer.c:11-56 | One loop computes bounds, extreme values, whose comparisons fail for NaNs, and the sum, rounded at every addition |
| Segments.SumBitsExact | src/storage/segment_writer.c:28-43 | A block's stored sum is the exact sum if every running sum is a binary64 number |
| Segments.ValueBounds | src/storage/segment_writer.c:24-43 | The stored extremes are values of the block; they enclose all its numbers unless the first value is a NaN, which then stays |
| Segments.StoredSumCanBeInexact | src/storage/segment_writer.c:28-43 | A representable total is not enough: of 10^16, 1 and -10^16 the stored sum is 0 |
| Doubles.RoundIsNearest | src/storage/segment_writer.c:28-43 | The rounding of sums and averages: no finite binary64 number is nearer than the chosen one |
| Doubles.TiesToEven | src/storage/segment_writer.c:28-43 | Of two binary64 numbers equally near, the one with the even significand is chosen |
| Doubles.RoundExact | src/storage/segment_writer.c:28-43 | Rounding a binary64 number changes nothing |
| Doubles.AddExact | src/storage/segment_writer.c:28-43 | An addition whose exact result is a binary64 number loses nothing |
| Segments.WriteHeader | src/storage/block.c:51-72 | The 72-byte header is filled field by field as the layout says |
| Segments.HeaderFields | src/storage/block.c:51-72 | Where every field of the header stands, byte by byte, with magic number and version |
| Segments.HeaderIsCanonical | src/storage/block.c:74-122 | Nothing is read as a header but the bytes of that header |
| Segments.EstimateBlockSize | src/storage/segment_writer.c:67-90 | The size used for rotation equals the bytes the block will take |
| Segments.AppendBlock | src/storage/segment_writer.c:92-167 | Appending writes exactly header and payload behind the file and reports the entry a scan would find |
| Segments.ScanIndex | src/storage/segment_reader.c:77-131 | The scanning loop returns what the header-by-header definition says, or nothing for a corrupt file |
| Segments.TimestampBounds | src/storage/segment_writer.c:24-43 | The stored time bounds enclose every point and are attained, for unsorted timestamps too |
| SegmentNames.NameRoundTrip | src/storage/segment_files.c:19-45 | A segment's file name is recognised, and gives its id back, if and only if the id has one to six digits |
| SegmentNames.NamesAreCanonical | src/storage/segment_files.c:27-45 | Only canonical names are recognised, so no two files stand for one segment |
| SegmentNames.NamesAreDistinct | src/storage/segment_files.c:19-25 | Different ids have different file names, so no file is overwritten by another segment |
| Handles.HandlesNeverAlias | src/core/db.c:109-177 | Over every run of creates, deletes and lookups a handle resolves to the incarnation it was issued for or to nothing, and once to nothing then for ever |
| Handles.ResolveExact | src/core/db.c:150-177 | Whatever shifts did to the cached position, a handle resolves if and only if its incarnation is still registered |
| Handles.RunLater | src/core/db.c:91-107 | Generations stay distinct and never come back |
| Sessions.HandleKeepsItsSeries | src/api/tsedge.c:103-173 | Handles and engine together, under any quota: after any calls in between, an append through a handle is the append by name while the incarnation it was obtained for is registered, and nothing once it is deleted, even if the name is in use again; without a quota it extends that series and no other |
| Sessions.CallShadows | src/core/db.c:82-177 | Every call on the engine is a create, a delete, a lookup or nothing for the registry of the handles, so all results on handles hold for it |
| Handles.SeriesTable.Acquire | src/core/db.c:109-148 | Looking up a handle reuses and refreshes the one of the current incarnation, or issues a new one |
| Handles.SeriesTable.RemoveSeries | src/core/series_delete.c:83-102 | Removing a series closes the gap in the array; handles keep their stale positions and stay resolvable or dead as specified |
| Handles.SeriesTable.Lookup | src/core/db.c:150-177 | The resolver refuses foreign handles and otherwise finds and caches the position as specified |
| Api.Read | src/core/series_query.c:136-188 | A range read delivers the visible points of the interval in order, cut at the first callback that asks to stop |
| Query.ReadRange | src/storage/segment_reader.c:274-332 | The indexed read, skipping blocks by index bounds, delivers what a plain filter over blocks and buffer would |
| Query.ReadSegment | src/storage/segment_reader.c:217-272 | The sequential read of one segment delivers the same filtered points without an index |
| Query.DeliveredIsCut | src/storage/segment_reader.c:133-182 | What a callback has been given is a prefix, and it is short only where the callback asked to stop |
| Query.IndexReadable | src/core/series_index.c:96-142 | Every entry of a consistent index leads to its block |
| Api.AggregateSeries | src/core/series_query.c:255-289 | The answer told by the visible points of the interval alone: refused if and only if the interval is reversed, no number if and only if there are no points and the kind is not count; the count exact up to 2^53; minimum and maximum values of points that no other number lies beyond, unless a covered block starts with a NaN; the sum exact and the average exact and rounded once when no running sum is rounded |
| Query.AggregateState | src/core/series_query.c:205-253 | Skipping disjoint blocks, taking covered ones from headers and decoding the rest equals adding up the pieces of the interval, for NaNs and infinities too; it agrees with a fold over all points in the count always and in the bounds unless a covered block starts with a NaN |
| Query.HeaderIsFold | src/storage/segment_reader.c:26-39 | Adding the header of a block gives the count and bounds of adding its points one by one if and only if no value outside the bounds so far is hidden behind a leading NaN of the block |
| Query.LeadingNaNHides | src/storage/segment_reader.c:26-39 | Such values exist: after 1, a block of a NaN and 0 leaves the minimum at 1 |
| Query.FoldMeaning | src/storage/segment_reader.c:11-24 | The fold is the number of points, a smallest and a largest value among them unless a NaN came first, and the exact sum if no running sum is rounded |
| Doubles.WholeNumbersExact | src/core/series_query.c:255-289 | Whole numbers up to 2^53 are not rounded, so counts up to there are exact |
| Query.TotalAgrees | src/core/series_query.c:205-253 | However an interval is cut into covered blocks and single points, the count is that of its points, and the bounds are those of the points the pieces show, which are all of them unless a covered block starts with a NaN |
| Query.TotalSumExact | src/core/series_query.c:205-253 | If no running sum of the interval or of a covered block is rounded, the total is the exact sum of the points |
| Query.AnswerExact | src/core/series_query.c:255-289 | The sum a caller gets is then exact, and the average is the exact one rounded once |
| Query.AnswerMeaning | src/core/series_query.c:255-289 | The same of the reference answer of the query, for any blocks and buffer and all five kinds |
| Query.WholeIfCovered | src/core/series_query.c:205-253 | A block is taken by its header if and only if all of its points are in the interval; of other blocks exactly the points inside are added |
| Query.RangeSelects | src/core/series_query.c:136-188 | The points of an interval are those with a timestamp from its start to its end, both included, each as often as it is there and in the order of the list |
| Api.AggregateSeriesWindowed | src/core/series_query.c:310-447 | The result told by the visible points alone: every listed window starts at the start plus a multiple of the width, is one width long or ends with the interval, and holds as many points as it counts; starts increase, and every visible point of the interval is in a listed window; minimum, maximum and average are those of its points under the conditions of the plain aggregate |
| Windows.AggregateWindowed | src/core/series_query.c:310-447 | Requests are refused as specified; otherwise the same of the result array, whether a block was decoded or only its header read |
| Windows.EntriesMeaning | src/core/series_query.c:310-447 | The reference list of windows has those bounds, counts, values, order and completeness |
| Windows.WindowCountExact | src/core/series_query.c:29-51 | A request is accepted if and only if it is well-formed, its length fits a signed word and it needs no more windows than allowed; accepted windows cover the interval and none is superfluous |
| Windows.CountsAddUp | src/core/series_query.c:310-447 | The counts of the windows add up to the points of the half-open interval |
| Windows.WindowEnds | src/core/series_query.c:427-441 | Windows have the right bounds, and the last one is clipped to the end |
| Windows.WindowEntry | src/core/series_query.c:427-441 | Computing a window's bounds never leaves signed 64-bit numbers |
| Windows.GivenHeader | src/core/series_query.c:72-85 | A block in a single window reaches that window, and no other, by its header |
| Windows.WholeIfInWindow | src/core/series_query.c:72-85 | A window takes the header of a block if and only if all points of the block lie in the window |
| Windows.EntryAverageExact | src/core/series_query.c:427-441 | The average of a window is the exact one rounded once when no sum on the way is rounded, and a window is listed if and only if it holds a point |
| Windows.EntryBounds | src/core/series_query.c:427-441 | Count, minimum and maximum of a window are those of its visible points unless a block taken by its header starts with a NaN |
| Store.Database.FlushLog | src/storage/wal.c:189-212 | Afterwards wal.log is what it was followed by the log buffer, behind a torn record if there is one, and the buffer is empty |
| Store.Database.AppendRecord | src/storage/wal.c:235-258 | One record's bytes go behind the log buffer; if that would exceed the limit of the mode the old buffer is appended to wal.log first, and else wal.log is left alone |
| Store.Database.LogPoint | src/storage/wal.c:289-302 | A point's record is appended to wal.log at once in STRICT mode, behind all that was pending, and buffered like any record otherwise |
| Store.Database.LogBatch | src/storage/wal.c:304-327 | The chunk loop logs exactly the batch records of the points, in wal.log and log buffer together, and leaves nothing pending in STRICT mode |
| Store.Database.TruncateToBuffers | src/storage/wal.c:329-362 | The rewriting loops leave wal.log with exactly the records of the buffers, and heal a torn end |
| Store.Database.WriteSegment | src/core/series.c:124-154 | The bytes of the block go to the end of the active file, or into the next file if and only if the active one holds something and would grow past the limit; nothing else on the disk changes, and the record of the series is the flushed one |
| Store.Rotate | src/storage/segment_rotation.c:7-52 | By the lengths of the files: the next id if and only if the active file holds something and would grow past the size limit with the block, else the active id |
| Store.Database.Flush | src/core/series.c:108-164 | A flush with truncation and cleanup takes the flush step |
| Store.Database.FlushAll | src/core/db.c:257-273 | The loop over all series takes the flush-all step, whose truncation removes a torn record |
| Store.Database.AppendOne | src/core/series.c:181-204 | Flush if full, log, then buffer: the append step |
| Store.Database.AppendChunks | src/core/series.c:213-247 | The chunk loop takes the batch step, makes progress in every round, and stops at the first refused flush |
| Store.Database.AddSeries | src/core/db.c:91-107 | Registering a series object takes the create step, indexing what its directory holds |
| Store.Database.RecoverRecord | src/storage/wal.c:387-500 | Applying one replayed record takes the replay step |
| Store.Database.Open | src/core/db.c:275-317 | Open loads and replays a directory, succeeds up to a torn end, which stays in the file, and fails exactly on a damaged record |
| Store.Database.EnforceQuota | src/core/db_quota.c:250-313 | Gathering, sorting, deleting and rebuilding take the cleanup step; with a quota the result is Ok if and only if the bytes of all files on the disk are within it afterwards |
| Store.Database.DeleteFiles | src/core/db_quota.c:284-294 | The deletion loop unlinks exactly the doomed prefix and marks the touched series |
| Store.Database.DatabaseSize | src/core/db_quota.c:42-89 | The size is the length of wal.log, plus the lengths of all files of all series directories, plus the lengths of manifest.txt and of every metadata.txt, written out as byte strings |
| Store.SizeOnDisk | src/core/db_quota.c:42-89 | The size that every result on quotas speaks of is that sum over the files on the disk, for every state of the program |
| Store.Database.DeleteBefore | src/core/series_retention.c:59-130 | Flushing, collecting bounds, unlinking and rebuilding take the retention step |
| Store.Database.DeleteSeries | src/core/series_delete.c:64-105 | Flushing everything, removing the directory and closing the gap take the delete step |
| Store.Database.SetDurability | src/api/tsedge.c:38-51 | Switching to any of the three modes leaves wal.log as it was followed by the bytes of the log buffer, and nothing pending |
| SeriesIndex.SeriesObject.RebuildIndex | src/core/series_index.c:96-142 | Clearing the index and scanning all recognised files gives the entries of all headers, or fails if and only if a file is corrupt |
| SeriesIndex.ScannedIsRebuilt | src/core/series_index.c:96-142 | With whole blocks in all files the scan succeeds and gives the record that the state machine rebuilds |
| SeriesIndex.ListSegments | src/storage/segment_files.c:77-130 | Whatever order the directory lists its files in, the ids come out recognised, sorted and complete |
| SeriesIndex.SeriesObject.AddSegmentId | src/core/series_index.c:30-43 | A segment id is remembered once |
| Cleanup.CollectBounds | src/core/db_quota.c:100-123 | The growing array of bounds is the per-file maximum of the index |
| Cleanup.CollectCandidates | src/core/db_quota.c:162-204 | The candidates of one series are its sealed, non-empty files with their sizes on disk |
| Cleanup.DirectoryBytes | src/core/db_quota.c:42-81 | Adding up a directory's files gives the sum of their lengths in any visiting order |

## Left out

- Runs.RunRefines: stated with the quota disabled, because cleanup deletes points by design; `Shelves.RunCleansUp` is the form for any quota.
- Shelves.RunCleansUp: the size that a cleanup finds is not computed from the calls before it; `Store.SizeOnDisk` says for every state of the program that it is the number of bytes on the disk.
- Runs.HaltStep: a crash inside the bytes of a block is not a step of a run, because the files it leaves are no longer whole blocks; `TornBlocks.CrashInBlockWrite` says what the next open finds.
- Doubles.Add: which NaN an addition yields is not modelled.
- Query.AnswerExact: the number of points is divided by as an exact number; the C code converts it to binary64 first, which rounds counts above 2^53.
- Damage.LoggedBehindTear: a checksum that agrees by accident with the bytes of a torn record and its successors is excluded for tears of 8 bytes and more; then the replay would read a record nobody wrote.
- Api.Restart: leaves out the same accident, after which the state would hold points nobody appended.
- Store.Database.DeleteFiles: candidates are sorted by a function on sequences where the C code calls qsort; `Quota.SortUnique` shows that any sort gives the same order.
- Recovery.CrashInFlush: a crash after wal.log has been opened for truncation and before its rewrite is complete is not covered; the code makes no promise for that window.
- Failing reads, writes, syncs and allocations, and the return codes for them; files and memory are abstract and every operation on them succeeds.
- Walking directories, stat and path handling: a database directory is a map from series to segment id to bytes, the order in which entries are listed is a parameter, and every directory belongs to a series.
- Reading and writing manifest.txt and metadata.txt, whose texts are functions of the registered names and count towards the quota by their lengths; CSV export, listing, statistics, read counters and the verifier's report.
- The growth of arrays by doubling and the wrap-around of 32-bit sizes, counts and segment ids; growing arrays are sequences.
- Null-pointer checks of the public interface, and the names "." and "..".
- Collisions of the FNV-1a checksum: damage to more than one byte of a record, or to its size, may go unnoticed.
- Handles.SeriesTable: the classes of the database and of its handles are separate; `Sessions.CallShadows` connects the two state machines, not the objects.
- Updates of a series record through a pointer held across a call are not modelled; the registry holds the objects and calls name them by position.
- The Python binding, the agent, examples, benchmarks, the simulator and the build scripts.

# ftwdb verification

A Dafny model of ftwdb, an embedded append-only time-series database, with proofs about its
log, its catalog, its sealed segments and rollups, and the sidecar that feeds it.

`dafny verify dfyconfig.toml` checks everything. Nothing is assumed beyond what the preconditions
of the theorems say: the serializer and compressor undo themselves (`Lawful`, `CodecOk`), the
serialized receipt index has its documented size (`SizesHold`) and is not decoded from fewer bytes
than its receipts take (`ReadsWhole`), a calendar divides time into buckets without holes
(`Partition`, see below), and the disk keeps what was synced (a crash may keep any prefix of the
rest). The ordered retry theorems ask one thing of the checksum (`PrefixLaw`), which `ChecksumLaw`
proves of CRC-32.

## What is modelled

**The log and crash recovery.** `LogFrame` and `FramedLog` are the frame format and the scan over
any state a log can mean. `DurableLog` adds a disk that may write any part of a frame and fail any
sync. `EveryRunRecovers` covers every run of writes, flushes and crashes and every crash cut.

**The database.** `StorageLog` says what each frame does; `ExactlyOnce` and `Receipts` what that means
for commit identifiers, source cursors and retries. `DatabaseModel` and `DatabaseRuns` are the
writer with its memory, over all runs: `DatabaseRecovers` and `Watermarks` are the main results.
`DatabaseReplies` says what every call is told, from its own arguments. `LogScan` and `Database` are the classes
that do it in place, each method proved against the specification. `Formats` gives the log byte by byte and says
what any recovered log adds up to.

**Reclaiming a log.** `IdentityFrames`, `Reclaim`, `ReclaimScan`, `ReceiptSizes` and `ReclaimLog` rewrite
the log to catalog, receipts and live points, and prove what survives and when the rewrite succeeds.

**The whole life of a store.** `StoreRuns` puts writer, crashes, seals and reclaims together, in any
order. Every crash recovers (`LifeRecovers`); what was acknowledged is shown, exactly and in order,
until a crash (`AcknowledgedShown`); what was synced is shown for good (`DurablePointsKept`); nothing
else is ever shown (`NothingInvented`); an identity once durable is never applied again
(`KnownNeverWritten`) and its retry gets the first receipt back (`AnsweredForLife`, and
`IdentifiedForLife` for plain commit identifiers). A seal may reuse a generation the log has a checkpoint
of, provided the rewrite of the log follows at once; `SealRecoversIff` says what happens otherwise.
`Histories` says which histories no query can tell apart.

**The catalog.** `Graphs`, `CatalogRules` and `CatalogSnapshot`: reference validation by explicit-stack
search, what every history of transactions keeps, and a snapshot that rebuilds the catalog.

**Sealed data.** `Queries` and `Sealing` show that sealing is invisible to queries and loses no point;
`ColumnCodec`, `ColumnLayout` and `SegmentIndex` are the segment file; `Aggregate`, `Rollup` and `RollupBuild` the
rollups, fixed and calendar, over real-number values.

**The sidecar.** `ShadowRuntime` is the bounded queue, its producers, shutdown and worker as a
machine of atomic steps, over every interleaving. `Utf8`, `SortedMaps`, `WireFields`, `WireRecords`,
`WireProtocol` and `WireInput` are the wire codec, and `WireLayout` its documented bytes and limits.

## Where the code does less than one might expect

- A seal generation reused after a crash between its checkpoint and its publication leaves a store
  that cannot be opened, until the log is rewritten (`SealRecoversIff`, `ReusedGenerationFails`).
- Points appended raw for a series the catalog does not define make every reclaim fail while they are
  live (`CompactLogReplaysIff`, `RawPointsBlockReclaim`).
- A finished run can still change an attribute from `0.0` to `-0.0` (`FinishedRunFixedIff`).
- A rollup over representable samples can fail on the gap between two of them (`Build`, `GapMayOverflow`).
- With the transaction limit `u32::MAX` the database accepts an ordered commit whose receipt fits no index
  frame, and then no reclaim succeeds again (`EmptyBatchesNeverFit`, `NeverFitsAgain`). `CommitFitsIff` says which
  commits do that; with a limit at least 58 bytes lower none does (`HeldReceiptsFit`).
- A checksum collision under a commit identifier is reported as corruption and poisons the writer, although
  nothing is damaged (`IdentifiedVerdict`). Two points that differ only in their value collide
  (`ValuesCollide`, `CollisionPoisons`). After a reclaim the same call is a conflict (`SameIdentifiedVerdict`).
- A calendar bucket ends one civil day, month or year after its first instant. In zones that change their
  clocks at or across midnight that need not be the first instant of the next bucket, so `Partition`, which the
  calendar theorems assume, may fail there.

## Model

| member | source | states |
|---|---|---|
| `ByteCodec.FromLEOfLE` | src/storage.rs:3214-3224 | Little-endian bytes of any width decode to the number they were made from. |
| `ByteCodec.LEOfFromLE` | src/storage.rs:3226-3238 | Every byte string is the little-endian form of the number it decodes to, so fields have one form. |
| `ByteCodec.FromBEOfBE` | src/shadow_protocol.rs:986-1000 | The same for the big-endian integers of the wire protocol. |
| `ByteCodec.BEOfFromBE` | src/shadow_protocol.rs:1246-1263 | Every byte string is the big-endian form of the number it decodes to. |
| `ByteCodec.FromLEDigits` | src/storage.rs:3226-3238 | In the file formats earlier bytes are the lower digits to base 256, for every split of a number. |
| `ByteCodec.FromBEDigits` | src/shadow_protocol.rs:1246-1263 | On the wire earlier bytes are the higher digits. |
| `ByteCodec.ToUnsignedIsModular` | src/storage.rs:3214-3224 | A signed number is stored as the number modulo 2 to the 64. |
| `Model.RecordsSplit` | src/storage.rs:816-822 | The points and the metadata count of a transaction are those of its parts, in order: no batch is lost, repeated or moved. |
| `Model.OneRecord` | src/transaction.rs:139-147 | One batch contributes its points, one metadata record contributes none and counts once. |
| `Model.FiniteIffBelowInfinity` | src/catalog.rs:334-344 | A value is finite exactly when its magnitude is below the pattern of infinity. |
| `PointCodec.PointRoundTrip` | src/storage.rs:3214-3238 | A point survives its 72-byte log form, field by field. |
| `PointCodec.PointsRoundTrip` | src/storage.rs:2480-2494 | A batch of points survives concatenation into 72-byte records. |
| `PointCodec.PointCanonical` | src/storage.rs:3226-3238 | Every 72 bytes are the one encoding of the point they decode to. |
| `PointCodec.PointsCanonical` | src/storage.rs:2480-2494 | The same for whole batches. |
| `TransactionCodec.RecordsRoundTrip` | src/storage.rs:3103-3171 | Length-prefixed records decode to exactly the encoded records and leave nothing over. |
| `TransactionCodec.TransactionRoundTrip` | src/storage.rs:3058-3171 | Every transaction that encodes decodes to itself, given a serializer that undoes itself. |
| `Formats.FileHeaderLayout` | docs/format.md:6-16 | The file header is `FTWDB001`, version 1, no flags and their checksum, at their offsets. |
| `Formats.FrameLayout` | docs/format.md:18-28 | Magic, version, kind, items, length and both checksums of a frame header, at their offsets. |
| `Formats.PointLayout` | docs/format.md:30-42 | The nine fields of a point at their offsets, little-endian and in two's complement. |
| `Formats.BatchLayout` | docs/format.md:30-42 | Point i of a batch lies at byte 72 times i. |
| `Formats.TransactionLayout` | docs/format.md:51-57 | A transaction is `WTXN`, version 1, no flags, its record count and its records. |
| `Formats.RecordLayout` | src/storage.rs:3058-3101 | A record is its kind number, version 1, no flags, its length and its body; a point batch is its count and its points. |
| `Formats.CheckpointLayout` | docs/format.md:107-118 | A seal checkpoint is frame kind 4 with generation and point count. |
| `Formats.SizesAccepted` | src/storage.rs:2393-2441 | Which item counts and lengths each frame kind may announce; no other kind is accepted. |
| `Formats.FrameFaults` | src/storage.rs:2353-2478 | The checks on a frame in their order, with the fault each reports. |
| `Formats.FileFaults` | src/storage.rs:2302-2330 | The checks on the file header in their order, with the fault each reports. |
| `Formats.TransactionAccepted` | src/storage.rs:3103-3171 | A transaction the reader accepts has the magic, version, flags and count, and is filled exactly by records whose bodies decode. |
| `Formats.FrameAdds` | src/storage.rs:2480-2670 | What each accepted frame adds to points, catalog and counters; a checkpoint must count the live points, and points must be well formed. |
| `Formats.IdentityFaults` | src/storage.rs:2527-2584 | The identity of a frame is refused exactly for a known cursor, a known commit identifier, or source 0 or a cursor not past the last. |
| `Formats.TransactionFaults` | src/storage.rs:2527-2618 | A transaction frame is refused for identity first, then bytes, catalog and point count, each exactly. |
| `Formats.OtherFaults` | src/storage.rs:2480-2526 | Exactly when point batches, checkpoints and identity indexes are refused. |
| `Formats.IdentifiedRestored` | src/storage.rs:2070-2135 | An identity index brings every identified receipt back with its fields and keeps the others. |
| `Formats.IngressRestored` | src/storage.rs:2136-2200 | The same for ordered receipts; they move the watermarks. |
| `Formats.LogAddsUp` | src/storage.rs:2302-2690 | After recovering any log, commits are its frames, live points are those of the frames after the last published checkpoint, in order, metadata records are added up, and a reclaim is pending exactly if there is such a checkpoint. |
| `LogFrame.WholeFrameParses` | src/storage.rs:2353-2451 | A written frame followed by anything parses as that frame and leaves what follows. |
| `LogFrame.CutFrameStops` | src/storage.rs:2353-2451 | A frame cut anywhere is an incomplete header or an incomplete payload, never damage. |
| `LogFrame.ParseIsLocal` | src/storage.rs:2353-2451 | Whether a whole frame is found depends only on that frame's bytes. |
| `LogFrame.ParseIsCanonical` | src/storage.rs:3023-3039 | A parsed frame re-encodes to the bytes it was read from. |
| `LogFrame.WrittenHeaderOk` | src/storage.rs:2245-2256 | The header a new file gets is accepted, whatever follows it. |
| `LogFrame.HeaderIsCanonical` | src/storage.rs:2309-2324 | An accepted file header is byte for byte the written one. |
| `FramedLog.WholeFramesIsGreatest` | src/storage.rs:2302-2451 | The number of whole frames in a cut is the greatest k whose end offset fits. |
| `FramedLog.CutLogRecovers` | src/storage.rs:2302-2451 | A valid log cut at any byte scans to the replay of its whole frames, stops at their end, and reports a clean end, a short header or a short payload exactly as the cut falls. |
| `FramedLog.ScanReadsALog` | src/storage.rs:2302-2451 | Whatever bytes a scan accepts are the encoding of some log whose replay is the scanned state. |
| `FramedLog.ScannedPrefixIsClean` | src/storage.rs:2284-2300 | Rescanning the prefix a scan accepted, damaged tail or not, gives the same state and a clean end. |
| `FramedLog.RejectedFrameStops` | src/storage.rs:2302-2700 | A well-formed frame that the rules reject stops the scan as damage. |
| `FramedLog.WrittenFileScan` | src/storage.rs:2302-2700 | A written log either replays and scans clean to its end, or the scan finds damage. |
| `FramedLog.FileDeterminesLog` | src/storage.rs:2353-2451 | A file is the encoding of at most one list of frames. |
| `DurableLog.WriteFrameKeeps` | src/storage.rs:1291-1324 | Writing a frame under any partial write and any sync result keeps the journal invariant; acceptance adds exactly that frame, failure adds none and poisons, and a durable reply means everything is synced. |
| `DurableLog.FlushKeeps` | src/storage.rs:1332-1352 | A flush keeps the invariant whether the sync succeeds or fails. |
| `DurableLog.CrashImage` | src/storage.rs:2302-2451 | Every crash image keeps the header and is a prefix of the intended log. |
| `DurableLog.SyncedFramesSurvive` | src/storage.rs:1291-1324 | Every synced frame is whole in every crash image. |
| `DurableLog.ReopenKeeps` | src/storage.rs:522-622 | Reopening a crash image never finds damage, loads the replay of its whole frames, keeps all synced frames and restores the invariant. |
| `DurableLog.StepKeeps` | src/storage.rs:1291-1352 | Writes, flushes and crashes keep the invariant and never lose a synced frame. |
| `DurableLog.RunKeepsInv` | src/storage.rs:1291-1352 | The same along every run of writes, flushes and crashes. |
| `DurableLog.EveryRunRecovers` | src/storage.rs:2302-2451 | After every run and every crash cut, the scan finds no damage, its state is the replay of a prefix of the frames, and every frame synced at any earlier point is in it. |
| `StorageLog.ReadTagOfTagBytes` | src/storage.rs:2527-2575 | Commit identifiers and source cursors read back from the payload they were prefixed to. |
| `StorageLog.PointsFrameApplies` | src/storage.rs:2480-2494 | A point batch the writer accepts is accepted by the reader with the same effect. |
| `StorageLog.TaggedFrameApplies` | src/storage.rs:2527-2670 | So is every transaction, plain, identified or ordered, with the receipt the writer keeps. |
| `ExactlyOnce.FrameKept` | src/storage.rs:2527-2670 | Each accepted frame, compact identity indexes included, adds only unused commit identifiers and increasing source sequences. |
| `ExactlyOnce.LogAppliesOnce` | src/storage.rs:2527-2570 | In every accepted log no commit identifier is applied twice, each source's sequences strictly increase, and the receipt book holds exactly what was applied. |
| `ExactlyOnce.LogExtends` | src/storage.rs:2527-2670 | Receipts of a log prefix are kept unchanged by the rest of the log. |
| `ExactlyOnce.WatermarkCovers` | src/storage.rs:1250-1255 | A cursor of the log is in a prefix of it exactly when it is at or below that prefix's watermark. |
| `Receipts.ComparePayload` | src/storage.rs:1036-1105 | The chunked comparison is true exactly when the file holds the candidate bytes at the offset. |
| `Receipts.ChecksumAndCompare` | src/storage.rs:1121-1217 | The chunked pass yields the checksum of the stored bytes and whether they equal the candidate. |
| `Receipts.MatchIdentified` | src/storage.rs:1036-1105 | The stepwise match of a retry under a commit identifier, with every corruption and overflow outcome. |
| `Receipts.MatchIngress` | src/storage.rs:1121-1217 | The stepwise match of an ordered retry, with every corruption and overflow outcome. |
| `Receipts.LogBacksReceipts` | src/storage.rs:2620-2668 | In every accepted log each receipt points at the frame that made it or carries its bytes. |
| `Receipts.IdentifiedVerdict` | src/storage.rs:1036-1105 | A retry under a commit identifier is recognised exactly when its bytes are the original ones; a same-length checksum collision is reported as corruption, anything else as different. |
| `Receipts.IngressVerdict` | src/storage.rs:1121-1217 | An ordered retry is recognised exactly when its bytes are the original ones and is never mistaken for corruption. |
| `Receipts.IdentifiedSameIff` | src/storage.rs:1024-1105 | For any file and receipt: a retry is recognised exactly when length, checksum and bytes agree with the whole frame where the receipt points, header included, or with the bytes kept in the receipt. |
| `Receipts.IngressSameIff` | src/storage.rs:1107-1210 | The same for ordered commits, identity prefix included. |
| `Receipts.IdentifiedOutcomes` | src/storage.rs:1036-1105 | Exactly when a retry is a conflict, and exactly when its receipt overflows a frame header; what is left is damage. |
| `Receipts.IngressOutcomes` | src/storage.rs:1121-1217 | The same for ordered commits, where intact stored bytes that differ are a conflict and not damage. |
| `Crc32.CollisionsKeepPrefix` | src/storage.rs:1121-1217 | CRC-32 collisions of equal length survive any common prefix. |
| `Crc32.FlipCollides` | src/storage.rs:1036-1060 | Wherever five zero bytes stand in a string, replacing them by the polynomial leaves CRC-32 unchanged. |
| `ChecksumLaw.Crc32KeepsPrefix` | src/storage.rs:1121-1217 | CRC-32 satisfies the property the ordered retry proof asks of a checksum. |
| `Crc32.KnownChecksums` | src/shadow_protocol.rs:1010-1014 | Two checksum values that fix the starting register and the final complement. |
| `ChecksumLaw.ValuesCollide` | src/storage.rs:3041-3051 | Two one-point transactions that differ only in the value have equal length and equal checksum under every commit identifier. |
| `ChecksumLaw.CollisionPoisons` | src/storage.rs:1024-1105 | On any database, committing one of them and then the other under the same identifier is answered as corruption and poisons the writer. |
| `PointIndex.UpperBound` | src/storage.rs:1860-1869 | Bisection finds the place after the last point at or before a time. |
| `PointIndex.InsertIndexedPoint` | src/storage.rs:1860-1869 | Inserting a point gives the index with that point at its stable place. |
| `PointIndex.IndexPoints` | src/storage.rs:633-729 | A batch is indexed point by point and the index stays sorted. |
| `PointIndex.InsertAllIndexes` | src/storage.rs:1860-1869 | Incremental insertion gives the same index as regrouping and stably sorting the whole history. |
| `DatabaseModel.DecisionVetted` | src/storage.rs:742-864 | Whatever a call decides to write has passed every check of the reader. |
| `DatabaseModel.VettedFrameApplies` | src/storage.rs:2527-2670 | The reader accepts every vetted frame and loads exactly the memory the writer keeps. |
| `DatabaseModel.PerformKeeps` | src/storage.rs:633-1022 | Append, commit and ordered ingress under any disk behaviour keep memory equal to the replay of the log; a failure changes neither log nor memory, a replayed answer changes nothing. |
| `DatabaseModel.FlushHandleKeeps` | src/storage.rs:1332-1352 | A flush keeps log and memory and, if it succeeds, everything is synced. |
| `DatabaseModel.CheckpointKeeps` | src/storage.rs:1609-1629 | A seal checkpoint adds exactly its frame and is synced, or changes nothing. |
| `DatabaseModel.ReopenHandleKeeps` | src/storage.rs:522-622 | Reopening after a crash restores the invariant without losing a synced frame. |
| `DatabaseRuns.HandleRunKeeps` | src/storage.rs:633-1352 | The handle invariant holds along every run of calls, flushes, checkpoints and crashes, and synced frames only accumulate. |
| `DatabaseRuns.DatabaseRecovers` | src/storage.rs:522-622 | After every run and every crash cut the file opens without damage, memory is what the scan loads, and everything synced at any earlier point is there. |
| `DatabaseRuns.PoisonedUntilReopened` | src/storage.rs:637-639 | From the moment a handle of any run is poisoned until it is reopened it stays as it is, and every call, flush and checkpoint fails. |
| `DatabaseRuns.DurableReplyIsSynced` | src/storage.rs:742-1022 | A reply marked durable means its frame or cursor is in the synced part of the log. |
| `DatabaseRuns.Watermarks` | src/storage.rs:1250-1255 | In every reachable state the accepted watermark is the greatest recorded sequence, the durable one is that of the synced prefix, and durable never passes accepted. |
| `DatabaseRuns.UnsyncedBytesBounded` | src/storage.rs:1291-1324 | Unsynced bytes are exactly counted: none under always, below the threshold under every-bytes. |
| `DatabaseRuns.ReceiptStandsForBytes` | src/storage.rs:883-1022 | Every known cursor stands for some stored bytes unless an old compact index dropped them. |
| `DatabaseRuns.IngressRetry` | src/storage.rs:894-912 | An ordered call on a known cursor changes nothing and answers with offset, counts and bytes of the stored receipt, durable exactly when the durable watermark covers it, if identity and bytes agree, else with a conflict. |
| `DatabaseRuns.IngressWritten` | src/storage.rs:914-1022 | A fresh ordered commit leaves a receipt for its bytes that says what the reply said. |
| `DatabaseRuns.IdentifiedWritten` | src/storage.rs:742-864 | A fresh commit under an identifier leaves its frame at the end of the log and a receipt that points at it. |
| `DatabaseReplies.FrameOutcome` | src/storage.rs:1291-1324 | A frame is accepted exactly when all its bytes are written and a sync that is due succeeds; it then follows the old bytes and counts as synced exactly if a sync was due, otherwise the writer is poisoned. |
| `DatabaseReplies.AppendOutcome` | src/storage.rs:633-727 | The reply to any batch of points, its refusals included: a valid batch within the limits is written as one frame, with its offset, point count, one record, size and durability. |
| `DatabaseReplies.CommitOutcome` | src/storage.rs:812-864 | A transaction decided for writing: its receipt, its frame, and points, catalog and counters after it. |
| `DatabaseReplies.TaggedFrames` | docs/format.md:63-90 | Plain, identified and ordered transactions are frames of kinds 1, 2 and 3 with their identity prefix. |
| `DatabaseReplies.PlainWrittenIff` | src/storage.rs:742-812 | A plain transaction is written exactly when it is not empty, encodes, is accepted by the catalog and is within the limits. |
| `DatabaseReplies.IdentifiedWrittenIff` | src/storage.rs:742-812 | One with an identifier additionally needs an identifier that is new. |
| `DatabaseReplies.IdentifiedRetry` | src/storage.rs:755-779 | A known identifier is answered without writing, refused as a conflict, or poisons the writer, exactly as the comparison with the stored bytes ends. |
| `DatabaseReplies.IngressWrittenIff` | src/storage.rs:883-960 | An ordered transaction is written exactly when source, cursor, identifier and limits allow it; each identity refusal has its own cause. |
| `DatabaseReplies.Refusals` | src/storage.rs:780-812 | Why a new transaction is refused, each error exactly: too many points first, then the catalog, then encoding, then the frame size. |
| `DatabaseReplies.IngressRefusals` | src/storage.rs:913-960 | The same for an ordered transaction with a new identity. |
| `DatabaseReplies.IngressRepeated` | src/storage.rs:894-912 | A known cursor, for any file: conflict, answer with the stored receipt, or poison, exactly as the comparison ends. |
| `DatabaseReplies.FlushOutcome` | src/storage.rs:1332-1352 | A flush makes everything written durable, or poisons the writer and changes nothing else. |
| `DatabaseReplies.CheckpointOutcome` | src/storage.rs:1609-1630 | A seal checkpoint is appended and flushed, counted as a commit, or the writer is poisoned with log and memory as before. |
| `DatabaseReplies.ReopenOutcome` | src/storage.rs:522-620 | The handle after opening what a crash left: file, memory and watermarks are what the scan found, poisoned exactly if the sync fails. |
| `LogScan.Scan.ApplyLegacyPoints` | src/storage.rs:2480-2494 | A point frame adds its points or leaves the scan as it was. |
| `LogScan.Scan.ApplySealCheckpoint` | src/storage.rs:2495-2508 | A checkpoint clears the live points exactly when its generation is published and its count is right. |
| `LogScan.Scan.ApplyCompactIndex` | src/storage.rs:2070-2197 | An identity index restores its receipts or is rejected. |
| `LogScan.Scan.ClaimIdentity` | src/storage.rs:2527-2575 | The identity of a frame is claimed unless it is a duplicate or out of order. |
| `LogScan.Scan.CheckTransaction` | src/storage.rs:2578-2612 | Decoding, catalog rules and point limit are checked in that order. |
| `LogScan.Scan.ApplyTransaction` | src/storage.rs:2527-2670 | A transaction frame has the effect of the specification or its exact fault. |
| `LogScan.Scan.ReadFrames` | src/storage.rs:2353-2673 | The frame loop computes the scan of the file: state, offset and reason to stop. |
| `LogScan.Scan.Run` | src/storage.rs:2302-2700 | The scan in both modes: a refused header is reported with its reason, recovery refuses a damaged file with its offset and fault and otherwise reports the dropped tail, salvage keeps the prefix and the reason. Without damage both load the same, so salvage and recovery agree. |
| `LogScan.SortSeries` | src/storage.rs:2679-2681 | Grouping while scanning and sorting at the end gives the query index. |
| `LogScan.CountRecords` | src/storage.rs:2600-2625 | The counting loop returns the sum of the batch lengths and the number of records that are not batches. |
| `LogScan.SalvagedPrefixRecovers` | src/storage.rs:2757-2845 | The prefix salvage keeps recovers cleanly to the same state. |
| `Database.Database.Scanned` | src/storage.rs:522-622 | The handle over a recovered file holds exactly what the scan loaded, all of it durable. |
| `Database.Database.WriteFrame` | src/storage.rs:1291-1324 | Appending and syncing one frame in place is the journal step, with the durable watermarks it may raise. |
| `Database.Database.Append` | src/storage.rs:633-729 | Appending a batch in place is the specified call, state and reply. |
| `Database.Database.CommitPlain` | src/storage.rs:742-864 | Plain and identified commits in place are the specified call. |
| `Database.Database.RetryIdentified` | src/storage.rs:752-774 | A known commit identifier answers, conflicts or poisons as specified and writes nothing. |
| `Database.Database.CommitOrderedIngress` | src/storage.rs:883-1022 | Ordered ingress in place is the specified call. |
| `Database.Database.RetryIngress` | src/storage.rs:894-912 | A known cursor answers, conflicts or poisons as specified and writes nothing. |
| `Database.Database.CommitRecords` | src/storage.rs:742-881 | Every commit in place is the specified call. |
| `Database.Database.Flush` | src/storage.rs:1332-1352 | The flush in place is the specified one. |
| `Database.Database.WriteSealCheckpoint` | src/storage.rs:1609-1629 | The checkpoint in place is the specified one. |
| `Database.OpenFile` | src/storage.rs:522-622 | Opening any byte image: which error, or which file, memory, watermarks and sync state. |
| `Histories.SameIndexSameHistory` | src/storage.rs:1860-1869 | Histories with the same query index hold, for every series and revision key, the same points in the same order. |
| `Histories.SameHistoryAnswers` | src/storage.rs:1455-1471 | Such histories answer every range query alike. |
| `Histories.SameHistoryCounts` | src/storage.rs:1455-1471 | And hold every point equally often. |
| `StoreRuns.CallSteps` | src/storage.rs:633-1022 | A call adds to the live points exactly what its reply acknowledges; a failed write may leave its points for a crash to show. |
| `StoreRuns.CheckpointSteps` | src/storage.rs:1609-1629 | A checkpoint, written, torn or unsynced, changes no live point. |
| `StoreRuns.PublishSteps` | src/store.rs:618-674 | Publishing a seal of a generation new to the log keeps the store's invariant and its history, so the store may stop there. |
| `StoreRuns.SealSteps` | src/store.rs:618-674 | Publishing a seal and rewriting the log at once keeps the store's invariant, its history and its identities, whatever earlier checkpoints the log holds. |
| `StoreRuns.ReclaimSteps` | src/storage.rs:1711-1798 | A reclaim keeps the store's invariant, shows the same history and makes all of it durable. |
| `StoreRuns.LifeKeeps` | src/store.rs:618-674 | The invariant holds at every point of every life of calls, flushes, failures, crashes, seals and reclaims. |
| `StoreRuns.LifeRecovers` | src/storage.rs:2302-2451 | At every point of every life, the file cut at any byte past its last sync opens without damage and shows a prefix of the store's history, followed at most by the points of one failed write; the prefix holds all that was synced. |
| `StoreRuns.AnswersFromHistory` | src/storage.rs:1455-1471 | In every store a range query over segment files and live index answers from the append history. |
| `StoreRuns.AcknowledgedShown` | src/storage.rs:1455-1471 | Between crashes, through seals and reclaims, every range query answers from the earlier history followed by the points of all acknowledged calls, each once and in order. |
| `StoreRuns.DurablePointsKept` | src/storage.rs:2495-2508 | From any point of any life to any later one, all that was synced is still shown, in order, before what came later. |
| `StoreRuns.DurableCallKept` | src/storage.rs:633-1022 | The points of a call acknowledged as durable are shown ever after, behind all that was shown before. |
| `StoreRuns.NothingInvented` | src/storage.rs:2302-2700 | No point is ever shown more often than calls brought it that were acknowledged or failed while writing. |
| `StoreRuns.DurableIdentitiesKept` | src/storage.rs:1250-1255 | Durable identifiers and cursors stay known through every life, and durable watermarks never retreat. |
| `StoreRuns.KnownNeverWritten` | src/storage.rs:752-774 | A transaction under an identity that was ever durable writes nothing, at any later point of the life. |
| `StoreRuns.AnsweredForLife` | src/storage.rs:883-1022 | After a durable ordered commit the same call, at any later point of the life, changes nothing and returns the first receipt marked as deduplicated. |
| `StoreRuns.IdentifiedForLife` | src/storage.rs:742-774 | After a durable commit under an identifier, at any later point of the life the same transaction writes nothing and is reported as deduplicated; any other is a conflict, or corruption on a checksum collision. |
| `Graphs.OrderedIffNoCycle` | src/catalog.rs:445-523 | A closed graph can be listed with every reference before its referrer exactly when it has no cycle. |
| `Graphs.ParentChainEnds` | src/catalog.rs:445-455 | Following parents either ends or there is a cycle. |
| `Graphs.SearchFrom` | src/catalog.rs:463-494 | The explicit-stack search from one node finds a cycle or finishes everything it reaches. |
| `Graphs.SearchCycles` | src/catalog.rs:463-523 | The explicit-stack search accepts a graph exactly when it has no cycle. |
| `Graphs.LayeredOrder` | src/catalog.rs:86-166 | Layer by layer listing succeeds exactly on acyclic graphs and lists references first. |
| `CatalogRules.CheckParents` | src/catalog.rs:250-262 | The entity loop accepts exactly resolved, acyclic parents. |
| `CatalogRules.ValidateReferences` | src/catalog.rs:250-311 | Accepts a catalog exactly when every reference resolves, plans belong to optimization runs, and parents, run provenance and plan supersession have no cycle. |
| `CatalogRules.ApplyInOrder` | src/catalog.rs:168-180 | The record loop applies records in order and stops at the first invalid one; what it leaves under each identifier of each of the five kinds is the last record of that identifier, or the object from before. |
| `CatalogRules.Apply` | src/catalog.rs:184-197 | The catalog after a transaction, with the shortcut for points alone, or its rejection; an accepted one leaves under each identifier its last record, or the object from before. |
| `CatalogRules.AcceptedIff` | src/catalog.rs:168-197 | A transaction is accepted exactly when its records apply in turn, the references of the result are valid unless it only brings points, and every point is well formed and names a known series and run. |
| `CatalogRules.TrimEmptyIffBlank` | src/catalog.rs:350-352 | Trimming leaves nothing exactly of a text made of white space. |
| `CatalogRules.EntityRefused` | src/catalog.rs:346-361 | Every reason to refuse an entity, and no other. |
| `CatalogRules.RelationRefused` | src/catalog.rs:363-375 | The same for relations. |
| `CatalogRules.SeriesRefused` | src/model.rs:101-145 | The same for series with their rollup tiers. |
| `CatalogRules.RunRefused` | src/catalog.rs:377-415 | The same for runs, replacing a run included. |
| `CatalogRules.PlanRefused` | src/model.rs:213-250 | The same for plans, replacing a plan included. |
| `CatalogRules.StatusTable` | src/catalog.rs:428-440 | The status changes of a plan, pair by pair. |
| `CatalogRules.ResolvedByFields` | src/catalog.rs:250-309 | References resolve exactly when no object refers to a missing one and plans belong to optimization runs, field by field. |
| `CatalogRules.AcyclicByFields` | src/catalog.rs:445-530 | The catalog is acyclic exactly when no chain of parents, of provenance or of supersession returns to its start. |
| `CatalogRules.ShortcutAgreesIffValid` | src/catalog.rs:182-197 | The shortcut gives the full validation's answer on all point-only transactions exactly when the catalog's references are valid. |
| `CatalogRules.ApplyKeeps` | src/catalog.rs:168-197 | An accepted transaction keeps a well-formed, resolved, acyclic catalog and only evolves records by the transition rules. |
| `CatalogRules.HistoryKeeps` | src/catalog.rs:199-211 | The same over every history of transactions, from any earlier state to any later one. |
| `CatalogRules.FinishedRunFixedIff` | src/catalog.rs:400-415 | A finished run can never change exactly when none of its attributes is a floating-point zero, because plus and minus zero compare equal. |
| `CatalogSnapshot.ReadyKeeps` | src/catalog.rs:86-166 | Adding a record whose references are listed keeps a valid catalog valid. |
| `CatalogSnapshot.ListingBuilds` | src/catalog.rs:86-166 | Every prefix of a staged listing builds a valid catalog, the listed part of the original. |
| `CatalogSnapshot.SnapshotRebuilds` | src/catalog.rs:86-166 | A complete listing rebuilds the catalog, one record each, as one transaction. |
| `CatalogSnapshot.SnapshotRecords` | src/catalog.rs:86-166 | The snapshot exists exactly for valid references, and replaying it, or any prefix, from nothing is accepted and rebuilds the catalog. |
| `IdentityFrames.EstimateCovers` | src/storage.rs:1962-2013 | The running estimate never understates the size of a chunk. |
| `IdentityFrames.AddIdentified` | src/storage.rs:1970-1990 | Adding one receipt starts a new frame when needed and fails exactly when the receipt alone is too large. |
| `IdentityFrames.AddIngress` | src/storage.rs:1991-2009 | The same for ordered receipts. |
| `IdentityFrames.SplitIndex` | src/storage.rs:1962-2013 | The split loses nothing, keeps order, puts identified receipts first, keeps every frame within the limit, starts a frame only with a receipt the one before has no room for, and fails exactly when a single receipt exceeds the limit. |
| `Reclaim.ArrangedIndex` | src/storage.rs:1935-1942 | Laying the live index end to end in any series order indexes back to itself. |
| `Reclaim.LogCatalogOk` | src/storage.rs:2588-2597 | The catalog of every accepted log is valid. |
| `Reclaim.CompactLogPreserves` | src/storage.rs:1711-1798 | Every compact log that passes its scan loads the same catalog and query index, the same identifiers, cursors and watermarks, and receipts that stand for the same bytes. |
| `Reclaim.IdentifiedRetry` | src/storage.rs:752-774 | A call under a known commit identifier is a duplicate exactly when its bytes are the original ones, and otherwise a conflict, or corruption when it collides with a frame still in the log. |
| `Reclaim.SameIdentifiedVerdict` | src/storage.rs:752-774 | After a reclaim every call under a known identifier gets the same verdict, except that a collision reported as corruption before is a conflict afterwards. |
| `Reclaim.SameVerdict` | src/storage.rs:883-931 | After a reclaim every ordered call about a known identity gets the same verdict and the same receipt up to durability. |
| `ReclaimScan.LogSoundReceipts` | src/storage.rs:2620-2668 | Every receipt of an accepted log stands for a transaction that decodes to the counts the receipt states. |
| `ReclaimScan.CompactLogReplaysIff` | src/storage.rs:1711-1798 | The scan of a compact log succeeds exactly when the catalog defines the series and run of every live point. |
| `ReclaimScan.RawPointsBlockReclaim` | src/storage.rs:633-729 | A raw batch for an undefined series is accepted by the log and its points fail that condition. |
| `ReceiptSizes.LogBounded` | src/storage.rs:2070-2197 | Every receipt of an accepted log either came from an index frame and fits one alone, or counts no more points than a batch may have. |
| `ReceiptSizes.FitsEveryIndex` | src/storage.rs:1962-2013 | However the receipts of a log are listed, the split refuses exactly when one of them is over the frame limit. |
| `ReceiptSizes.HeldReceiptsFit` | src/storage.rs:1956-1960 | With a transaction limit of at most u32::MAX minus 58 every receipt of every accepted log fits an index frame. |
| `ReceiptSizes.CommitFitsIff` | src/storage.rs:883-1022 | After an accepted ordered commit every receipt fits exactly when every one did before and the commit's own, given by its identity, bytes and offset, does. |
| `ReceiptSizes.EmptyBatchesNeverFit` | src/storage.rs:1956-1960 | With the limit u32::MAX every database accepts a commit of empty point batches under an unused identity with a long commit identifier, and its receipt fits no frame. |
| `ReceiptSizes.NeverFitsAgain` | src/storage.rs:1962-2013 | Once a receipt does not fit, none of the longer logs has only receipts that fit. |
| `ReclaimLog.WithinMarginNeverTooLarge` | src/storage.rs:1962-2013 | Under the 58-byte margin no reclaim is refused for a receipt that is too large. |
| `ReclaimLog.IngressPayload` | src/storage.rs:1660-1680 | Reading a receipt's bytes back never finds them changed, and yields the bytes it stands for. |
| `ReclaimLog.CompactIngressReceipts` | src/storage.rs:1658-1698 | One compact receipt per cursor with its bytes, each source's sequences strictly increasing; fails only on a counter out of range. |
| `ReclaimLog.CompactIdentifiedReceipts` | src/storage.rs:1632-1656 | One compact receipt per commit identifier with its bytes; fails only on a counter out of range. |
| `ReclaimLog.FlattenIndex` | src/storage.rs:1935-1942 | The tail holds every series' points in index order. |
| `ReclaimLog.WriteIndexFrames` | src/storage.rs:1962-2041 | The index frames are appended in order as admissible frames. |
| `ReclaimLog.WriteCompactLog` | src/storage.rs:1913-1954 | The bytes written are the compact log, and writing fails exactly when the snapshot or the live points are over a limit. |
| `ReclaimLog.BuildCompact` | src/storage.rs:1631-1704 | The compact bytes scan clean exactly when the live points are defined, and then load what the handle holds; there are none only if something is too large. |
| `ReclaimLog.ReclaimLiveLog` | src/storage.rs:1711-1798 | A reclaimed handle is the one opened on a compact form of the flushed log; it preserves catalog, index, identities and receipts and is fully synced, and every receipt fitted a frame. A failed one keeps log and memory, is poisoned only if the new file could not be synced or put in place, and names why it failed. |
| `Queries.LowerBound` | src/storage.rs:1871-1875 | Bisection finds the first point at or after a time. |
| `Queries.TimeSlice` | src/storage.rs:1871-1875 | The slice is exactly the points in the half-open range, in order. |
| `Queries.SegmentOfIndex` | src/store.rs:618-674 | Sorting a snapshot of the index or the history it came from gives the same segment. |
| `Queries.SealingInvisible` | src/storage.rs:1455-1471 | However the history is split into sealed parts and live points, a range query returns the same revisions in the same order as over the whole history. |
| `Queries.CollectRawPoints` | src/storage.rs:1455-1471 | The collection loop over segments and live index returns exactly that. |
| `Queries.RawAnswer` | src/storage.rs:1455-1471 | The answer by place in the append history: every matching place once, by valid time, knowledge time, change time and append order. |
| `Queries.SegmentOrder` | src/segment.rs:323-340 | A segment holds every sealed place once, by series, valid time, knowledge time, change time and append order. |
| `Queries.WinningRevisions` | src/storage.rs:1877-1899 | One pass over time-sorted points keeps one winner per valid time, in time order, the last among equals. |
| `Queries.CutoffWinners` | src/storage.rs:1538-1559 | Winners prevail over all visible revisions of the whole history. |
| `Queries.QueryWithCutoffs` | src/storage.rs:1538-1559 | A point-in-time query answers in time order, with one point for each valid time that has a point of the series in range and within both cutoffs: the place greatest by knowledge time, change time and append order, field by field. |
| `Sealing.SealsAgree` | src/storage.rs:2495-2508 | A replay depends only on which checkpointed generations are published. |
| `Sealing.PublishFresh` | src/store.rs:618-674 | Publishing a fresh generation empties the live points of the replay and nothing else. |
| `Sealing.SealedOnce` | src/store.rs:618-674 | Before or after publication every point is in exactly one of segments and live points. |
| `Sealing.PublishKeepsHandle` | src/storage.rs:1604-1607 | Clearing the live index when the manifest is published keeps memory equal to the replay. |
| `Sealing.SealRecoversIff` | src/store.rs:243-246 | After a checkpoint and its publication the store opens exactly when that generation was not already in the log. |
| `Sealing.ReusedGenerationFails` | src/store.rs:618-674 | A generation reused after a crash between checkpoint and publication leaves a log the store refuses to open. |
| `ColumnCodec.VarintRoundTrip` | src/segment.rs:845-893 | A variable-length integer reads back from any position and leaves what follows. |
| `ColumnCodec.U64RoundTrip` | src/segment.rs:845-856 | For every 64-bit value within its ten bytes. |
| `ColumnCodec.U128RoundTrip` | src/segment.rs:858-868 | For every 128-bit value within its nineteen bytes. |
| `ColumnCodec.WriteVarint` | src/segment.rs:845-864 | The writing loop appends that form. |
| `ColumnCodec.ReadVarint` | src/segment.rs:870-893 | The reading loop reads that form, or fails as specified. |
| `ColumnCodec.ZigzagRoundTrip` | src/segment.rs:835-843 | Zigzag maps every signed value and back. |
| `ColumnCodec.Xor64Undo` | src/segment.rs:478-484 | The value column's exclusive-or is undone by the previous value. |
| `ColumnCodec.TimesRoundTrip` | src/segment.rs:451-461 | Delta-of-delta timestamps decode to themselves. |
| `ColumnCodec.RowsRoundTrip` | src/segment.rs:463-487 | The six row columns decode to the points. |
| `ColumnCodec.JoinRoundTrip` | src/segment.rs:586-608 | Seven length-prefixed columns split back into themselves. |
| `ColumnCodec.ColumnsRoundTrip` | src/segment.rs:447-584 | Every block that encodes decodes to itself, bit for bit. |
| `ColumnCodec.EncodedSize` | src/segment.rs:820-828 | Its size lies between the bounds the reader checks. |
| `ColumnCodec.EncodesIff` | src/segment.rs:447-497 | A block encodes exactly when its time arithmetic stays in range. |
| `ColumnCodec.EncodeBlock` | src/segment.rs:447-497 | The encoding loops produce that block or fail exactly then. |
| `ColumnCodec.EncodeTimeColumn` | src/segment.rs:451-461 | The time loop writes the delta-of-delta column or reports overflow exactly when it occurs. |
| `ColumnCodec.EncodeRowColumns` | src/segment.rs:463-487 | The row loop writes the six row columns or reports overflow exactly when it occurs. |
| `ColumnCodec.DecodeTimeColumn` | src/segment.rs:509-536 | The time loop reads the column the specification does. |
| `ColumnCodec.DecodeRowColumns` | src/segment.rs:538-583 | The row loop reads the columns the specification does. |
| `ColumnCodec.DecodeBlock` | src/segment.rs:499-584 | The decoding of a whole block, failures included. |
| `ColumnLayout.VarintShape` | src/segment.rs:845-868 | Seven bits a byte, lowest first, high bit on all but the last byte, no superfluous byte. |
| `ColumnLayout.ZigzagOrder` | src/segment.rs:835-843 | Signed numbers alternate around zero. |
| `ColumnLayout.XorBit` | src/segment.rs:478-484 | The value column stores the bitwise exclusive or. |
| `ColumnLayout.EncodableIff` | src/segment.rs:447-497 | A block can be written exactly when every difference it stores fits in 64 bits. |
| `ColumnLayout.RowOne` | docs/segment-format.md:52-62 | What one point contributes to each of the six row columns. |
| `ColumnLayout.RowsJoin` | docs/segment-format.md:52-62 | The columns of a longer block are those of its parts one after another; only values look back. |
| `ColumnLayout.TimesStep` | docs/segment-format.md:52-54 | Each later time is stored as the change of its step. |
| `ColumnLayout.BlockLayout` | docs/segment-format.md:52-62 | The seven columns in their order, each behind its length. |
| `ColumnLayout.SplitIsFlat` | src/segment.rs:586-608 | The reader splits a block exactly where the lengths say. |
| `ColumnLayout.TimesWhole` | src/segment.rs:509-536 | A time column with bytes to spare is refused. |
| `ColumnLayout.RowsWhole` | src/segment.rs:538-583 | So are row columns with bytes to spare. |
| `SegmentIndex.CutBlocks` | src/segment.rs:323-445 | Cutting sorted points loses nothing and makes one-series blocks within the limit, each as full as it can be. |
| `SegmentIndex.ValidateIndex` | src/segment.rs:766-814 | The index loop accepts exactly contiguous, ordered, bounded entries that add up to the point count. |
| `SegmentIndex.WrittenIndexValid` | src/segment.rs:323-445 | Every index over blocks in segment order whose payloads can hold their points is accepted. |
| `SegmentIndex.StoreBlocks` | src/segment.rs:345-401 | The block loop stores every block and indexes it at its offset, and fails exactly on a block that does not encode. |
| `SegmentIndex.CreateSegment` | src/segment.rs:68-105 | Whatever points and block size are given: an invalid block size or point is refused, otherwise the points are sorted and cut; it fails exactly on a block that does not encode or too many blocks, and else the file has a valid index and its blocks read back to exactly the points in segment order. |
| `SegmentIndex.Query` | src/segment.rs:232-251 | A query of a created segment reads every block it needs and returns exactly the matching points, in order. |
| `SegmentIndex.FirstCandidate` | src/segment.rs:255-270 | Bisection finds the first entry that can match. |
| `SegmentIndex.VisitQuery` | src/segment.rs:255-278 | The bounded visit finishes exactly when the overlapping blocks fit the budget, then with all matches in order and otherwise with the first of them, and never reserves more than the budget. |
| `SegmentIndex.WrittenBlockReads` | src/segment.rs:610-716 | A written block, stored raw or compressed, passes every check of the reader and reads back. |
| `SegmentIndex.StoredSmaller` | src/segment.rs:345-401 | A block is compressed exactly when that is smaller. |
| `SegmentIndex.BlockAccepted` | src/segment.rs:610-716 | A block the reader accepts holds the announced number of well-formed points of its series in time order from minimum to maximum, from bytes of the announced and plausible size. |
| `SegmentIndex.IndexMeaning` | src/segment.rs:766-814 | An accepted index: contiguous blocks from byte 40 to the index, in series and time order without overlap, of 1 to 262,144 points that their bytes can hold. |
| `SegmentIndex.OverlapsMeaning` | src/segment.rs:232-251 | A block is read exactly when a point within its bounds could match. |
| `Aggregate.GaugeMergeIsDirect` | src/aggregate.rs:88-124 | Merging the aggregates of two runs of samples is the aggregate of the concatenation, failures included. |
| `Aggregate.GaugeAggregate.Push` | src/aggregate.rs:58-80 | The in-place push updates every field, each written out; it fails exactly on a sample out of order, an overflowing gap or overflowing coverage, and then changes nothing. |
| `Aggregate.GaugeMeaning` | src/aggregate.rs:38-80 | The aggregate of any samples: their count and sum, least and greatest value, first and last sample, the time of the gaps within the limit and the sum of value times gap over them. |
| `Aggregate.GaugeFailsIff` | src/aggregate.rs:58-80 | Aggregating fails exactly when a sample is out of order, a gap overflows or coverage does. |
| `Aggregate.CounterMergeIsDirect` | src/aggregate.rs:172-204 | The same for counters. |
| `Aggregate.CounterMeaning` | src/aggregate.rs:154-215 | The counter of any samples: growth is the sum of the rises and, after each fall, of the new reading counted from zero; resets are the falls. |
| `Aggregate.CounterGrowth` | src/aggregate.rs:207-215 | Counter growth is never negative and telescopes to last minus first when there is no reset. |
| `Rollup.AdjacentRanges` | src/rollup.rs:85-101 | The content of two adjacent ranges combines to the content of their union. |
| `Rollup.PyramidExact` | src/rollup.rs:85-101 | Merging the buckets between any increasing edges gives the content of the whole range. |
| `Rollup.Conservation` | src/rollup.rs:209-260 | Buckets that span the samples keep their count and sum, the time of the gaps within the limit and the sum of value times gap over them. |
| `Rollup.BucketMeaning` | src/rollup.rs:41-80 | A bucket, read off the samples: count and sum of those in it, the sum of value times shared time over the gaps held into it, that time, the extremes of the values that show in it, and its first and last sample. |
| `Rollup.CoverageWithinBucket` | src/rollup_segment.rs:327-389 | Covered time of a range lies between zero and its length. |
| `RollupBuild.FixedPartition` | src/rollup.rs:366-368 | Fixed durations divide time: every time is in exactly one bucket. |
| `RollupBuild.AddSamples` | src/rollup.rs:225-234 | The sample loop fills each bucket with its samples, and fails exactly on a sample without a bucket. |
| `RollupBuild.AddInterval` | src/rollup.rs:282-328 | The interval loop splits a held value over the buckets it crosses, on any grid. |
| `RollupBuild.AddGaps` | src/rollup.rs:236-254 | The gap loop adds every observed interval, and fails exactly on an overflowing gap. |
| `RollupBuild.BuildOn` | src/rollup.rs:121-260 | On any grid that divides time, each bucket holds exactly the content of its range over the sorted samples; building fails exactly on a bad gap limit, a sample without a bucket or an overflowing gap. |
| `RollupBuild.Build` | src/rollup.rs:209-260 | The same for fixed durations, with their own refusals. |
| `RollupBuild.BuildCalendar` | src/rollup.rs:121-179 | The same for calendar buckets, and an unknown time zone is refused even without samples. |
| `RollupBuild.GapMayOverflow` | src/rollup.rs:239-243 | Two representable samples whose gap overflows, so that condition is needed. |
| `RollupBuild.MergeExactIsRange` | src/rollup.rs:85-101 | Merging two built buckets gives the bucket of the union when they touch and an error otherwise. |
| `RollupBuild.CoarseIsMergedFine` | src/rollup.rs:85-101 | Wherever finer buckets make up a coarser one, the coarser rollup stores the exact merge of the finer ones. |
| `RollupBuild.MultipleDivides` | src/rollup.rs:209-260 | A fixed bucket of k times the duration is made up of k buckets, so the pyramid applies to it. |
| `RollupBuild.BuiltConserves` | src/rollup.rs:209-260 | The stored buckets keep count, sum, held time and the sum of value times held time of the samples. |
| `RollupBuild.RangeIsOverlap` | src/rollup.rs:273-279 | A range query over aligned buckets returns exactly the overlapping ones. |
| `RollupBuild.TouchesMeaning` | src/rollup.rs:273-279 | A bucket touches a range exactly when they share an instant. |
| `RollupBuild.BuiltBucketsValid` | src/rollup_segment.rs:327-389 | Every built rollup, fixed or calendar, passes the validation of stored ones. |
| `RollupBuild.ValidateBuckets` | src/rollup_segment.rs:327-389 | The validation loop accepts exactly ordered, disjoint, consistent buckets. |
| `RollupBuild.BucketRefused` | src/rollup_segment.rs:327-389 | Every reason a stored bucket is refused, and no other, apart from finiteness. |
| `RollupBuild.QueryStored` | src/rollup_segment.rs:198-202 | Two bisections return exactly the stored buckets that touch the range. |
| `ShadowRuntime.ReserveThenRelease` | src/shadow_runtime.rs:481-513 | A slot is granted exactly when entry and points fit, and giving it back restores the usage. |
| `ShadowRuntime.QueueUsage.ReserveSlot` | src/shadow_runtime.rs:482-505 | Reserving in place updates both counters or neither. |
| `ShadowRuntime.QueueUsage.ReleaseSlot` | src/shadow_runtime.rs:507-512 | Releasing in place, saturating at zero. |
| `ShadowRuntime.StepKeepsInv` | src/shadow_runtime.rs:1089-1137 | Every atomic step of a producer, a shutdown or the worker keeps the invariant: slots, order, answers, counters, and that the reported state has its cause. |
| `ShadowRuntime.EveryRunKeepsInv` | src/shadow_runtime.rs:637-834 | Over every interleaving: reservations stay within the limits and, until the worker dies, are exactly what waits; shutdown is sent last; storage sees writes in acceptance order; poison, closing and every counted failure have their cause. |
| `ShadowRuntime.StateHasItsCause` | src/shadow_runtime.rs:1244-1290 | Over every interleaving: poison means a storage call failed fatally, is reported once the worker is done with it, and nothing else poisons; without poison and a begun shutdown the runtime is running. |
| `ShadowRuntime.Submission` | src/shadow_runtime.rs:637-692 | An undisturbed submission is queued and counted exactly when the runtime runs, entry and points fit and the worker is there; otherwise it leaves no trace. |
| `ShadowRuntime.ServedWrite` | src/shadow_runtime.rs:1211-1275 | A write the worker takes: its slot is freed, storage called once unless poisoned, the producer told the truth, counters moved, and only a fatal failure poisons. |
| `ShadowRuntime.ServedFlush` | src/shadow_runtime.rs:1277-1355 | The same for a flush. |
| `ShadowRuntime.ServedShutdown` | src/shadow_runtime.rs:1357-1413 | A shutdown closes storage unless poisoned and always ends closed. |
| `ShadowRuntime.Maintained` | src/shadow_runtime.rs:1173-1209 | Maintenance poisons on a fatal failure only. |
| `ShadowRuntime.EveryAnswerTrue` | src/shadow_runtime.rs:1211-1290 | Over every interleaving the answers go to the accepted writes in order, one each, and a write is answered as committed exactly when its own storage call succeeded. |
| `ShadowRuntime.ChannelNeverFull` | src/shadow_runtime.rs:677-683 | A producer holding a slot always finds room, so the full-queue branch is never taken. |
| `ShadowRuntime.ReleaseNeverSaturates` | src/shadow_runtime.rs:507-512 | Every release finds the slot and points it gives back. |
| `ShadowRuntime.StateOnlyAdvances` | src/shadow_runtime.rs:799-808 | The state moves only from running over closing and poisoned to closed. |
| `ShadowRuntime.PoisonSilencesStorage` | src/shadow_runtime.rs:1211-1227 | After a poisoning failure no later step of any run makes a storage call, closing included. |
| `ShadowRuntime.CommitsAreAcceptedPrefix` | src/shadow_runtime.rs:1097-1113 | The commits storage received are a prefix of the accepted writes, in order. |
| `ShadowRuntime.PoisonShutsTheDoor` | src/shadow_runtime.rs:646-662 | Once a poisoning failure is reported no producer passes the state check. |
| `ShadowRuntime.NothingBehindShutdown` | src/shadow_runtime.rs:799-808 | No command is ever queued behind a shutdown. |
| `ShadowRuntime.ClosedHasDrained` | src/shadow_runtime.rs:1357-1390 | A closed runtime has an empty queue, one answer for every accepted write in order, each true to its storage call, and without poison every accepted write handed to storage in order. |
| `ShadowRuntime.WritesConserved` | src/shadow_runtime.rs:1438-1450 | Accepted writes are the acknowledged, the failed, the one being served and the waiting ones. |
| `Utf8.DecodeOfEncode` | src/shadow_protocol.rs:1285-1289 | Every string survives UTF-8. |
| `Utf8.EncodeOfDecode` | src/shadow_protocol.rs:1285-1289 | Every accepted byte string is the UTF-8 form of the string it decodes to. |
| `Utf8.CharForms` | src/shadow_protocol.rs:1285-1289 | The four forms of section 3 of RFC 3629: their lengths, byte ranges and the number they spell. |
| `SortedMaps.ListingOfMap` | src/shadow_protocol.rs:849-877 | A map has an ascending listing that builds it. |
| `SortedMaps.ListingOfEntries` | src/shadow_protocol.rs:911-921 | Ascending entries are the only such listing of the map they build. |
| `WireFields.TextRoundTrip` | src/shadow_protocol.rs:933-946 | Text within its byte limits reads back. |
| `WireFields.TakeText` | src/shadow_protocol.rs:1271-1289 | Accepted text is within its limits and written exactly as it was read. |
| `WireFields.TakeOptionU128` | src/shadow_protocol.rs:1298-1304 | An accepted optional value has the one form with presence byte 0 or 1. |
| `WireFields.TakeBool` | src/shadow_protocol.rs:1015-1021 | An accepted boolean is exactly one byte 0 or 1. |
| `WireFields.EntriesCanonical` | src/shadow_protocol.rs:878-897 | Accepted entries ascend strictly, fit, and are exactly the bytes read. |
| `WireFields.MapRoundTrip` | src/shadow_protocol.rs:849-897 | Every map that may be written reads back. |
| `WireFields.MapCanonical` | src/shadow_protocol.rs:849-897 | Every accepted map re-encodes to the bytes read. |
| `WireFields.CollectionRoundTrip` | src/shadow_protocol.rs:898-910 | A counted list of records reads back if its records do. |
| `WireFields.CollectionCanonical` | src/shadow_protocol.rs:898-910 | An accepted list re-encodes to the bytes read if its records do. |
| `WireRecords.ValueInverse` | src/shadow_protocol.rs:856-893 | Property values: what may be written reads back, what is read could be written only one way. |
| `WireRecords.EntityInverse` | src/shadow_protocol.rs:651-670 | The same for entities. |
| `WireRecords.RelationInverse` | src/shadow_protocol.rs:671-690 | The same for relations. |
| `WireRecords.SeriesInverse` | src/shadow_protocol.rs:691-765 | The same for series with their rollup policies, validity included. |
| `WireRecords.RunInverse` | src/shadow_protocol.rs:766-793 | The same for runs. |
| `WireRecords.PlanInverse` | src/shadow_protocol.rs:794-848 | The same for plans, validity included. |
| `WireRecords.PointInverse` | src/shadow_protocol.rs:922-932 | The same for points. |
| `WireProtocol.BatchRoundTrip` | src/shadow_protocol.rs:400-430 | Every valid batch reads back; its five metadata collections share one record budget and its points have a limit of their own. |
| `WireProtocol.BatchCanonical` | src/shadow_protocol.rs:514-529 | Every accepted batch is valid, fits and re-encodes to the bytes read. |
| `WireProtocol.PayloadRoundTrip` | src/shadow_protocol.rs:388-503 | Every message that may be sent reads back from its payload. |
| `WireProtocol.PayloadCanonical` | src/shadow_protocol.rs:505-622 | Every accepted payload may be sent and re-encodes identically unless it is a short health response. |
| `WireProtocol.HeaderRoundTrip` | src/shadow_protocol.rs:345-373 | A written header parses to its kind and frame length, whatever follows. |
| `WireProtocol.HeaderCanonical` | src/shadow_protocol.rs:345-373 | An accepted header is the written one. |
| `WireProtocol.EncodedDecodes` | src/shadow_protocol.rs:291-327 | Every message that encodes decodes to itself. |
| `WireProtocol.DecodedEncodes` | src/shadow_protocol.rs:291-327 | Every accepted frame re-encodes to itself exactly when it is not a short health response, which decodes to default details. |
| `WireProtocol.StreamReadsBack` | src/shadow_protocol.rs:328-343 | Any sequence of messages written to a stream reads back in order and consumes nothing beyond them. |
| `WireLayout.PayloadLayout` | src/shadow_protocol.rs:1-37 | Every payload is the flat sequence of its fields that the protocol documents: order, widths, tags, presence bytes, counts and key order. |
| `WireLayout.FrameLayout` | src/shadow_protocol.rs:291-309 | Every frame is `FTWS`, version 1, kind, zero, length, payload and the checksum of all before it. |
| `WireLayout.SendableIff` | src/shadow_protocol.rs:388-649 | A message can be sent exactly within the stated limits, each given as a number. |
| `WireInput.Input.Take` | src/shadow_protocol.rs:1219-1233 | The cursor takes n bytes or fails and stays. |
| `WireInput.Input.Text` | src/shadow_protocol.rs:1271-1289 | The cursor reads text as specified. |
| `WireInput.Input.Value` | src/shadow_protocol.rs:886-893 | The cursor reads a property value as specified. |
| `WireInput.Input.Properties` | src/shadow_protocol.rs:878-897 | The property loop with its ascending-key check reads exactly the specified map or refuses. |
| `WireInput.Input.ObjectiveTerms` | src/shadow_protocol.rs:823-832 | The objective loop likewise. |
| `WireInput.Input.Collection` | src/shadow_protocol.rs:898-910 | The record loop reads the counted list as specified. |
| `WireInput.Input.Points` | src/shadow_protocol.rs:1327-1353 | Points are read only if they are exactly what remains. |
| `WireInput.AppendProperties` | src/shadow_protocol.rs:849-877 | The encoding loop appends exactly the map's bytes, or refuses exactly when the map does not fit. |

## Left out

- Opening, locking, renaming and syncing of files and directories, read-only handles, and the store's
  bookkeeping around the database: the model starts from the bytes of one file.
- Manifests, backups, restores and the publication of a salvage: only that the salvaged prefix recovers.
- The serializer, the compressor and the time zone database: parameters with the laws stated above.
- Where calendar buckets begin and end: the time zone library decides, the model takes any division of time.
- The byte form of rollup segment files: a fixed-width codec like that of points.
- IEEE rounding: aggregates and rollups add real numbers; the column codec and the log keep exact bits.
- The durable flag inside stored receipts: replies report durability from the watermarks instead.
- Queries by run, plan comparison and gauge queries of the store, the reconciliation of batches, the
  socket server, workloads, fixtures and benchmarks.
- Which `ProtocolError` a refused frame reports: the wire codec says exactly which frames are refused.
- The wire encoders and decoders of single records are functions over the bytes left rather than
  cursor methods; the cursor and its loops are methods in `WireInput`.
- ReclaimLog.ReclaimLiveLog: returns a new handle instead of replacing the fields of the old one, and takes as
  one answer whether the new file was renamed into place and its directory synced. Which of the two files a
  reopening then finds is not part of the method; the lives of `StoreRuns` cover both.
- StoreRuns.LifeKeeps: lives that publish a generation the log already has a checkpoint of and do not
  rewrite the log before anything else happens are not covered, because such a store does not open
  (`ReusedGenerationFails`). Segment files are taken as written.
- StoreRuns.PublishSteps: the same; `StoreRuns.SealSteps` covers a reused generation.
- Sealing.PublishKeepsHandle: the pending-reclaim flag is the one recovery would load; the running
  handle's own flag, which is read only while a store opens, is not followed between a seal and its reclaim.
- RollupBuild.Build: requires that the start of every sample's bucket is an `i64`, because the code
  multiplies without a check there.
- RollupBuild.BuildCalendar: requires `Partition`, because on a grid whose buckets overlap or run backwards the
  pieces of an interval are not those of the buckets they fall in and the loop need not end.
- RollupBuild.BuiltBucketsValid: leaves out that every stored number is finite, because values are real numbers, and
  takes samples whose bucket durations are representable.
- RollupBuild.ValidateBuckets: leaves out the finiteness checks for the same reason.
- Receipts.MatchIdentified: a failed read and damaged bytes share one outcome, because both poison the writer; the
  code reports them as different errors.
- Receipts.MatchIngress: the same.
- Database.OpenFile: a file too short for a header is reported as such, where the code reports a failed read.
- LogScan.Scan.Run: the same; reads of the file do not fail otherwise.
- SegmentIndex.CreateSegment: the file name, its temporary and the headers and checksums of file, index and
  blocks are not modelled.
- ShadowRuntime.EveryRunKeepsInv: leaves out deadlines, reply channels and the watermark table of the
  health report; a panic in maintenance is the worker dying.

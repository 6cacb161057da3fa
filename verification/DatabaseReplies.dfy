/**
What a caller of the writer is told, in terms of its own arguments, the state it can see and how
the operating system answered: which calls are written, with which receipt, and which are refused
for which reason.
*/
module DatabaseReplies {
  import opened ByteCodec
  import opened Model
  import opened PointCodec
  import opened TransactionCodec
  import opened LogFrame
  import opened FramedLog
  import opened DurableLog
  import opened StorageLog
  import opened PointIndex
  import opened Receipts
  import opened DatabaseModel

  // A sync is due after n more bytes.
  predicate SyncDue(cfg: Config, db: Handle, n: nat) {
    || cfg.durability.Always?
    || (cfg.durability.EveryBytes? && db.journal.dirty + n >= cfg.durability.threshold)
  }

  // A frame of n bytes is written, and synced if that is due.
  predicate Lands(cfg: Config, db: Handle, n: nat, io: Io) {
    io.written >= n && (SyncDue(cfg, db, n) ==> io.syncOk)
  }

  // A frame that lands follows the old bytes and counts as synced exactly when a sync was due; one that
  // does not lands nothing in the log and poisons the writer.
  lemma FrameOutcome(env: Env, cfg: Config, db: Handle, f: Frame, io: Io)
    requires FrameFits(f)
    ensures var (j, w) := WriteFrame(LogFormat(env, cfg), cfg.durability, db.journal, f, io);
            var n := 24 + |f.payload|;
            if Lands(cfg, db, n, io) then
              && w == Accepted(SyncDue(cfg, db, n))
              && j.file == db.journal.file + EncodeFrame(LogFormat(env, cfg), f) && j.log == db.journal.log + [f]
              && j.dirty == (if SyncDue(cfg, db, n) then 0 else db.journal.dirty + n)
              && j.synced == (if SyncDue(cfg, db, n) then |db.journal.log| + 1 else db.journal.synced)
              && j.poisoned == db.journal.poisoned
            else w == WriteFailed && j.poisoned && j.log == db.journal.log && j.synced == db.journal.synced
  {
    hide EncodeFrame;
  }

  /**
  Appending points: too many or malformed ones are refused, an empty batch is answered at once,
  and any other batch is written as one frame of 24 bytes and 72 per point. The receipt says where,
  how many, and whether it is synced.
  */
  lemma AppendOutcome(env: Env, cfg: Config, db: Handle, points: seq<Point>, io: Io)
    requires !db.journal.poisoned
    ensures var (after, reply) := Perform(env, cfg, db, Append(points), io);
            var n := 24 + 72 * |points|;
            if |points| > cfg.maxBatchPoints then (after, reply) == (db, Fail(BatchTooLarge))
            else if exists p <- points :: p.validEnd < p.validTime || !IsFinite(p.value)
            then (after, reply) == (db, Fail(InvalidModel))
            else if points == []
            then (after, reply) == (db, Done(Commit(|db.journal.file|, 0, 0, 0, db.journal.dirty == 0, false)))
            else if 72 * |points| > 0xFFFF_FFFF then (after, reply) == (db, Fail(BatchTooLarge))
            else if Lands(cfg, db, n, io) then
              && reply == Done(Commit(|db.journal.file|, |points|, 1, n, SyncDue(cfg, db, n), false))
              && after.journal.log == db.journal.log + [Frame(0, |points|, EncodePoints(points))]
              && after.memory == db.memory.(index := InsertAll(db.memory.index, points),
                                            points := db.memory.points + |points|, commits := db.memory.commits + 1)
            else reply == Fail(IoFailed) && after.journal.poisoned && after.memory == db.memory
  {
    hide InsertAll, EncodePoints, WriteFrame, IsFinite, Lands, SyncDue;
    if PointsOk(points) && points != [] && |points| <= cfg.maxBatchPoints && |points| * POINT_BYTES <= U32_MAX {
      hide Carry;
      AppendWritten(env, cfg, db, points, io);
    }
  }

  lemma AppendWritten(env: Env, cfg: Config, db: Handle, points: seq<Point>, io: Io)
    requires 72 * |points| <= U32_MAX
    ensures var (after, reply) := Carry(env, cfg, db, WritePoints(points), io);
            var n := 24 + 72 * |points|;
            if Lands(cfg, db, n, io) then
              && reply == Done(Commit(|db.journal.file|, |points|, 1, n, SyncDue(cfg, db, n), false))
              && after.journal.log == db.journal.log + [Frame(0, |points|, EncodePoints(points))]
              && after.memory == db.memory.(index := InsertAll(db.memory.index, points),
                                            points := db.memory.points + |points|, commits := db.memory.commits + 1)
            else reply == Fail(IoFailed) && after.journal.poisoned && after.memory == db.memory
  {
    hide InsertAll, EncodePoints, WriteFrame, Lands, SyncDue, Carry, Remember;
    var d := WritePoints(points);
    FrameOutcome(env, cfg, db, FrameOf(d), io);
    CarryWrite(env, cfg, db, d, io);
    RememberPoints(env, db.memory, points, |db.journal.file|);
  }

  // The frame of a transaction: its kind says what precedes the canonical bytes.
  lemma TaggedFrames(tag: Tag, records: seq<Record>, canonical: Bytes)
    requires |records| <= U32_MAX
    ensures TaggedFrame(tag, records, canonical) ==
            match tag
            case Untagged => Frame(1, |records|, canonical)
            case Identified(c) => Frame(2, |records|, LE(c, 16) + canonical)
            case Ingress(i) =>
              Frame(3, |records|, LE(i.sourceId, 16) + LE(i.sequence, 8) + LE(i.commitId, 16) + canonical)
  {
    hide LE;
    assert [] + canonical == canonical;
  }

  function PrefixBytes(tag: Tag): nat {
    match tag case Untagged => 0 case Identified(_) => 16 case Ingress(_) => 40
  }

  // A transaction decided for writing: the receipt, the frame and the new state.
  lemma CommitOutcome(env: Env, cfg: Config, db: Handle, tag: Tag, records: seq<Record>, canonical: Bytes,
                      catalog: Catalog, io: Io)
    requires Writes(WriteRecords(tag, records, canonical, catalog)) && !db.journal.poisoned
    ensures var (after, reply) := Carry(env, cfg, db, WriteRecords(tag, records, canonical, catalog), io);
            var n := 24 + PrefixBytes(tag) + |canonical|;
            if Lands(cfg, db, n, io) then
              && reply == Done(Commit(|db.journal.file|, |PointsOf(records)|, |records|, n, SyncDue(cfg, db, n), false))
              && after.journal.log == db.journal.log + [TaggedFrame(tag, records, canonical)]
              && after.memory.index == InsertAll(db.memory.index, PointsOf(records))
              && after.memory.points == db.memory.points + |PointsOf(records)|
              && after.memory.catalog == catalog && after.memory.commits == db.memory.commits + 1
              && after.memory.catalogRecords == db.memory.catalogRecords + MetadataCount(records)
            else reply == Fail(IoFailed) && after.journal.poisoned && after.memory == db.memory
  {
    hide InsertAll, PointsOf, MetadataCount, WriteFrame, RecordTag, LE;
    var d := WriteRecords(tag, records, canonical, catalog);
    FrameOutcome(env, cfg, db, FrameOf(d), io);
    CarryWrite(env, cfg, db, d, io);
  }

  // The limits on one transaction whose frame carries `prefix` bytes before the canonical form.
  predicate WithinLimits(env: Env, cfg: Config, db: Handle, records: seq<Record>, prefix: nat) {
    && |PointsOf(records)| <= cfg.maxBatchPoints
    && env.apply(db.memory.catalog, records).Some?
    && EncodeCanonical(env, records).Some?
    && prefix + |EncodeCanonical(env, records).value| <= cfg.maxTransactionBytes
    && prefix + |EncodeCanonical(env, records).value| <= 0xFFFF_FFFF
  }

  // What is written for a transaction that passes.
  function ToWrite(env: Env, db: Handle, tag: Tag, records: seq<Record>): Decision
    requires env.apply(db.memory.catalog, records).Some? && EncodeCanonical(env, records).Some?
  {
    WriteRecords(tag, records, EncodeCanonical(env, records).value, env.apply(db.memory.catalog, records).value)
  }

  // A transaction without identity is written exactly when it brings something and is within the limits.
  lemma PlainWrittenIff(env: Env, cfg: Config, db: Handle, t: Transaction)
    requires !db.journal.poisoned && t.ingress.None? && t.commitId.None?
    ensures var d := Decide(env, cfg, db, CommitTransaction(t));
            && (d.WriteRecords? <==> t.records != [] && WithinLimits(env, cfg, db, t.records, 0))
            && (d.WriteRecords? ==> d == ToWrite(env, db, Untagged, t.records))
            && (t.records == [] ==> d == Answer(Commit(|db.journal.file|, 0, 0, 0, db.journal.dirty == 0, false)))
            && !d.WritePoints? && !d.Poison?
  {
    hide PointsOf, EncodeCanonical;
  }

  // One with a commit identifier additionally needs an identifier the log does not know.
  lemma IdentifiedWrittenIff(env: Env, cfg: Config, db: Handle, t: Transaction, c: u128)
    requires !db.journal.poisoned && t.ingress.None? && t.commitId == Some(c)
    ensures var d := Decide(env, cfg, db, CommitTransaction(t));
            && (d.WriteRecords? <==>
                  && c !in db.memory.ids.commitIds && c !in db.memory.ids.ingressIds
                  && t.records != [] && WithinLimits(env, cfg, db, t.records, 16))
            && (d.WriteRecords? ==> d == ToWrite(env, db, Identified(c), t.records))
            && (c in db.memory.ids.ingressIds ==> d == Refuse(IngressCommitIdConflict(c)))
            && (c !in db.memory.ids.commitIds && c !in db.memory.ids.ingressIds && t.records == [] ==>
                  d == Answer(Commit(|db.journal.file|, 0, 0, 0, db.journal.dirty == 0, false)))
            && !d.WritePoints?
  {
    hide PointsOf, EncodeCanonical, IdentifiedMatches, LE;
  }

  /**
  An ordered transaction is written exactly when its source is not the reserved one, it encodes,
  cursor and commit identifier are new, the cursor is past the last of its source, and it is within
  the limits. Each refusal about identities has its own cause.
  */
  lemma IngressWrittenIff(env: Env, cfg: Config, db: Handle, t: Transaction, i: IngressIdentity)
    requires !db.journal.poisoned && t.ingress == Some(i)
    ensures var d, ids := Decide(env, cfg, db, CommitTransaction(t)), db.memory.ids;
            var known := IngressKey(i.sourceId, i.sequence) in ids.ingress;
            var encodes := i.sourceId != 0 && EncodeCanonical(env, t.records).Some?;
            var behind := i.sourceId in ids.lastSequences && i.sequence <= ids.lastSequences[i.sourceId];
            && (d.WriteRecords? <==>
                  && encodes && !known && i.commitId !in ids.commitIds && !behind
                  && WithinLimits(env, cfg, db, t.records, 40))
            && (d.WriteRecords? ==> d == ToWrite(env, db, Ingress(i), t.records))
            && (d == Refuse(InvalidArgument) <==> i.sourceId == 0)
            && (d == Refuse(IngressCommitIdConflict(i.commitId)) <==> encodes && !known && i.commitId in ids.commitIds)
            && (d.Refuse? && d.error.IngressSequenceNotIncreasing? <==>
                  encodes && !known && i.commitId !in ids.commitIds && behind)
            && (d.Refuse? && d.error.IngressSequenceNotIncreasing? ==>
                  d.error == IngressSequenceNotIncreasing(i.sourceId, ids.lastSequences[i.sourceId], i.sequence))
            && !d.WritePoints?
  {
    hide PointsOf, EncodeCanonical, IngressMatches, LE;
  }

  // A known identifier: the same bytes are answered without writing, other bytes are a conflict, stored
  // bytes that no longer agree with their frame poison the writer.
  lemma IdentifiedRetry(env: Env, cfg: Config, db: Handle, t: Transaction, c: u128)
    requires !db.journal.poisoned && t.ingress.None? && t.commitId == Some(c)
    requires c in db.memory.ids.commitIds && c !in db.memory.ids.ingressIds
    ensures var d, ids := Decide(env, cfg, db, CommitTransaction(t)), db.memory.ids;
            match EncodeCanonical(env, t.records)
            case None => d == Refuse(Serialization)
            case Some(canonical) =>
              if c !in ids.identified then d == Refuse(IngressCommitIdConflict(c))
              else match IdentifiedMatches(env, db.journal.file, ids.identified[c], LE(c, 16) + canonical)
                case Same => d == Answer(Commit(|db.journal.file|, 0, 0, 0, db.journal.dirty == 0, true))
                case Different => d == Refuse(IngressCommitIdConflict(c))
                case Corrupt => d == Poison(Corruption)
                case Overflow => d == Refuse(Serialization)
  {
    hide EncodeCanonical, IdentifiedMatches, LE;
  }

  // A poisoned writer refuses every call and stays as it is.
  lemma PoisonedCalls(env: Env, cfg: Config, db: Handle, call: Call, io: Io)
    requires db.journal.poisoned
    ensures Perform(env, cfg, db, call, io) == (db, Fail(Poisoned))
  {
  }

  /**
  Why a new transaction is refused. Too many points are told first, then what the catalog does not
  accept, then what does not encode, and last the size of the frame.
  */
  lemma Refusals(env: Env, cfg: Config, db: Handle, t: Transaction)
    requires !db.journal.poisoned && t.ingress.None? && t.records != []
    requires t.commitId.Some? ==> t.commitId.value !in db.memory.ids.commitIds && t.commitId.value !in db.memory.ids.ingressIds
    ensures var d, canonical := Decide(env, cfg, db, CommitTransaction(t)), EncodeCanonical(env, t.records);
            var many := |PointsOf(t.records)| > cfg.maxBatchPoints;
            var accepted := env.apply(db.memory.catalog, t.records).Some?;
            var size := if canonical.None? then 0 else (if t.commitId.Some? then 16 else 0) + |canonical.value|;
            && (d == Refuse(BatchTooLarge) <==> many)
            && (d == Refuse(InvalidModel) <==> !many && (!accepted || size > cfg.maxTransactionBytes))
            && (d == Refuse(Serialization) <==>
                  !many && accepted && size <= cfg.maxTransactionBytes && (canonical.None? || size > 0xFFFF_FFFF))
            && (d.WriteRecords? || d in {Refuse(BatchTooLarge), Refuse(InvalidModel), Refuse(Serialization)})
  {
    hide PointsOf, EncodeCanonical, LE;
  }

  // The same for an ordered transaction whose identity is new; here the size is told before the catalog.
  lemma IngressRefusals(env: Env, cfg: Config, db: Handle, t: Transaction, i: IngressIdentity)
    requires !db.journal.poisoned && t.ingress == Some(i) && i.sourceId != 0
    requires var ids := db.memory.ids;
             && IngressKey(i.sourceId, i.sequence) !in ids.ingress && i.commitId !in ids.commitIds
             && (i.sourceId in ids.lastSequences ==> i.sequence > ids.lastSequences[i.sourceId])
    ensures var d, canonical := Decide(env, cfg, db, CommitTransaction(t)), EncodeCanonical(env, t.records);
            var many := |PointsOf(t.records)| > cfg.maxBatchPoints;
            var accepted := env.apply(db.memory.catalog, t.records).Some?;
            var size := if canonical.None? then 0 else 40 + |canonical.value|;
            && (d == Refuse(BatchTooLarge) <==> canonical.Some? && many)
            && (d == Refuse(InvalidModel) <==>
                  canonical.Some? && !many && (!accepted || size > cfg.maxTransactionBytes))
            && (d == Refuse(Serialization) <==>
                  || canonical.None?
                  || (!many && accepted && size <= cfg.maxTransactionBytes && size > 0xFFFF_FFFF))
            && (d.WriteRecords? || d in {Refuse(BatchTooLarge), Refuse(InvalidModel), Refuse(Serialization)})
  {
    hide PointsOf, EncodeCanonical, LE;
  }

  // A known cursor: another commit identifier or other bytes are a conflict, the same bytes are answered with
  // the stored receipt, stored bytes that no longer agree with their frame poison the writer.
  lemma IngressRepeated(env: Env, cfg: Config, db: Handle, t: Transaction, i: IngressIdentity)
    requires !db.journal.poisoned && t.ingress == Some(i) && i.sourceId != 0
    requires IngressKey(i.sourceId, i.sequence) in db.memory.ids.ingress
    ensures var d, r := Decide(env, cfg, db, CommitTransaction(t)), db.memory.ids.ingress[IngressKey(i.sourceId, i.sequence)];
            var conflict := IngressSourceSequenceConflict(i.sourceId, i.sequence);
            match EncodeCanonical(env, t.records)
            case None => d == Refuse(Serialization)
            case Some(canonical) =>
              if r.identity.commitId != i.commitId then d == Refuse(conflict)
              else match IngressMatches(env, db.journal.file, r, canonical)
                case Same =>
                  var source := r.identity.sourceId;
                  var covered := source in db.durable && r.identity.sequence <= db.durable[source];
                  d == Answer(Commit(r.frameOffset, r.points, r.records, r.bytesWritten, covered, true))
                case Different => d == Refuse(conflict)
                case Corrupt => d == Poison(Corruption)
                case Overflow => d == Refuse(Serialization)
  {
    hide EncodeCanonical, IngressMatches;
  }

  // A flush either makes everything written so far durable or poisons the writer and leaves all else alone.
  lemma FlushOutcome(db: Handle, io: Io)
    ensures var (after, ok) := FlushHandle(db, io);
            && (ok <==> !db.journal.poisoned && io.syncOk)
            && after.memory == db.memory
            && after.journal.file == db.journal.file && after.journal.log == db.journal.log
            && (ok ==> after.journal.dirty == 0 && after.journal.synced == |db.journal.log|
                       && !after.journal.poisoned && after.durable == db.memory.ids.lastSequences)
            && (!ok ==> after.journal.poisoned && after.journal.dirty == db.journal.dirty
                        && after.journal.synced == db.journal.synced && after.durable == db.durable)
  {
  }

  // A seal checkpoint is written and flushed, or the writer is poisoned and its log is as before.
  lemma CheckpointOutcome(env: Env, cfg: Config, db: Handle, g: u64, n: u64, io: Io, flush: Io)
    requires !db.journal.poisoned
    ensures var (after, ok) := Checkpoint(env, cfg, db, g, n, io, flush);
            && (ok <==> Lands(cfg, db, 40, io) && flush.syncOk)
            && (ok ==>
                  && after.journal.log == db.journal.log + [Frame(4, 0, LE(g, 8) + LE(n, 8))]
                  && after.journal.synced == |db.journal.log| + 1 && after.journal.dirty == 0 && !after.journal.poisoned
                  && after.memory == db.memory.(commits := db.memory.commits + 1)
                  && after.durable == db.memory.ids.lastSequences)
            && (!ok ==> after.journal.poisoned && after.journal.log == db.journal.log && after.memory == db.memory)
  {
    hide WriteFrame, EncodeFrame;
    FrameOutcome(env, cfg, db, CheckpointFrame(g, n), io);
  }

  // Opening what a crash left: what the scan found, poisoned exactly if the sync of the repaired file fails.
  lemma ReopenOutcome(env: Env, cfg: Config, seals: set<u64>, db: Handle, cut: nat, io: Io)
    requires cut <= |db.journal.file| && DatabaseHeaderOk(LogFormat(env, cfg), db.journal.file[..cut])
    ensures var after := ReopenHandle(env, cfg, seals, db, cut, io);
            var found := ScanFile(LogSemantics(env, cfg, seals), db.journal.file[..cut]);
            && after.journal.file == db.journal.file[..found.offset]
            && after.journal.dirty == 0 && (after.journal.poisoned <==> !io.syncOk) && after.journal.torn.None?
            && after.memory.index == IndexOf(found.state.live) && after.memory.points == |found.state.live|
            && after.memory.catalog == found.state.catalog && after.memory.ids == found.state.ids
            && after.memory.commits == found.state.commits && after.memory.catalogRecords == found.state.catalogRecords
            && after.memory.pendingReclaim == found.state.pendingReclaim
            && (io.syncOk ==> after.durable == found.state.ids.lastSequences)
  {
    hide ScanFile, DatabaseHeaderOk, WholeFrames, IndexOf, ApplyFrame;
    var found := ScanFile(LogSemantics(env, cfg, seals), db.journal.file[..cut]);
    assert db.journal.file[..cut][..found.offset] == db.journal.file[..found.offset];
  }
}

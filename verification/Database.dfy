/**
The writer handle as an object that updates its fields call by call.

Each method follows the order of checks, writes and updates of the call it models,
and is proved to do what the state machine of DatabaseModel does (`Perform`,
`FlushHandle`, `Checkpoint`), so everything proved about runs of that machine
holds of runs of this object. The operating system's answers are parameters.
*/
module Database {
  import opened ByteCodec
  import opened StableSorting
  import opened Model
  import opened PointCodec
  import opened TransactionCodec
  import opened LogFrame
  import opened FramedLog
  import opened DurableLog
  import opened StorageLog
  import opened PointIndex
  import opened Receipts
  import opened DatabaseModel
  import LogScan

  class Database {
    const env: Env
    const cfg: Config
    ghost const seals: set<u64>

    var file: Bytes
    var index: Index
    var catalog: Catalog
    var commitIds: set<u128>
    var identified: map<u128, IdentifiedReceipt>
    var ingress: map<IngressKey, IngressReceipt>
    var ingressIds: map<u128, IngressKey>
    var lastSequences: map<u128, u64>
    var durableSequences: map<u128, u64>
    var commits: nat
    var points: nat
    var catalogRecords: nat
    var pendingReclaim: bool
    var bytesSinceSync: nat
    var poisoned: bool

    // History: frames applied, a frame that failed part way, frames covered by the last sync.
    ghost var log: seq<Frame>
    ghost var torn: Option<Frame>
    ghost var synced: nat

    ghost function CurrentJournal(): Journal
      reads this
    {
      Journal(file, bytesSinceSync, poisoned, log, torn, synced)
    }

    function Ids(): Identities
      reads this
    {
      Identities(commitIds, identified, ingress, ingressIds, lastSequences)
    }

    ghost function CurrentMemory(): Memory
      reads this
    {
      Memory(index, points, catalog, Ids(), commits, catalogRecords, pendingReclaim)
    }

    ghost function Value(): Handle
      reads this
    {
      Handle(CurrentJournal(), CurrentMemory(), durableSequences)
    }

    ghost predicate Valid()
      reads this
    {
      Lawful(env) && ValidConfig(cfg) && HandleInv(env, cfg, seals, Value())
    }

    // The handle over a scanned file whose tail was dropped and whose rest was synced.
    constructor Scanned(env: Env, cfg: Config, seals: set<u64>, bytes: Bytes, scan: LogScan.Scan,
                        ghost st: LogState, ghost frames: seq<Frame>)
      requires Lawful(env) && ValidConfig(cfg)
      requires scan.Agrees(st) && scan.index == IndexOf(st.live)
      requires Sound(LogSemantics(env, cfg, seals), frames)
      requires Replay(LogSemantics(env, cfg, seals), frames) == Some(st)
      requires bytes == LogFile(LogFormat(env, cfg), frames)
      ensures Valid() && this.env == env && this.cfg == cfg && this.seals == seals
      ensures Value() == Handle(Journal(bytes, 0, false, frames, None, |frames|), Load(st), st.ids.lastSequences)
    {
      hide Replay, LogBytes, LogFile, IndexOf;
      this.env, this.cfg, this.seals := env, cfg, seals;
      file := bytes;
      index, catalog := scan.index, scan.catalog;
      commitIds, identified, ingress, ingressIds := scan.commitIds, scan.identified, scan.ingress, scan.ingressIds;
      lastSequences, durableSequences := scan.lastSequences, scan.lastSequences;
      commits, points, catalogRecords, pendingReclaim := scan.commits, scan.points, scan.catalogRecords, scan.pendingReclaim;
      bytesSinceSync, poisoned := 0, false;
      log, torn, synced := frames, None, |frames|;
      EncodeLogLength(LogFormat(env, cfg), frames);
      assert frames[..|frames|] == frames;
      new;
    }

    // One frame: header and payload, then a sync when the policy asks for it.
    method WriteAndSync(f: Frame, io: Io) returns (w: DurableLog.Written)
      requires FrameFits(f)
      modifies this`file, this`bytesSinceSync, this`log, this`torn, this`synced
      ensures (CurrentJournal().(poisoned := poisoned || w.WriteFailed?), w)
           == DurableLog.WriteFrame(LogFormat(env, cfg), cfg.durability, old(CurrentJournal()), f, io)
    {
      hide EncodeFrame;
      var bytes := EncodeFrame(LogFormat(env, cfg), f);
      if io.written < |bytes| {
        file := file + bytes[..io.written];
        torn := Some(f);
        return WriteFailed;
      }
      file := file + bytes;
      bytesSinceSync := bytesSinceSync + |bytes|;
      var shouldSync := ShouldSync(cfg.durability, bytesSinceSync);
      if shouldSync {
        if !io.syncOk {
          torn := Some(f);
          return WriteFailed;
        }
        bytesSinceSync := 0;
      }
      log := log + [f];
      if shouldSync {
        synced := |log|;
      }
      w := Accepted(shouldSync);
    }

    // A failure poisons the handle; a sync makes every accepted sequence durable.
    method WriteFrame(f: Frame, io: Io) returns (w: DurableLog.Written)
      requires FrameFits(f)
      modifies this`file, this`bytesSinceSync, this`poisoned, this`durableSequences, this`log, this`torn, this`synced
      ensures (CurrentJournal(), w)
           == DurableLog.WriteFrame(LogFormat(env, cfg), cfg.durability, old(CurrentJournal()), f, io)
      ensures durableSequences == if w == Accepted(true) then lastSequences else old(durableSequences)
      ensures CurrentMemory() == old(CurrentMemory())
    {
      hide DurableLog.WriteFrame;
      w := WriteAndSync(f, io);
      if w.WriteFailed? {
        poisoned := true;
      } else if w.durable {
        durableSequences := lastSequences;
      }
    }

    method AddPoints(batch: seq<Point>)
      requires IndexSorted(index)
      modifies this`index, this`commits, this`points
      ensures CurrentMemory() == old(CurrentMemory()).(
                index := InsertAll(old(index), batch), commits := old(commits) + 1, points := old(points) + |batch|)
    {
      index := IndexPoints(index, batch);
      commits := commits + 1;
      points := points + |batch|;
    }

    lemma ValidIndex()
      requires Valid()
      ensures IndexSorted(index)
    {
      hide Replay, Inv;
      IndexOfSorted(Replay(LogSemantics(env, cfg, seals), log).value.live);
    }

    method Append(batch: seq<Point>, io: Io) returns (reply: Reply)
      requires Valid()
      modifies this
      ensures Valid()
      ensures (Value(), reply) == Perform(env, cfg, old(Value()), Call.Append(batch), io)
    {
      hide HandleInv, Carry, Lawful;
      PerformKeeps(env, cfg, seals, Value(), Call.Append(batch), io);
      Refusals(env, cfg, Value(), io);
      if poisoned {
        return Fail(Poisoned);
      }
      if |batch| > cfg.maxBatchPoints {
        return Fail(BatchTooLarge);
      }
      if !PointsOk(batch) {
        return Fail(InvalidModel);
      }
      if batch == [] {
        return Done(Commit(|file|, 0, 0, 0, bytesSinceSync == 0, false));
      }
      if |batch| * POINT_BYTES > U32_MAX {
        return Fail(BatchTooLarge);
      }
      reply := WriteBatch(batch, io);
    }

    method WriteBatch(batch: seq<Point>, io: Io) returns (reply: Reply)
      requires Valid() && |batch| * POINT_BYTES <= U32_MAX
      modifies this
      ensures (Value(), reply) == Carry(env, cfg, old(Value()), WritePoints(batch), io)
    {
      hide HandleInv, EncodePoints, InsertAll, DurableLog.WriteFrame, Lawful, Carry, Remember, IndexSorted, DecodePoints;
      ghost var before := Value();
      RememberPoints(env, before.memory, batch, |file|);
      CarryWrite(env, cfg, before, WritePoints(batch), io);
      ValidIndex();
      PointsRoundTrip(batch);
      var f := PointsFrame(batch);
      var frameOffset := |file|;
      var w := WriteFrame(f, io);
      if w.WriteFailed? {
        return Fail(IoFailed);
      }
      AddPoints(batch);
      reply := Done(Commit(frameOffset, |batch|, 1, FrameBytes(f), w.durable, false));
    }

    // What every written transaction adds to memory, apart from its receipt.
    method AddRecords(records: seq<Record>, candidate: Catalog)
      requires IndexSorted(index)
      modifies this`index, this`catalog, this`commits, this`points, this`catalogRecords
      ensures CurrentMemory() == old(CurrentMemory()).(
                index := InsertAll(old(index), PointsOf(records)), catalog := candidate, commits := old(commits) + 1,
                points := old(points) + |PointsOf(records)|,
                catalogRecords := old(catalogRecords) + MetadataCount(records))
    {
      hide InsertAll, PointsOf, MetadataCount;
      index := IndexPoints(index, PointsOf(records));
      catalog := candidate;
      commits := commits + 1;
      var pointCount, metadata := LogScan.CountRecords(records);
      points := points + pointCount;
      catalogRecords := catalogRecords + metadata;
    }

    method StoreIdentified(c: u128, receipt: IdentifiedReceipt)
      modifies this`commitIds, this`identified
      ensures CurrentMemory() == old(CurrentMemory()).(ids := RecordIdentified(old(Ids()), c, receipt))
    {
      commitIds := commitIds + {c};
      identified := identified[c := receipt];
    }

    method StoreIngress(receipt: IngressReceipt, durable: bool)
      modifies this`commitIds, this`ingress, this`ingressIds, this`lastSequences, this`durableSequences
      ensures CurrentMemory() == old(CurrentMemory()).(ids := RecordIngress(old(Ids()), receipt))
      ensures durableSequences == if durable
                then old(durableSequences)[receipt.identity.sourceId := receipt.identity.sequence]
                else old(durableSequences)
    {
      var identity := receipt.identity;
      commitIds := commitIds + {identity.commitId};
      ingress := ingress[KeyOf(identity) := receipt];
      ingressIds := ingressIds[identity.commitId := KeyOf(identity)];
      lastSequences := lastSequences[identity.sourceId := identity.sequence];
      if durable {
        durableSequences := durableSequences[identity.sourceId := identity.sequence];
      }
    }

    method CommitPlain(t: Transaction, io: Io) returns (reply: Reply)
      requires Valid() && !poisoned && t.ingress.None?
      modifies this
      ensures (Value(), reply) == Perform(env, cfg, old(Value()), CommitTransaction(t), io)
    {
      hide HandleInv, EncodeCanonical, PointsOf, IdentifiedMatches, TagBytes, Lawful, Carry;
      Refusals(env, cfg, Value(), io);
      if t.commitId.Some? {
        var c := t.commitId.value;
        if c in ingressIds {
          return Fail(IngressCommitIdConflict(c));
        }
        if c in commitIds {
          reply := RetryIdentified(c, t.records);
          return;
        }
      }
      if t.records == [] {
        return Done(Commit(|file|, 0, 0, 0, bytesSinceSync == 0, false));
      }
      var tag := if t.commitId.Some? then Identified(t.commitId.value) else Untagged;
      reply := WriteTransaction(tag, t.records, io);
    }

    // An identifier already in the log: exact retries are answered, anything else is refused.
    method RetryIdentified(c: u128, records: seq<Record>) returns (reply: Reply)
      requires !poisoned && c in commitIds && c !in ingressIds
      modifies this`poisoned
      ensures var d := DecideIdentified(env, cfg, old(Value()), c, records);
              && (d.Poison? ==> Value() == old(Value()).(journal := old(CurrentJournal()).(poisoned := true)))
              && (!d.Poison? ==> Value() == old(Value()))
              && reply == match d
                          case Refuse(error) => Fail(error)
                          case Poison(error) => Fail(error)
                          case Answer(commit) => Done(commit)
                          case _ => Fail(Serialization)
      ensures var d := DecideIdentified(env, cfg, old(Value()), c, records);
              d.Refuse? || d.Poison? || d.Answer?
    {
      hide EncodeCanonical, IdentifiedMatches, TagBytes;
      var encoded := EncodeCanonical(env, records);
      if encoded.None? {
        return Fail(Serialization);
      }
      if c !in identified {
        return Fail(IngressCommitIdConflict(c));
      }
      var m := MatchIdentified(env, file, identified[c], TagBytes(Identified(c)) + encoded.value);
      match m
      case Same => reply := Done(Commit(|file|, 0, 0, 0, bytesSinceSync == 0, true));
      case Different => reply := Fail(IngressCommitIdConflict(c));
      case Corrupt =>
        poisoned := true;
        reply := Fail(Corruption);
      case Overflow => reply := Fail(Serialization);
    }

    method WriteTransaction(tag: Tag, records: seq<Record>, io: Io) returns (reply: Reply)
      requires Valid() && !poisoned && !tag.Ingress?
      modifies this
      ensures var d := DecideWrite(env, cfg, old(Value()), tag, records);
              (Value(), reply) == Carry(env, cfg, old(Value()), d, io)
    {
      hide HandleInv, EncodeCanonical, PointsOf, TagBytes, Lawful, Carry;
      Refusals(env, cfg, Value(), io);
      var pointCount, _ := LogScan.CountRecords(records);
      if pointCount > cfg.maxBatchPoints {
        return Fail(BatchTooLarge);
      }
      var candidate := env.apply(catalog, records);
      if candidate.None? {
        return Fail(InvalidModel);
      }
      var encoded := EncodeCanonical(env, records);
      if encoded.None? {
        return Fail(Serialization);
      }
      CanonicalSize(env, records);
      var payload := TagBytes(tag) + encoded.value;
      if |payload| > cfg.maxTransactionBytes {
        return Fail(InvalidModel);
      }
      if |payload| > U32_MAX {
        return Fail(Serialization);
      }
      reply := WriteEncoded(tag, records, encoded.value, candidate.value, pointCount, io);
    }

    method WriteEncoded(tag: Tag, records: seq<Record>, canonical: Bytes, candidate: Catalog, pointCount: nat, io: Io)
      returns (reply: Reply)
      requires Valid() && !tag.Ingress? && |records| <= U32_MAX && |TagBytes(tag) + canonical| <= U32_MAX
      requires pointCount == |PointsOf(records)|
      modifies this
      ensures (Value(), reply) == Carry(env, cfg, old(Value()), WriteRecords(tag, records, canonical, candidate), io)
    {
      hide HandleInv, InsertAll, DurableLog.WriteFrame, PointsOf, MetadataCount, TagBytes, Lawful, Carry, Remember, IndexSorted;
      ghost var before := Value();
      ghost var d := WriteRecords(tag, records, canonical, candidate);
      CarryWrite(env, cfg, before, d, io);
      ValidIndex();
      var payload := TagBytes(tag) + canonical;
      var f := Frame(TagKind(tag), |records|, payload);
      var frameOffset := |file|;
      var w := WriteFrame(f, io);
      if w.WriteFailed? {
        return Fail(IoFailed);
      }
      AddRecords(records, candidate);
      if tag.Identified? {
        RememberIdentified(env, before.memory, tag.commitId, records, canonical, candidate, frameOffset);
        StoreIdentified(tag.commitId,
          IdentifiedReceipt(frameOffset + FRAME_HEADER_BYTES, |payload|, env.crc(payload), None,
                            frameOffset, pointCount, |records|, FrameBytes(f)));
      } else {
        RememberUntagged(env, before.memory, records, canonical, candidate, frameOffset);
      }
      reply := Done(Commit(frameOffset, pointCount, |records|, FrameBytes(f), w.durable, false));
    }

    method CommitOrderedIngress(identity: IngressIdentity, t: Transaction, io: Io) returns (reply: Reply)
      requires Valid() && !poisoned && t.ingress == Some(identity)
      modifies this
      ensures (Value(), reply) == Perform(env, cfg, old(Value()), CommitTransaction(t), io)
    {
      hide HandleInv, EncodeCanonical, PointsOf, TagBytes, IngressMatches, Lawful, Carry;
      Refusals(env, cfg, Value(), io);
      if identity.sourceId == 0 {
        return Fail(InvalidArgument);
      }
      var encoded := EncodeCanonical(env, t.records);
      if encoded.None? {
        return Fail(Serialization);
      }
      var canonical := encoded.value;
      CanonicalSize(env, t.records);
      if KeyOf(identity) in ingress {
        reply := RetryIngress(identity, canonical);
        return;
      }
      if identity.commitId in commitIds {
        return Fail(IngressCommitIdConflict(identity.commitId));
      }
      if identity.sourceId in lastSequences && identity.sequence <= lastSequences[identity.sourceId] {
        return Fail(IngressSequenceNotIncreasing(identity.sourceId, lastSequences[identity.sourceId], identity.sequence));
      }
      var pointCount, _ := LogScan.CountRecords(t.records);
      if pointCount > cfg.maxBatchPoints {
        return Fail(BatchTooLarge);
      }
      if INGRESS_IDENTITY_BYTES + |canonical| > cfg.maxTransactionBytes {
        return Fail(InvalidModel);
      }
      var candidate := env.apply(catalog, t.records);
      if candidate.None? {
        return Fail(InvalidModel);
      }
      if INGRESS_IDENTITY_BYTES + |canonical| > U32_MAX {
        return Fail(Serialization);
      }
      TagLength(identity);
      reply := WriteIngress(identity, t.records, canonical, candidate.value, pointCount, io);
    }

    method RetryIngress(identity: IngressIdentity, canonical: Bytes) returns (reply: Reply)
      requires !poisoned && KeyOf(identity) in ingress && |canonical| > 0
      modifies this`poisoned
      ensures var r := old(ingress)[KeyOf(identity)];
              var conflict := IngressSourceSequenceConflict(identity.sourceId, identity.sequence);
              var d := if r.identity.commitId != identity.commitId then Refuse(conflict)
                       else FromMatching(IngressMatches(env, old(file), r, canonical), Answer(Replayed(old(Value()), r)),
                                         conflict);
              && (d.Poison? ==> Value() == old(Value()).(journal := old(CurrentJournal()).(poisoned := true)))
              && (!d.Poison? ==> Value() == old(Value()))
              && reply == match d
                          case Refuse(error) => Fail(error)
                          case Poison(error) => Fail(error)
                          case Answer(commit) => Done(commit)
                          case _ => Fail(Serialization)
    {
      hide IngressMatches;
      var r := ingress[KeyOf(identity)];
      var conflict := Fail(IngressSourceSequenceConflict(identity.sourceId, identity.sequence));
      if r.identity.commitId != identity.commitId {
        return conflict;
      }
      var m := MatchIngress(env, file, r, canonical);
      match m
      case Same =>
        var durable := DurableThrough(durableSequences, r.identity.sourceId, r.identity.sequence);
        reply := Done(Commit(r.frameOffset, r.points, r.records, r.bytesWritten, durable, true));
      case Different => reply := conflict;
      case Corrupt =>
        poisoned := true;
        reply := Fail(Corruption);
      case Overflow => reply := Fail(Serialization);
    }

    method WriteIngress(identity: IngressIdentity, records: seq<Record>, canonical: Bytes, candidate: Catalog,
                        pointCount: nat, io: Io)
      returns (reply: Reply)
      requires Valid() && |records| <= U32_MAX && |TagBytes(Ingress(identity)) + canonical| <= U32_MAX
      requires pointCount == |PointsOf(records)|
      modifies this
      ensures (Value(), reply)
           == Carry(env, cfg, old(Value()), WriteRecords(Ingress(identity), records, canonical, candidate), io)
    {
      hide HandleInv, DurableLog.WriteFrame, PointsOf, TagBytes, Lawful, Carry, Remember, IndexSorted;
      CarryWrite(env, cfg, Value(), WriteRecords(Ingress(identity), records, canonical, candidate), io);
      ValidIndex();
      var f := Frame(KIND_INGRESS, |records|, TagBytes(Ingress(identity)) + canonical);
      var frameOffset := |file|;
      var w := WriteFrame(f, io);
      if w.WriteFailed? {
        return Fail(IoFailed);
      }
      FinishIngress(identity, records, canonical, candidate, pointCount, frameOffset, w.durable);
      reply := Done(Commit(frameOffset, pointCount, |records|, FrameBytes(f), w.durable, false));
    }

    method FinishIngress(identity: IngressIdentity, records: seq<Record>, canonical: Bytes, candidate: Catalog,
                         pointCount: nat, frameOffset: nat, durable: bool)
      requires IndexSorted(index) && |records| <= U32_MAX && |TagBytes(Ingress(identity)) + canonical| <= U32_MAX
      requires pointCount == |PointsOf(records)| && (durable ==> durableSequences == lastSequences)
      modifies this`index, this`catalog, this`commits, this`points, this`catalogRecords,
               this`commitIds, this`ingress, this`ingressIds, this`lastSequences, this`durableSequences
      ensures CurrentMemory() == Remember(env, old(CurrentMemory()),
                                          WriteRecords(Ingress(identity), records, canonical, candidate), frameOffset)
      ensures durableSequences == if durable then lastSequences else old(durableSequences)
    {
      hide InsertAll, PointsOf, MetadataCount, TagBytes, Remember, IndexSorted;
      RememberIngress(env, CurrentMemory(), identity, records, canonical, candidate, frameOffset);
      AddRecords(records, candidate);
      StoreIngress(
        IngressReceipt(identity, frameOffset + FRAME_HEADER_BYTES + INGRESS_IDENTITY_BYTES, |canonical|,
                       env.crc(canonical), None, frameOffset, pointCount, |records|,
                       FRAME_HEADER_BYTES + INGRESS_IDENTITY_BYTES + |canonical|),
        durable);
    }

    method CommitRecords(t: Transaction, io: Io) returns (reply: Reply)
      requires Valid()
      modifies this
      ensures Valid()
      ensures (Value(), reply) == Perform(env, cfg, old(Value()), CommitTransaction(t), io)
    {
      hide HandleInv, Lawful, Carry;
      PerformKeeps(env, cfg, seals, Value(), CommitTransaction(t), io);
      Refusals(env, cfg, Value(), io);
      if poisoned {
        reply := Fail(Poisoned);
      } else if t.ingress.Some? {
        reply := CommitOrderedIngress(t.ingress.value, t, io);
      } else {
        reply := CommitPlain(t, io);
      }
    }

    method Flush(io: Io) returns (ok: bool)
      requires Valid()
      modifies this`bytesSinceSync, this`poisoned, this`durableSequences, this`synced
      ensures Valid()
      ensures (Value(), ok) == FlushHandle(old(Value()), io)
    {
      hide HandleInv;
      FlushHandleKeeps(env, cfg, seals, Value(), io);
      if poisoned {
        return false;
      }
      if !io.syncOk {
        poisoned := true;
        return false;
      }
      bytesSinceSync := 0;
      synced := |log|;
      durableSequences := lastSequences;
      ok := true;
    }

    // Written after its segment and before the manifest names the segment.
    method WriteSealCheckpoint(generation: u64, pointCount: u64, io: Io, flush: Io) returns (ok: bool)
      requires Valid() && CheckpointAllowed(seals, Value(), generation, pointCount)
      modifies this
      ensures Valid()
      ensures (Value(), ok) == Checkpoint(env, cfg, old(Value()), generation, pointCount, io, flush)
    {
      hide HandleInv, DurableLog.WriteFrame, CheckpointFrame, Lawful;
      CheckpointKeeps(env, cfg, seals, Value(), generation, pointCount, io, flush);
      if poisoned {
        return false;
      }
      var f := CheckpointFrame(generation, pointCount);
      label before:
      var w := WriteFrame(f, io);
      if w.WriteFailed? {
        return false;
      }
      ok := FinishCheckpoint(f, w.durable, flush, old@before(log), old@before(synced));
    }

    // The flush after a checkpoint frame; a frame whose flush fails counts as not applied.
    method FinishCheckpoint(f: Frame, durable: bool, flush: Io, ghost before: seq<Frame>, ghost syncedBefore: nat)
      returns (ok: bool)
      modifies this`poisoned, this`bytesSinceSync, this`durableSequences, this`commits, this`log, this`torn, this`synced
      ensures ok == flush.syncOk
      ensures ok ==> CurrentJournal() == FlushJournal(old(CurrentJournal()), flush)
      ensures !ok ==> CurrentJournal() == old(CurrentJournal()).(poisoned := true, log := before, torn := Some(f),
                                            synced := if durable then |before| else syncedBefore)
      ensures commits == old(commits) + (if ok then 1 else 0)
      ensures durableSequences == if ok then lastSequences else old(durableSequences)
    {
      if !flush.syncOk {
        poisoned := true;
        log, torn, synced := before, Some(f), if durable then |before| else syncedBefore;
        return false;
      }
      bytesSinceSync := 0;
      synced := |log|;
      durableSequences := lastSequences;
      commits := commits + 1;
      ok := true;
    }
  }

  datatype OpenResult = Opened(db: Database) | OpenFailed(error: OpenError)
  datatype OpenError = RefusedHeader(why: HeaderFault) | CorruptLog(offset: nat, fault: Fault) | SyncFailed

  /**
  Opening any bytes at all. An empty file gets its header first. Damage is reported;
  otherwise an incomplete last frame is dropped, the rest is synced, and the handle
  holds exactly what the scanned frames load, all of it durable.
  */
  method OpenFile(env: Env, cfg: Config, seals: set<u64>, image: Bytes, syncOk: bool) returns (r: OpenResult)
    requires Lawful(env) && ValidConfig(cfg)
    ensures var format := LogFormat(env, cfg);
            var bytes := if image == [] then DatabaseHeader(format) else image;
            if !DatabaseHeaderOk(format, bytes) then r == OpenFailed(RefusedHeader(HeaderFaultOf(format, bytes).value))
            else
              var found := ScanFile(LogSemantics(env, cfg, seals), bytes);
              if found.stop.Damaged? then r == OpenFailed(CorruptLog(found.offset, found.stop.fault))
              else if !syncOk then r == OpenFailed(SyncFailed)
              else
                && r.Opened? && fresh(r.db) && r.db.Valid() && r.db.env == env && r.db.cfg == cfg && r.db.seals == seals
                && r.db.file == bytes[..found.offset]
                && r.db.CurrentMemory() == Load(found.state)
                && r.db.durableSequences == found.state.ids.lastSequences
                && r.db.synced == |r.db.log| && !r.db.poisoned
  {
    hide ScanFile, Lawful, DatabaseHeaderOk, HeaderFaultOf, HandleInv, IndexOf, DatabaseHeader;
    var format := LogFormat(env, cfg);
    var bytes := if image == [] then DatabaseHeader(format) else image;
    var scan := new LogScan.Scan(env, cfg, seals);
    var report := scan.Run(bytes, false);
    if report.BadHeader? {
      return OpenFailed(RefusedHeader(report.why));
    }
    if report.Corrupt? {
      return OpenFailed(CorruptLog(report.offset, report.fault));
    }
    if !syncOk {
      return OpenFailed(SyncFailed);
    }
    ghost var st := ScanFile(LogSemantics(env, cfg, seals), bytes).state;
    ghost var frames := ScannedFrames(env, cfg, seals, bytes);
    var db := new Database.Scanned(env, cfg, seals, bytes[..report.validatedBytes], scan, st, frames);
    r := Opened(db);
  }

  // The frames a scan accepted, of which the kept bytes are exactly the encoding.
  lemma ScannedFrames(env: Env, cfg: Config, seals: set<u64>, bytes: Bytes) returns (frames: seq<Frame>)
    requires DatabaseHeaderOk(LogFormat(env, cfg), bytes)
    ensures var found := ScanFile(LogSemantics(env, cfg, seals), bytes);
            && Sound(LogSemantics(env, cfg, seals), frames)
            && Replay(LogSemantics(env, cfg, seals), frames) == Some(found.state)
            && bytes[..found.offset] == LogFile(LogFormat(env, cfg), frames)
  {
    hide DatabaseHeaderOk, DatabaseHeader, FramedLog.Scan, Replay, LogBytes;
    var sem := LogSemantics(env, cfg, seals);
    LogScan.HeaderFits(sem.format, bytes);
    HeaderIsCanonical(sem.format, bytes);
    EncodeLogLength(sem.format, []);
    EmptyLog(sem);
    assert LogFile(sem.format, []) == DatabaseHeader(sem.format);
    assert bytes == LogFile(sem.format, []) + bytes[DATABASE_HEADER_BYTES..];
    frames := ScanReadsALog(sem, bytes, []);
    EncodeLogLength(sem.format, frames);
  }

  lemma EmptyLog<S>(sem: Semantics<S>)
    ensures Replay(sem, []) == Some(sem.initial) && EndOffset([]) == DATABASE_HEADER_BYTES
  {
  }

  // Decisions that write nothing.
  lemma Refusals(env: Env, cfg: Config, db: Handle, io: Io)
    ensures forall error :: Carry(env, cfg, db, Refuse(error), io) == (db, Fail(error))
    ensures forall error :: Carry(env, cfg, db, Poison(error), io)
                         == (db.(journal := db.journal.(poisoned := true)), Fail(error))
    ensures forall commit :: Carry(env, cfg, db, Answer(commit), io) == (db, Done(commit))
  {
  }

  lemma TagLength(identity: IngressIdentity)
    ensures |TagBytes(Ingress(identity))| == INGRESS_IDENTITY_BYTES
  {
  }

  lemma CanonicalSize(env: Env, records: seq<Record>)
    ensures var encoded := EncodeCanonical(env, records);
            encoded.Some? ==> |records| <= U32_MAX && |encoded.value| >= TRANSACTION_HEADER_BYTES
  {
  }
}

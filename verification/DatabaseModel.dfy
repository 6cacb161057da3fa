/**
The writer handle over `active.wlog` as a state machine.

A handle is a journal, the state loaded from it, and the durable watermarks. Every
call decides from that state alone (`Decide`) whether to refuse, answer without
writing, or write one frame; the operating system's answers arrive as `Io` values.
`HandleInv` ties memory to the log and the watermarks to the synced prefix, and
`HandleRunKeeps` carries it through every run of calls, failures and crashes.
*/
module DatabaseModel {
  import opened ByteCodec
  import opened Model
  import opened PointCodec
  import opened TransactionCodec
  import opened LogFrame
  import opened FramedLog
  import opened DurableLog
  import opened StorageLog
  import opened PointIndex
  import opened Receipts
  import ExactlyOnce

  // What a handle keeps in memory besides the journal.
  datatype Memory = Memory(
    index: Index,
    points: nat,
    catalog: Catalog,
    ids: Identities,
    commits: nat,
    catalogRecords: nat,
    pendingReclaim: bool)

  datatype Handle = Handle(journal: Journal, memory: Memory, durable: map<u128, u64>)

  datatype Error =
    | Poisoned
    | BatchTooLarge
    | InvalidModel
    | InvalidArgument
    | Serialization
    | IoFailed
    | Corruption
    | IngressCommitIdConflict(commitId: u128)
    | IngressSourceSequenceConflict(sourceId: u128, sequence: u64)
    | IngressSequenceNotIncreasing(sourceId: u128, previous: u64, actual: u64)

  datatype Commit = Commit(
    frameOffset: nat, points: nat, records: nat, bytesWritten: nat, durable: bool, deduplicated: bool)

  datatype Reply = Done(commit: Commit) | Fail(error: Error)

  // What recovery loads from a replayed log.
  function Load(st: LogState): Memory {
    Memory(IndexOf(st.live), |st.live|, st.catalog, st.ids, st.commits, st.catalogRecords, st.pendingReclaim)
  }

  ghost predicate HandleInv(env: Env, cfg: Config, seals: set<u64>, db: Handle) {
    var sem := LogSemantics(env, cfg, seals);
    var j := db.journal;
    && Inv(sem, cfg.durability, j)
    && Replay(sem, j.log).Some? && Replay(sem, j.log[..j.synced]).Some?
    && db.memory == Load(Replay(sem, j.log).value)
    && db.durable == Replay(sem, j.log[..j.synced]).value.ids.lastSequences
  }

  // ---- Deciding ----

  datatype Call = Append(points: seq<Point>) | CommitTransaction(transaction: Transaction)

  datatype Decision =
    | Refuse(error: Error)
    | Poison(error: Error)
    | Answer(commit: Commit)
    | WritePoints(points: seq<Point>)
    | WriteRecords(tag: Tag, records: seq<Record>, canonical: Bytes, catalog: Catalog)

  // The reply to a call that needs no frame.
  function NothingWritten(db: Handle, deduplicated: bool): Commit {
    Commit(|db.journal.file|, 0, 0, 0, db.journal.dirty == 0, deduplicated)
  }

  function DecideAppend(cfg: Config, db: Handle, points: seq<Point>): Decision {
    if |points| > cfg.maxBatchPoints then Refuse(BatchTooLarge)
    else if !PointsOk(points) then Refuse(InvalidModel)
    else if points == [] then Answer(NothingWritten(db, false))
    else if |points| * POINT_BYTES > U32_MAX then Refuse(BatchTooLarge)
    else WritePoints(points)
  }

  function FromMatching(m: Matching, same: Decision, different: Error): Decision {
    match m
    case Same => same
    case Different => Refuse(different)
    case Corrupt => Poison(Corruption)
    case Overflow => Refuse(Serialization)
  }

  // Size, catalog and encoding checks in the order of the plain and identified path.
  function DecideWrite(env: Env, cfg: Config, db: Handle, tag: Tag, records: seq<Record>): Decision {
    if |PointsOf(records)| > cfg.maxBatchPoints then Refuse(BatchTooLarge)
    else match env.apply(db.memory.catalog, records)
      case None => Refuse(InvalidModel)
      case Some(catalog) =>
        match EncodeCanonical(env, records)
        case None => Refuse(Serialization)
        case Some(canonical) =>
          if |TagBytes(tag) + canonical| > cfg.maxTransactionBytes then Refuse(InvalidModel)
          else if |TagBytes(tag) + canonical| > U32_MAX then Refuse(Serialization)
          else WriteRecords(tag, records, canonical, catalog)
  }

  function DecideIdentified(env: Env, cfg: Config, db: Handle, c: u128, records: seq<Record>): Decision {
    var ids := db.memory.ids;
    if c in ids.ingressIds then Refuse(IngressCommitIdConflict(c))
    else if c in ids.commitIds then
      match EncodeCanonical(env, records)
      case None => Refuse(Serialization)
      case Some(canonical) =>
        if c in ids.identified then
          FromMatching(
            IdentifiedMatches(env, db.journal.file, ids.identified[c], TagBytes(Identified(c)) + canonical),
            Answer(NothingWritten(db, true)), IngressCommitIdConflict(c))
        else Refuse(IngressCommitIdConflict(c))
    else if records == [] then Answer(NothingWritten(db, false))
    else DecideWrite(env, cfg, db, Identified(c), records)
  }

  function DurableThrough(durable: map<u128, u64>, source: u128, sequence: u64): bool {
    source in durable && durable[source] >= sequence
  }

  // The original receipt, reported again for an exact retry.
  function Replayed(db: Handle, r: IngressReceipt): Commit {
    Commit(r.frameOffset, r.points, r.records, r.bytesWritten,
           DurableThrough(db.durable, r.identity.sourceId, r.identity.sequence), true)
  }

  function DecideIngress(env: Env, cfg: Config, db: Handle, identity: IngressIdentity, records: seq<Record>): Decision {
    var ids := db.memory.ids;
    var key := KeyOf(identity);
    if identity.sourceId == 0 then Refuse(InvalidArgument)
    else match EncodeCanonical(env, records)
      case None => Refuse(Serialization)
      case Some(canonical) =>
        if key in ids.ingress then
          var r := ids.ingress[key];
          var conflict := IngressSourceSequenceConflict(identity.sourceId, identity.sequence);
          if r.identity.commitId != identity.commitId then Refuse(conflict)
          else FromMatching(IngressMatches(env, db.journal.file, r, canonical), Answer(Replayed(db, r)), conflict)
        else if identity.commitId in ids.commitIds then Refuse(IngressCommitIdConflict(identity.commitId))
        else if identity.sourceId in ids.lastSequences && identity.sequence <= ids.lastSequences[identity.sourceId]
        then Refuse(IngressSequenceNotIncreasing(
                      identity.sourceId, ids.lastSequences[identity.sourceId], identity.sequence))
        else if |PointsOf(records)| > cfg.maxBatchPoints then Refuse(BatchTooLarge)
        else if INGRESS_IDENTITY_BYTES + |canonical| > cfg.maxTransactionBytes then Refuse(InvalidModel)
        else match env.apply(db.memory.catalog, records)
          case None => Refuse(InvalidModel)
          case Some(catalog) =>
            if INGRESS_IDENTITY_BYTES + |canonical| > U32_MAX then Refuse(Serialization)
            else WriteRecords(Ingress(identity), records, canonical, catalog)
  }

  function Decide(env: Env, cfg: Config, db: Handle, call: Call): Decision {
    if db.journal.poisoned then Refuse(Poisoned)
    else match call
      case Append(points) => DecideAppend(cfg, db, points)
      case CommitTransaction(t) =>
        if t.ingress.Some? then DecideIngress(env, cfg, db, t.ingress.value, t.records)
        else if t.commitId.Some? then DecideIdentified(env, cfg, db, t.commitId.value, t.records)
        else if t.records == [] then Answer(NothingWritten(db, false))
        else DecideWrite(env, cfg, db, Untagged, t.records)
  }

  // ---- Performing ----

  predicate Writes(d: Decision) {
    || (d.WritePoints? && |d.points| * POINT_BYTES <= U32_MAX)
    || (d.WriteRecords? && |d.records| <= U32_MAX && |TagBytes(d.tag) + d.canonical| <= U32_MAX)
  }

  function FrameOf(d: Decision): (f: Frame)
    requires Writes(d)
    ensures FrameFits(f)
  {
    if d.WritePoints? then PointsRoundTrip(d.points); PointsFrame(d.points)
    else TaggedFrame(d.tag, d.records, d.canonical)
  }

  // Memory after the frame was written: the updates each path makes once the write returned.
  function Remember(env: Env, m: Memory, d: Decision, offset: nat): Memory
    requires Writes(d)
  {
    if d.WritePoints? then
      m.(index := InsertAll(m.index, d.points), points := m.points + |d.points|, commits := m.commits + 1)
    else
      var points := PointsOf(d.records);
      Memory(InsertAll(m.index, points), m.points + |points|, d.catalog,
             RecordTag(env, m.ids, d.tag, TagBytes(d.tag) + d.canonical, d.records, offset),
             m.commits + 1, m.catalogRecords + MetadataCount(d.records), m.pendingReclaim)
  }

  function Written(d: Decision, offset: nat, durable: bool): Commit
    requires Writes(d)
  {
    var bytes := FrameBytes(FrameOf(d));
    if d.WritePoints? then Commit(offset, |d.points|, 1, bytes, durable, false)
    else Commit(offset, |PointsOf(d.records)|, |d.records|, bytes, durable, false)
  }

  // Carrying out a decision.
  function Carry(env: Env, cfg: Config, db: Handle, d: Decision, io: Io): (Handle, Reply) {
    match d
    case Refuse(error) => (db, Fail(error))
    case Poison(error) => (db.(journal := db.journal.(poisoned := true)), Fail(error))
    case Answer(commit) => (db, Done(commit))
    case _ =>
      if !Writes(d) then (db, Fail(Serialization))
      else
        var offset := |db.journal.file|;
        var (j, w) := WriteFrame(LogFormat(env, cfg), cfg.durability, db.journal, FrameOf(d), io);
        match w
        case WriteFailed => (db.(journal := j), Fail(IoFailed))
        case Accepted(durable) =>
          var memory := Remember(env, db.memory, d, offset);
          (Handle(j, memory, if durable then memory.ids.lastSequences else db.durable),
           Done(Written(d, offset, durable)))
  }

  function Perform(env: Env, cfg: Config, db: Handle, call: Call, io: Io): (Handle, Reply) {
    Carry(env, cfg, db, Decide(env, cfg, db, call), io)
  }

  lemma CarryWrite(env: Env, cfg: Config, db: Handle, d: Decision, io: Io)
    requires Writes(d)
    ensures var (j, w) := WriteFrame(LogFormat(env, cfg), cfg.durability, db.journal, FrameOf(d), io);
            && (w.WriteFailed? ==> Carry(env, cfg, db, d, io) == (db.(journal := j), Fail(IoFailed)))
            && (w.Accepted? ==>
                  var memory := Remember(env, db.memory, d, |db.journal.file|);
                  Carry(env, cfg, db, d, io)
                  == (Handle(j, memory, if w.durable then memory.ids.lastSequences else db.durable),
                      Done(Written(d, |db.journal.file|, w.durable))))
  {
    hide WriteFrame, Remember, FrameOf, Written;
  }

  lemma RememberPoints(env: Env, m: Memory, points: seq<Point>, offset: nat)
    requires Writes(WritePoints(points))
    ensures Remember(env, m, WritePoints(points), offset)
         == Memory(InsertAll(m.index, points), m.points + |points|, m.catalog, m.ids, m.commits + 1, m.catalogRecords,
                   m.pendingReclaim)
  {
  }

  lemma RememberUntagged(env: Env, m: Memory, records: seq<Record>, canonical: Bytes, catalog: Catalog, offset: nat)
    requires Writes(WriteRecords(Untagged, records, canonical, catalog))
    ensures Remember(env, m, WriteRecords(Untagged, records, canonical, catalog), offset)
         == Memory(InsertAll(m.index, PointsOf(records)), m.points + |PointsOf(records)|, catalog, m.ids,
                   m.commits + 1, m.catalogRecords + MetadataCount(records), m.pendingReclaim)
  {
  }

  lemma RememberIdentified(env: Env, m: Memory, c: u128, records: seq<Record>, canonical: Bytes, catalog: Catalog, offset: nat)
    requires Writes(WriteRecords(Identified(c), records, canonical, catalog))
    ensures var payload := TagBytes(Identified(c)) + canonical;
            && Remember(env, m, WriteRecords(Identified(c), records, canonical, catalog), offset)
            == Memory(InsertAll(m.index, PointsOf(records)), m.points + |PointsOf(records)|, catalog,
                      RecordIdentified(m.ids, c,
                        IdentifiedReceipt(offset + FRAME_HEADER_BYTES, |payload|, env.crc(payload), None,
                                          offset, |PointsOf(records)|, |records|, FRAME_HEADER_BYTES + |payload|)),
                      m.commits + 1, m.catalogRecords + MetadataCount(records), m.pendingReclaim)
  {
    hide TagBytes, InsertAll, PointsOf, MetadataCount;
  }

  lemma RememberIngress(env: Env, m: Memory, identity: IngressIdentity, records: seq<Record>, canonical: Bytes,
                        catalog: Catalog, offset: nat)
    requires Writes(WriteRecords(Ingress(identity), records, canonical, catalog))
    ensures var bytes := FRAME_HEADER_BYTES + INGRESS_IDENTITY_BYTES + |canonical|;
            && Remember(env, m, WriteRecords(Ingress(identity), records, canonical, catalog), offset)
            == Memory(InsertAll(m.index, PointsOf(records)), m.points + |PointsOf(records)|, catalog,
                      RecordIngress(m.ids,
                        IngressReceipt(identity, offset + FRAME_HEADER_BYTES + INGRESS_IDENTITY_BYTES, |canonical|,
                                       env.crc(canonical), None, offset, |PointsOf(records)|, |records|, bytes)),
                      m.commits + 1, m.catalogRecords + MetadataCount(records), m.pendingReclaim)
  {
    hide LE, InsertAll, PointsOf, MetadataCount, RecordIngress;
    var tag := TagBytes(Ingress(identity));
    assert (tag + canonical)[|tag|..] == canonical;
  }

  function FlushHandle(db: Handle, io: Io): (Handle, bool) {
    if db.journal.poisoned then (db, false)
    else
      (db.(journal := FlushJournal(db.journal, io),
           durable := if io.syncOk then db.memory.ids.lastSequences else db.durable),
       io.syncOk)
  }

  function CheckpointFrame(generation: u64, points: u64): (f: Frame)
    ensures FrameFits(f)
  {
    Frame(KIND_SEAL_CHECKPOINT, 0, LE(generation, 8) + LE(points, 8))
  }

  // A checkpoint is written and then flushed; if the flush fails it counts as not applied.
  function Checkpoint(env: Env, cfg: Config, db: Handle, generation: u64, points: u64, io: Io, flush: Io): (Handle, bool) {
    if db.journal.poisoned then (db, false)
    else
      var f := CheckpointFrame(generation, points);
      var (j, w) := WriteFrame(LogFormat(env, cfg), cfg.durability, db.journal, f, io);
      match w
      case WriteFailed => (db.(journal := j), false)
      case Accepted(durable) =>
        if flush.syncOk then
          (Handle(FlushJournal(j, flush), db.memory.(commits := db.memory.commits + 1), db.memory.ids.lastSequences), true)
        else
          var synced := if durable then |db.journal.log| else db.journal.synced;
          (Handle(j.(poisoned := true, log := db.journal.log, torn := Some(f), synced := synced),
                  db.memory,
                  if durable then db.memory.ids.lastSequences else db.durable), false)
  }

  ghost function ReopenHandle(env: Env, cfg: Config, seals: set<u64>, db: Handle, cut: nat, io: Io): Handle
    requires cut <= |db.journal.file| && DatabaseHeaderOk(LogFormat(env, cfg), db.journal.file[..cut])
  {
    var sem := LogSemantics(env, cfg, seals);
    var found := ScanFile(sem, db.journal.file[..cut]).state;
    Handle(Reopen(sem, db.journal, cut, io), Load(found), if io.syncOk then found.ids.lastSequences else db.durable)
  }

  // ---- A decided frame is one the reader accepts ----

  // A transaction decided for writing passed every check of the reader.
  ghost predicate Vetted(env: Env, cfg: Config, st: LogState, d: Decision) {
    && Writes(d)
    && (d.WritePoints? ==> |d.points| <= cfg.maxBatchPoints && PointsOk(d.points))
    && (d.WriteRecords? ==>
          && EncodeCanonical(env, d.records) == Some(d.canonical)
          && TagRefusal(st.ids, d.tag).None?
          && |TagBytes(d.tag) + d.canonical| <= cfg.maxTransactionBytes
          && env.apply(st.catalog, d.records) == Some(d.catalog)
          && |PointsOf(d.records)| <= cfg.maxBatchPoints)
  }

  lemma DecisionVetted(env: Env, cfg: Config, db: Handle, call: Call, st: LogState)
    requires db.memory == Load(st)
    ensures var d := Decide(env, cfg, db, call);
            d.WritePoints? || d.WriteRecords? ==> Vetted(env, cfg, st, d)
  {
    hide IdentifiedMatches, IngressMatches, PointsOf, EncodeRecords, LE, IndexOf;
  }

  lemma VettedFrameApplies(env: Env, cfg: Config, seals: set<u64>, st: LogState, d: Decision, offset: nat)
    requires Lawful(env) && Vetted(env, cfg, st, d)
    ensures var r := ApplyFrame(env, cfg, seals, st, FrameOf(d), offset);
            && Admissible(LogFormat(env, cfg), FrameOf(d))
            && r.Accept?
            && Load(r.value) == Remember(env, Load(st), d, offset)
  {
    hide PointsOf, EncodeCanonical, IndexOf, InsertAll, RecordTag, TagBytes, EncodePoints, ApplyFrame, Lawful,
      Admissible, TagRefusal;
    if d.WritePoints? {
      PointsFrameApplies(env, cfg, seals, st, d.points, offset);
      InsertAllIndexes(st.live, d.points);
      PointsAdmissible(env, cfg, d.points);
    } else {
      TaggedFrameApplies(env, cfg, seals, st, d.tag, d.records, d.catalog, offset);
      InsertAllIndexes(st.live, PointsOf(d.records));
      VettedAdmissible(env, cfg, st, d);
    }
  }

  lemma PointsAdmissible(env: Env, cfg: Config, points: seq<Point>)
    requires Writes(WritePoints(points)) && |points| <= cfg.maxBatchPoints
    ensures Admissible(LogFormat(env, cfg), FrameOf(WritePoints(points)))
  {
    hide EncodePoints;
    PointsRoundTrip(points);
  }

  lemma VettedAdmissible(env: Env, cfg: Config, st: LogState, d: Decision)
    requires Vetted(env, cfg, st, d) && d.WriteRecords?
    ensures Admissible(LogFormat(env, cfg), FrameOf(d))
  {
    hide PointsOf, EncodeCanonical, LE;
  }

  // ---- Every call keeps the invariant ----

  lemma ReplaySnoc(env: Env, cfg: Config, seals: set<u64>, log: seq<Frame>, f: Frame, st: LogState, next: LogState)
    requires AllAdmissible(LogFormat(env, cfg), log) && Admissible(LogFormat(env, cfg), f)
    requires Replay(LogSemantics(env, cfg, seals), log) == Some(st)
    requires ApplyFrame(env, cfg, seals, st, f, EndOffset(log)) == Accept(next)
    ensures Replay(LogSemantics(env, cfg, seals), log + [f]) == Some(next)
  {
    hide ApplyFrame, Admissible, LogBytes;
    LogSnoc(LogSemantics(env, cfg, seals), log, f);
    assert LogSemantics(env, cfg, seals).apply(st, f, EndOffset(log)) == ApplyFrame(env, cfg, seals, st, f, EndOffset(log));
  }

  lemma HandleFile(env: Env, cfg: Config, seals: set<u64>, db: Handle)
    requires HandleInv(env, cfg, seals, db) && !db.journal.poisoned
    ensures AllAdmissible(LogFormat(env, cfg), db.journal.log)
    ensures db.journal.file == LogFile(LogFormat(env, cfg), db.journal.log)
    ensures |db.journal.file| == EndOffset(db.journal.log)
  {
    hide Replay, LogBytes;
    EncodeLogLength(LogFormat(env, cfg), db.journal.log);
  }

  /**
  One call: the invariant is kept, a failed or answered call changes no applied frame
  and nothing in memory, and a commit reported durable has every applied frame synced.
  */
  lemma PerformKeeps(env: Env, cfg: Config, seals: set<u64>, db: Handle, call: Call, io: Io)
    requires Lawful(env) && ValidConfig(cfg) && HandleInv(env, cfg, seals, db)
    ensures var (after, reply) := Perform(env, cfg, db, call, io);
            && HandleInv(env, cfg, seals, after)
            && db.journal.synced <= after.journal.synced
            && db.journal.log[..db.journal.synced] <= after.journal.log[..after.journal.synced]
            && (reply.Fail? ==>
                  after.journal.log == db.journal.log && after.memory == db.memory && after.durable == db.durable)
            && (reply.Done? && reply.commit.bytesWritten == 0 ==> after == db)
  {
    hide Replay, LogBytes, Inv, ApplyFrame, Decide, Remember, WriteFrame, Vetted, FrameOf, Load;
    var sem := LogSemantics(env, cfg, seals);
    var d := Decide(env, cfg, db, call);
    var st := Replay(sem, db.journal.log).value;
    var (after, reply) := Perform(env, cfg, db, call, io);
    JournalParts(env, cfg, seals, db);
    if d.Poison? {
      assert Inv(sem, cfg.durability, after.journal) by { PoisonKeepsInv(sem, cfg.durability, db.journal); }
    } else if d.WritePoints? || d.WriteRecords? {
      DecisionVetted(env, cfg, db, call, st);
      DecidedUnpoisoned(env, cfg, db, call);
      assert Writes(d) by { VettedWrites(env, cfg, st, d); }
      WriteKeeps(env, cfg, seals, db, d, io);
      var (j, w) := WriteFrame(LogFormat(env, cfg), cfg.durability, db.journal, FrameOf(d), io);
      if w.WriteFailed? {
        assert after == db.(journal := j);
      } else {
        var memory := Remember(env, db.memory, d, |db.journal.file|);
        assert after == Handle(j, memory, if w.durable then memory.ids.lastSequences else db.durable);
      }
    } else {
      AnswerOrRefuse(env, cfg, db, call);
    }
  }

  lemma JournalParts(env: Env, cfg: Config, seals: set<u64>, db: Handle)
    requires HandleInv(env, cfg, seals, db)
    ensures db.journal.synced <= |db.journal.log|
  {
  }

  lemma VettedWrites(env: Env, cfg: Config, st: LogState, d: Decision)
    requires Vetted(env, cfg, st, d)
    ensures Writes(d)
  {
  }

  lemma DecidedUnpoisoned(env: Env, cfg: Config, db: Handle, call: Call)
    requires Decide(env, cfg, db, call).WritePoints? || Decide(env, cfg, db, call).WriteRecords?
    ensures !db.journal.poisoned
  {
  }

  lemma PoisonKeepsInv<S>(sem: Semantics<S>, durability: Durability, j: Journal)
    requires Inv(sem, durability, j)
    ensures Inv(sem, durability, j.(poisoned := true))
  {
    hide Replay, LogBytes, LogFile;
    assert Frames(j.(poisoned := true)) == Frames(j);
  }

  lemma AnswerOrRefuse(env: Env, cfg: Config, db: Handle, call: Call)
    requires var d := Decide(env, cfg, db, call); d.Refuse? || d.Answer?
    ensures forall io :: Perform(env, cfg, db, call, io).0 == db
  {
    hide Decide;
  }

  // The write itself, once decided.
  lemma WriteKeeps(env: Env, cfg: Config, seals: set<u64>, db: Handle, d: Decision, io: Io)
    requires Lawful(env) && ValidConfig(cfg) && HandleInv(env, cfg, seals, db) && !db.journal.poisoned
    requires Replay(LogSemantics(env, cfg, seals), db.journal.log).Some?
    requires Vetted(env, cfg, Replay(LogSemantics(env, cfg, seals), db.journal.log).value, d) && Writes(d)
    ensures var (j, w) := WriteFrame(LogFormat(env, cfg), cfg.durability, db.journal, FrameOf(d), io);
            var memory := Remember(env, db.memory, d, |db.journal.file|);
            && db.journal.synced <= j.synced
            && db.journal.log[..db.journal.synced] <= j.log[..j.synced]
            && (w.WriteFailed? ==> HandleInv(env, cfg, seals, db.(journal := j)) && j.log == db.journal.log)
            && (w.Accepted? ==>
                  && j.log == db.journal.log + [FrameOf(d)]
                  && HandleInv(env, cfg, seals,
                       Handle(j, memory, if w.durable then memory.ids.lastSequences else db.durable)))
  {
    hide Replay, LogBytes, ApplyFrame, Remember, WriteFrame, Vetted, FrameOf, Load, Admissible, Inv;
    var sem := LogSemantics(env, cfg, seals);
    var log, f := db.journal.log, FrameOf(d);
    var st := Replay(sem, log).value;
    JournalParts(env, cfg, seals, db);
    HandleFile(env, cfg, seals, db);
    VettedFrameApplies(env, cfg, seals, st, d, EndOffset(log));
    var next := ApplyFrame(env, cfg, seals, st, f, EndOffset(log)).value;
    ReplaySnoc(env, cfg, seals, log, f, st, next);
    assert sem.apply(st, f, EndOffset(log)) == ApplyFrame(env, cfg, seals, st, f, EndOffset(log));
    WriteFrameKeeps(sem, cfg.durability, db.journal, f, io);
    LoadedIds(next);
    assert (log + [f])[..|log| + 1] == log + [f];
    assert (log + [f])[..db.journal.synced] == log[..db.journal.synced];
  }

  lemma LoadedIds(st: LogState)
    ensures Load(st).ids == st.ids && Load(st).points == |st.live|
  {
  }

  lemma FlushHandleKeeps(env: Env, cfg: Config, seals: set<u64>, db: Handle, io: Io)
    requires ValidConfig(cfg) && HandleInv(env, cfg, seals, db)
    ensures var (after, ok) := FlushHandle(db, io);
            && HandleInv(env, cfg, seals, after)
            && db.journal.synced <= after.journal.synced
            && db.journal.log == after.journal.log && db.memory == after.memory
            && (ok ==> after.journal.synced == |after.journal.log|)
  {
    hide Replay, LogBytes, Load, Inv;
    var log := db.journal.log;
    JournalParts(env, cfg, seals, db);
    if !db.journal.poisoned {
      FlushKeeps(LogSemantics(env, cfg, seals), cfg.durability, db.journal, io);
      assert log[..|log|] == log;
      LoadedIds(Replay(LogSemantics(env, cfg, seals), log).value);
    }
  }

  // The store writes a checkpoint for a generation it has not published, over all live points.
  ghost predicate CheckpointAllowed(seals: set<u64>, db: Handle, generation: u64, points: u64) {
    generation != 0 && generation !in seals && points == db.memory.points
  }

  lemma CheckpointApplies(env: Env, cfg: Config, seals: set<u64>, st: LogState, generation: u64, points: u64, offset: nat)
    requires generation != 0 && generation !in seals && points == |st.live|
    ensures Admissible(LogFormat(env, cfg), CheckpointFrame(generation, points))
    ensures ApplyFrame(env, cfg, seals, st, CheckpointFrame(generation, points), offset)
         == Accept(st.(commits := st.commits + 1))
  {
    hide LE, FromLE;
    var payload := LE(generation, 8) + LE(points, 8);
    Pow256Values();
    FromLEOfLE(generation, 8);
    FromLEOfLE(points, 8);
    assert payload[0..8] == LE(generation, 8);
    assert payload[8..16] == LE(points, 8);
  }

  lemma CheckpointKeeps(env: Env, cfg: Config, seals: set<u64>, db: Handle, generation: u64, points: u64, io: Io, flush: Io)
    requires ValidConfig(cfg) && HandleInv(env, cfg, seals, db)
    requires CheckpointAllowed(seals, db, generation, points)
    ensures var (after, ok) := Checkpoint(env, cfg, db, generation, points, io, flush);
            && HandleInv(env, cfg, seals, after)
            && db.journal.synced <= after.journal.synced
            && db.journal.log[..db.journal.synced] <= after.journal.log[..after.journal.synced]
            && (ok ==> after.journal.log == db.journal.log + [CheckpointFrame(generation, points)])
            && (ok ==> after.journal.synced == |after.journal.log|)
            && (!ok ==> after.journal.log == db.journal.log && after.memory == db.memory)
  {
    hide Replay, LogBytes, ApplyFrame, WriteFrame, Load, Admissible, Inv, CheckpointFrame;
    JournalParts(env, cfg, seals, db);
    if !db.journal.poisoned {
      var sem := LogSemantics(env, cfg, seals);
      var log, f := db.journal.log, CheckpointFrame(generation, points);
      var st := Replay(sem, log).value;
      LoadedIds(st);
      HandleFile(env, cfg, seals, db);
      CheckpointApplies(env, cfg, seals, st, generation, points, EndOffset(log));
      var next := st.(commits := st.commits + 1);
      ReplaySnoc(env, cfg, seals, log, f, st, next);
      assert sem.apply(st, f, EndOffset(log)) == ApplyFrame(env, cfg, seals, st, f, EndOffset(log));
      WriteFrameKeeps(sem, cfg.durability, db.journal, f, io);
      var (j, w) := WriteFrame(LogFormat(env, cfg), cfg.durability, db.journal, f, io);
      assert (log + [f])[..|log| + 1] == log + [f] && (log + [f])[..|log|] == log && log[..|log|] == log;
      assert (log + [f])[..db.journal.synced] == log[..db.journal.synced];
      if w.Accepted? {
        FlushKeeps(sem, cfg.durability, j, flush);
        CommitCounted(st);
        UnpoisonedWhole(sem, cfg.durability, db.journal);
        UnpoisonedWhole(sem, cfg.durability, j);
        UnapplyKeepsInv(sem, cfg.durability, db.journal, j, f, if w.durable then |log| else db.journal.synced);
      }
    }
  }

  lemma CommitCounted(st: LogState)
    ensures Load(st.(commits := st.commits + 1)) == Load(st).(commits := Load(st).commits + 1)
  {
  }

  lemma UnpoisonedWhole<S>(sem: Semantics<S>, durability: Durability, j: Journal)
    requires Inv(sem, durability, j) && !j.poisoned
    ensures j.torn.None?
  {
  }

  // A frame whose flush failed is taken back out of the applied log.
  lemma UnapplyKeepsInv<S>(sem: Semantics<S>, durability: Durability, before: Journal, j: Journal, f: Frame, synced: nat)
    requires Inv(sem, durability, j) && j.torn.None? && !before.poisoned && before.torn.None?
    requires j.log == before.log + [f] && synced <= |before.log|
    ensures Inv(sem, durability, j.(poisoned := true, log := before.log, torn := Some(f), synced := synced))
  {
    hide Replay, LogFile;
    var after := j.(poisoned := true, log := before.log, torn := Some(f), synced := synced);
    assert Frames(after) == Frames(j);
    PrefixEndOffset(j.log, |before.log|);
    assert j.log[..|before.log|] == before.log;
  }

  lemma ReopenHandleKeeps(env: Env, cfg: Config, seals: set<u64>, db: Handle, cut: nat, io: Io)
    requires ValidConfig(cfg) && HandleInv(env, cfg, seals, db)
    requires db.journal.synced <= |db.journal.log|
    requires EndOffset(db.journal.log[..db.journal.synced]) <= cut <= |db.journal.file|
    ensures DatabaseHeaderOk(LogFormat(env, cfg), db.journal.file[..cut])
    ensures var after := ReopenHandle(env, cfg, seals, db, cut, io);
            && HandleInv(env, cfg, seals, after)
            && db.journal.synced <= after.journal.synced
            && db.journal.log[..db.journal.synced] <= after.journal.log[..after.journal.synced]
  {
    hide Replay, LogBytes, Load, Inv, Reopen, ScanFile, DatabaseHeaderOk;
    var sem := LogSemantics(env, cfg, seals);
    ReopenKeeps(sem, cfg.durability, db.journal, cut, io);
    var after := ReopenHandle(env, cfg, seals, db, cut, io);
    InvReplays(sem, cfg.durability, after.journal);
    SyncedWithin(sem, cfg.durability, after.journal);
    ReopenSynced(sem, db.journal, cut, io);
    var log := after.journal.log;
    assert log[..|log|] == log;
    assert log[..db.journal.synced] == db.journal.log[..db.journal.synced];
  }

  lemma SyncedWithin<S>(sem: Semantics<S>, durability: Durability, j: Journal)
    requires Inv(sem, durability, j)
    ensures j.synced <= |j.log|
  {
  }

  lemma ReopenSynced<S>(sem: Semantics<S>, j: Journal, cut: nat, io: Io)
    requires cut <= |j.file| && DatabaseHeaderOk(sem.format, j.file[..cut])
    ensures Reopen(sem, j, cut, io).synced == if io.syncOk then |Reopen(sem, j, cut, io).log| else j.synced
  {
  }
}

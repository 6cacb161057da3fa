/**
What holds over every run of a writer handle: calls, flushes, checkpoints, failing
writes and syncs, and crashes followed by reopening.

The main results are crash recovery (`DatabaseRecovers`), the meaning of a commit
reported durable (`DurableReplyIsSynced`), the watermarks (`Watermarks`), and what a
repeated source cursor is answered (`IngressRetry`).
*/
module DatabaseRuns {
  import opened ByteCodec
  import opened Model
  import opened TransactionCodec
  import opened LogFrame
  import opened FramedLog
  import opened DurableLog
  import opened StorageLog
  import opened Receipts
  import opened ExactlyOnce
  import opened DatabaseModel

  // The setting of a run: the outside functions, the configuration, the published seals.
  datatype Setting = Setting(env: Env, cfg: Config, seals: set<u64>)

  ghost predicate Fair(s: Setting) {
    Lawful(s.env) && ValidConfig(s.cfg)
  }

  ghost function Meaning(s: Setting): Semantics<LogState> {
    LogSemantics(s.env, s.cfg, s.seals)
  }

  ghost predicate Good(s: Setting, db: Handle) {
    HandleInv(s.env, s.cfg, s.seals, db)
  }

  datatype Event =
    | Called(call: Call, io: Io)
    | Flushed(io: Io)
    | Checkpointed(generation: u64, points: u64, io: Io, flush: Io)
    | Crashed(cut: nat, io: Io)

  ghost predicate Allowed(s: Setting, db: Handle, e: Event) {
    match e
    case Called(_, _) => true
    case Flushed(_) => true
    case Checkpointed(generation, points, _, _) => CheckpointAllowed(s.seals, db, generation, points)
    case Crashed(cut, _) =>
      && db.journal.synced <= |db.journal.log|
      && EndOffset(db.journal.log[..db.journal.synced]) <= cut <= |db.journal.file|
  }

  ghost function After(s: Setting, db: Handle, e: Event): Handle {
    match e
    case Called(call, io) => Perform(s.env, s.cfg, db, call, io).0
    case Flushed(io) => FlushHandle(db, io).0
    case Checkpointed(generation, points, io, flush) => Checkpoint(s.env, s.cfg, db, generation, points, io, flush).0
    case Crashed(cut, io) =>
      if cut <= |db.journal.file| && DatabaseHeaderOk(LogFormat(s.env, s.cfg), db.journal.file[..cut])
      then ReopenHandle(s.env, s.cfg, s.seals, db, cut, io)
      else db
  }

  ghost function Synced(db: Handle): seq<Frame>
    requires db.journal.synced <= |db.journal.log|
  {
    db.journal.log[..db.journal.synced]
  }

  lemma GoodParts(s: Setting, db: Handle)
    requires Good(s, db)
    ensures db.journal.synced <= |db.journal.log|
    ensures Replay(Meaning(s), db.journal.log).Some? && Replay(Meaning(s), Synced(db)).Some?
    ensures Load(Replay(Meaning(s), db.journal.log).value) == db.memory
    ensures Replay(Meaning(s), db.journal.log).value.ids == db.memory.ids
    ensures Replay(Meaning(s), Synced(db)).value.ids.lastSequences == db.durable
  {
    hide Replay;
  }

  lemma AfterKeeps(s: Setting, db: Handle, e: Event)
    requires Fair(s) && Good(s, db) && Allowed(s, db, e)
    ensures Good(s, After(s, db, e))
    ensures db.journal.synced <= |db.journal.log| && After(s, db, e).journal.synced <= |After(s, db, e).journal.log|
    ensures Synced(db) <= Synced(After(s, db, e))
  {
    hide HandleInv, Perform, FlushHandle, Checkpoint, ReopenHandle, DatabaseHeaderOk, LogBytes;
    GoodParts(s, db);
    match e {
      case Called(call, io) => PerformKeeps(s.env, s.cfg, s.seals, db, call, io);
      case Flushed(io) => FlushHandleKeeps(s.env, s.cfg, s.seals, db, io);
      case Checkpointed(generation, points, io, flush) =>
        CheckpointKeeps(s.env, s.cfg, s.seals, db, generation, points, io, flush);
      case Crashed(cut, io) => ReopenHandleKeeps(s.env, s.cfg, s.seals, db, cut, io);
    }
    GoodParts(s, After(s, db, e));
  }

  // ---- Runs ----

  // The handle of a file just created.
  ghost function Created(s: Setting): Handle {
    Handle(Journal(DatabaseHeader(LogFormat(s.env, s.cfg)), 0, false, [], None, 0), Load(EMPTY_STATE), map[])
  }

  ghost predicate IsRunOf(s: Setting, states: seq<Handle>, events: seq<Event>) {
    && |states| == |events| + 1
    && states[0] == Created(s)
    && forall i :: 0 <= i < |events| ==>
         Allowed(s, states[i], events[i]) && states[i + 1] == After(s, states[i], events[i])
  }

  lemma CreatedGood(s: Setting)
    requires Fair(s)
    ensures Good(s, Created(s))
  {
    hide DatabaseHeader;
    FreshJournal(Meaning(s), s.cfg.durability);
  }

  lemma {:induction false} HandleRunKeeps(s: Setting, states: seq<Handle>, events: seq<Event>, i: nat, k: nat)
    requires Fair(s) && IsRunOf(s, states, events) && i <= k <= |events|
    ensures Good(s, states[i]) && Good(s, states[k])
    ensures states[i].journal.synced <= |states[i].journal.log| && states[k].journal.synced <= |states[k].journal.log|
    ensures Synced(states[i]) <= Synced(states[k])
    decreases k
  {
    hide Good, After, Allowed;
    if k == 0 {
      CreatedGood(s);
      GoodParts(s, states[0]);
    } else {
      HandleRunKeeps(s, states, events, if i < k then i else k - 1, k - 1);
      AfterKeeps(s, states[k - 1], events[k - 1]);
      assert states[k] == After(s, states[k - 1], events[k - 1]);
    }
  }

  /**
  Crash recovery. At any point of any run, cut the file at any byte past the last
  sync and open it: the scan finds no damage, memory is what a list of whole frames
  loads, and that list extends everything synced at any earlier point of the run.
  */
  lemma DatabaseRecovers(s: Setting, states: seq<Handle>, events: seq<Event>, i: nat, k: nat, cut: nat)
    requires Fair(s) && IsRunOf(s, states, events) && i <= k <= |events|
    requires Allowed(s, states[k], Crashed(cut, Io(0, true)))
    ensures DatabaseHeaderOk(LogFormat(s.env, s.cfg), states[k].journal.file[..cut])
    ensures states[i].journal.synced <= |states[i].journal.log|
    ensures var found := ScanFile(Meaning(s), states[k].journal.file[..cut]);
            var reopened := ReopenHandle(s.env, s.cfg, s.seals, states[k], cut, Io(0, true));
            && !found.stop.Damaged?
            && Good(s, reopened)
            && reopened.memory == Load(found.state)
            && reopened.journal.log <= Frames(states[k].journal)
            && Synced(states[i]) <= reopened.journal.log
  {
    hide HandleInv, IsRunOf, LogBytes, Replay, Load, ScanFile, DatabaseHeaderOk, Inv, Reopen;
    assert |states| == |events| + 1 by { RunLength(s, states, events); }
    HandleRunKeeps(s, states, events, i, k);
    var db := states[k];
    assert Inv(Meaning(s), s.cfg.durability, db.journal) by { GoodJournal(s, db); }
    ReopenKeeps(Meaning(s), s.cfg.durability, db.journal, cut, Io(0, true));
    ReopenHandleKeeps(s.env, s.cfg, s.seals, db, cut, Io(0, true));
  }

  /**
  A poisoned handle acknowledges nothing more. From the moment a handle of any run is poisoned until
  the file is opened again, it stays as it is and every call, flush and checkpoint fails.
  */
  lemma {:induction false} PoisonedUntilReopened(s: Setting, states: seq<Handle>, events: seq<Event>, i: nat, k: nat)
    requires IsRunOf(s, states, events) && i <= k <= |events| && states[i].journal.poisoned
    requires forall j :: i <= j < k ==> !events[j].Crashed?
    ensures states[k] == states[i]
    ensures forall call, io :: Perform(s.env, s.cfg, states[k], call, io) == (states[i], Fail(Poisoned))
    ensures forall io :: FlushHandle(states[k], io) == (states[i], false)
    ensures forall g, n, io, flush :: Checkpoint(s.env, s.cfg, states[k], g, n, io, flush) == (states[i], false)
    decreases k
  {
    hide WriteFrame, DecideAppend, DecideIngress, DecideIdentified, DecideWrite, ReopenHandle, DatabaseHeaderOk, Created;
    if i < k {
      PoisonedUntilReopened(s, states, events, i, k - 1);
      assert states[k - 1 + 1] == After(s, states[k - 1], events[k - 1]);
    }
  }

  lemma RunLength(s: Setting, states: seq<Handle>, events: seq<Event>)
    requires IsRunOf(s, states, events)
    ensures |states| == |events| + 1
  {
  }

  lemma GoodJournal(s: Setting, db: Handle)
    requires Good(s, db)
    ensures Inv(Meaning(s), s.cfg.durability, db.journal)
  {
  }

  // ---- Durability ----

  lemma CleanMeansSynced(s: Setting, db: Handle)
    requires Good(s, db) && !db.journal.poisoned && db.journal.dirty == 0
    ensures db.journal.synced == |db.journal.log|
  {
    hide Replay, LogFile;
    var log, n := db.journal.log, db.journal.synced;
    if n < |log| {
      InvReplays(Meaning(s), s.cfg.durability, db.journal);
      SoundPrefix(Meaning(s), log, n);
    }
  }

  /**
  A commit reported durable is in the synced prefix: either everything applied is
  synced, or, for an exact ingress retry, the original frame is.
  */
  lemma DurableReplyIsSynced(s: Setting, db: Handle, call: Call, io: Io)
    requires Fair(s) && Good(s, db)
    requires var reply := Perform(s.env, s.cfg, db, call, io).1; reply.Done? && reply.commit.durable
    ensures var after := Perform(s.env, s.cfg, db, call, io).0;
            && after.journal.synced <= |after.journal.log|
            && Replay(Meaning(s), Synced(after)).Some?
            && (|| after.journal.synced == |after.journal.log|
                || (&& call.CommitTransaction? && call.transaction.ingress.Some?
                    && KeyOf(call.transaction.ingress.value) in Replay(Meaning(s), Synced(after)).value.ids.ingress))
  {
    hide Replay, HandleInv, EncodeCanonical, IngressMatches, IdentifiedMatches, PointsOf, LogBytes, WriteFrame;
    var (after, reply) := Perform(s.env, s.cfg, db, call, io);
    PerformKeeps(s.env, s.cfg, s.seals, db, call, io);
    GoodParts(s, after);
    GoodParts(s, db);
    var d := Decide(s.env, s.cfg, db, call);
    if d.Answer? {
      if d.commit.frameOffset == |db.journal.file| && d.commit == NothingWritten(db, d.commit.deduplicated) {
        CleanMeansSynced(s, db);
      } else {
        var identity := call.transaction.ingress.value;
        assert KeyOf(identity) in db.memory.ids.ingress;
        AnsweredIngress(s, db, identity);
        WatermarkCovers(s.env, s.cfg, s.seals, db.journal.log, db.journal.synced, KeyOf(identity));
      }
    } else {
      DecidedUnpoisoned(s.env, s.cfg, db, call);
      DecisionVetted(s.env, s.cfg, db, call, Replay(Meaning(s), db.journal.log).value);
      WriteSynced(LogFormat(s.env, s.cfg), s.cfg.durability, db.journal, FrameOf(d), io);
    }
  }

  lemma AnsweredIngress(s: Setting, db: Handle, identity: IngressIdentity)
    requires Good(s, db) && KeyOf(identity) in db.memory.ids.ingress
    ensures KeyOf(db.memory.ids.ingress[KeyOf(identity)].identity) == KeyOf(identity)
  {
    hide Replay, AppliedOnce, Records, WatermarksGreatest, CommitIdsSplit;
    LogAppliesOnce(s.env, s.cfg, s.seals, db.journal.log);
  }

  lemma WriteSynced(format: Format, durability: Durability, j: Journal, f: Frame, io: Io)
    requires FrameFits(f)
    ensures var (after, w) := WriteFrame(format, durability, j, f, io);
            w == Accepted(true) ==> after.synced == |after.log|
  {
  }

  /**
  Watermarks. For each source the accepted watermark is the greatest sequence applied
  and the durable one the greatest sequence in the synced prefix; the second never
  exceeds the first.
  */
  lemma Watermarks(s: Setting, db: Handle, source: u128)
    requires Good(s, db)
    ensures db.journal.synced <= |db.journal.log|
    ensures WatermarksGreatest(db.memory.ids)
    ensures Replay(Meaning(s), Synced(db)).Some?
    ensures WatermarksGreatest(Replay(Meaning(s), Synced(db)).value.ids)
    ensures db.durable == Replay(Meaning(s), Synced(db)).value.ids.lastSequences
    ensures source in db.durable ==>
              source in db.memory.ids.lastSequences && db.durable[source] <= db.memory.ids.lastSequences[source]
  {
    hide Replay, HandleInv, AppliedOnce, Records, CommitIdsSplit, CursorsNamed, AppliedIn;
    GoodParts(s, db);
    LogAppliesOnce(s.env, s.cfg, s.seals, db.journal.log);
    LogAppliesOnce(s.env, s.cfg, s.seals, Synced(db));
    LogExtends(s.env, s.cfg, s.seals, db.journal.log, db.journal.synced);
    if source in db.durable {
      var top := IngressKey(source, db.durable[source]);
      assert top in Replay(Meaning(s), Synced(db)).value.ids.ingress;
      assert top in db.memory.ids.ingress;
    }
  }

  // Under every policy, acknowledged bytes not yet synced stay below what the policy allows.
  lemma UnsyncedBytesBounded(s: Setting, db: Handle)
    requires Good(s, db) && !db.journal.poisoned
    ensures db.journal.synced <= |db.journal.log|
    ensures EndOffset(db.journal.log) - EndOffset(Synced(db)) == db.journal.dirty
    ensures match s.cfg.durability
            case Always => db.journal.dirty == 0
            case EveryBytes(threshold) => db.journal.dirty < threshold
            case Manual => true
  {
    hide Replay, LogFile, LogBytes;
  }

  // ---- Retries ----

  // The canonical bytes a receipt stands for.
  ghost predicate StandsFor(env: Env, log: seq<Frame>, r: IngressReceipt, original: Bytes) {
    || (IngressCompact(env, r) && r.compact == Some(original))
    || exists i: nat :: IngressBacked(env, log, i, r) && log[i].payload[INGRESS_IDENTITY_BYTES..] == original
  }

  ghost predicate Forgotten(env: Env, r: IngressReceipt) {
    IngressCompact(env, r) && r.compact.None?
  }

  // Every known cursor stands for some bytes, unless an old compact index dropped them.
  lemma ReceiptStandsForBytes(s: Setting, db: Handle, k: IngressKey)
    requires Good(s, db) && k in db.memory.ids.ingress
    ensures || Forgotten(s.env, db.memory.ids.ingress[k])
            || exists original :: StandsFor(s.env, db.journal.log, db.memory.ids.ingress[k], original)
  {
    hide Replay, HandleInv, LogBytes;
    GoodParts(s, db);
    LogBacksReceipts(s.env, s.cfg, s.seals, db.journal.log);
    var r := db.memory.ids.ingress[k];
    assert IngressHeld(s.env, db.journal.log, r);
    if IngressCompact(s.env, r) {
      if r.compact.Some? {
        assert StandsFor(s.env, db.journal.log, r, r.compact.value);
      }
    } else {
      var i: nat :| IngressBacked(s.env, db.journal.log, i, r);
      assert StandsFor(s.env, db.journal.log, r, db.journal.log[i].payload[INGRESS_IDENTITY_BYTES..]);
    }
  }

  lemma IngressAnswer(s: Setting, db: Handle, r: IngressReceipt, original: Bytes, candidate: Bytes)
    requires PrefixLaw(s.env.crc) && Good(s, db) && !db.journal.poisoned
    requires StandsFor(s.env, db.journal.log, r, original)
    ensures IngressMatches(s.env, db.journal.file, r, candidate) == if candidate == original then Same else Different
  {
    hide Replay, HandleInv, LogBytes, LogFile, RawHeader, PrefixLaw;
    HandleFile(s.env, s.cfg, s.seals, db);
    if IngressCompact(s.env, r) && r.compact == Some(original) {
    } else {
      hide IngressMatches;
      var i: nat :| IngressBacked(s.env, db.journal.log, i, r)
                    && db.journal.log[i].payload[INGRESS_IDENTITY_BYTES..] == original;
      IngressVerdict(s.env, s.cfg, db.journal.log, db.journal.file, i, r, candidate);
    }
  }

  /**
  Repeating a source cursor. The same identity with the same bytes gets the original
  receipt back; anything else under that cursor is refused. Neither changes the handle.
  */
  lemma IngressRetry(s: Setting, db: Handle, identity: IngressIdentity, records: seq<Record>,
                     commitId: Option<u128>, original: Bytes, io: Io)
    requires PrefixLaw(s.env.crc) && Good(s, db) && !db.journal.poisoned
    requires identity.sourceId != 0 && EncodeCanonical(s.env, records).Some?
    requires KeyOf(identity) in db.memory.ids.ingress
    requires StandsFor(s.env, db.journal.log, db.memory.ids.ingress[KeyOf(identity)], original)
    ensures var r := db.memory.ids.ingress[KeyOf(identity)];
            var t := Transaction(records, commitId, Some(identity));
            Perform(s.env, s.cfg, db, CommitTransaction(t), io) ==
            (db, if r.identity == identity && EncodeCanonical(s.env, records).value == original
                 then Done(Commit(r.frameOffset, r.points, r.records, r.bytesWritten,
                                  identity.sourceId in db.durable && identity.sequence <= db.durable[identity.sourceId],
                                  true))
                 else Fail(IngressSourceSequenceConflict(identity.sourceId, identity.sequence)))
  {
    hide EncodeCanonical, IngressMatches, HandleInv, StandsFor, PrefixLaw, IdentifiedMatches;
    var r := db.memory.ids.ingress[KeyOf(identity)];
    IngressAnswer(s, db, r, original, EncodeCanonical(s.env, records).value);
    AnsweredIngress(s, db, identity);
  }

  // An accepted ingress commit leaves a receipt standing for its bytes.
  lemma IngressWritten(s: Setting, db: Handle, identity: IngressIdentity, t: Transaction, io: Io)
    requires Fair(s) && Good(s, db)
    requires t.ingress == Some(identity)
    requires var reply := Perform(s.env, s.cfg, db, CommitTransaction(t), io).1; reply.Done? && !reply.commit.deduplicated
    ensures var (after, reply) := Perform(s.env, s.cfg, db, CommitTransaction(t), io);
            && identity.sourceId != 0
            && EncodeCanonical(s.env, t.records).Some?
            && KeyOf(identity) in after.memory.ids.ingress
            && var r := after.memory.ids.ingress[KeyOf(identity)];
            && r.identity == identity
            && reply.commit == Commit(r.frameOffset, r.points, r.records, r.bytesWritten, reply.commit.durable, false)
            && StandsFor(s.env, after.journal.log, r, EncodeCanonical(s.env, t.records).value)
  {
    hide Replay, HandleInv, EncodeCanonical, IngressMatches, IdentifiedMatches, PointsOf, LogBytes, WriteFrame,
      LogFile, TagBytes, ReadTag;
    var call := CommitTransaction(t);
    var d := Decide(s.env, s.cfg, db, call);
    var (after, reply) := Perform(s.env, s.cfg, db, call, io);
    GoodParts(s, db);
    DecidedUnpoisoned(s.env, s.cfg, db, call);
    DecisionVetted(s.env, s.cfg, db, call, Replay(Meaning(s), db.journal.log).value);
    HandleFile(s.env, s.cfg, s.seals, db);
    WriteKeeps(s.env, s.cfg, s.seals, db, d, io);
    var log, f := after.journal.log, FrameOf(d);
    var n := |db.journal.log|;
    ReadTagOfTagBytes(d.tag, d.canonical);
    assert log[n] == f && log[..n] == db.journal.log;
    TagLength(identity);
    TransactionRoundTrip(s.env, t.records);
    assert IngressBacked(s.env, log, n, after.memory.ids.ingress[KeyOf(identity)]);
  }

  lemma TagLength(identity: IngressIdentity)
    ensures |TagBytes(Ingress(identity))| == INGRESS_IDENTITY_BYTES
  {
  }

  // A commit under an unused identifier, when it is acknowledged, was decided to be written.
  lemma DecidedIdentified(env: Env, cfg: Config, db: Handle, c: u128, t: Transaction, io: Io)
    requires t.ingress.None? && t.commitId == Some(c) && t.records != []
    requires var reply := Perform(env, cfg, db, CommitTransaction(t), io).1; reply.Done? && !reply.commit.deduplicated
    ensures EncodeCanonical(env, t.records).Some?
    ensures var d := Decide(env, cfg, db, CommitTransaction(t));
            && d.WriteRecords? && d.tag == Identified(c) && d.records == t.records
            && d.canonical == EncodeCanonical(env, t.records).value
  {
    hide EncodeCanonical, IngressMatches, IdentifiedMatches, PointsOf, WriteFrame, TagBytes, Remember;
  }

  // Such a commit leaves its frame at the end of the log and a receipt that points at it.
  lemma IdentifiedWritten(s: Setting, db: Handle, c: u128, t: Transaction, io: Io)
    requires Fair(s) && Good(s, db) && t.ingress.None? && t.commitId == Some(c) && t.records != []
    requires var reply := Perform(s.env, s.cfg, db, CommitTransaction(t), io).1; reply.Done? && !reply.commit.deduplicated
    ensures EncodeCanonical(s.env, t.records).Some? && |t.records| <= U32_MAX
    ensures var after := Perform(s.env, s.cfg, db, CommitTransaction(t), io).0;
            var canonical := EncodeCanonical(s.env, t.records).value;
            var payload := TagBytes(Identified(c)) + canonical;
            && Good(s, after) && !after.journal.poisoned
            && after.journal.log == db.journal.log + [TaggedFrame(Identified(c), t.records, canonical)]
            && c in after.memory.ids.identified
            && after.memory.ids.identified[c]
            == IdentifiedReceipt(EndOffset(db.journal.log) + FRAME_HEADER_BYTES, |payload|, s.env.crc(payload), None,
                                 EndOffset(db.journal.log), |PointsOf(t.records)|, |t.records|,
                                 FRAME_HEADER_BYTES + |payload|)
  {
    hide Replay, HandleInv, EncodeCanonical, Decide, PointsOf, LogBytes, WriteFrame, TagBytes, Remember, Lawful, LogFile;
    var call := CommitTransaction(t);
    var d := Decide(s.env, s.cfg, db, call);
    DecidedIdentified(s.env, s.cfg, db, c, t, io);
    GoodParts(s, db);
    DecidedUnpoisoned(s.env, s.cfg, db, call);
    DecisionVetted(s.env, s.cfg, db, call, Replay(Meaning(s), db.journal.log).value);
    HandleFile(s.env, s.cfg, s.seals, db);
    WriteKeeps(s.env, s.cfg, s.seals, db, d, io);
    AcceptedUnpoisoned(s, db, d, io);
    RememberIdentified(s.env, db.memory, c, t.records, d.canonical, d.catalog, |db.journal.file|);
  }

  lemma AcceptedUnpoisoned(s: Setting, db: Handle, d: Decision, io: Io)
    requires Writes(d) && !db.journal.poisoned
    ensures var (j, w) := WriteFrame(LogFormat(s.env, s.cfg), s.cfg.durability, db.journal, FrameOf(d), io);
            w.Accepted? ==> !j.poisoned
  {
    hide FrameOf;
  }

  // What a receipt stands for does not change as the log grows.
  lemma StandsForGrows(env: Env, log: seq<Frame>, longer: seq<Frame>, r: IngressReceipt, original: Bytes)
    requires StandsFor(env, log, r, original) && log <= longer
    ensures StandsFor(env, longer, r, original)
  {
    hide LogBytes;
    if IngressCompact(env, r) && r.compact == Some(original) {
    } else {
      var i: nat :| IngressBacked(env, log, i, r) && log[i].payload[INGRESS_IDENTITY_BYTES..] == original;
      assert longer[..i] == log[..i] && longer[i] == log[i];
      assert IngressBacked(env, longer, i, r);
    }
  }

  lemma FreshDurableIsSynced(s: Setting, db: Handle, identity: IngressIdentity, t: Transaction, io: Io)
    requires Fair(s) && Good(s, db) && t.ingress == Some(identity)
    requires var reply := Perform(s.env, s.cfg, db, CommitTransaction(t), io).1;
             reply.Done? && reply.commit.durable && !reply.commit.deduplicated
    ensures var after := Perform(s.env, s.cfg, db, CommitTransaction(t), io).0;
            after.journal.synced == |after.journal.log|
  {
    hide Replay, HandleInv, EncodeCanonical, IngressMatches, IdentifiedMatches, PointsOf, LogBytes, WriteFrame,
      TagBytes, Load;
    var d := Decide(s.env, s.cfg, db, CommitTransaction(t));
    GoodParts(s, db);
    DecisionVetted(s.env, s.cfg, db, CommitTransaction(t), Replay(Meaning(s), db.journal.log).value);
    WriteSynced(LogFormat(s.env, s.cfg), s.cfg.durability, db.journal, FrameOf(d), io);
  }
}

/**
The whole life of a store: calls, flushes, failures, crashes, seals and reclaims in any order.

A store is a writer handle, the generations its manifest publishes, and the points each of them
sealed. The results hold from any point of any life to any later one. What was acknowledged is
shown, exactly and in order, until a crash (`AcknowledgedShown`); what was synced is shown for
good (`DurablePointsKept`); nothing is shown that was not offered (`NothingInvented`); an identity
once durable is never applied again (`KnownNeverWritten`), and its retry gets the first receipt
back (`AnsweredForLife`, `IdentifiedForLife`).
*/
module StoreRuns {
  import opened ByteCodec
  import opened StableSorting
  import opened Model
  import opened PointCodec
  import opened TransactionCodec
  import opened LogFrame
  import opened FramedLog
  import opened DurableLog
  import opened StorageLog
  import opened PointIndex
  import opened Receipts
  import opened ExactlyOnce
  import opened DatabaseModel
  import opened DatabaseRuns
  import opened Queries
  import opened Histories
  import opened Reclaim
  import Sealing

  // The outside functions, the configuration, and the time zones the catalog accepts.
  datatype World = World(env: Env, cfg: Config, zones: set<string>)

  ghost predicate FairWorld(w: World) {
    Lawful(w.env) && ValidConfig(w.cfg) && CatalogEnv(w.env, w.zones)
  }

  // `parts` holds what each published generation sealed, oldest first, in append order.
  datatype Store = Store(db: Handle, seals: set<u64>, parts: seq<seq<Point>>)

  ghost function In(w: World, st: Store): Setting {
    Setting(w.env, w.cfg, st.seals)
  }

  datatype Step =
    | Ran(event: Event)
    | Published(generation: u64, points: u64)
    | Reclaimed(after: Handle)
    | Sealed(generation: u64, points: u64, after: Handle)
    | ReclaimFailed

  // ---- What a store shows ----

  ghost function LiveOf(w: World, seals: set<u64>, log: seq<Frame>): seq<Point> {
    match Replay(LogSemantics(w.env, w.cfg, seals), log)
    case None => []
    case Some(st) => st.live
  }

  // All points in append order: sealed ones, then live ones.
  ghost function History(w: World, st: Store): seq<Point> {
    Concat(st.parts) + LiveOf(w, st.seals, st.db.journal.log)
  }

  // The part of it that a crash cannot take away.
  ghost function DurableHistory(w: World, st: Store): seq<Point>
    requires st.db.journal.synced <= |st.db.journal.log|
  {
    Concat(st.parts) + LiveOf(w, st.seals, Synced(st.db))
  }

  // What a crash may show at most: a frame whose write or sync failed may still be there.
  ghost function LatestHistory(w: World, st: Store): seq<Point> {
    Concat(st.parts) + LiveOf(w, st.seals, Frames(st.db.journal))
  }

  ghost function SegmentFiles(parts: seq<seq<Point>>): seq<seq<Point>> {
    seq(|parts|, i requires 0 <= i < |parts| => Sort(parts[i], SegmentKey))
  }

  // What a range query answers from the segment files and the live index.
  ghost function RangeAnswer(st: Store, s: u64, start: i64, end: i64): seq<Point> {
    Sort(FromSegments(SegmentFiles(st.parts), s, start, end)
         + Filter(SeriesOf(st.db.memory.index, s), Ranged(start, end)), RevisionKey)
  }

  // ---- Steps ----

  // The checkpoint of a generation the manifest does not publish is the last frame, and flushed.
  ghost predicate JustCheckpointed(st: Store, g: u64, n: u64) {
    var log := st.db.journal.log;
    && !st.db.journal.poisoned && st.db.journal.synced == |log| > 0
    && log[|log| - 1] == CheckpointFrame(g, n) && g !in st.seals
  }

  ghost predicate Enabled(w: World, st: Store, step: Step) {
    match step
    case Ran(e) => Allowed(In(w, st), st.db, e)
    case Published(g, n) =>
      // The manifest is published right after the checkpoint was flushed. The store may stop here only if
      // the generation is new to the log: `Sealing.SealRecoversIff`.
      JustCheckpointed(st, g, n) && !Sealing.Checkpointed(st.db.journal.log[..|st.db.journal.log| - 1], g)
    case Reclaimed(after) => ReclaimsTo(In(w, st), w.zones, st.db, after)
    case Sealed(g, n, after) =>
      // Published and at once rewritten without the sealed points, whatever earlier checkpoints the log holds.
      && JustCheckpointed(st, g, n)
      && var held := Replay(Meaning(In(w, st)), st.db.journal.log);
      && held.Some?
      && CompactsTo(w.env, w.zones, st.db.journal.log, held.value.(live := []), after.journal.log)
      && OpensOn(In(w, st).(seals := {}), after.journal.log, after)
    case ReclaimFailed => st.db.journal.synced == |st.db.journal.log|
  }

  ghost function Next(w: World, st: Store, step: Step): Store {
    match step
    case Ran(e) => st.(db := After(In(w, st), st.db, e))
    case Published(g, _) =>
      Store(st.db.(memory := st.db.memory.(index := map[], points := 0, pendingReclaim := true)),
            st.seals + {g}, st.parts + [LiveOf(w, st.seals, st.db.journal.log)])
    case Reclaimed(after) => st.(db := after)
    case Sealed(g, _, after) => Store(after, st.seals + {g}, st.parts + [LiveOf(w, st.seals, st.db.journal.log)])
    // A new log that cannot be synced or put in place poisons the handle on the old one. Right after a reclaim this
    // is a new log whose directory entry could not be synced.
    case ReclaimFailed => st.(db := st.db.(journal := st.db.journal.(poisoned := true)))
  }

  ghost function NewStore(w: World): Store {
    Store(Created(Setting(w.env, w.cfg, {})), {}, [])
  }

  ghost predicate IsLife(w: World, states: seq<Store>, steps: seq<Step>) {
    && |states| == |steps| + 1
    && states[0] == NewStore(w)
    && forall i :: 0 <= i < |steps| ==> Enabled(w, states[i], steps[i]) && states[i + 1] == Next(w, states[i], steps[i])
  }

  // ---- The invariant ----

  // A frame that drops the live points.
  ghost predicate Drops(seals: set<u64>, f: Frame) {
    Sealing.IsCheckpoint(f) && Sealing.GenerationOf(f) in seals
  }

  // Published checkpoints are all synced.
  ghost predicate Quiet(seals: set<u64>, j: Journal) {
    j.synced <= |Frames(j)| && forall f <- Frames(j)[j.synced..] :: !Drops(seals, f)
  }

  ghost predicate StoreOk(w: World, st: Store) {
    Good(In(w, st), st.db) && Quiet(st.seals, st.db.journal)
  }

  // ---- Frames add live points ----

  lemma FrameGrows(env: Env, cfg: Config, seals: set<u64>, st: LogState, f: Frame, offset: nat)
    requires !Drops(seals, f) && ApplyFrame(env, cfg, seals, st, f, offset).Accept?
    ensures st.live <= ApplyFrame(env, cfg, seals, st, f, offset).value.live
  {
    hide ReadTag, TagBytes, RecordTag, DecodeTransaction, DecodePoints, PointsOf, MetadataCount, ApplyIdentityIndex, FromLE,
      TagRefusal;
  }

  lemma {:induction false} LiveGrows(w: World, seals: set<u64>, log: seq<Frame>, n: nat)
    requires n <= |log| && Replay(LogSemantics(w.env, w.cfg, seals), log).Some?
    requires forall f <- log[n..] :: !Drops(seals, f)
    ensures Replay(LogSemantics(w.env, w.cfg, seals), log[..n]).Some?
    ensures LiveOf(w, seals, log[..n]) <= LiveOf(w, seals, log)
    decreases |log|
  {
    hide ApplyFrame, LogBytes, Drops;
    if n < |log| {
      var front, last := log[..|log| - 1], log[|log| - 1];
      assert last == log[n..][|log| - 1 - n];
      assert front[..n] == log[..n] && forall f <- front[n..] :: f in log[n..];
      LiveGrows(w, seals, front, n);
      var sem := LogSemantics(w.env, w.cfg, seals);
      var st := Replay(sem, front).value;
      assert sem.apply(st, last, EndOffset(front)) == ApplyFrame(w.env, w.cfg, seals, st, last, EndOffset(front));
      FrameGrows(w.env, w.cfg, seals, st, last, EndOffset(front));
    } else {
      assert log[..n] == log;
    }
  }

  // ---- Calls ----

  function CallPoints(call: Call): seq<Point> {
    match call
    case Append(points) => points
    case CommitTransaction(t) => PointsOf(t.records)
  }

  // The points a reply vouches for.
  function Acknowledged(call: Call, reply: Reply): seq<Point> {
    if reply.Done? && !reply.commit.deduplicated then CallPoints(call) else []
  }

  // The points that may be in the log after a reply: those, and those of a write that failed on the way.
  function Offered(call: Call, reply: Reply): seq<Point> {
    if reply == Fail(IoFailed) then CallPoints(call) else Acknowledged(call, reply)
  }

  // What a decision writes is what the call brought.
  lemma DecidedPoints(env: Env, cfg: Config, db: Handle, call: Call)
    ensures var d := Decide(env, cfg, db, call);
            && (d.WritePoints? ==> d.points == CallPoints(call))
            && (d.WriteRecords? ==> PointsOf(d.records) == CallPoints(call))
            && (d.Answer? && !d.commit.deduplicated ==> CallPoints(call) == [])
            && (d.Refuse? || d.Poison? ==> d.error != IoFailed)
  {
    hide EncodeCanonical, IngressMatches, IdentifiedMatches, TagBytes;
    assert PointsOf([]) == [];
  }

  lemma VettedLive(env: Env, cfg: Config, seals: set<u64>, st: LogState, d: Decision, offset: nat)
    requires Lawful(env) && Vetted(env, cfg, st, d)
    ensures var r := ApplyFrame(env, cfg, seals, st, FrameOf(d), offset);
            && r.Accept?
            && r.value.live == st.live + (if d.WritePoints? then d.points else PointsOf(d.records))
    ensures !Drops(seals, FrameOf(d))
  {
    hide PointsOf, EncodeCanonical, RecordTag, TagBytes, EncodePoints, FromLE;
    if d.WritePoints? {
      PointsRoundTrip(d.points);
      PointsFrameApplies(env, cfg, seals, st, d.points, offset);
    } else {
      TaggedFrameApplies(env, cfg, seals, st, d.tag, d.records, d.catalog, offset);
    }
  }

  // The frames and live points of the log after a call, in terms of its reply.
  lemma CallSteps(w: World, st: Store, call: Call, io: Io)
    requires FairWorld(w) && StoreOk(w, st)
    ensures var (after, reply) := Perform(w.env, w.cfg, st.db, call, io);
            var before := st.db.journal;
            && Frames(before) <= Frames(after.journal)
            && (forall f <- Frames(after.journal)[|Frames(before)|..] :: !Drops(st.seals, f))
            && LiveOf(w, st.seals, Frames(after.journal)) == LiveOf(w, st.seals, Frames(before)) + Offered(call, reply)
            && LiveOf(w, st.seals, after.journal.log) == LiveOf(w, st.seals, before.log) + Acknowledged(call, reply)
  {
    hide Replay, HandleInv, Decide, Vetted, FrameOf, WriteFrame, Remember, Drops, PointsOf, Lawful, CatalogEnv;
    var env, cfg := w.env, w.cfg;
    var s, db, d := In(w, st), st.db, Decide(w.env, w.cfg, st.db, call);
    var (after, reply) := Perform(env, cfg, db, call, io);
    DecidedPoints(env, cfg, db, call);
    GoodParts(s, db);
    if d.WritePoints? || d.WriteRecords? {
      DecidedUnpoisoned(env, cfg, db, call);
      var now := Replay(Meaning(s), db.journal.log).value;
      DecisionVetted(env, cfg, db, call, now);
      VettedWrites(env, cfg, now, d);
      var f := FrameOf(d);
      WrittenFrames(s, db, d, io);
      WriteLive(w, st, d, f);
      assert Frames(after.journal)[|Frames(db.journal)|..] == [f];
    }
  }

  // The frames of the journal after a write, accepted or not.
  lemma WrittenFrames(s: Setting, db: Handle, d: Decision, io: Io)
    requires Fair(s) && Good(s, db) && !db.journal.poisoned && Writes(d)
    ensures var (after, reply) := Carry(s.env, s.cfg, db, d, io);
            && Frames(db.journal) == db.journal.log
            && Frames(after.journal) == db.journal.log + [FrameOf(d)]
            && (reply == Fail(IoFailed) || (reply.Done? && !reply.commit.deduplicated))
            && after.journal.log == if reply.Done? then Frames(after.journal) else db.journal.log
  {
    hide Replay, EncodeFrame, FrameOf, Remember, LogFile, Load;
    assert db.journal.torn.None?;
    CarryWrite(s.env, s.cfg, db, d, io);
  }

  lemma WriteLive(w: World, st: Store, d: Decision, f: Frame)
    requires FairWorld(w) && StoreOk(w, st) && Writes(d) && f == FrameOf(d)
    requires Replay(Meaning(In(w, st)), st.db.journal.log).Some?
    requires Vetted(w.env, w.cfg, Replay(Meaning(In(w, st)), st.db.journal.log).value, d)
    ensures !Drops(st.seals, f)
    ensures LiveOf(w, st.seals, st.db.journal.log + [f])
         == LiveOf(w, st.seals, st.db.journal.log) + (if d.WritePoints? then d.points else PointsOf(d.records))
  {
    hide Replay, HandleInv, Vetted, FrameOf, ApplyFrame, Drops, PointsOf, Lawful, CatalogEnv;
    var log := st.db.journal.log;
    var now := Replay(Meaning(In(w, st)), log).value;
    VettedLive(w.env, w.cfg, st.seals, now, d, EndOffset(log));
    Sealing.ReplayLast(w.env, w.cfg, st.seals, log, f);
  }

  // ---- Checkpoints and flushes ----

  lemma CheckpointSteps(w: World, st: Store, g: u64, n: u64, io: Io, flush: Io)
    requires FairWorld(w) && StoreOk(w, st) && CheckpointAllowed(st.seals, st.db, g, n)
    ensures var after := Checkpoint(w.env, w.cfg, st.db, g, n, io, flush).0;
            var before := st.db.journal;
            && Frames(before) <= Frames(after.journal)
            && (forall f <- Frames(after.journal)[|Frames(before)|..] :: !Drops(st.seals, f))
            && LiveOf(w, st.seals, Frames(after.journal)) == LiveOf(w, st.seals, Frames(before))
            && LiveOf(w, st.seals, after.journal.log) == LiveOf(w, st.seals, before.log)
  {
    hide Replay, HandleInv, CheckpointFrame, Lawful, CatalogEnv, EncodeFrame, Drops;
    var j := st.db.journal;
    if !j.poisoned {
      assert j.torn.None? by { UnpoisonedFrames(In(w, st), st.db); }
      var f := CheckpointFrame(g, n);
      var after := Checkpoint(w.env, w.cfg, st.db, g, n, io, flush).0;
      CheckpointLive(w, st, g, n);
      assert Frames(after.journal) == j.log + [f];
      assert Frames(after.journal)[|Frames(j)|..] == [f];
    }
  }

  lemma UnpoisonedFrames(s: Setting, db: Handle)
    requires Good(s, db) && !db.journal.poisoned
    ensures db.journal.torn.None?
  {
    hide Replay, LogFile, Load;
  }

  lemma CheckpointLive(w: World, st: Store, g: u64, n: u64)
    requires StoreOk(w, st) && CheckpointAllowed(st.seals, st.db, g, n)
    ensures !Drops(st.seals, CheckpointFrame(g, n))
    ensures LiveOf(w, st.seals, st.db.journal.log + [CheckpointFrame(g, n)]) == LiveOf(w, st.seals, st.db.journal.log)
  {
    hide Replay, HandleInv, CheckpointFrame, ApplyFrame, FromLE;
    var log := st.db.journal.log;
    GoodParts(In(w, st), st.db);
    Sealing.CheckpointFields(g, n);
    Sealing.ReplayLast(w.env, w.cfg, st.seals, log, CheckpointFrame(g, n));
    var now := Replay(Meaning(In(w, st)), log).value;
    LoadedIds(now);
    Sealing.CheckpointOutcome(w.env, w.cfg, st.seals, now, g, n, EndOffset(log));
  }

  // ---- Any event of the running handle ----

  ghost function EventAcknowledged(w: World, st: Store, e: Event): seq<Point> {
    if e.Called? then Acknowledged(e.call, Perform(w.env, w.cfg, st.db, e.call, e.io).1) else []
  }

  ghost function EventOffered(w: World, st: Store, e: Event): seq<Point> {
    if e.Called? then Offered(e.call, Perform(w.env, w.cfg, st.db, e.call, e.io).1) else []
  }

  // Between crashes the log only grows, by frames that drop nothing.
  lemma EventSteps(w: World, st: Store, e: Event)
    requires FairWorld(w) && StoreOk(w, st) && Allowed(In(w, st), st.db, e) && !e.Crashed?
    ensures var before, after := st.db.journal, After(In(w, st), st.db, e).journal;
            && Frames(before) <= Frames(after)
            && (forall f <- Frames(after)[|Frames(before)|..] :: !Drops(st.seals, f))
            && LiveOf(w, st.seals, Frames(after)) == LiveOf(w, st.seals, Frames(before)) + EventOffered(w, st, e)
            && LiveOf(w, st.seals, after.log) == LiveOf(w, st.seals, before.log) + EventAcknowledged(w, st, e)
  {
    hide Replay, HandleInv, Perform, Checkpoint, Drops, LiveOf, Lawful, CatalogEnv;
    match e {
      case Called(call, io) => CallSteps(w, st, call, io);
      case Flushed(io) => assert Frames(FlushHandle(st.db, io).0.journal) == Frames(st.db.journal);
      case Checkpointed(g, n, io, flush) => CheckpointSteps(w, st, g, n, io, flush);
      case Crashed(cut, io) => assert false;
    }
  }

  lemma CrashSteps(s: Setting, db: Handle, cut: nat, io: Io)
    requires Fair(s) && Good(s, db) && Allowed(s, db, Crashed(cut, io))
    ensures Frames(After(s, db, Crashed(cut, io)).journal) <= Frames(db.journal)
  {
    hide Replay, HandleInv, Load, LogBytes, ScanFile, DatabaseHeaderOk;
    ReopenHandleKeeps(s.env, s.cfg, s.seals, db, cut, io);
  }

  lemma EventQuiet(w: World, st: Store, e: Event)
    requires FairWorld(w) && StoreOk(w, st) && Allowed(In(w, st), st.db, e)
    ensures StoreOk(w, Next(w, st, Ran(e)))
    ensures st.db.journal.synced <= |st.db.journal.log| && Next(w, st, Ran(e)).db.journal.synced <= |Next(w, st, Ran(e)).db.journal.log|
    ensures Synced(st.db) <= Synced(Next(w, st, Ran(e)).db)
  {
    hide Replay, HandleInv, After, Allowed, Drops, Lawful, CatalogEnv, LiveOf, EventOffered, EventAcknowledged;
    var s := In(w, st);
    var before, after := st.db.journal, After(s, st.db, e).journal;
    AfterKeeps(s, st.db, e);
    assert Synced(st.db) <= Synced(After(s, st.db, e));
    assert before.synced <= after.synced <= |Frames(after)|;
    if e.Crashed? {
      CrashSteps(s, st.db, e.cut, e.io);
    } else {
      EventSteps(w, st, e);
    }
    forall f <- Frames(after)[after.synced..] ensures !Drops(st.seals, f) {
      var i :| after.synced <= i < |Frames(after)| && Frames(after)[i] == f;
      if i < |Frames(before)| {
        assert Frames(before)[i] == f;
        assert f == Frames(before)[before.synced..][i - before.synced];
      } else {
        assert f == Frames(after)[|Frames(before)|..][i - |Frames(before)|];
      }
    }
  }

  // ---- Publishing ----

  lemma PublishSteps(w: World, st: Store, g: u64, n: u64)
    requires StoreOk(w, st) && Enabled(w, st, Published(g, n))
    ensures var next := Next(w, st, Published(g, n));
            && StoreOk(w, next)
            && History(w, next) == History(w, st) == DurableHistory(w, next) == LatestHistory(w, next)
            && Frames(st.db.journal) == st.db.journal.log
  {
    hide Replay, HandleInv, CheckpointFrame, Sealing.Checkpointed, LogFile;
    var log := st.db.journal.log;
    var front := log[..|log| - 1];
    var next := Next(w, st, Published(g, n));
    assert log == front + [CheckpointFrame(g, n)];
    UnpoisonedFrames(In(w, st), st.db);
    Sealing.PublishKeepsHandle(w.env, w.cfg, st.seals, st.db, front, g, n);
    GoodParts(In(w, st), st.db);
    var now := Replay(Meaning(In(w, st)), log).value;
    Sealing.PublishFresh(w.env, w.cfg, st.seals, front, g, n, now);
    assert Synced(next.db) == log && Frames(next.db.journal) == log;
    assert LiveOf(w, next.seals, log) == [];
    assert (st.parts + [now.live])[..|st.parts|] == st.parts;
    assert Concat(next.parts) + [] == Concat(st.parts) + now.live;
  }

  // ---- Reclaiming ----

  // No frame of a compact log is a checkpoint.
  lemma CompactUnsealed(env: Env, snapshot: seq<Record>, chunks: seq<IdentityIndex>, tail: seq<Point>, newLog: seq<Frame>)
    requires CompactLog(env, snapshot, chunks, tail) == Some(newLog)
    ensures forall f <- newLog :: !Sealing.IsCheckpoint(f)
  {
    hide EncodeCanonical;
    IndexUnsealed(env, chunks);
  }

  lemma {:induction false} IndexUnsealed(env: Env, chunks: seq<IdentityIndex>)
    ensures forall f <- IndexFrames(env, chunks) :: !Sealing.IsCheckpoint(f)
  {
    if chunks != [] {
      IndexUnsealed(env, chunks[..|chunks| - 1]);
    }
  }

  // So the seals do not matter to the handle over it.
  lemma UnsealedHandle(s: Setting, db: Handle)
    requires Good(s.(seals := {}), db) && db.journal.torn.None? && db.journal.synced == |db.journal.log|
    requires forall f <- db.journal.log :: !Sealing.IsCheckpoint(f)
    ensures Good(s, db)
    ensures Replay(Meaning(s), db.journal.log) == Replay(Meaning(s.(seals := {})), db.journal.log)
  {
    hide Replay, LogFile, LogBytes, Load, FromLE;
    var log := db.journal.log;
    Sealing.SealsAgree(s.env, s.cfg, {}, s.seals, log);
    assert log[..|log|] == log && Frames(db.journal) == log;
  }

  lemma OpenedGood(s: Setting, log: seq<Frame>, db: Handle)
    requires ValidConfig(s.cfg) && OpensOn(s, log, db)
    ensures Good(s, db)
  {
    hide Replay, LogFile, LogBytes, Load;
    EncodeLogLength(LogFormat(s.env, s.cfg), log);
    assert log[..|log|] == log && Frames(db.journal) == log;
    LoadedIds(Replay(Meaning(s), log).value);
    var file := LogFile(LogFormat(s.env, s.cfg), log);
    assert file[..|file|] == file;
  }

  lemma ReclaimSteps(w: World, st: Store, after: Handle)
    requires FairWorld(w) && StoreOk(w, st) && Enabled(w, st, Reclaimed(after))
    ensures var next := Next(w, st, Reclaimed(after));
            && StoreOk(w, next)
            && SameHistory(History(w, next), History(w, st))
            && after.journal.synced == |after.journal.log|
            && DurableHistory(w, next) == History(w, next) == LatestHistory(w, next)
            && Frames(st.db.journal) == st.db.journal.log
            && IdentitiesPreserved(w.env, st.db.journal.log, st.db.memory.ids, after.memory.ids)
  {
    hide Replay, HandleInv, IsCompact, OpensOn, IdentitiesPreserved, SameHistory, IndexOf, LogFile;
    var s, log := In(w, st), after.journal.log;
    var held := Replay(Meaning(s), st.db.journal.log).value;
    UnpoisonedFrames(s, st.db);
    GoodParts(s, st.db);
    var snapshot, index, chunks, tail :| IsCompact(w.env, w.zones, st.db.journal.log, held, snapshot, index, chunks, tail, log);
    OpenedGood(s.(seals := {}), log, after);
    OpenedParts(s.(seals := {}), log, after);
    GoodParts(s.(seals := {}), after);
    CompactFacts(w, st, snapshot, index, chunks, tail, log, held);
    UnsealedHandle(s, after);
    assert log[..|log|] == log;
    var loaded := Replay(Meaning(s), log).value;
    SameIndexSameHistory(loaded.live, held.live);
    SameHistoryRefl(Concat(st.parts));
    SameHistoryConcat(Concat(st.parts), Concat(st.parts), loaded.live, held.live);
  }

  lemma FailedReclaimSteps(w: World, st: Store)
    requires StoreOk(w, st) && Enabled(w, st, ReclaimFailed)
    ensures var next := Next(w, st, ReclaimFailed);
            && StoreOk(w, next)
            && History(w, next) == History(w, st) == DurableHistory(w, next)
            && LatestHistory(w, next) == LatestHistory(w, st)
            && SyncedIds(w, next) == SyncedIds(w, st)
  {
    hide Replay, Inv, LogFile, Load, Drops;
    PoisonKeepsInv(Meaning(In(w, st)), w.cfg.durability, st.db.journal);
    var next := Next(w, st, ReclaimFailed);
    assert Frames(next.db.journal) == Frames(st.db.journal);
    assert Synced(next.db) == st.db.journal.log;
  }

  lemma SameHistoryRefl(h: seq<Point>)
    ensures SameHistory(h, h)
  {
  }

  lemma OpenedParts(s: Setting, log: seq<Frame>, db: Handle)
    requires OpensOn(s, log, db)
    ensures !db.journal.poisoned && db.journal.torn.None? && db.journal.log == log && db.journal.synced == |log|
    ensures Frames(db.journal) == log
  {
  }

  lemma CompactFacts(w: World, st: Store, snapshot: seq<Record>, index: IdentityIndex, chunks: seq<IdentityIndex>,
                     tail: seq<Point>, log: seq<Frame>, held: LogState)
    requires FairWorld(w) && Replay(Meaning(In(w, st)), st.db.journal.log).Some?
    requires Replay(Meaning(In(w, st)), st.db.journal.log).value.ids == held.ids
    requires IsCompact(w.env, w.zones, st.db.journal.log, held, snapshot, index, chunks, tail, log)
    requires Replay(LogSemantics(w.env, w.cfg, {}), log).Some?
    ensures forall f <- log :: !Sealing.IsCheckpoint(f)
    ensures var loaded := Replay(LogSemantics(w.env, w.cfg, {}), log).value;
            && IndexOf(loaded.live) == IndexOf(held.live) && |loaded.live| == |held.live|
            && IdentitiesPreserved(w.env, st.db.journal.log, held.ids, loaded.ids)
  {
    hide Replay, IdentitiesPreserved, IndexOf, CompactLog, Compacts, Arranges, Lawful, CatalogEnv;
    CompactUnsealed(w.env, snapshot, chunks, tail, log);
    CompactLogPreserves(w.env, w.cfg, st.seals, w.zones, st.db.journal.log, held, snapshot, index, chunks, tail, log,
                        Replay(LogSemantics(w.env, w.cfg, {}), log).value);
  }

  // Sealing and rewriting in one go: the live points become a segment, and the new log holds none.
  lemma SealSteps(w: World, st: Store, g: u64, n: u64, after: Handle)
    requires FairWorld(w) && StoreOk(w, st) && Enabled(w, st, Sealed(g, n, after))
    ensures var next := Next(w, st, Sealed(g, n, after));
            && StoreOk(w, next)
            && after.journal.synced == |after.journal.log|
            && History(w, next) == History(w, st) == DurableHistory(w, next) == LatestHistory(w, next)
            && Frames(st.db.journal) == st.db.journal.log
            && IdentitiesPreserved(w.env, st.db.journal.log, st.db.memory.ids, after.memory.ids)
  {
    hide Replay, HandleInv, IsCompact, OpensOn, IdentitiesPreserved, IndexOf, LogFile, CheckpointFrame;
    var next := Next(w, st, Sealed(g, n, after));
    var s, log := In(w, next), after.journal.log;
    var held := Replay(Meaning(In(w, st)), st.db.journal.log).value;
    var empty := held.(live := []);
    UnpoisonedFrames(In(w, st), st.db);
    GoodParts(In(w, st), st.db);
    var snapshot, index, chunks, tail :| IsCompact(w.env, w.zones, st.db.journal.log, empty, snapshot, index, chunks, tail, log);
    OpenedGood(s.(seals := {}), log, after);
    OpenedParts(s.(seals := {}), log, after);
    GoodParts(s.(seals := {}), after);
    CompactFacts(w, st, snapshot, index, chunks, tail, log, empty);
    UnsealedHandle(s, after);
    assert log[..|log|] == log;
    assert LiveOf(w, next.seals, log) == [];
    assert (st.parts + [held.live])[..|st.parts|] == st.parts;
    assert Concat(next.parts) + [] == Concat(st.parts) + held.live;
  }

  // ---- Every life ----

  lemma NextKeeps(w: World, st: Store, step: Step)
    requires FairWorld(w) && StoreOk(w, st) && Enabled(w, st, step)
    ensures StoreOk(w, Next(w, st, step))
  {
    hide StoreOk, Enabled, Next, Lawful, CatalogEnv;
    match step {
      case Ran(e) => EventAllowed(w, st, e); EventQuiet(w, st, e);
      case Published(g, n) => PublishSteps(w, st, g, n);
      case Reclaimed(after) => ReclaimSteps(w, st, after);
      case Sealed(g, n, after) => SealSteps(w, st, g, n, after);
      case ReclaimFailed => FailedReclaimSteps(w, st);
    }
  }

  lemma EventAllowed(w: World, st: Store, e: Event)
    requires Enabled(w, st, Ran(e))
    ensures Allowed(In(w, st), st.db, e)
  {
  }

  lemma NewStoreOk(w: World)
    requires FairWorld(w)
    ensures StoreOk(w, NewStore(w))
  {
    hide HandleInv, Lawful, CatalogEnv;
    CreatedGood(Setting(w.env, w.cfg, {}));
  }

  lemma LifeLength(w: World, states: seq<Store>, steps: seq<Step>)
    requires IsLife(w, states, steps)
    ensures |states| == |steps| + 1
  {
  }

  lemma LifeStep(w: World, states: seq<Store>, steps: seq<Step>, i: nat)
    requires IsLife(w, states, steps) && i < |steps|
    ensures |states| == |steps| + 1
    ensures Enabled(w, states[i], steps[i]) && states[i + 1] == Next(w, states[i], steps[i])
  {
    hide Enabled, Next, NewStore;
  }

  lemma {:induction false} LifeKeeps(w: World, states: seq<Store>, steps: seq<Step>, k: nat)
    requires FairWorld(w) && IsLife(w, states, steps) && k <= |steps|
    ensures StoreOk(w, states[k])
  {
    hide StoreOk, Enabled, Next, FairWorld, NewStore;
    if k == 0 {
      NewStoreOk(w);
    } else {
      LifeKeeps(w, states, steps, k - 1);
      NextKeeps(w, states[k - 1], steps[k - 1]);
      assert states[k - 1 + 1] == Next(w, states[k - 1], steps[k - 1]);
    }
  }

  // ---- What is shown ----

  lemma AnswersFromHistory(w: World, st: Store, s: u64, start: i64, end: i64)
    requires StoreOk(w, st)
    ensures RangeAnswer(st, s, start, end) == Sort(Filter(History(w, st), Queries.Matching(s, start, end)), RevisionKey)
  {
    hide Replay, HandleInv, Sort, Filter, IndexOf;
    GoodParts(In(w, st), st.db);
    SealingInvisible(st.parts, SegmentFiles(st.parts), LiveOf(w, st.seals, st.db.journal.log), s, start, end);
  }

  ghost function StepAcknowledged(w: World, st: Store, step: Step): seq<Point> {
    if step.Ran? then EventAcknowledged(w, st, step.event) else []
  }

  // The points of all calls acknowledged from step i up to step k, in order.
  ghost function AcknowledgedBetween(w: World, states: seq<Store>, steps: seq<Step>, i: nat, k: nat): seq<Point>
    requires |states| == |steps| + 1 && i <= k <= |steps|
  {
    if k == i then []
    else AcknowledgedBetween(w, states, steps, i, k - 1) + StepAcknowledged(w, states[k - 1], steps[k - 1])
  }

  ghost predicate CrashFree(steps: seq<Step>, i: nat, k: nat)
    requires i <= k <= |steps|
  {
    forall j :: i <= j < k && steps[j].Ran? ==> !steps[j].event.Crashed?
  }

  lemma StepShows(w: World, st: Store, step: Step)
    requires FairWorld(w) && StoreOk(w, st) && Enabled(w, st, step)
    requires step.Ran? ==> !step.event.Crashed?
    ensures SameHistory(History(w, Next(w, st, step)), History(w, st) + StepAcknowledged(w, st, step))
  {
    hide StoreOk, Enabled, FairWorld, SameHistory, History, EventAcknowledged, Next;
    if step.Ran? {
      EventShows(w, st, step.event);
      SameHistoryRefl(History(w, Next(w, st, step)));
    } else {
      RestShows(w, st, step);
      assert History(w, st) + [] == History(w, st);
    }
  }

  lemma EventShows(w: World, st: Store, e: Event)
    requires FairWorld(w) && StoreOk(w, st) && Enabled(w, st, Ran(e)) && !e.Crashed?
    ensures History(w, Next(w, st, Ran(e))) == History(w, st) + EventAcknowledged(w, st, e)
  {
    hide StoreOk, Enabled, FairWorld, LiveOf, EventAcknowledged, EventOffered, After, Drops;
    EventAllowed(w, st, e);
    EventSteps(w, st, e);
  }

  // Publishing and rewriting change nothing that is shown.
  lemma RestShows(w: World, st: Store, step: Step)
    requires FairWorld(w) && StoreOk(w, st) && Enabled(w, st, step) && !step.Ran?
    ensures SameHistory(History(w, Next(w, st, step)), History(w, st))
  {
    hide StoreOk, Enabled, FairWorld, SameHistory, History, DurableHistory, LatestHistory, Next, SyncedIds, IdentitiesPreserved;
    SameHistoryRefl(History(w, st));
    match step {
      case Published(g, n) => PublishSteps(w, st, g, n);
      case Reclaimed(after) => ReclaimSteps(w, st, after);
      case Sealed(g, n, after) => SealSteps(w, st, g, n, after);
      case ReclaimFailed => FailedReclaimSteps(w, st);
    }
  }

  /**
  What was acknowledged is shown. Between crashes, through failures, seals and reclaims, a store
  shows exactly the history it showed before and then the points of every call it acknowledged
  since, each once and in order.
  */
  lemma {:induction false} AcknowledgedShown(w: World, states: seq<Store>, steps: seq<Step>, i: nat, k: nat)
    requires FairWorld(w) && IsLife(w, states, steps) && i <= k <= |steps| && CrashFree(steps, i, k)
    ensures var shown := History(w, states[i]) + AcknowledgedBetween(w, states, steps, i, k);
            && SameHistory(History(w, states[k]), shown)
            && forall s: u64, start: i64, end: i64 ::
                 RangeAnswer(states[k], s, start, end) == Sort(Filter(shown, Queries.Matching(s, start, end)), RevisionKey)
    decreases k
  {
    hide StoreOk, Enabled, Next, FairWorld, NewStore, SameHistory, History, RangeAnswer, StepAcknowledged, Sort, Filter;
    var shown := History(w, states[i]) + AcknowledgedBetween(w, states, steps, i, k);
    if k == i {
      assert shown == History(w, states[i]);
      SameHistoryRefl(shown);
    } else {
      AcknowledgedShown(w, states, steps, i, k - 1);
      LifeKeeps(w, states, steps, k - 1);
      var more := StepAcknowledged(w, states[k - 1], steps[k - 1]);
      StepShows(w, states[k - 1], steps[k - 1]);
      assert states[k - 1 + 1] == Next(w, states[k - 1], steps[k - 1]);
      var before := History(w, states[i]) + AcknowledgedBetween(w, states, steps, i, k - 1);
      SameHistoryRefl(more);
      SameHistoryConcat(History(w, states[k - 1]), before, more, more);
      assert shown == before + more;
      SameHistoryTrans(History(w, states[k]), History(w, states[k - 1]) + more, shown);
    }
    LifeKeeps(w, states, steps, k);
    forall s: u64, start: i64, end: i64
      ensures RangeAnswer(states[k], s, start, end) == Sort(Filter(shown, Queries.Matching(s, start, end)), RevisionKey)
    {
      AnswersFromHistory(w, states[k], s, start, end);
      SameHistoryAnswers(History(w, states[k]), shown, s, start, end);
    }
  }

  lemma SameHistoryTrans(a: seq<Point>, b: seq<Point>, c: seq<Point>)
    requires SameHistory(a, b) && SameHistory(b, c)
    ensures SameHistory(a, c)
  {
    forall k: Key ensures Select(a, SegmentKey, k) == Select(c, SegmentKey, k) {
      assert Select(a, SegmentKey, k) == Select(b, SegmentKey, k);
    }
  }

  // ---- What is kept ----

  lemma SyncedIsPrefix(w: World, st: Store)
    requires StoreOk(w, st)
    ensures st.db.journal.synced <= |st.db.journal.log|
    ensures DurableHistory(w, st) <= History(w, st) <= LatestHistory(w, st)
  {
    hide Replay, HandleInv, Drops, LogFile;
    var j := st.db.journal;
    GoodParts(In(w, st), st.db);
    assert Sound(Meaning(In(w, st)), Frames(j)) by { JournalSound(In(w, st), st.db); }
    var frames := Frames(j);
    assert j.log == frames[..|j.log|] && Synced(st.db) == j.log[..j.synced];
    assert forall f <- frames[|j.log|..] :: f in frames[j.synced..];
    forall f <- j.log[j.synced..] ensures !Drops(st.seals, f) {
      var i :| j.synced <= i < |j.log| && j.log[i] == f;
      assert frames[j.synced..][i - j.synced] == f;
    }
    LiveGrows(w, st.seals, frames, |j.log|);
    LiveGrows(w, st.seals, j.log, j.synced);
  }

  lemma JournalSound(s: Setting, db: Handle)
    requires Good(s, db)
    ensures Sound(Meaning(s), Frames(db.journal))
  {
    hide Replay, LogFile, Load;
  }

  lemma StepKeepsDurable(w: World, st: Store, step: Step) returns (extra: seq<Point>)
    requires FairWorld(w) && StoreOk(w, st) && Enabled(w, st, step)
    ensures st.db.journal.synced <= |st.db.journal.log|
    ensures Next(w, st, step).db.journal.synced <= |Next(w, st, step).db.journal.log|
    ensures SameHistory(DurableHistory(w, Next(w, st, step)), DurableHistory(w, st) + extra)
  {
    hide StoreOk, Enabled, Lawful, CatalogEnv, SameHistory, LiveOf, After;
    var next := Next(w, st, step);
    NextKeeps(w, st, step);
    SyncedIsPrefix(w, st);
    SyncedIsPrefix(w, next);
    match step {
      case Ran(e) =>
        extra := EventKeepsDurable(w, st, e);
        SameHistoryRefl(DurableHistory(w, next));
      case Published(g, n) =>
        extra := [];
        PublishSteps(w, st, g, n);
        AllSynced(w, st, step);
        assert DurableHistory(w, st) + [] == DurableHistory(w, st);
        SameHistoryRefl(DurableHistory(w, next));
      case Reclaimed(after) =>
        extra := [];
        ReclaimSteps(w, st, after);
        AllSynced(w, st, step);
        assert DurableHistory(w, st) + [] == DurableHistory(w, st);
      case Sealed(g, n, after) =>
        extra := [];
        SealSteps(w, st, g, n, after);
        AllSynced(w, st, step);
        assert DurableHistory(w, st) + [] == DurableHistory(w, st);
        SameHistoryRefl(DurableHistory(w, next));
      case ReclaimFailed =>
        extra := [];
        FailedReclaimSteps(w, st);
        AllSynced(w, st, step);
        assert DurableHistory(w, st) + [] == DurableHistory(w, st);
        SameHistoryRefl(DurableHistory(w, next));
    }
  }

  // A store is flushed before it publishes or reclaims.
  lemma AllSynced(w: World, st: Store, step: Step)
    requires Enabled(w, st, step) && !step.Ran? && st.db.journal.synced <= |st.db.journal.log|
    ensures DurableHistory(w, st) == History(w, st)
  {
    hide LiveOf, CompactsTo, OpensOn, Replay;
    assert Synced(st.db) == st.db.journal.log;
  }

  lemma EventKeepsDurable(w: World, st: Store, e: Event) returns (extra: seq<Point>)
    requires FairWorld(w) && StoreOk(w, st) && Enabled(w, st, Ran(e))
    requires st.db.journal.synced <= |st.db.journal.log|
    requires Next(w, st, Ran(e)).db.journal.synced <= |Next(w, st, Ran(e)).db.journal.log|
    ensures DurableHistory(w, Next(w, st, Ran(e))) == DurableHistory(w, st) + extra
  {
    hide Replay, HandleInv, Drops, After, Allowed, Lawful, CatalogEnv, Good, EventOffered, EventAcknowledged;
    var next := Next(w, st, Ran(e));
    EventQuiet(w, st, e);
    var early, late := Synced(st.db), Synced(next.db);
    var s := In(w, st);
    forall f <- late[|early|..] ensures !Drops(st.seals, f) {
      var i :| |early| <= i < |late| && late[i] == f;
      SyncedFresh(w, st, e, i);
    }
    GoodParts(In(w, next), next.db);
    assert late[..|early|] == early;
    LiveGrows(w, st.seals, late, |early|);
    extra := LiveOf(w, st.seals, late)[|LiveOf(w, st.seals, early)|..];
  }

  // Frames that become synced drop nothing.
  lemma SyncedFresh(w: World, st: Store, e: Event, i: nat)
    requires FairWorld(w) && StoreOk(w, st) && Allowed(In(w, st), st.db, e)
    requires st.db.journal.synced <= i < |After(In(w, st), st.db, e).journal.log|
    ensures !Drops(st.seals, After(In(w, st), st.db, e).journal.log[i])
  {
    hide Replay, HandleInv, After, Drops, Lawful, CatalogEnv, LiveOf, EventOffered, EventAcknowledged;
    var s := In(w, st);
    var before, after := st.db.journal, After(s, st.db, e).journal;
    var f := after.log[i];
    assert Frames(after)[i] == f;
    if e.Crashed? {
      CrashSteps(s, st.db, e.cut, e.io);
    } else {
      EventSteps(w, st, e);
    }
    if i < |Frames(before)| {
      assert Frames(before)[before.synced..][i - before.synced] == f;
    } else {
      assert f == Frames(after)[|Frames(before)|..][i - |Frames(before)|];
    }
  }

  lemma NothingAdded(h: seq<Point>)
    ensures SameHistory(h, h + [])
  {
    assert h + [] == h;
  }

  // A history continued twice.
  lemma Prolonged(a: seq<Point>, mid: seq<Point>, b: seq<Point>, more: seq<Point>, c: seq<Point>)
    requires SameHistory(b, a + mid) && SameHistory(c, b + more)
    ensures SameHistory(c, a + (mid + more))
  {
    hide SameHistory;
    SameHistoryRefl(more);
    SameHistoryConcat(b, a + mid, more, more);
    assert a + (mid + more) == a + mid + more;
    SameHistoryTrans(c, b + more, a + mid + more);
  }

  /**
  Every crash recovers. Cut the file of any store of any life at any byte past its last sync: it
  opens without damage. It shows all that was synced and nothing beyond what the store showed before,
  except perhaps the points of one write that failed.
  */
  lemma LifeRecovers(w: World, states: seq<Store>, steps: seq<Step>, k: nat, cut: nat, io: Io)
    requires FairWorld(w) && IsLife(w, states, steps) && k <= |steps|
    requires Enabled(w, states[k], Ran(Crashed(cut, io)))
    ensures DatabaseHeaderOk(LogFormat(w.env, w.cfg), states[k].db.journal.file[..cut])
    ensures !ScanFile(Meaning(In(w, states[k])), states[k].db.journal.file[..cut]).stop.Damaged?
    ensures states[k].db.journal.synced <= |states[k].db.journal.log|
    ensures var reopened := Next(w, states[k], Ran(Crashed(cut, io)));
            && StoreOk(w, reopened)
            && DurableHistory(w, states[k]) <= History(w, reopened) <= LatestHistory(w, states[k])
  {
    hide StoreOk, FairWorld, IsLife, LiveOf, DatabaseHeaderOk, ScanFile, After, LogBytes;
    LifeLength(w, states, steps);
    LifeKeeps(w, states, steps, k);
    var st, e := states[k], Crashed(cut, io);
    var reopened := Next(w, st, Ran(e));
    OpensUndamaged(w, st, cut);
    NextKeeps(w, st, Ran(e));
    SyncedIsPrefix(w, st);
    SyncedIsPrefix(w, reopened);
    var extra := EventKeepsDurable(w, st, e);
    CrashShowsLess(w, st, e);
  }

  lemma OpensUndamaged(w: World, st: Store, cut: nat)
    requires FairWorld(w) && StoreOk(w, st) && st.db.journal.synced <= |st.db.journal.log|
    requires EndOffset(Synced(st.db)) <= cut <= |st.db.journal.file|
    ensures DatabaseHeaderOk(LogFormat(w.env, w.cfg), st.db.journal.file[..cut])
    ensures !ScanFile(Meaning(In(w, st)), st.db.journal.file[..cut]).stop.Damaged?
  {
    hide HandleInv, LogBytes, Replay, ScanFile, DatabaseHeaderOk, Inv, Reopen, Quiet, Lawful, CatalogEnv;
    GoodJournal(In(w, st), st.db);
    ReopenKeeps(Meaning(In(w, st)), w.cfg.durability, st.db.journal, cut, Io(0, true));
  }

  // One step more.
  lemma DurableStep(w: World, first: seq<Point>, mid: seq<Point>, st: Store, step: Step) returns (extra: seq<Point>)
    requires FairWorld(w) && StoreOk(w, st) && Enabled(w, st, step) && st.db.journal.synced <= |st.db.journal.log|
    requires SameHistory(DurableHistory(w, st), first + mid)
    ensures Next(w, st, step).db.journal.synced <= |Next(w, st, step).db.journal.log|
    ensures SameHistory(DurableHistory(w, Next(w, st, step)), first + extra)
  {
    hide StoreOk, Enabled, Next, FairWorld, SameHistory, DurableHistory;
    var more := StepKeepsDurable(w, st, step);
    extra := mid + more;
    Prolonged(first, mid, DurableHistory(w, st), more, DurableHistory(w, Next(w, st, step)));
  }

  /**
  What was synced is shown for good. From any point of any life to any later one, through crashes,
  seals and reclaims, the store shows everything that was synced then, in the same order, followed
  by what came later.
  */
  lemma {:induction false} DurablePointsKept(w: World, states: seq<Store>, steps: seq<Step>, i: nat, k: nat)
    returns (extra: seq<Point>)
    requires FairWorld(w) && IsLife(w, states, steps) && i <= k <= |steps|
    ensures states[i].db.journal.synced <= |states[i].db.journal.log|
    ensures states[k].db.journal.synced <= |states[k].db.journal.log|
    ensures SameHistory(DurableHistory(w, states[k]), DurableHistory(w, states[i]) + extra)
    ensures DurableHistory(w, states[k]) <= History(w, states[k])
    decreases k
  {
    hide StoreOk, Enabled, Next, FairWorld, IsLife, SameHistory, History, DurableHistory, LatestHistory;
    LifeLength(w, states, steps);
    LifeKeeps(w, states, steps, k);
    SyncedIsPrefix(w, states[k]);
    if k == i {
      extra := [];
      NothingAdded(DurableHistory(w, states[i]));
    } else {
      var mid := DurablePointsKept(w, states, steps, i, k - 1);
      var before, step := states[k - 1], steps[k - 1];
      LifeKeeps(w, states, steps, k - 1);
      LifeStep(w, states, steps, k - 1);
      assert Next(w, before, step) == states[k - 1 + 1] == states[k];
      extra := DurableStep(w, DurableHistory(w, states[i]), mid, before, step);
    }
  }

  // The promise to a caller: points acknowledged as durable are shown ever after, behind all that was shown before.
  lemma DurableCallKept(w: World, states: seq<Store>, steps: seq<Step>, i: nat, k: nat, call: Call, io: Io)
    returns (extra: seq<Point>)
    requires FairWorld(w) && IsLife(w, states, steps) && i < k <= |steps| && steps[i] == Ran(Called(call, io))
    requires var reply := Perform(w.env, w.cfg, states[i].db, call, io).1;
             reply.Done? && reply.commit.durable && !reply.commit.deduplicated
    ensures SameHistory(History(w, states[k]), History(w, states[i]) + CallPoints(call) + extra)
  {
    hide StoreOk, Enabled, FairWorld, NewStore, SameHistory, LiveOf, Perform;
    var reply := Perform(w.env, w.cfg, states[i].db, call, io).1;
    var next := states[i + 1];
    LifeKeeps(w, states, steps, i);
    LifeKeeps(w, states, steps, i + 1);
    StepShows(w, states[i], steps[i]);
    assert next == Next(w, states[i], steps[i]);
    SyncedIsPrefix(w, next);
    DurableReplyShown(w, states[i], call, io);
    assert Synced(next.db) == next.db.journal.log;
    assert DurableHistory(w, next) == History(w, next);
    var kept := DurablePointsKept(w, states, steps, i + 1, k);
    var rest := History(w, states[k])[|DurableHistory(w, states[k])|..];
    extra := kept + rest;
    var told := History(w, states[i]) + CallPoints(call);
    assert History(w, states[k]) == DurableHistory(w, states[k]) + rest;
    SameHistoryRefl(kept);
    SameHistoryRefl(rest);
    SameHistoryConcat(History(w, next), told, kept, kept);
    SameHistoryTrans(DurableHistory(w, states[k]), History(w, next) + kept, told + kept);
    SameHistoryConcat(DurableHistory(w, states[k]), told + kept, rest, rest);
    assert told + kept + rest == told + extra;
  }

  lemma DurableReplyShown(w: World, st: Store, call: Call, io: Io)
    requires FairWorld(w) && StoreOk(w, st)
    requires var reply := Perform(w.env, w.cfg, st.db, call, io).1;
             reply.Done? && reply.commit.durable && !reply.commit.deduplicated
    ensures var db := Perform(w.env, w.cfg, st.db, call, io).0; db.journal.synced == |db.journal.log|
  {
    hide Replay, HandleInv, EncodeCanonical, IngressMatches, IdentifiedMatches, PointsOf, LogBytes, WriteFrame, TagBytes, Load,
      Quiet;
    var s := In(w, st);
    var d := Decide(w.env, w.cfg, st.db, call);
    GoodParts(s, st.db);
    if d.Answer? {
      CleanMeansSynced(s, st.db);
    } else {
      DecisionVetted(w.env, w.cfg, st.db, call, Replay(Meaning(s), st.db.journal.log).value);
      WriteSynced(LogFormat(w.env, w.cfg), w.cfg.durability, st.db.journal, FrameOf(d), io);
    }
  }

  // ---- What is not shown ----

  ghost function StepOffered(w: World, st: Store, step: Step): seq<Point> {
    if step.Ran? then EventOffered(w, st, step.event) else []
  }

  // The points of every call up to step k that was acknowledged or failed while writing.
  ghost function OfferedBefore(w: World, states: seq<Store>, steps: seq<Step>, k: nat): seq<Point>
    requires |states| == |steps| + 1 && k <= |steps|
  {
    if k == 0 then []
    else OfferedBefore(w, states, steps, k - 1) + StepOffered(w, states[k - 1], steps[k - 1])
  }

  // Every point at most as often.
  ghost predicate AtMost(a: seq<Point>, b: seq<Point>) {
    multiset(a) <= multiset(b)
  }

  lemma PrefixCounts(a: seq<Point>, b: seq<Point>)
    requires a <= b
    ensures AtMost(a, b)
  {
    assert b == a + b[|a|..];
  }

  lemma AtMostConcat(a: seq<Point>, b: seq<Point>, c: seq<Point>, more: seq<Point>)
    requires AtMost(a, b + more) && AtMost(b, c)
    ensures AtMost(a, c + more)
  {
  }

  lemma StepInventsNothing(w: World, st: Store, step: Step)
    requires FairWorld(w) && StoreOk(w, st) && Enabled(w, st, step)
    ensures AtMost(LatestHistory(w, Next(w, st, step)), LatestHistory(w, st) + StepOffered(w, st, step))
  {
    hide StoreOk, Enabled, FairWorld, LiveOf, EventOffered, After, SameHistory, AtMost, Concat, SyncedIds,
      IdentitiesPreserved;
    var next, most := Next(w, st, step), LatestHistory(w, st) + StepOffered(w, st, step);
    match step {
      case Ran(e) =>
        EventAllowed(w, st, e);
        EventInventsNothing(w, st, e);
        PrefixCounts(LatestHistory(w, next), most);
      case Published(g, n) =>
        PublishSteps(w, st, g, n);
        PrefixCounts(LatestHistory(w, next), most);
      case Reclaimed(after) =>
        ReclaimSteps(w, st, after);
        HistoryAtMost(History(w, next), History(w, st));
        assert most == History(w, st);
      case Sealed(g, n, after) =>
        SealSteps(w, st, g, n, after);
        PrefixCounts(LatestHistory(w, next), most);
      case ReclaimFailed =>
        FailedReclaimSteps(w, st);
        PrefixCounts(LatestHistory(w, next), most);
    }
  }

  lemma EventInventsNothing(w: World, st: Store, e: Event)
    requires FairWorld(w) && StoreOk(w, st) && Allowed(In(w, st), st.db, e)
    ensures LatestHistory(w, Next(w, st, Ran(e))) <= LatestHistory(w, st) + EventOffered(w, st, e)
  {
    hide StoreOk, Lawful, CatalogEnv, LiveOf, EventOffered, EventAcknowledged, After, Allowed;
    if e.Crashed? {
      CrashShowsLess(w, st, e);
    } else {
      EventSteps(w, st, e);
    }
  }

  lemma HistoryAtMost(a: seq<Point>, b: seq<Point>)
    requires SameHistory(a, b)
    ensures AtMost(a, b)
  {
    hide SameHistory;
    SameHistoryCounts(a, b);
  }

  lemma CrashShowsLess(w: World, st: Store, e: Event)
    requires FairWorld(w) && StoreOk(w, st) && Allowed(In(w, st), st.db, e) && e.Crashed?
    ensures LatestHistory(w, Next(w, st, Ran(e))) <= LatestHistory(w, st)
  {
    hide Replay, HandleInv, After, Allowed, Drops, Lawful, CatalogEnv;
    var s := In(w, st);
    var before, after := st.db.journal, After(s, st.db, e).journal;
    CrashSteps(s, st.db, e.cut, e.io);
    EventQuiet(w, st, e);
    SyncedGrows(w, st, e);
    JournalSound(s, st.db);
    var n := |Frames(after)|;
    forall f <- Frames(before)[n..] ensures !Drops(st.seals, f) {
      var i :| n <= i < |Frames(before)| && Frames(before)[i] == f;
      assert Frames(before)[before.synced..][i - before.synced] == f;
    }
    assert Frames(before)[..n] == Frames(after);
    LiveGrows(w, st.seals, Frames(before), n);
  }

  lemma SyncedGrows(w: World, st: Store, e: Event)
    requires FairWorld(w) && StoreOk(w, st) && Allowed(In(w, st), st.db, e)
    ensures st.db.journal.synced <= After(In(w, st), st.db, e).journal.synced <= |Frames(After(In(w, st), st.db, e).journal)|
  {
    hide HandleInv, After, Allowed, Lawful, CatalogEnv, Quiet;
    AfterKeeps(In(w, st), st.db, e);
    var early, late := Synced(st.db), Synced(After(In(w, st), st.db, e));
    assert |early| <= |late|;
  }

  /**
  Nothing is invented. At every point of every life each point is shown at most as often as calls
  brought it that were acknowledged, or failed while writing; exact retries bring nothing.
  */
  lemma {:induction false} NothingInvented(w: World, states: seq<Store>, steps: seq<Step>, k: nat)
    requires FairWorld(w) && IsLife(w, states, steps) && k <= |steps|
    ensures AtMost(History(w, states[k]), LatestHistory(w, states[k]))
    ensures AtMost(LatestHistory(w, states[k]), OfferedBefore(w, states, steps, k))
  {
    hide StoreOk, Enabled, Next, FairWorld, IsLife, History, LatestHistory, StepOffered, AtMost;
    LifeLength(w, states, steps);
    LifeKeeps(w, states, steps, k);
    SyncedIsPrefix(w, states[k]);
    PrefixCounts(History(w, states[k]), LatestHistory(w, states[k]));
    if k == 0 {
      NothingAtFirst(w, states, steps);
      PrefixCounts(LatestHistory(w, states[0]), []);
    } else {
      NothingInvented(w, states, steps, k - 1);
      LifeKeeps(w, states, steps, k - 1);
      LifeStep(w, states, steps, k - 1);
      StepInventsNothing(w, states[k - 1], steps[k - 1]);
      AtMostConcat(LatestHistory(w, states[k]), LatestHistory(w, states[k - 1]), OfferedBefore(w, states, steps, k - 1),
                   StepOffered(w, states[k - 1], steps[k - 1]));
    }
  }

  lemma NothingAtFirst(w: World, states: seq<Store>, steps: seq<Step>)
    requires IsLife(w, states, steps)
    ensures LatestHistory(w, states[0]) == []
  {
    hide Enabled, Next;
    Sealing.NothingReplayed(w.env, w.cfg);
  }

  // ---- Identities ----

  // The receipt book of the synced part of the log.
  ghost function SyncedIds(w: World, st: Store): Identities {
    if st.db.journal.synced <= |st.db.journal.log| && Replay(Meaning(In(w, st)), Synced(st.db)).Some?
    then Replay(Meaning(In(w, st)), Synced(st.db)).value.ids else NO_IDENTITIES
  }

  lemma SyncedIdsExtend(w: World, st: Store)
    requires StoreOk(w, st)
    ensures Extends(SyncedIds(w, st), st.db.memory.ids)
    ensures SyncedIds(w, st).lastSequences == st.db.durable
    ensures WatermarksGreatest(SyncedIds(w, st))
  {
    hide Replay, HandleInv, AppliedOnce, Records, CommitIdsSplit, CursorsNamed, AppliedIn, Quiet;
    GoodParts(In(w, st), st.db);
    LogExtends(w.env, w.cfg, st.seals, st.db.journal.log, st.db.journal.synced);
    LogAppliesOnce(w.env, w.cfg, st.seals, Synced(st.db));
  }

  lemma EventKeepsIds(w: World, st: Store, e: Event)
    requires FairWorld(w) && StoreOk(w, st) && Allowed(In(w, st), st.db, e)
    ensures Extends(SyncedIds(w, st), SyncedIds(w, Next(w, st, Ran(e))))
  {
    hide Replay, HandleInv, AppliedIn, After, Allowed, Lawful, CatalogEnv, Quiet;
    var next := Next(w, st, Ran(e));
    EventQuiet(w, st, e);
    GoodParts(In(w, st), st.db);
    GoodParts(In(w, next), next.db);
    var early, late := Synced(st.db), Synced(next.db);
    assert late[..|early|] == early;
    LogExtends(w.env, w.cfg, st.seals, late, |early|);
  }

  lemma PublishKeepsIds(w: World, st: Store, g: u64, n: u64)
    requires StoreOk(w, st) && Enabled(w, st, Published(g, n))
    ensures SyncedIds(w, Next(w, st, Published(g, n))) == SyncedIds(w, st) == st.db.memory.ids
  {
    hide Replay, HandleInv, CheckpointFrame, Sealing.Checkpointed, Quiet;
    var log := st.db.journal.log;
    var front := log[..|log| - 1];
    assert log == front + [CheckpointFrame(g, n)] && log[..|log|] == log;
    GoodParts(In(w, st), st.db);
    Sealing.PublishFresh(w.env, w.cfg, st.seals, front, g, n, Replay(Meaning(In(w, st)), log).value);
  }

  // A step that puts a rewritten log in place.
  predicate Rewrites(step: Step, after: Handle) {
    step == Reclaimed(after) || (step.Sealed? && step.after == after)
  }

  // Before and after a rewrite everything known is synced.
  lemma RewrittenIds(w: World, st: Store, step: Step, after: Handle)
    requires FairWorld(w) && StoreOk(w, st) && Enabled(w, st, step) && Rewrites(step, after)
    ensures SyncedIds(w, st) == st.db.memory.ids
    ensures SyncedIds(w, Next(w, st, step)) == after.memory.ids
  {
    hide Replay, HandleInv, Quiet, CompactsTo, OpensOn, Lawful, CatalogEnv, SameHistory, IdentitiesPreserved, LiveOf,
      CheckpointFrame;
    var next := Next(w, st, step);
    if step.Reclaimed? {
      ReclaimSteps(w, st, after);
    } else {
      SealSteps(w, st, step.generation, step.points, after);
    }
    GoodParts(In(w, st), st.db);
    GoodParts(In(w, next), after);
    assert Synced(st.db) == st.db.journal.log && Synced(after) == after.journal.log;
  }

  // The same identifiers and cursors, or more.
  ghost predicate StillKnown(a: Identities, b: Identities) {
    a.commitIds <= b.commitIds && a.ingress.Keys <= b.ingress.Keys
  }

  lemma StepKeepsKnown(w: World, st: Store, step: Step)
    requires FairWorld(w) && StoreOk(w, st) && Enabled(w, st, step)
    ensures StillKnown(SyncedIds(w, st), SyncedIds(w, Next(w, st, step)))
  {
    hide StoreOk, Enabled, Next, Lawful, CatalogEnv, SyncedIds, SameHistory, IngressPreserved, IdentifiedPreserved;
    match step {
      case Ran(e) => EventAllowed(w, st, e); EventKeepsIds(w, st, e);
      case Published(g, n) => PublishKeepsIds(w, st, g, n);
      case Reclaimed(after) => ReclaimSteps(w, st, after); RewrittenIds(w, st, step, after);
      case Sealed(g, n, after) => SealSteps(w, st, g, n, after); RewrittenIds(w, st, step, after);
      case ReclaimFailed => FailedReclaimSteps(w, st);
    }
  }

  // What was durable stays known, and the durable watermarks never retreat.
  lemma {:induction false} DurableIdentitiesKept(w: World, states: seq<Store>, steps: seq<Step>, i: nat, k: nat)
    requires FairWorld(w) && IsLife(w, states, steps) && i <= k <= |steps|
    ensures StillKnown(SyncedIds(w, states[i]), SyncedIds(w, states[k]))
    ensures forall source <- states[i].db.durable ::
              source in states[k].db.durable && states[i].db.durable[source] <= states[k].db.durable[source]
    decreases k
  {
    hide StoreOk, Enabled, Next, FairWorld, IsLife, SyncedIds;
    LifeLength(w, states, steps);
    LifeKeeps(w, states, steps, i);
    LifeKeeps(w, states, steps, k);
    SyncedIdsExtend(w, states[i]);
    SyncedIdsExtend(w, states[k]);
    if i < k {
      DurableIdentitiesKept(w, states, steps, i, k - 1);
      LifeKeeps(w, states, steps, k - 1);
      LifeStep(w, states, steps, k - 1);
      StepKeepsKnown(w, states[k - 1], steps[k - 1]);
    }
    WatermarksGrow(SyncedIds(w, states[i]), SyncedIds(w, states[k]));
  }

  lemma WatermarksGrow(a: Identities, b: Identities)
    requires WatermarksGreatest(a) && WatermarksGreatest(b) && a.ingress.Keys <= b.ingress.Keys
    ensures forall s <- a.lastSequences :: s in b.lastSequences && a.lastSequences[s] <= b.lastSequences[s]
  {
    forall s <- a.lastSequences ensures s in b.lastSequences && a.lastSequences[s] <= b.lastSequences[s] {
      var top := IngressKey(s, a.lastSequences[s]);
      assert top in a.ingress.Keys;
      assert top in b.ingress;
    }
  }

  // The commit identifier a transaction carries, plain or ordered.
  function CommitIdOf(t: Transaction): Option<u128> {
    if t.ingress.Some? then Some(t.ingress.value.commitId) else t.commitId
  }

  lemma KnownNotDecided(env: Env, cfg: Config, db: Handle, t: Transaction, c: u128)
    requires c in db.memory.ids.commitIds && CommitIdOf(t) == Some(c)
    ensures !Decide(env, cfg, db, CommitTransaction(t)).WriteRecords?
    ensures !Decide(env, cfg, db, CommitTransaction(t)).WritePoints?
  {
    hide EncodeCanonical, IngressMatches, IdentifiedMatches, TagBytes, PointsOf;
  }

  /**
  Applied once. After an identity was durable, no call under it writes anything, at any later
  point of the life: not after crashes, not after seals, not after reclaims.
  */
  lemma KnownNeverWritten(w: World, states: seq<Store>, steps: seq<Step>, i: nat, k: nat, c: u128, t: Transaction, io: Io)
    requires FairWorld(w) && IsLife(w, states, steps) && i <= k <= |steps|
    requires c in SyncedIds(w, states[i]).commitIds && CommitIdOf(t) == Some(c)
    ensures var db := states[k].db;
            var after := Perform(w.env, w.cfg, db, CommitTransaction(t), io).0;
            && after.memory == db.memory && after.durable == db.durable
            && after.journal == db.journal.(poisoned := after.journal.poisoned)
  {
    hide StoreOk, Enabled, Next, FairWorld, NewStore, SyncedIds, Decide;
    DurableIdentitiesKept(w, states, steps, i, k);
    LifeKeeps(w, states, steps, k);
    SyncedIdsExtend(w, states[k]);
    KnownNotDecided(w.env, w.cfg, states[k].db, t, c);
  }

  // ---- Retries ----

  // A cursor known durably, with a receipt that says what `r` says and stands for `original`.
  ghost predicate Answers(w: World, st: Store, r: IngressReceipt, original: Bytes) {
    && st.db.journal.synced <= |st.db.journal.log|
    && KeyOf(r.identity) in SyncedIds(w, st).ingress
    && var n := SyncedIds(w, st).ingress[KeyOf(r.identity)];
    && n.identity == r.identity && n.points == r.points && n.records == r.records
    && n.frameOffset == r.frameOffset && n.bytesWritten == r.bytesWritten
    && StandsFor(w.env, Synced(st.db), n, original)
  }

  // A receipt stands for one byte string only, and its compact form for the same one.
  lemma CompactStandsFor(s: Setting, db: Handle, newLog: seq<Frame>, r: IngressReceipt, n: IngressReceipt, original: Bytes)
    requires PrefixLaw(s.env.crc) && Good(s, db) && !db.journal.poisoned
    requires IngressPreserved(s.env, db.journal.log, r, n) && StandsFor(s.env, db.journal.log, r, original)
    ensures StandsFor(s.env, newLog, n, original)
  {
    hide HandleInv, PrefixLaw, IngressMatches, LogBytes;
    if n.compact.Some? {
      IngressAnswer(s, db, r, original, original);
      IngressAnswer(s, db, r, n.compact.value, original);
    }
  }

  lemma StepKeepsAnswer(w: World, st: Store, step: Step, r: IngressReceipt, original: Bytes)
    requires FairWorld(w) && PrefixLaw(w.env.crc) && StoreOk(w, st) && Enabled(w, st, step) && Answers(w, st, r, original)
    ensures Answers(w, Next(w, st, step), r, original)
  {
    hide StoreOk, Enabled, Lawful, CatalogEnv, SyncedIds, SameHistory, IngressPreserved, IdentifiedPreserved, StandsFor,
      PrefixLaw, After, LiveOf;
    var next := Next(w, st, step);
    match step {
      case Ran(e) =>
        EventAllowed(w, st, e);
        EventKeepsIds(w, st, e);
        EventQuiet(w, st, e);
        StandsForGrows(w.env, Synced(st.db), Synced(next.db), SyncedIds(w, st).ingress[KeyOf(r.identity)], original);
      case Published(g, n) =>
        PublishKeepsIds(w, st, g, n);
      case Reclaimed(after) =>
        ReclaimSteps(w, st, after);
        RewrittenIds(w, st, step, after);
        RewriteKeepsAnswer(w, st, step, after, r, original);
      case Sealed(g, n, after) =>
        SealSteps(w, st, g, n, after);
        RewrittenIds(w, st, step, after);
        RewriteKeepsAnswer(w, st, step, after, r, original);
      case ReclaimFailed =>
        FailedReclaimSteps(w, st);
        assert Synced(next.db) == Synced(st.db);
    }
  }

  lemma RewriteKeepsAnswer(w: World, st: Store, step: Step, after: Handle, r: IngressReceipt, original: Bytes)
    requires FairWorld(w) && PrefixLaw(w.env.crc) && StoreOk(w, st) && Enabled(w, st, step) && Rewrites(step, after)
    requires Answers(w, st, r, original) && SyncedIds(w, st) == st.db.memory.ids
    requires IdentitiesPreserved(w.env, st.db.journal.log, st.db.memory.ids, after.memory.ids)
    requires after.journal.synced == |after.journal.log|
    ensures KeyOf(r.identity) in after.memory.ids.ingress
    ensures var n := after.memory.ids.ingress[KeyOf(r.identity)];
            && n.identity == r.identity && n.points == r.points && n.records == r.records
            && n.frameOffset == r.frameOffset && n.bytesWritten == r.bytesWritten
            && StandsFor(w.env, Synced(after), n, original)
  {
    hide Replay, HandleInv, Lawful, CatalogEnv, SyncedIds, IngressPreserved, IdentifiedPreserved, StandsFor, PrefixLaw,
      CompactsTo, OpensOn, Quiet, CheckpointFrame;
    var k := KeyOf(r.identity);
    var mine, n := st.db.memory.ids.ingress[k], after.memory.ids.ingress[k];
    assert Synced(st.db) == st.db.journal.log && Synced(after) == after.journal.log;
    SameReceipt(w.env, st.db.journal.log, mine, n);
    CompactStandsFor(In(w, st), st.db, after.journal.log, mine, n, original);
  }

  lemma {:induction false} AnswerKept(w: World, states: seq<Store>, steps: seq<Step>, i: nat, k: nat, r: IngressReceipt,
                                      original: Bytes)
    requires FairWorld(w) && PrefixLaw(w.env.crc) && IsLife(w, states, steps) && i <= k <= |steps|
    requires Answers(w, states[i], r, original)
    ensures Answers(w, states[k], r, original)
    decreases k
  {
    hide StoreOk, Enabled, Next, FairWorld, IsLife, Answers, PrefixLaw;
    LifeLength(w, states, steps);
    if i < k {
      AnswerKept(w, states, steps, i, k - 1, r, original);
      LifeKeeps(w, states, steps, k - 1);
      LifeStep(w, states, steps, k - 1);
      StepKeepsAnswer(w, states[k - 1], steps[k - 1], r, original);
    }
  }

  // A durable ordered commit is known durably, with a receipt for its bytes.
  lemma DurableIngressAnswers(w: World, st: Store, identity: IngressIdentity, t: Transaction, io: Io)
    requires FairWorld(w) && StoreOk(w, st) && t.ingress == Some(identity)
    requires var reply := Perform(w.env, w.cfg, st.db, CommitTransaction(t), io).1;
             reply.Done? && reply.commit.durable && !reply.commit.deduplicated
    ensures var (after, reply) := Perform(w.env, w.cfg, st.db, CommitTransaction(t), io);
            && identity.sourceId != 0 && EncodeCanonical(w.env, t.records).Some?
            && KeyOf(identity) in after.memory.ids.ingress
            && var r := after.memory.ids.ingress[KeyOf(identity)];
            && r.identity == identity
            && reply.commit == Replayed(after, r).(durable := true, deduplicated := false)
            && Answers(w, st.(db := after), r, EncodeCanonical(w.env, t.records).value)
  {
    hide Replay, HandleInv, EncodeCanonical, Perform, StandsFor, Lawful, CatalogEnv, Quiet;
    var s := In(w, st);
    var after := Perform(w.env, w.cfg, st.db, CommitTransaction(t), io).0;
    IngressWritten(s, st.db, identity, t, io);
    FreshDurableIsSynced(s, st.db, identity, t, io);
    PerformKeeps(w.env, w.cfg, st.seals, st.db, CommitTransaction(t), io);
    GoodParts(s, after);
    assert Synced(after) == after.journal.log;
  }

  /**
  Answered for life. After an ordered commit was reported durable, the same call at any later point
  of the life, through failures, crashes, seals and reclaims, changes nothing and returns the first
  receipt, marked as a duplicate.
  */
  lemma AnsweredForLife(w: World, states: seq<Store>, steps: seq<Step>, i: nat, k: nat,
                        identity: IngressIdentity, t: Transaction, io: Io, again: Io)
    requires FairWorld(w) && PrefixLaw(w.env.crc) && IsLife(w, states, steps) && i < k <= |steps|
    requires steps[i] == Ran(Called(CommitTransaction(t), io)) && t.ingress == Some(identity)
    requires var reply := Perform(w.env, w.cfg, states[i].db, CommitTransaction(t), io).1;
             reply.Done? && reply.commit.durable && !reply.commit.deduplicated
    requires !states[k].db.journal.poisoned
    ensures var first := Perform(w.env, w.cfg, states[i].db, CommitTransaction(t), io).1;
            Perform(w.env, w.cfg, states[k].db, CommitTransaction(t), again)
            == (states[k].db, Done(first.commit.(deduplicated := true)))
  {
    hide StoreOk, Enabled, Lawful, CatalogEnv, IsLife, Answers, PrefixLaw, Perform, EncodeCanonical;
    LifeLength(w, states, steps);
    LifeKeeps(w, states, steps, i);
    LifeKeeps(w, states, steps, k);
    LifeStep(w, states, steps, i);
    DurableIngressAnswers(w, states[i], identity, t, io);
    var r := states[i + 1].db.memory.ids.ingress[KeyOf(identity)];
    var original := EncodeCanonical(w.env, t.records).value;
    AnswerKept(w, states, steps, i + 1, k, r, original);
    RetryAnswered(w, states[k], r, t, original, again);
  }

  lemma RetryAnswered(w: World, st: Store, r: IngressReceipt, t: Transaction, original: Bytes, io: Io)
    requires FairWorld(w) && PrefixLaw(w.env.crc) && StoreOk(w, st) && !st.db.journal.poisoned
    requires Answers(w, st, r, original) && t.ingress == Some(r.identity) && r.identity.sourceId != 0
    requires EncodeCanonical(w.env, t.records) == Some(original)
    ensures Perform(w.env, w.cfg, st.db, CommitTransaction(t), io)
         == (st.db, Done(Replayed(st.db, r).(durable := true, deduplicated := true)))
  {
    hide Replay, HandleInv, EncodeCanonical, Perform, StandsFor, Lawful, CatalogEnv, Quiet, PrefixLaw, SyncedIds;
    var k := KeyOf(r.identity);
    SyncedIdsExtend(w, st);
    StandsForGrows(w.env, Synced(st.db), st.db.journal.log, SyncedIds(w, st).ingress[k], original);
    IngressRetry(In(w, st), st.db, r.identity, t.records, t.commitId, original, io);
    assert DurableThrough(st.db.durable, r.identity.sourceId, r.identity.sequence);
    assert t == Transaction(t.records, t.commitId, Some(r.identity));
  }

  // ---- Retries under a commit identifier ----

  // An identifier known durably, with a receipt that stands for `original`.
  ghost predicate IdentifiedAnswers(w: World, st: Store, c: u128, original: Bytes) {
    && st.db.journal.synced <= |st.db.journal.log|
    && c in SyncedIds(w, st).identified
    && IdentifiedStandsFor(w.env, Synced(st.db), c, SyncedIds(w, st).identified[c], original)
  }

  lemma IdentifiedStandsForGrows(env: Env, log: seq<Frame>, longer: seq<Frame>, c: u128, r: IdentifiedReceipt, original: Bytes)
    requires IdentifiedStandsFor(env, log, c, r, original) && log <= longer
    ensures IdentifiedStandsFor(env, longer, c, r, original)
  {
    hide LogBytes, FromLE;
    if IdentifiedCompact(env, r) && r.compact == Some(original) {
    } else {
      var i: nat :| IdentifiedBacked(env, log, i, c, r) && log[i].payload == original;
      assert longer[..i] == log[..i] && longer[i] == log[i];
      assert IdentifiedBacked(env, longer, i, c, r);
    }
  }

  lemma RewriteKeepsIdentified(w: World, st: Store, step: Step, after: Handle, c: u128, original: Bytes)
    requires FairWorld(w) && StoreOk(w, st) && Enabled(w, st, step) && Rewrites(step, after)
    requires IdentifiedAnswers(w, st, c, original) && SyncedIds(w, st) == st.db.memory.ids
    requires IdentitiesPreserved(w.env, st.db.journal.log, st.db.memory.ids, after.memory.ids)
    requires after.journal.synced == |after.journal.log|
    ensures c in after.memory.ids.identified
    ensures IdentifiedStandsFor(w.env, Synced(after), c, after.memory.ids.identified[c], original)
  {
    hide Replay, HandleInv, Lawful, CatalogEnv, SyncedIds, IngressPreserved, IdentifiedPreserved, IdentifiedStandsFor,
      CompactsTo, OpensOn, Quiet, CheckpointFrame;
    assert Synced(st.db) == st.db.journal.log && Synced(after) == after.journal.log;
    IdentifiedStillStands(In(w, st), st.db, after.journal.log, c, st.db.memory.ids.identified[c],
                          after.memory.ids.identified[c], original);
  }

  lemma StepKeepsIdentified(w: World, st: Store, step: Step, c: u128, original: Bytes)
    requires FairWorld(w) && StoreOk(w, st) && Enabled(w, st, step) && IdentifiedAnswers(w, st, c, original)
    ensures IdentifiedAnswers(w, Next(w, st, step), c, original)
  {
    hide StoreOk, Enabled, Lawful, CatalogEnv, SyncedIds, SameHistory, IngressPreserved, IdentifiedPreserved,
      IdentifiedStandsFor, After, LiveOf;
    var next := Next(w, st, step);
    match step {
      case Ran(e) =>
        EventAllowed(w, st, e);
        EventKeepsIds(w, st, e);
        EventQuiet(w, st, e);
        IdentifiedStandsForGrows(w.env, Synced(st.db), Synced(next.db), c, SyncedIds(w, st).identified[c], original);
      case Published(g, n) =>
        PublishKeepsIds(w, st, g, n);
      case Reclaimed(after) =>
        ReclaimSteps(w, st, after);
        RewrittenIds(w, st, step, after);
        RewriteKeepsIdentified(w, st, step, after, c, original);
      case Sealed(g, n, after) =>
        SealSteps(w, st, g, n, after);
        RewrittenIds(w, st, step, after);
        RewriteKeepsIdentified(w, st, step, after, c, original);
      case ReclaimFailed =>
        FailedReclaimSteps(w, st);
        assert Synced(next.db) == Synced(st.db);
    }
  }

  lemma {:induction false} IdentifiedKept(w: World, states: seq<Store>, steps: seq<Step>, i: nat, k: nat, c: u128,
                                          original: Bytes)
    requires FairWorld(w) && IsLife(w, states, steps) && i <= k <= |steps|
    requires IdentifiedAnswers(w, states[i], c, original)
    ensures IdentifiedAnswers(w, states[k], c, original)
    decreases k
  {
    hide StoreOk, Enabled, Next, FairWorld, IsLife, IdentifiedAnswers;
    LifeLength(w, states, steps);
    if i < k {
      IdentifiedKept(w, states, steps, i, k - 1, c, original);
      LifeKeeps(w, states, steps, k - 1);
      LifeStep(w, states, steps, k - 1);
      StepKeepsIdentified(w, states[k - 1], steps[k - 1], c, original);
    }
  }

  // A durable commit that was written is known durably, with a receipt for its bytes.
  lemma DurableIdentifiedAnswers(w: World, st: Store, c: u128, t: Transaction, io: Io)
    requires FairWorld(w) && StoreOk(w, st) && t.ingress.None? && t.commitId == Some(c) && t.records != []
    requires var reply := Perform(w.env, w.cfg, st.db, CommitTransaction(t), io).1;
             reply.Done? && reply.commit.durable && !reply.commit.deduplicated
    ensures EncodeCanonical(w.env, t.records).Some?
    ensures var after := Perform(w.env, w.cfg, st.db, CommitTransaction(t), io).0;
            IdentifiedAnswers(w, st.(db := after), c, TagBytes(Identified(c)) + EncodeCanonical(w.env, t.records).value)
  {
    hide Replay, HandleInv, EncodeCanonical, Perform, PointsOf, LogBytes, Lawful, CatalogEnv, TagBytes, Quiet,
      IdentifiedStandsFor, TaggedFrame;
    var s, call := In(w, st), CommitTransaction(t);
    var after := Perform(w.env, w.cfg, st.db, call, io).0;
    IdentifiedWritten(s, st.db, c, t, io);
    DurableReplyShown(w, st, call, io);
    GoodParts(s, after);
    assert Synced(after) == after.journal.log;
    WrittenIdentified(w.env, st.db.journal.log, c, t.records, EncodeCanonical(w.env, t.records).value,
                      after.memory.ids.identified[c]);
  }

  lemma WrittenIdentified(env: Env, log: seq<Frame>, c: u128, records: seq<Record>, canonical: Bytes, r: IdentifiedReceipt)
    requires Lawful(env) && EncodeCanonical(env, records) == Some(canonical) && |records| <= U32_MAX
    requires var payload := TagBytes(Identified(c)) + canonical;
             r == IdentifiedReceipt(EndOffset(log) + FRAME_HEADER_BYTES, |payload|, env.crc(payload), None, EndOffset(log),
                                    |PointsOf(records)|, |records|, FRAME_HEADER_BYTES + |payload|)
    ensures IdentifiedStandsFor(env, log + [TaggedFrame(Identified(c), records, canonical)], c, r,
                                TagBytes(Identified(c)) + canonical)
  {
    hide LogBytes, EncodeCanonical, PointsOf, FromLE, LE;
    var f := TaggedFrame(Identified(c), records, canonical);
    var more := log + [f];
    assert more[|log|] == f && more[..|log|] == log;
    ReadTagOfTagBytes(Identified(c), canonical);
    TransactionRoundTrip(env, records);
    assert IdentifiedBacked(env, more, |log|, c, r) && more[|log|].payload == TagBytes(Identified(c)) + canonical;
  }

  /**
  After a commit under an identifier was reported durable, at any later point of the life the same
  transaction under it writes nothing and is reported as a duplicate, and every other one is refused.
  Only a checksum collision can turn the refusal into a poisoned handle.
  */
  lemma IdentifiedForLife(w: World, states: seq<Store>, steps: seq<Step>, i: nat, k: nat, c: u128, t: Transaction, io: Io,
                          u: Transaction, again: Io)
    requires FairWorld(w) && IsLife(w, states, steps) && i < k <= |steps|
    requires steps[i] == Ran(Called(CommitTransaction(t), io))
    requires t.ingress.None? && t.commitId == Some(c) && t.records != []
    requires var reply := Perform(w.env, w.cfg, states[i].db, CommitTransaction(t), io).1;
             reply.Done? && reply.commit.durable && !reply.commit.deduplicated
    requires u.ingress.None? && u.commitId == Some(c) && EncodeCanonical(w.env, u.records).Some?
    requires !states[k].db.journal.poisoned
    ensures EncodeCanonical(w.env, t.records).Some?
    ensures var db := states[k].db;
            var a := TagBytes(Identified(c)) + EncodeCanonical(w.env, t.records).value;
            var b := TagBytes(Identified(c)) + EncodeCanonical(w.env, u.records).value;
            var (after, reply) := Perform(w.env, w.cfg, db, CommitTransaction(u), again);
            && (a == b ==> after == db && reply == Done(NothingWritten(db, true)))
            && (a != b ==>
                  || (after == db && reply == Fail(IngressCommitIdConflict(c)))
                  || (&& after == db.(journal := db.journal.(poisoned := true)) && reply == Fail(Corruption)
                      && |a| == |b| && w.env.crc(a) == w.env.crc(b)))
  {
    hide StoreOk, Enabled, Lawful, CatalogEnv, IsLife, IdentifiedAnswers, Perform, EncodeCanonical, TagBytes;
    LifeLength(w, states, steps);
    LifeKeeps(w, states, steps, i);
    LifeKeeps(w, states, steps, k);
    LifeStep(w, states, steps, i);
    DurableIdentifiedAnswers(w, states[i], c, t, io);
    var a := TagBytes(Identified(c)) + EncodeCanonical(w.env, t.records).value;
    IdentifiedKept(w, states, steps, i + 1, k, c, a);
    IdentifiedAnswered(w, states[k], c, u, a, again);
  }

  lemma IdentifiedAnswered(w: World, st: Store, c: u128, u: Transaction, original: Bytes, io: Io)
    requires StoreOk(w, st) && !st.db.journal.poisoned && IdentifiedAnswers(w, st, c, original)
    requires u.ingress.None? && u.commitId == Some(c) && EncodeCanonical(w.env, u.records).Some?
    ensures var db, b := st.db, TagBytes(Identified(c)) + EncodeCanonical(w.env, u.records).value;
            var (after, reply) := Perform(w.env, w.cfg, db, CommitTransaction(u), io);
            && (original == b ==> after == db && reply == Done(NothingWritten(db, true)))
            && (original != b ==>
                  || (after == db && reply == Fail(IngressCommitIdConflict(c)))
                  || (&& after == db.(journal := db.journal.(poisoned := true)) && reply == Fail(Corruption)
                      && |original| == |b| && w.env.crc(original) == w.env.crc(b)))
  {
    hide Replay, HandleInv, EncodeCanonical, Perform, IdentifiedStandsFor, Quiet, SyncedIds, TagBytes;
    SyncedIdsExtend(w, st);
    IdentifiedStandsForGrows(w.env, Synced(st.db), st.db.journal.log, c, SyncedIds(w, st).identified[c], original);
    IdentifiedRetry(In(w, st), st.db, c, u.records, original, io);
    assert u == Transaction(u.records, Some(c), None);
  }
}

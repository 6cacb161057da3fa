/**
When the scan of a compact log succeeds.

The writer scans the compact log before it replaces the old one. Every receipt of an accepted
log can be written back and read again (`LogSoundReceipts`), so the scan can fail only on the
live points: `CompactLogReplaysIff` says it succeeds exactly when the catalog defines the
series and run of every live point. Points appended raw are not checked against the catalog,
so this can fail: `RawPointsBlockReclaim`.
*/
module ReclaimScan {
  import opened ByteCodec
  import opened StableSorting
  import opened Model
  import opened TransactionCodec
  import opened LogFrame
  import opened FramedLog
  import opened StorageLog
  import opened PointIndex
  import opened Receipts
  import opened ExactlyOnce
  import opened IdentityFrames
  import opened CatalogRules
  import opened DatabaseModel
  import opened DatabaseRuns
  import opened Reclaim

  // ---- Receipts that can be written back ----

  predicate IdentifiedPayloadOk(env: Env, c: u128, r: IdentifiedReceipt, p: Bytes) {
    && |p| >= COMMIT_ID_BYTES && ReadU128(p, 0) == c
    && CompactTransactionOk(env, p[COMMIT_ID_BYTES..], r.records, r.points)
  }

  ghost predicate IdentifiedSound(env: Env, log: seq<Frame>, c: u128, r: IdentifiedReceipt) {
    && r.payloadLen >= COMMIT_ID_BYTES + TRANSACTION_HEADER_BYTES
    && (r.compact.Some? ==> IdentifiedPayloadOk(env, c, r, r.compact.value))
    && (r.payloadOffset != 0 ==>
          exists i: nat :: IdentifiedBacked(env, log, i, c, r) && IdentifiedPayloadOk(env, c, r, log[i].payload))
  }

  ghost predicate IngressSound(env: Env, log: seq<Frame>, r: IngressReceipt) {
    && r.payloadLen >= TRANSACTION_HEADER_BYTES
    && (r.compact.Some? ==> CompactTransactionOk(env, r.compact.value, r.records, r.points))
    && (r.payloadOffset != 0 ==>
          exists i: nat ::
            IngressBacked(env, log, i, r)
            && CompactTransactionOk(env, log[i].payload[INGRESS_IDENTITY_BYTES..], r.records, r.points))
  }

  ghost predicate AllSound(env: Env, log: seq<Frame>, ids: Identities) {
    && (forall c <- ids.identified :: IdentifiedSound(env, log, c, ids.identified[c]))
    && (forall k <- ids.ingress :: IngressSound(env, log, ids.ingress[k]))
  }

  lemma IdentifiedSoundGrows(env: Env, log: seq<Frame>, f: Frame, c: u128, r: IdentifiedReceipt)
    requires IdentifiedSound(env, log, c, r)
    ensures IdentifiedSound(env, log + [f], c, r)
  {
    hide IdentifiedPayloadOk, LogBytes, FromLE;
    if r.payloadOffset != 0 {
      var i: nat :| IdentifiedBacked(env, log, i, c, r) && IdentifiedPayloadOk(env, c, r, log[i].payload);
      assert (log + [f])[..i] == log[..i];
      assert IdentifiedBacked(env, log + [f], i, c, r);
    }
  }

  lemma IngressSoundGrows(env: Env, log: seq<Frame>, f: Frame, r: IngressReceipt)
    requires IngressSound(env, log, r)
    ensures IngressSound(env, log + [f], r)
  {
    hide CompactTransactionOk, LogBytes, ReadTag;
    if r.payloadOffset != 0 {
      var i: nat :| IngressBacked(env, log, i, r)
                    && CompactTransactionOk(env, log[i].payload[INGRESS_IDENTITY_BYTES..], r.records, r.points);
      assert (log + [f])[..i] == log[..i];
      assert IngressBacked(env, log + [f], i, r);
    }
  }

  lemma AllSoundGrows(env: Env, log: seq<Frame>, f: Frame, ids: Identities)
    requires AllSound(env, log, ids)
    ensures AllSound(env, log + [f], ids)
  {
    hide IdentifiedSound, IngressSound;
    forall c <- ids.identified ensures IdentifiedSound(env, log + [f], c, ids.identified[c]) {
      IdentifiedSoundGrows(env, log, f, c, ids.identified[c]);
    }
    forall k <- ids.ingress ensures IngressSound(env, log + [f], ids.ingress[k]) {
      IngressSoundGrows(env, log, f, ids.ingress[k]);
    }
  }

  lemma {:induction false} CompactIdentifiedSound(env: Env, log: seq<Frame>, ids: Identities,
                                                  rs: seq<CompactIdentified>, offset: nat)
    requires AllSound(env, log, ids) && ApplyCompactIdentified(env, ids, rs, offset).Some?
    ensures AllSound(env, log, ApplyCompactIdentified(env, ids, rs, offset).value)
  {
    if rs != [] {
      hide CompactTransactionOk, FromLE;
      CompactIdentifiedSound(env, log, ids, rs[..|rs| - 1], offset);
    }
  }

  lemma {:induction false} CompactIngressSound(env: Env, log: seq<Frame>, ids: Identities, rs: seq<CompactIngress>)
    requires AllSound(env, log, ids) && ApplyCompactIngress(env, ids, rs).Some?
    ensures AllSound(env, log, ApplyCompactIngress(env, ids, rs).value)
  {
    if rs != [] {
      hide CompactTransactionOk;
      CompactIngressSound(env, log, ids, rs[..|rs| - 1]);
    }
  }

  // Points that pass the catalog are valid points.
  lemma {:induction false} AppliedPointsOk(c: Catalog, rs: seq<Record>)
    requires AllPointsKnown(c, rs)
    ensures PointsOk(PointsOf(rs))
  {
    if rs != [] {
      AppliedPointsOk(c, rs[..|rs| - 1]);
      assert rs[|rs| - 1] in rs;
    }
  }

  lemma TransactionOk(env: Env, zones: set<string>, c: Catalog, payload: Bytes, items: nat, rs: seq<Record>)
    requires CatalogEnv(env, zones) && DecodeTransaction(env, payload, items) == Some(rs)
    requires env.apply(c, rs).Some?
    ensures CompactTransactionOk(env, payload, items, |PointsOf(rs)|) && |rs| == items
  {
    hide DecodeRecords, PointsOf, PointsOk, AllPointsKnown, ApplyEach, ReferencesOk;
    assert env.apply(c, rs) == ApplyRecords(zones, c, rs);
    AppliedPointsOk(ApplyRecords(zones, c, rs).value, rs);
    DecodedCount(env, payload[TRANSACTION_HEADER_BYTES..], items);
  }

  lemma IdentifiedTagSound(env: Env, log: seq<Frame>, f: Frame, c: u128, r: IdentifiedReceipt)
    requires IdentifiedBacked(env, log + [f], |log|, c, r) && IdentifiedPayloadOk(env, c, r, f.payload)
    ensures IdentifiedSound(env, log + [f], c, r)
  {
    hide IdentifiedPayloadOk, LogBytes;
    assert (log + [f])[|log|] == f;
  }

  lemma IngressTagSound(env: Env, log: seq<Frame>, f: Frame, r: IngressReceipt)
    requires IngressBacked(env, log + [f], |log|, r)
    requires CompactTransactionOk(env, f.payload[INGRESS_IDENTITY_BYTES..], r.records, r.points)
    ensures IngressSound(env, log + [f], r)
  {
    hide CompactTransactionOk, LogBytes;
    assert (log + [f])[|log|] == f;
  }

  lemma TagSound(env: Env, log: seq<Frame>, ids: Identities, f: Frame, tag: Tag, rs: seq<Record>)
    requires f.kind == KIND_IDENTIFIED ==> |f.payload| >= COMMIT_ID_BYTES
    requires f.kind == KIND_INGRESS ==> |f.payload| >= INGRESS_IDENTITY_BYTES
    requires tag == ReadTag(f.kind, f.payload) && f.items == |rs|
    requires |f.payload| >= |TagBytes(tag)| + TRANSACTION_HEADER_BYTES
    requires CompactTransactionOk(env, f.payload[|TagBytes(tag)|..], f.items, |PointsOf(rs)|)
    requires AllSound(env, log + [f], ids)
    ensures AllSound(env, log + [f], RecordTag(env, ids, tag, f.payload, rs, EndOffset(log)))
  {
    hide LogBytes, FromLE, LE, IdentifiedSound, IngressSound, CompactTransactionOk;
    var more := log + [f];
    assert more[|log|] == f && more[..|log|] == log;
    var after := RecordTag(env, ids, tag, f.payload, rs, EndOffset(log));
    match tag
    case Untagged =>
    case Identified(c) => IdentifiedTagSound(env, log, f, c, after.identified[c]);
    case Ingress(identity) =>
      assert |TagBytes(tag)| == INGRESS_IDENTITY_BYTES;
      IngressTagSound(env, log, f, after.ingress[KeyOf(identity)]);
  }

  lemma FrameSound(env: Env, cfg: Config, seals: set<u64>, zones: set<string>, st: LogState, log: seq<Frame>, f: Frame)
    requires CatalogEnv(env, zones) && AllSound(env, log, st.ids)
    requires ApplyFrame(env, cfg, seals, st, f, EndOffset(log)).Accept?
    ensures AllSound(env, log + [f], ApplyFrame(env, cfg, seals, st, f, EndOffset(log)).value.ids)
  {
    hide AllSound, RecordTag, ApplyCompactIdentified, ApplyCompactIngress, TagRefusal, ReadTag, TagBytes,
      DecodeTransaction, LogBytes, FromLE, CompactTransactionOk, CatalogEnv, PointsOf;
    AllSoundGrows(env, log, f, st.ids);
    var more, offset := log + [f], EndOffset(log);
    if f.kind == KIND_IDENTITY_INDEX {
      var index := env.decodeIndex(f.payload).value;
      CompactIdentifiedSound(env, more, st.ids, index.identified, offset);
      CompactIngressSound(env, more, ApplyCompactIdentified(env, st.ids, index.identified, offset).value, index.ingress);
    } else if f.kind != KIND_LEGACY_POINTS && f.kind != KIND_SEAL_CHECKPOINT {
      var tag := ReadTag(f.kind, f.payload);
      var payload := f.payload[|TagBytes(tag)|..];
      var rs := DecodeTransaction(env, payload, f.items).value;
      TransactionOk(env, zones, st.catalog, payload, f.items, rs);
      DecodedLength(env, payload, f.items);
      TagSound(env, log, st.ids, f, tag, rs);
    }
  }

  lemma DecodedLength(env: Env, payload: Bytes, items: nat)
    requires DecodeTransaction(env, payload, items).Some?
    ensures |payload| >= TRANSACTION_HEADER_BYTES
  {
  }

  // Every receipt of an accepted log stands for a transaction that decodes to what the receipt says.
  lemma {:induction false} LogSoundReceipts(env: Env, cfg: Config, seals: set<u64>, zones: set<string>, log: seq<Frame>)
    requires CatalogEnv(env, zones) && Replay(LogSemantics(env, cfg, seals), log).Some?
    ensures AllSound(env, log, Replay(LogSemantics(env, cfg, seals), log).value.ids)
  {
    hide ApplyFrame, IdentifiedSound, IngressSound, LogBytes, CatalogEnv;
    if log != [] {
      var front, last := log[..|log| - 1], log[|log| - 1];
      LogSoundReceipts(env, cfg, seals, zones, front);
      var st := Replay(LogSemantics(env, cfg, seals), front).value;
      assert LogSemantics(env, cfg, seals).apply(st, last, EndOffset(front))
          == ApplyFrame(env, cfg, seals, st, last, EndOffset(front));
      FrameSound(env, cfg, seals, zones, st, front, last);
      assert front + [last] == log;
    }
  }

  // ---- Their compact forms are accepted ----

  // A receipt points at one frame.
  lemma {:induction false} OffsetsIncrease(log: seq<Frame>, i: nat, j: nat)
    requires i < j <= |log|
    ensures EndOffset(log[..i]) < EndOffset(log[..j])
    decreases j
  {
    assert log[..j][..j - 1] == log[..j - 1];
    if i < j - 1 {
      OffsetsIncrease(log, i, j - 1);
    }
  }

  lemma SameOffset(log: seq<Frame>, i: nat, j: nat)
    requires i <= |log| && j <= |log| && EndOffset(log[..i]) == EndOffset(log[..j])
    ensures i == j
  {
    hide LogBytes;
    if i < j {
      OffsetsIncrease(log, i, j);
    } else if j < i {
      OffsetsIncrease(log, j, i);
    }
  }

  lemma IdentifiedWritesBack(env: Env, log: seq<Frame>, c: u128, r: IdentifiedReceipt, x: CompactIdentified)
    requires IdentifiedSound(env, log, c, r) && IdentifiedCompacted(env, log, c, r, x)
    ensures CompactIdentifiedOk(env, x)
  {
    hide LogBytes, FromLE, CompactTransactionOk;
    if x.payload != [] && !(IdentifiedCompact(env, r) && r.compact == Some(x.payload)) {
      var j: nat :| IdentifiedBacked(env, log, j, c, r) && log[j].payload == x.payload;
      var i: nat :| IdentifiedBacked(env, log, i, c, r) && IdentifiedPayloadOk(env, c, r, log[i].payload);
      SameOffset(log, i, j);
    }
  }

  lemma IngressWritesBack(env: Env, log: seq<Frame>, r: IngressReceipt, x: CompactIngress)
    requires IngressSound(env, log, r) && IngressCompacted(env, log, r, x)
    ensures CompactIngressOk(env, x)
  {
    hide LogBytes, FromLE, CompactTransactionOk, ReadTag;
    if x.payload != [] && !(IngressCompact(env, r) && r.compact == Some(x.payload)) {
      var j: nat :| IngressBacked(env, log, j, r) && log[j].payload[INGRESS_IDENTITY_BYTES..] == x.payload;
      var i: nat :| IngressBacked(env, log, i, r)
                    && CompactTransactionOk(env, log[i].payload[INGRESS_IDENTITY_BYTES..], r.records, r.points);
      SameOffset(log, i, j);
    }
  }

  // ---- An index in order is accepted ----

  function AppliedByIndex(index: IdentityIndex): seq<Applied> {
    AppliedIdentified(index.identified) + AppliedIngress(index.ingress)
  }

  ghost predicate ReceiptsOk(env: Env, index: IdentityIndex) {
    && (forall r <- index.identified :: CompactIdentifiedOk(env, r))
    && (forall r <- index.ingress :: CompactIngressOk(env, r) && r.identity.sourceId != 0)
  }

  lemma AppliedOncePrefix(applied: seq<Applied>, more: seq<Applied>)
    requires AppliedOnce(applied + more)
    ensures AppliedOnce(applied)
  {
    var all := applied + more;
    assert forall i :: 0 <= i < |applied| ==> all[i] == applied[i];
  }

  lemma {:induction false} IdentifiedListApplies(env: Env, ids: Identities, applied: seq<Applied>,
                                                 rs: seq<CompactIdentified>, offset: nat)
    requires Kept(ids, applied) && AppliedOnce(applied + AppliedIdentified(rs))
    requires forall r <- rs :: CompactIdentifiedOk(env, r)
    ensures ApplyCompactIdentified(env, ids, rs, offset).Some?
  {
    hide CompactIdentifiedOk, RecordIdentified, IdsOk;
    if rs != [] {
      var front, last := rs[..|rs| - 1], rs[|rs| - 1];
      var before := applied + AppliedIdentified(front);
      var x := Applied(last.commitId, None);
      assert applied + AppliedIdentified(rs) == before + [x];
      AppliedOncePrefix(before, [x]);
      IdentifiedListApplies(env, ids, applied, front, offset);
      CompactIdentifiedKept(env, ids, applied, front, offset);
      assert last in rs;
      forall i | 0 <= i < |before| ensures before[i].commitId != last.commitId {
        assert (before + [x])[i] == before[i] && (before + [x])[|before|] == x;
      }
    }
  }

  lemma IngressNotRefused(ids: Identities, applied: seq<Applied>, identity: IngressIdentity)
    requires Kept(ids, applied) && identity.sourceId != 0
    requires AppliedOnce(applied + [Applied(identity.commitId, Some(KeyOf(identity)))])
    ensures IngressRefusal(ids, identity).None?
  {
    hide CommitIdsSplit, CursorsNamed;
    var x := Applied(identity.commitId, Some(KeyOf(identity)));
    var all := applied + [x];
    assert all[|applied|] == x;
    forall i | 0 <= i < |applied|
      ensures applied[i].commitId != identity.commitId
      ensures applied[i].cursor.Some? && applied[i].cursor.value.sourceId == identity.sourceId ==>
                applied[i].cursor.value.sequence < identity.sequence
    {
      assert all[i] == applied[i];
    }
    forall k <- ids.ingress | k.sourceId == identity.sourceId ensures k.sequence < identity.sequence {
      var y := Applied(ids.ingress[k].identity.commitId, Some(k));
      assert y in applied;
      var i :| 0 <= i < |applied| && applied[i] == y;
    }
    if identity.sourceId in ids.lastSequences {
      assert IngressKey(identity.sourceId, ids.lastSequences[identity.sourceId]) in ids.ingress;
    }
  }

  lemma {:induction false} IngressListApplies(env: Env, ids: Identities, applied: seq<Applied>, rs: seq<CompactIngress>)
    requires Kept(ids, applied) && AppliedOnce(applied + AppliedIngress(rs))
    requires forall r <- rs :: CompactIngressOk(env, r) && r.identity.sourceId != 0
    ensures ApplyCompactIngress(env, ids, rs).Some?
  {
    hide CompactIngressOk, RecordIngress, Kept, IngressRefusal, AppliedOnce;
    if rs != [] {
      var front, last := rs[..|rs| - 1], rs[|rs| - 1];
      var before := applied + AppliedIngress(front);
      var x := Applied(last.identity.commitId, Some(KeyOf(last.identity)));
      assert applied + AppliedIngress(rs) == before + [x];
      AppliedOncePrefix(before, [x]);
      IngressListApplies(env, ids, applied, front);
      CompactIngressKept(env, ids, applied, front);
      assert last in rs;
      IngressNotRefused(ApplyCompactIngress(env, ids, front).value, before, last.identity);
    }
  }

  lemma IndexFrameApplies(env: Env, cfg: Config, st: LogState, applied: seq<Applied>, chunk: IdentityIndex, offset: nat)
    requires Lawful(env) && Kept(st.ids, applied) && ReceiptsOk(env, chunk)
    requires AppliedOnce(applied + AppliedByIndex(chunk))
    requires Admissible(LogFormat(env, cfg), Frame(KIND_IDENTITY_INDEX, 0, env.encodeIndex(chunk)))
    ensures ApplyFrame(env, cfg, {}, st, Frame(KIND_IDENTITY_INDEX, 0, env.encodeIndex(chunk)), offset).Accept?
  {
    hide Kept, AppliedOnce, ApplyCompactIdentified, ApplyCompactIngress, CompactIdentifiedOk, CompactIngressOk;
    assert env.decodeIndex(env.encodeIndex(chunk)) == Some(chunk);
    var a, b := AppliedIdentified(chunk.identified), AppliedIngress(chunk.ingress);
    assert applied + AppliedByIndex(chunk) == (applied + a) + b;
    AppliedOncePrefix(applied + a, b);
    IdentifiedListApplies(env, st.ids, applied, chunk.identified, offset);
    CompactIdentifiedKept(env, st.ids, applied, chunk.identified, offset);
    var mid := ApplyCompactIdentified(env, st.ids, chunk.identified, offset).value;
    IngressListApplies(env, mid, applied + a, chunk.ingress);
  }

  function AppliedByChunks(chunks: seq<IdentityIndex>): seq<Applied> {
    if chunks == [] then [] else AppliedByChunks(chunks[..|chunks| - 1]) + AppliedByIndex(chunks[|chunks| - 1])
  }

  lemma AppliedJoins(a: seq<CompactIdentified>, b: seq<CompactIdentified>, c: seq<CompactIngress>, d: seq<CompactIngress>)
    ensures AppliedIdentified(a + b) == AppliedIdentified(a) + AppliedIdentified(b)
    ensures AppliedIngress(c + d) == AppliedIngress(c) + AppliedIngress(d)
  {
  }

  lemma MiddleEmpty(a: seq<Applied>, b: seq<Applied>, c: seq<Applied>, d: seq<Applied>)
    requires b == [] || c == []
    ensures (a + b) + (c + d) == (a + c) + (b + d)
  {
  }

  // Split with the identified receipts first, the chunks apply what the whole index does, in the same order.
  lemma {:induction false} ChunksApplyIndex(chunks: seq<IdentityIndex>)
    requires IdentifiedFirst(chunks)
    ensures AppliedByChunks(chunks) == AppliedIdentified(JoinIdentified(chunks)) + AppliedIngress(JoinIngress(chunks))
  {
    hide AppliedIdentified, AppliedIngress;
    if chunks == [] {
      NothingApplied();
    } else {
      var front, last := chunks[..|chunks| - 1], chunks[|chunks| - 1];
      ChunksApplyIndex(front);
      AppliedJoins(JoinIdentified(front), last.identified, JoinIngress(front), last.ingress);
      NothingApplied();
      if last.identified != [] {
        NoIngressBefore(front);
      }
      MiddleEmpty(AppliedIdentified(JoinIdentified(front)), AppliedIngress(JoinIngress(front)),
                  AppliedIdentified(last.identified), AppliedIngress(last.ingress));
    }
  }

  lemma NothingApplied()
    ensures AppliedIdentified([]) == [] && AppliedIngress([]) == []
  {
  }

  lemma {:induction false} NoIngressBefore(chunks: seq<IdentityIndex>)
    requires forall c <- chunks :: c.ingress == []
    ensures JoinIngress(chunks) == []
  {
    if chunks != [] {
      assert chunks[|chunks| - 1] in chunks;
      NoIngressBefore(chunks[..|chunks| - 1]);
    }
  }

  lemma {:induction false} ChunksReplay(env: Env, cfg: Config, log: seq<Frame>, chunks: seq<IdentityIndex>)
    requires Lawful(env) && Replay(LogSemantics(env, cfg, {}), log).Some?
    requires AllAdmissible(LogFormat(env, cfg), log + IndexFrames(env, chunks))
    requires AppliedOnce(AppliedIn(env, log) + AppliedByChunks(chunks))
    requires forall c <- chunks :: ReceiptsOk(env, c)
    ensures Replay(LogSemantics(env, cfg, {}), log + IndexFrames(env, chunks)).Some?
  {
    hide Replay, AppliedOnce, ReceiptsOk, Lawful, Admissible, AppliedIn, AppliedByIndex;
    if chunks == [] {
      assert log + IndexFrames(env, chunks) == log;
    } else {
      var front, last := chunks[..|chunks| - 1], chunks[|chunks| - 1];
      var shorter, f := log + IndexFrames(env, front), Frame(KIND_IDENTITY_INDEX, 0, env.encodeIndex(last));
      var all := shorter + [f];
      assert log + IndexFrames(env, chunks) == all;
      assert forall g <- shorter :: g in all;
      assert f in all && last in chunks;
      var applied := AppliedIn(env, log) + AppliedByChunks(front);
      assert AppliedIn(env, log) + AppliedByChunks(chunks) == applied + AppliedByIndex(last);
      AppliedOncePrefix(applied, AppliedByIndex(last));
      ChunksReplay(env, cfg, log, front);
      AppliedInChunks(env, log, front);
      ChunkReplays(env, cfg, shorter, applied, last);
    }
  }

  // One index frame more.
  lemma ChunkReplays(env: Env, cfg: Config, log: seq<Frame>, applied: seq<Applied>, chunk: IdentityIndex)
    requires Lawful(env) && Replay(LogSemantics(env, cfg, {}), log).Some? && applied == AppliedIn(env, log)
    requires Admissible(LogFormat(env, cfg), Frame(KIND_IDENTITY_INDEX, 0, env.encodeIndex(chunk)))
    requires AppliedOnce(applied + AppliedByIndex(chunk)) && ReceiptsOk(env, chunk)
    ensures Replay(LogSemantics(env, cfg, {}), log + [Frame(KIND_IDENTITY_INDEX, 0, env.encodeIndex(chunk))]).Some?
  {
    hide ApplyFrame, LogBytes, AppliedOnce, ReceiptsOk, Lawful, Admissible, AppliedByIndex, AppliedIn, CommitIdsSplit,
      CursorsNamed, WatermarksGreatest, Records;
    var sem, f := LogSemantics(env, cfg, {}), Frame(KIND_IDENTITY_INDEX, 0, env.encodeIndex(chunk));
    LogAppliesOnce(env, cfg, {}, log);
    var st := Replay(sem, log).value;
    IndexFrameApplies(env, cfg, st, applied, chunk, EndOffset(log));
    assert sem.apply(st, f, EndOffset(log)) == ApplyFrame(env, cfg, {}, st, f, EndOffset(log));
    assert (log + [f])[..|log|] == log;
  }

  lemma IndexFrameApplied(env: Env, chunk: IdentityIndex)
    requires Lawful(env)
    ensures AppliedBy(env, Frame(KIND_IDENTITY_INDEX, 0, env.encodeIndex(chunk))) == AppliedByIndex(chunk)
  {
    hide AppliedIdentified, AppliedIngress, ReadTag;
    assert env.decodeIndex(env.encodeIndex(chunk)) == Some(chunk);
  }

  lemma {:induction false} AppliedInChunks(env: Env, log: seq<Frame>, chunks: seq<IdentityIndex>)
    requires Lawful(env)
    ensures AppliedIn(env, log + IndexFrames(env, chunks)) == AppliedIn(env, log) + AppliedByChunks(chunks)
  {
    hide AppliedBy, AppliedByIndex, Lawful;
    if chunks == [] {
      assert log + IndexFrames(env, chunks) == log;
      assert AppliedIn(env, log) + [] == AppliedIn(env, log);
    } else {
      var front, last := chunks[..|chunks| - 1], chunks[|chunks| - 1];
      AppliedInChunks(env, log, front);
      var shorter, f := log + IndexFrames(env, front), Frame(KIND_IDENTITY_INDEX, 0, env.encodeIndex(last));
      assert log + IndexFrames(env, chunks) == shorter + [f];
      assert (shorter + [f])[..|shorter|] == shorter;
      IndexFrameApplied(env, last);
      var a, b, c := AppliedIn(env, log), AppliedByChunks(front), AppliedByIndex(last);
      assert (a + b) + c == a + (b + c);
    }
  }

  // ---- The receipts of a log, listed in order ----

  // No receipt twice, and each source's sequences increasing.
  ghost predicate InOrder(index: IdentityIndex) {
    && (forall i, j :: 0 <= i < j < |index.identified| ==> index.identified[i].commitId != index.identified[j].commitId)
    && (forall i, j :: 0 <= i < j < |index.ingress| ==> CursorBefore(index.ingress[i].identity, index.ingress[j].identity))
  }

  predicate CursorBefore(a: IngressIdentity, b: IngressIdentity) {
    KeyOf(a) != KeyOf(b) && (a.sourceId == b.sourceId ==> a.sequence < b.sequence)
  }

  lemma IngressIdsDistinct(env: Env, log: seq<Frame>, ids: Identities, index: IdentityIndex, i: nat, j: nat)
    requires CursorsNamed(ids) && Compacts(env, log, ids, index)
    requires i < j < |index.ingress| && CursorBefore(index.ingress[i].identity, index.ingress[j].identity)
    ensures index.ingress[i].identity.commitId != index.ingress[j].identity.commitId
  {
    hide StandsFor, IdentifiedCompacted, Forgotten;
    var a, b := index.ingress[i], index.ingress[j];
    assert a in index.ingress && b in index.ingress;
    assert ids.ingressIds[a.identity.commitId] == KeyOf(a.identity);
    assert ids.ingressIds[b.identity.commitId] == KeyOf(b.identity);
  }

  lemma CompactedCursor(env: Env, log: seq<Frame>, ids: Identities, index: IdentityIndex, j: nat)
    requires CursorsNamed(ids) && Compacts(env, log, ids, index) && j < |index.ingress|
    ensures index.ingress[j].identity.sourceId != 0 && index.ingress[j].identity.commitId in ids.ingressIds
  {
    hide StandsFor, IdentifiedCompacted, Forgotten;
    assert index.ingress[j] in index.ingress;
  }

  lemma CompactedIdentifier(env: Env, log: seq<Frame>, ids: Identities, index: IdentityIndex, i: nat)
    requires Compacts(env, log, ids, index) && i < |index.identified|
    ensures index.identified[i].commitId in ids.identified
  {
    hide IngressCompacted, IdentifiedCompacted;
    assert index.identified[i] in index.identified;
  }

  lemma IndexAppliesOnce(env: Env, log: seq<Frame>, ids: Identities, index: IdentityIndex)
    requires IdsOk(ids) && Compacts(env, log, ids, index) && InOrder(index)
    ensures AppliedOnce(AppliedByIndex(index))
    ensures forall r <- index.ingress :: r.identity.sourceId != 0
  {
    hide WatermarksGreatest, Compacts, CursorsNamed;
    var all := AppliedByIndex(index);
    var n := |index.identified|;
    forall j | 0 <= j < |index.ingress| ensures index.ingress[j].identity.sourceId != 0 {
      CompactedCursor(env, log, ids, index, j);
    }
    forall i, j | 0 <= i < j < |all| ensures all[i].commitId != all[j].commitId {
      if j >= n {
        CompactedCursor(env, log, ids, index, j - n);
        if i < n {
          CompactedIdentifier(env, log, ids, index, i);
        } else {
          IngressIdsDistinct(env, log, ids, index, i - n, j - n);
        }
      }
    }
  }

  lemma CompactedReceiptsOk(env: Env, log: seq<Frame>, ids: Identities, index: IdentityIndex)
    requires AllSound(env, log, ids) && Compacts(env, log, ids, index)
    requires forall r <- index.ingress :: r.identity.sourceId != 0
    ensures ReceiptsOk(env, index)
  {
    hide IdentifiedSound, IngressSound, IdentifiedCompacted, IngressCompacted, CompactIdentifiedOk, CompactIngressOk;
    forall r <- index.identified ensures CompactIdentifiedOk(env, r) {
      IdentifiedWritesBack(env, log, r.commitId, ids.identified[r.commitId], r);
    }
    forall r <- index.ingress ensures CompactIngressOk(env, r) {
      IngressWritesBack(env, log, ids.ingress[KeyOf(r.identity)], r);
    }
  }

  lemma {:induction false} ChunksReceiptsOk(env: Env, chunks: seq<IdentityIndex>)
    requires ReceiptsOk(env, IdentityIndex(JoinIdentified(chunks), JoinIngress(chunks)))
    ensures forall c <- chunks :: ReceiptsOk(env, c)
  {
    hide CompactIdentifiedOk, CompactIngressOk;
    if chunks != [] {
      var front, last := chunks[..|chunks| - 1], chunks[|chunks| - 1];
      assert forall r <- last.identified :: r in JoinIdentified(chunks);
      assert forall r <- JoinIdentified(front) :: r in JoinIdentified(chunks);
      assert forall r <- last.ingress :: r in JoinIngress(chunks);
      assert forall r <- JoinIngress(front) :: r in JoinIngress(chunks);
      ChunksReceiptsOk(env, front);
      forall c <- chunks ensures ReceiptsOk(env, c) {
        if c != last {
          assert c in front;
        }
      }
    }
  }

  // ---- The whole scan ----

  ghost predicate DefinesPoints(c: Catalog, points: seq<Point>) {
    forall p <- points :: p.seriesId in c.series && (p.runId != 0 ==> p.runId in c.runs)
  }

  lemma {:induction false} LivePointsOk(env: Env, cfg: Config, seals: set<u64>, zones: set<string>, log: seq<Frame>)
    requires CatalogEnv(env, zones) && Replay(LogSemantics(env, cfg, seals), log).Some?
    ensures PointsOk(Replay(LogSemantics(env, cfg, seals), log).value.live)
  {
    hide ApplyFrame, LogBytes, CatalogEnv, PointOk;
    if log != [] {
      var front, last := log[..|log| - 1], log[|log| - 1];
      LivePointsOk(env, cfg, seals, zones, front);
      var st := Replay(LogSemantics(env, cfg, seals), front).value;
      assert LogSemantics(env, cfg, seals).apply(st, last, EndOffset(front))
          == ApplyFrame(env, cfg, seals, st, last, EndOffset(front));
      FramePointsOk(env, cfg, seals, zones, st, last, EndOffset(front));
    }
  }

  lemma FramePointsOk(env: Env, cfg: Config, seals: set<u64>, zones: set<string>, st: LogState, f: Frame, offset: nat)
    requires CatalogEnv(env, zones) && PointsOk(st.live)
    requires ApplyFrame(env, cfg, seals, st, f, offset).Accept?
    ensures PointsOk(ApplyFrame(env, cfg, seals, st, f, offset).value.live)
  {
    hide DecodeTransaction, ApplyIdentityIndex, TagRefusal, ReadTag, TagBytes, RecordTag, PointsOf, PointOk,
      AllPointsKnown, ApplyEach, ReferencesOk;
    if f.kind == KIND_TRANSACTION || f.kind == KIND_IDENTIFIED || f.kind == KIND_INGRESS {
      var tag := ReadTag(f.kind, f.payload);
      var rs := DecodeTransaction(env, f.payload[|TagBytes(tag)|..], f.items).value;
      assert env.apply(st.catalog, rs) == ApplyRecords(zones, st.catalog, rs);
      AppliedPointsOk(ApplyRecords(zones, st.catalog, rs).value, rs);
    }
  }

  // An index lays out the points it was made from.
  lemma ArrangedElements(live: seq<Point>, tail: seq<Point>)
    requires Arranges(IndexOf(live), tail)
    ensures forall p :: p in tail <==> p in live
  {
    hide Sort, SeriesPoints, IndexOf;
    forall p ensures p in tail <==> p in live {
      var s := p.seriesId;
      SeriesOfIndexOf(live, s);
      SortElements(SeriesPoints(live, s), ValidKey);
      SelectedSeries(tail, s, p);
      SelectedSeries(live, s, p);
    }
  }

  lemma SelectedSeries(points: seq<Point>, s: u64, p: Point)
    requires p.seriesId == s
    ensures p in SeriesPoints(points, s) <==> p in points
  {
    SelectElements(points, SeriesKey, [s]);
  }

  lemma TailAppliesIff(env: Env, zones: set<string>, c: Catalog, live: seq<Point>, tail: seq<Point>)
    requires CatalogEnv(env, zones) && PointsOk(live) && tail != [] && (forall p :: p in tail <==> p in live)
    ensures env.apply(c, TailRecords(tail)) == if DefinesPoints(c, live) then Some(c) else None
  {
    hide PointOk;
    var rs := TailRecords(tail);
    assert rs == [PointsRecord(tail)] && rs[0] in rs;
    assert env.apply(c, rs) == ApplyRecords(zones, c, rs);
    assert AllPointsKnown(c, rs) <==> PointsKnown(c, tail);
  }

  lemma StandaloneApplies(env: Env, cfg: Config, log: seq<Frame>, rs: seq<Record>, frames: seq<Frame>)
    requires Lawful(env) && StandaloneFrames(env, rs) == Some(frames) && rs != []
    requires AllAdmissible(LogFormat(env, cfg), log + frames) && |PointsOf(rs)| <= cfg.maxBatchPoints
    requires Replay(LogSemantics(env, cfg, {}), log).Some?
    ensures Replay(LogSemantics(env, cfg, {}), log + frames).Some?
       <==> env.apply(Replay(LogSemantics(env, cfg, {}), log).value.catalog, rs).Some?
  {
    hide ApplyFrame, LogBytes, EncodeCanonical, PointsOf, Lawful, Admissible;
    var canonical := EncodeCanonical(env, rs).value;
    var f := frames[0];
    assert log + frames == log + [f] && (log + [f])[..|log|] == log;
    assert (log + frames)[|log|] == f;
    var st := Replay(LogSemantics(env, cfg, {}), log).value;
    assert LogSemantics(env, cfg, {}).apply(st, f, EndOffset(log)) == ApplyFrame(env, cfg, {}, st, f, EndOffset(log));
    StandaloneAccepted(env, cfg, st, rs, canonical, EndOffset(log));
  }

  lemma StandaloneAccepted(env: Env, cfg: Config, st: LogState, rs: seq<Record>, canonical: Bytes, offset: nat)
    requires Lawful(env) && EncodeCanonical(env, rs) == Some(canonical) && |rs| <= U32_MAX
    requires Admissible(LogFormat(env, cfg), TaggedFrame(Untagged, rs, canonical)) && |PointsOf(rs)| <= cfg.maxBatchPoints
    ensures ApplyFrame(env, cfg, {}, st, TaggedFrame(Untagged, rs, canonical), offset).Accept?
       <==> env.apply(st.catalog, rs).Some?
  {
    hide EncodeCanonical, DecodeTransaction, PointsOf, AfterTransaction, Lawful;
    TransactionRoundTrip(env, rs);
    assert [] + canonical == canonical && canonical[0..] == canonical;
  }

  /**
  Every compact log made from an accepted log passes the scan if and only if there are no live
  points or the catalog defines all of them.
  */
  lemma CompactLogReplaysIff(env: Env, cfg: Config, seals: set<u64>, zones: set<string>, log: seq<Frame>, st: LogState,
                             snapshot: seq<Record>, index: IdentityIndex, chunks: seq<IdentityIndex>, tail: seq<Point>,
                             newLog: seq<Frame>)
    requires Lawful(env) && CatalogEnv(env, zones)
    requires Replay(LogSemantics(env, cfg, seals), log) == Some(st)
    requires ApplyRecords(zones, EMPTY_CATALOG, snapshot) == Some(st.catalog) && PointsOf(snapshot) == []
    requires Compacts(env, log, st.ids, index) && InOrder(index)
    requires JoinIdentified(chunks) == index.identified && JoinIngress(chunks) == index.ingress && IdentifiedFirst(chunks)
    requires Arranges(IndexOf(st.live), tail) && |tail| <= cfg.maxBatchPoints
    requires CompactLog(env, snapshot, chunks, tail) == Some(newLog) && AllAdmissible(LogFormat(env, cfg), newLog)
    ensures Replay(LogSemantics(env, cfg, {}), newLog).Some? <==> DefinesPoints(st.catalog, st.live)
  {
    hide Replay, ApplyRecords, Compacts, Arranges, EncodeCanonical, PointsOf, IndexOf, Lawful, StandaloneFrames, IndexFrames,
      InOrder, IdentifiedFirst, DefinesPoints, Admissible, AppliedOnce, AppliedIn, CatalogEnv;
    var first := StandaloneFrames(env, snapshot).value;
    var ids := IndexFrames(env, chunks);
    var last := StandaloneFrames(env, TailRecords(tail)).value;
    assert newLog == (first + ids) + last;
    assert forall f <- first :: f in newLog;
    assert forall f <- first + ids :: f in newLog;
    SnapshotReplays(env, cfg, zones, snapshot, first, st.catalog);
    IndexReplays(env, cfg, seals, zones, log, st, index, chunks, first);
    IndexReplay(env, cfg, {}, first, chunks);
    LivePointsOk(env, cfg, seals, zones, log);
    ArrangedElements(st.live, tail);
    if tail == [] {
      assert last == [] && newLog == first + ids by { NoFrames(env, newLog, first + ids, last); }
      assert DefinesPoints(st.catalog, st.live) by { NothingToDefine(st.catalog, st.live, tail); }
    } else {
      TailPoints(tail);
      StandaloneApplies(env, cfg, first + ids, TailRecords(tail), last);
      TailAppliesIff(env, zones, st.catalog, st.live, tail);
    }
  }

  lemma NoFrames(env: Env, newLog: seq<Frame>, before: seq<Frame>, last: seq<Frame>)
    requires StandaloneFrames(env, []) == Some(last) && newLog == before + last
    ensures last == [] && newLog == before
  {
  }

  lemma NothingToDefine(c: Catalog, live: seq<Point>, tail: seq<Point>)
    requires tail == [] && (forall p :: p in tail <==> p in live)
    ensures DefinesPoints(c, live)
  {
  }

  lemma CatalogApplies(env: Env, zones: set<string>, c: Catalog, rs: seq<Record>)
    requires CatalogEnv(env, zones)
    ensures env.apply(c, rs) == ApplyRecords(zones, c, rs)
  {
    hide ApplyRecords;
  }

  lemma NoIdentity(env: Env, rs: seq<Record>, frames: seq<Frame>)
    requires StandaloneFrames(env, rs) == Some(frames)
    ensures AppliedIn(env, frames) == []
  {
    hide EncodeCanonical;
    if rs != [] {
      assert frames[..0] == [];
    }
  }

  lemma SnapshotReplays(env: Env, cfg: Config, zones: set<string>, snapshot: seq<Record>, first: seq<Frame>, c: Catalog)
    requires Lawful(env) && CatalogEnv(env, zones) && StandaloneFrames(env, snapshot) == Some(first)
    requires ApplyRecords(zones, EMPTY_CATALOG, snapshot) == Some(c) && PointsOf(snapshot) == []
    requires AllAdmissible(LogFormat(env, cfg), first)
    ensures Replay(LogSemantics(env, cfg, {}), first).Some?
    ensures Replay(LogSemantics(env, cfg, {}), first).value.catalog == c
    ensures AppliedIn(env, first) == []
  {
    hide Replay, ApplyRecords, EncodeCanonical, PointsOf, Lawful, Admissible, CatalogEnv, AppliedIn;
    NoIdentity(env, snapshot, first);
    EmptyReplay(env, cfg);
    CatalogApplies(env, zones, EMPTY_CATALOG, snapshot);
    assert [] + first == first;
    if snapshot != [] {
      StandaloneApplies(env, cfg, [], snapshot, first);
    } else {
      EmptySnapshot(zones);
    }
    StandaloneReplay(env, cfg, {}, [], snapshot, first);
  }

  lemma IndexReplays(env: Env, cfg: Config, seals: set<u64>, zones: set<string>, log: seq<Frame>, st: LogState,
                     index: IdentityIndex, chunks: seq<IdentityIndex>, first: seq<Frame>)
    requires Lawful(env) && CatalogEnv(env, zones)
    requires Replay(LogSemantics(env, cfg, seals), log) == Some(st)
    requires Compacts(env, log, st.ids, index) && InOrder(index)
    requires JoinIdentified(chunks) == index.identified && JoinIngress(chunks) == index.ingress && IdentifiedFirst(chunks)
    requires Replay(LogSemantics(env, cfg, {}), first).Some? && AppliedIn(env, first) == []
    requires AllAdmissible(LogFormat(env, cfg), first + IndexFrames(env, chunks))
    ensures Replay(LogSemantics(env, cfg, {}), first + IndexFrames(env, chunks)).Some?
  {
    hide Replay, Compacts, Lawful, IndexFrames, InOrder, IdentifiedFirst, Admissible, AppliedOnce, AppliedIn, CatalogEnv,
      AllSound, ReceiptsOk, Records, CommitIdsSplit, CursorsNamed, WatermarksGreatest;
    LogAppliesOnce(env, cfg, seals, log);
    LogSoundReceipts(env, cfg, seals, zones, log);
    IndexAppliesOnce(env, log, st.ids, index);
    CompactedReceiptsOk(env, log, st.ids, index);
    ChunksReceiptsOk(env, chunks);
    ChunksApplyIndex(chunks);
    assert [] + AppliedByChunks(chunks) == AppliedByIndex(index);
    ChunksReplay(env, cfg, first, chunks);
  }

  // A raw batch for a series the catalog does not define is accepted, and no compact log of it passes the scan.
  lemma RawPointsBlockReclaim(env: Env, cfg: Config, p: Point)
    requires ValidConfig(cfg) && PointOk(p)
    ensures var log := [PointsFrame([p])];
            && Replay(LogSemantics(env, cfg, {}), log).Some?
            && !DefinesPoints(Replay(LogSemantics(env, cfg, {}), log).value.catalog,
                              Replay(LogSemantics(env, cfg, {}), log).value.live)
  {
    hide ApplyFrame, LogBytes;
    var f := PointsFrame([p]);
    assert [f][..0] == [];
    EmptyReplay(env, cfg);
    PointsFrameApplies(env, cfg, {}, EMPTY_STATE, [p], EndOffset([]));
    assert LogSemantics(env, cfg, {}).apply(EMPTY_STATE, f, EndOffset([])) == ApplyFrame(env, cfg, {}, EMPTY_STATE, f, EndOffset([]));
    assert p in [] + [p];
  }
}

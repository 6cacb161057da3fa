/**
Which receipts fit an identity index frame.

A reclaim writes every receipt back with the bytes of its transaction, and refuses when one
receipt alone is over the frame limit. `HeldReceiptsFit` says that this never happens while
the transaction limit stays 58 bytes under the largest u32, whatever the log. Closer to it, an accepted
ordered commit can leave a receipt that does not fit: `CommitFitsIff` says which do, and
`EmptyBatchesNeverFit` names one that any database with the largest limit accepts.
*/
module ReceiptSizes {
  import opened ByteCodec
  import opened Model
  import opened PointCodec
  import opened TransactionCodec
  import opened LogFrame
  import opened FramedLog
  import opened DurableLog
  import opened StorageLog
  import opened Receipts
  import opened ExactlyOnce
  import opened IdentityFrames
  import opened CatalogRules
  import opened DatabaseModel
  import opened DatabaseRuns
  import opened Reclaim
  import opened ReclaimScan

  // What an ordered receipt adds to the transaction it stands for, beyond the identity stored with the transaction.
  const RECEIPT_EXCESS_BYTES: nat := 58

  // A decoder that returns a receipt with its bytes has read at least what the receipt is written with.
  // Indexes of the first format hold receipts without bytes, which may be longer when written back.
  ghost predicate ReadsWhole(env: Env) {
    forall b: Bytes :: env.decodeIndex(b).Some? ==>
      && (forall r <- env.decodeIndex(b).value.identified :: r.payload != [] ==> IndexSize(IdentifiedAlone(r)) <= |b|)
      && (forall r <- env.decodeIndex(b).value.ingress :: r.payload != [] ==> IndexSize(IngressAlone(r)) <= |b|)
  }

  // ---- What an accepted log holds ----

  // A receipt restored from an index frame fits one alone; any other counts no more points than a batch may have.
  ghost predicate IngressBounded(cfg: Config, r: IngressReceipt) {
    if r.payloadOffset != 0 then r.points <= cfg.maxBatchPoints
    else exists x: CompactIngress :: r == RestoreIngress(x) && IndexSize(IngressAlone(x)) <= IdentityIndexFrameLimit(cfg)
  }

  ghost predicate IdentifiedBounded(cfg: Config, c: u128, r: IdentifiedReceipt) {
    if r.payloadOffset != 0 then r.points <= cfg.maxBatchPoints
    else exists x: CompactIdentified ::
           && x.commitId == c && r == RestoreIdentified(x, r.frameOffset)
           && IndexSize(IdentifiedAlone(x)) <= IdentityIndexFrameLimit(cfg)
  }

  ghost predicate AllBounded(cfg: Config, ids: Identities) {
    && (forall c <- ids.identified :: IdentifiedBounded(cfg, c, ids.identified[c]))
    && (forall k <- ids.ingress :: IngressBounded(cfg, ids.ingress[k]))
  }

  // Without the bytes of its transaction a receipt is far below any frame limit.
  lemma BareReceiptsFit(cfg: Config, r: CompactIdentified, s: CompactIngress)
    ensures r.payload == [] ==> IndexSize(IdentifiedAlone(r)) <= IdentityIndexFrameLimit(cfg)
    ensures s.payload == [] ==> IndexSize(IngressAlone(s)) <= IdentityIndexFrameLimit(cfg)
  {
    hide VarintSize, Pow128, IndexSize;
    Pow128Values();
    VarintAtMost(r.commitId, 19);
    VarintAtMost(r.payloadLen, 5);
    VarintAtMost(r.payloadCrc, 5);
    VarintAtMost(r.points, 10);
    VarintAtMost(r.records, 10);
    VarintAtMost(s.identity.sourceId, 19);
    VarintAtMost(s.identity.sequence, 10);
    VarintAtMost(s.identity.commitId, 19);
    VarintAtMost(s.payloadLen, 5);
    VarintAtMost(s.payloadCrc, 5);
    VarintAtMost(s.points, 10);
    VarintAtMost(s.records, 10);
    VarintAtMost(0, 1);
    VarintAtMost(s.frameOffset, 10);
    VarintAtMost(s.bytesWritten, 10);
    AloneSizes(r, s);
  }

  lemma DecodedReceiptsFit(env: Env, cfg: Config, payload: Bytes)
    requires ReadsWhole(env) && env.decodeIndex(payload).Some? && |payload| <= IdentityIndexFrameLimit(cfg)
    ensures forall r <- env.decodeIndex(payload).value.identified :: IndexSize(IdentifiedAlone(r)) <= IdentityIndexFrameLimit(cfg)
    ensures forall r <- env.decodeIndex(payload).value.ingress :: IndexSize(IngressAlone(r)) <= IdentityIndexFrameLimit(cfg)
  {
    hide IndexSize, IdentityIndexFrameLimit;
    var index := env.decodeIndex(payload).value;
    var anyIdentified: CompactIdentified :| true;
    var anyIngress: CompactIngress :| true;
    forall r <- index.identified ensures IndexSize(IdentifiedAlone(r)) <= IdentityIndexFrameLimit(cfg) {
      BareReceiptsFit(cfg, r, anyIngress);
    }
    forall r <- index.ingress ensures IndexSize(IngressAlone(r)) <= IdentityIndexFrameLimit(cfg) {
      BareReceiptsFit(cfg, anyIdentified, r);
    }
  }

  lemma {:induction false} IdentifiedListBounded(env: Env, cfg: Config, ids: Identities, rs: seq<CompactIdentified>, offset: nat)
    requires AllBounded(cfg, ids) && ApplyCompactIdentified(env, ids, rs, offset).Some?
    requires forall r <- rs :: IndexSize(IdentifiedAlone(r)) <= IdentityIndexFrameLimit(cfg)
    ensures AllBounded(cfg, ApplyCompactIdentified(env, ids, rs, offset).value)
  {
    hide CompactIdentifiedOk, IndexSize, IngressBounded, IdentityIndexFrameLimit;
    if rs != [] {
      assert rs[|rs| - 1] in rs;
      IdentifiedListBounded(env, cfg, ids, rs[..|rs| - 1], offset);
    }
  }

  lemma {:induction false} IngressListBounded(env: Env, cfg: Config, ids: Identities, rs: seq<CompactIngress>)
    requires AllBounded(cfg, ids) && ApplyCompactIngress(env, ids, rs).Some?
    requires forall r <- rs :: IndexSize(IngressAlone(r)) <= IdentityIndexFrameLimit(cfg)
    ensures AllBounded(cfg, ApplyCompactIngress(env, ids, rs).value)
  {
    hide CompactIngressOk, IndexSize, IdentifiedBounded, IdentityIndexFrameLimit;
    if rs != [] {
      assert rs[|rs| - 1] in rs;
      IngressListBounded(env, cfg, ids, rs[..|rs| - 1]);
    }
  }

  lemma FrameBounded(env: Env, cfg: Config, seals: set<u64>, st: LogState, f: Frame, offset: nat)
    requires ReadsWhole(env) && AllBounded(cfg, st.ids)
    requires ApplyFrame(env, cfg, seals, st, f, offset).Accept?
    ensures AllBounded(cfg, ApplyFrame(env, cfg, seals, st, f, offset).value.ids)
  {
    hide IndexSize, ApplyCompactIdentified, ApplyCompactIngress, DecodeTransaction, TagRefusal, ReadTag, TagBytes, PointsOf,
      FromLE, IdentityIndexFrameLimit;
    if f.kind == KIND_IDENTITY_INDEX {
      hide AllBounded, ReadsWhole;
      var index := env.decodeIndex(f.payload).value;
      DecodedReceiptsFit(env, cfg, f.payload);
      IdentifiedListBounded(env, cfg, st.ids, index.identified, offset);
      IngressListBounded(env, cfg, ApplyCompactIdentified(env, st.ids, index.identified, offset).value, index.ingress);
    }
  }

  lemma {:induction false} LogBounded(env: Env, cfg: Config, seals: set<u64>, log: seq<Frame>)
    requires ReadsWhole(env) && Replay(LogSemantics(env, cfg, seals), log).Some?
    ensures AllBounded(cfg, Replay(LogSemantics(env, cfg, seals), log).value.ids)
  {
    hide ApplyFrame, IngressBounded, IdentifiedBounded, LogBytes, ReadsWhole;
    if log != [] {
      var front, last := log[..|log| - 1], log[|log| - 1];
      LogBounded(env, cfg, seals, front);
      var st := Replay(LogSemantics(env, cfg, seals), front).value;
      assert LogSemantics(env, cfg, seals).apply(st, last, EndOffset(front))
          == ApplyFrame(env, cfg, seals, st, last, EndOffset(front));
      FrameBounded(env, cfg, seals, st, last, EndOffset(front));
    }
  }

  // ---- A receipt has one compact form ----

  lemma IngressCompactedOnce(env: Env, log: seq<Frame>, r: IngressReceipt, x: CompactIngress, y: CompactIngress)
    requires IngressCompacted(env, log, r, x) && IngressCompacted(env, log, r, y)
    ensures x == y
  {
    hide LogBytes, FromLE, ReadTag;
    if r.payloadOffset != 0 {
      var i: nat :| IngressBacked(env, log, i, r) && log[i].payload[INGRESS_IDENTITY_BYTES..] == x.payload;
      var j: nat :| IngressBacked(env, log, j, r) && log[j].payload[INGRESS_IDENTITY_BYTES..] == y.payload;
      SameOffset(log, i, j);
    } else {
      assert forall i: nat :: !IngressBacked(env, log, i, r);
    }
  }

  lemma IdentifiedCompactedOnce(env: Env, log: seq<Frame>, c: u128, r: IdentifiedReceipt, x: CompactIdentified,
                                y: CompactIdentified)
    requires IdentifiedCompacted(env, log, c, r, x) && IdentifiedCompacted(env, log, c, r, y)
    ensures x == y
  {
    hide LogBytes, FromLE;
    if r.payloadOffset != 0 {
      var i: nat :| IdentifiedBacked(env, log, i, c, r) && log[i].payload == x.payload;
      var j: nat :| IdentifiedBacked(env, log, j, c, r) && log[j].payload == y.payload;
      SameOffset(log, i, j);
    } else {
      assert forall i: nat :: !IdentifiedBacked(env, log, i, c, r);
    }
  }

  // ---- Every receipt fits under the limit ----

  lemma IngressSizeBound(s: CompactIngress)
    requires s.payloadLen == |s.payload| && s.points <= U32_MAX && s.records <= U32_MAX
    requires s.bytesWritten <= 64 + |s.payload|
    ensures IndexSize(IngressAlone(s)) <= 98 + |s.payload|
  {
    hide VarintSize, Pow128, IndexSize;
    Pow128Values();
    VarintAtMost(s.identity.sourceId, 19);
    VarintAtMost(s.identity.sequence, 10);
    VarintAtMost(s.identity.commitId, 19);
    VarintAtMost(s.payloadLen, 5);
    VarintAtMost(s.payloadCrc, 5);
    VarintAtMost(s.points, 5);
    VarintAtMost(s.records, 5);
    VarintAtMost(s.frameOffset, 10);
    VarintAtMost(s.bytesWritten, 5);
    var any: CompactIdentified :| true;
    AloneSizes(any, s);
  }

  lemma IdentifiedSizeBound(r: CompactIdentified)
    requires r.payloadLen == |r.payload| && r.points <= U32_MAX && r.records <= U32_MAX
    ensures IndexSize(IdentifiedAlone(r)) <= 54 + |r.payload|
  {
    hide VarintSize, Pow128, IndexSize;
    Pow128Values();
    VarintAtMost(r.commitId, 19);
    VarintAtMost(r.payloadLen, 5);
    VarintAtMost(r.payloadCrc, 5);
    VarintAtMost(r.points, 5);
    VarintAtMost(r.records, 5);
    var any: CompactIngress :| true;
    AloneSizes(r, any);
  }

  lemma IngressFitsAlone(env: Env, cfg: Config, log: seq<Frame>, r: IngressReceipt, x: CompactIngress)
    requires ValidConfig(cfg) && cfg.maxTransactionBytes <= U32_MAX - RECEIPT_EXCESS_BYTES
    requires AllAdmissible(LogFormat(env, cfg), log) && IngressBounded(cfg, r) && IngressCompacted(env, log, r, x)
    ensures IndexSize(IngressAlone(x)) <= IdentityIndexFrameLimit(cfg)
  {
    hide LogBytes, FromLE, ReadTag, IndexSize;
    if r.payloadOffset == 0 {
      var y: CompactIngress :| r == RestoreIngress(y) && IndexSize(IngressAlone(y)) <= IdentityIndexFrameLimit(cfg);
      assert forall i: nat :: !IngressBacked(env, log, i, r);
      assert x == y;
    } else {
      var i: nat :| IngressBacked(env, log, i, r) && log[i].payload[INGRESS_IDENTITY_BYTES..] == x.payload;
      assert log[i] in log;
      IngressSizeBound(x);
    }
  }

  lemma IdentifiedFitsAlone(env: Env, cfg: Config, log: seq<Frame>, c: u128, r: IdentifiedReceipt, x: CompactIdentified)
    requires ValidConfig(cfg) && cfg.maxTransactionBytes <= U32_MAX - RECEIPT_EXCESS_BYTES
    requires AllAdmissible(LogFormat(env, cfg), log) && IdentifiedBounded(cfg, c, r) && IdentifiedCompacted(env, log, c, r, x)
    ensures IndexSize(IdentifiedAlone(x)) <= IdentityIndexFrameLimit(cfg)
  {
    hide LogBytes, FromLE, IndexSize;
    if r.payloadOffset == 0 {
      var y: CompactIdentified :|
        && y.commitId == c && r == RestoreIdentified(y, r.frameOffset)
        && IndexSize(IdentifiedAlone(y)) <= IdentityIndexFrameLimit(cfg);
      assert forall i: nat :: !IdentifiedBacked(env, log, i, c, r);
      assert x == y;
    } else {
      var i: nat :| IdentifiedBacked(env, log, i, c, r) && log[i].payload == x.payload;
      assert log[i] in log;
      IdentifiedSizeBound(x);
    }
  }

  // Every receipt, written back, is within the frame limit on its own.
  ghost predicate EveryReceiptFits(env: Env, cfg: Config, log: seq<Frame>, ids: Identities) {
    && (forall c <- ids.identified, x ::
          IdentifiedCompacted(env, log, c, ids.identified[c], x) ==>
            IndexSize(IdentifiedAlone(x)) <= IdentityIndexFrameLimit(cfg))
    && (forall k <- ids.ingress, x ::
          IngressCompacted(env, log, ids.ingress[k], x) ==>
            IndexSize(IngressAlone(x)) <= IdentityIndexFrameLimit(cfg))
  }

  // Whichever way the receipts are listed, the split refuses exactly when one of them does not fit.
  lemma FitsEveryIndex(env: Env, cfg: Config, log: seq<Frame>, ids: Identities, index: IdentityIndex)
    requires Compacts(env, log, ids, index)
    ensures EveryReceiptFits(env, cfg, log, ids) <==> !SomeTooLarge(IdentityIndexFrameLimit(cfg), index)
  {
    hide IngressCompacted, IdentifiedCompacted, IndexSize, IdentityIndexFrameLimit;
    forall c <- ids.identified, x | IdentifiedCompacted(env, log, c, ids.identified[c], x) ensures x in index.identified {
      var y :| y in index.identified && y.commitId == c;
      IdentifiedCompactedOnce(env, log, c, ids.identified[c], x, y);
    }
    forall k <- ids.ingress, x | IngressCompacted(env, log, ids.ingress[k], x) ensures x in index.ingress {
      var y :| y in index.ingress && KeyOf(y.identity) == k;
      IngressCompactedOnce(env, log, ids.ingress[k], x, y);
    }
  }

  /**
  Whatever log was accepted, every one of its receipts fits an index frame, provided the
  configured transaction limit is at least 58 bytes under the largest u32.
  */
  lemma HeldReceiptsFit(env: Env, cfg: Config, seals: set<u64>, log: seq<Frame>)
    requires ValidConfig(cfg) && ReadsWhole(env) && cfg.maxTransactionBytes <= U32_MAX - RECEIPT_EXCESS_BYTES
    requires Sound(LogSemantics(env, cfg, seals), log)
    ensures EveryReceiptFits(env, cfg, log, Replay(LogSemantics(env, cfg, seals), log).value.ids)
  {
    hide Replay, Admissible, IngressBounded, IdentifiedBounded, IngressCompacted, IdentifiedCompacted, IndexSize, ReadsWhole,
      IdentityIndexFrameLimit;
    var ids := Replay(LogSemantics(env, cfg, seals), log).value.ids;
    LogBounded(env, cfg, seals, log);
    forall c <- ids.identified, x | IdentifiedCompacted(env, log, c, ids.identified[c], x)
      ensures IndexSize(IdentifiedAlone(x)) <= IdentityIndexFrameLimit(cfg)
    {
      IdentifiedFitsAlone(env, cfg, log, c, ids.identified[c], x);
    }
    forall k <- ids.ingress, x | IngressCompacted(env, log, ids.ingress[k], x)
      ensures IndexSize(IngressAlone(x)) <= IdentityIndexFrameLimit(cfg)
    {
      IngressFitsAlone(env, cfg, log, ids.ingress[k], x);
    }
  }

  // ---- Which commits leave a receipt that fits ----

  // The receipt of an ordered commit written at an offset, as a reclaim writes it back.
  function WrittenReceipt(env: Env, identity: IngressIdentity, records: seq<Record>, canonical: Bytes, offset: u64)
    : CompactIngress
    requires INGRESS_IDENTITY_BYTES + |canonical| <= U32_MAX && |records| <= U32_MAX && |PointsOf(records)| <= U32_MAX
  {
    CompactIngress(identity, |canonical|, env.crc(canonical), |PointsOf(records)|, |records|, canonical, offset,
                   FRAME_HEADER_BYTES + INGRESS_IDENTITY_BYTES + |canonical|)
  }

  lemma IdentifiedCompactedLonger(env: Env, log: seq<Frame>, n: nat, c: u128, r: IdentifiedReceipt, x: CompactIdentified)
    requires n <= |log| && IdentifiedCompacted(env, log[..n], c, r, x)
    ensures IdentifiedCompacted(env, log, c, r, x)
  {
    hide LogBytes, FromLE;
    if x.payload != [] && !(IdentifiedCompact(env, r) && r.compact == Some(x.payload)) {
      var i: nat :| IdentifiedBacked(env, log[..n], i, c, r) && log[..n][i].payload == x.payload;
      assert log[..n][..i] == log[..i];
      assert IdentifiedBacked(env, log, i, c, r) && log[i].payload == x.payload;
    }
  }

  lemma IngressCompactedLonger(env: Env, log: seq<Frame>, n: nat, r: IngressReceipt, x: CompactIngress)
    requires n <= |log| && IngressCompacted(env, log[..n], r, x)
    ensures IngressCompacted(env, log, r, x)
  {
    hide StandsFor;
    if x.payload != [] {
      StandsForGrows(env, log[..n], log, r, x.payload);
    }
  }

  // Growing the log does not change how the receipts it held are written back.
  lemma IngressCompactedGrows(env: Env, log: seq<Frame>, f: Frame, r: IngressReceipt, x: CompactIngress)
    requires IngressHeld(env, log, r)
    ensures IngressCompacted(env, log, r, x) <==> IngressCompacted(env, log + [f], r, x)
  {
    hide LogBytes, FromLE, ReadTag;
    var more := log + [f];
    assert more[..|log|] == log;
    if IngressCompacted(env, log, r, x) {
      IngressCompactedLonger(env, more, |log|, r, x);
    }
    if IngressCompacted(env, more, r, x) && x.payload != [] && !(IngressCompact(env, r) && r.compact == Some(x.payload)) {
      var i: nat :| IngressBacked(env, log, i, r);
      var j: nat :| IngressBacked(env, more, j, r) && more[j].payload[INGRESS_IDENTITY_BYTES..] == x.payload;
      assert more[..i] == log[..i];
      SameOffset(more, i, j);
    }
  }

  lemma IdentifiedCompactedGrows(env: Env, log: seq<Frame>, f: Frame, c: u128, r: IdentifiedReceipt, x: CompactIdentified)
    requires IdentifiedHeld(env, log, c, r)
    ensures IdentifiedCompacted(env, log, c, r, x) <==> IdentifiedCompacted(env, log + [f], c, r, x)
  {
    hide LogBytes, FromLE;
    var more := log + [f];
    assert more[..|log|] == log;
    if IdentifiedCompacted(env, log, c, r, x) {
      IdentifiedCompactedLonger(env, more, |log|, c, r, x);
    }
    if IdentifiedCompacted(env, more, c, r, x) && x.payload != []
       && !(IdentifiedCompact(env, r) && r.compact == Some(x.payload)) {
      var i: nat :| IdentifiedBacked(env, log, i, c, r);
      var j: nat :| IdentifiedBacked(env, more, j, c, r) && more[j].payload == x.payload;
      assert more[..i] == log[..i];
      SameOffset(more, i, j);
    }
  }

  // A receipt book with one ordered receipt more.
  lemma FitsWithOneMore(env: Env, cfg: Config, log: seq<Frame>, f: Frame, ids: Identities, r: IngressReceipt, x: CompactIngress)
    requires AllHeld(env, log, ids) && KeyOf(r.identity) !in ids.ingress
    requires IngressCompacted(env, log + [f], r, x)
    ensures EveryReceiptFits(env, cfg, log + [f], RecordIngress(ids, r))
       <==> EveryReceiptFits(env, cfg, log, ids) && IndexSize(IngressAlone(x)) <= IdentityIndexFrameLimit(cfg)
  {
    hide IngressCompacted, IdentifiedCompacted, IndexSize, IdentityIndexFrameLimit, IngressHeld, IdentifiedHeld;
    var after, key := RecordIngress(ids, r), KeyOf(r.identity);
    forall c <- ids.identified, y
      ensures IdentifiedCompacted(env, log, c, ids.identified[c], y)
         <==> IdentifiedCompacted(env, log + [f], c, after.identified[c], y)
    {
      IdentifiedCompactedGrows(env, log, f, c, ids.identified[c], y);
    }
    forall k <- ids.ingress, y
      ensures IngressCompacted(env, log, ids.ingress[k], y) <==> IngressCompacted(env, log + [f], after.ingress[k], y)
    {
      IngressCompactedGrows(env, log, f, ids.ingress[k], y);
    }
    forall y | IngressCompacted(env, log + [f], r, y) ensures y == x {
      IngressCompactedOnce(env, log + [f], r, x, y);
    }
    assert after.ingress[key] == r;
  }

  lemma Recorded(ids: Identities, r: IngressReceipt)
    ensures KeyOf(r.identity) in RecordIngress(ids, r).ingress && RecordIngress(ids, r).ingress[KeyOf(r.identity)] == r
  {
  }

  /**
  After an accepted ordered commit every receipt fits if and only if every receipt fitted
  before and the commit's own does, which its identity, its bytes and the end of the file decide.
  */
  lemma CommitFitsIff(s: Setting, db: Handle, identity: IngressIdentity, t: Transaction, io: Io)
    requires Fair(s) && Good(s, db) && |db.journal.file| <= U64_MAX
    requires t.ingress == Some(identity)
    requires var reply := Perform(s.env, s.cfg, db, CommitTransaction(t), io).1; reply.Done? && !reply.commit.deduplicated
    ensures EncodeCanonical(s.env, t.records).Some?
    ensures var canonical := EncodeCanonical(s.env, t.records).value;
            && INGRESS_IDENTITY_BYTES + |canonical| <= U32_MAX && |t.records| <= U32_MAX && |PointsOf(t.records)| <= U32_MAX
            && var after := Perform(s.env, s.cfg, db, CommitTransaction(t), io).0;
               var r := WrittenReceipt(s.env, identity, t.records, canonical, |db.journal.file|);
               EveryReceiptFits(s.env, s.cfg, after.journal.log, after.memory.ids) <==>
               EveryReceiptFits(s.env, s.cfg, db.journal.log, db.memory.ids)
               && IndexSize(IngressAlone(r)) <= IdentityIndexFrameLimit(s.cfg)
  {
    hide Replay, HandleInv, EncodeCanonical, IngressMatches, IdentifiedMatches, PointsOf, LogBytes, WriteFrame,
      LogFile, TagBytes, ReadTag, EveryReceiptFits, IndexSize, IdentityIndexFrameLimit, StandsFor, AllHeld,
      RecordIngress, Remember;
    var call := CommitTransaction(t);
    var d := Decide(s.env, s.cfg, db, call);
    var (after, reply) := Perform(s.env, s.cfg, db, call, io);
    IngressWritten(s, db, identity, t, io);
    GoodParts(s, db);
    DecidedUnpoisoned(s.env, s.cfg, db, call);
    DecisionVetted(s.env, s.cfg, db, call, Replay(Meaning(s), db.journal.log).value);
    WriteKeeps(s.env, s.cfg, s.seals, db, d, io);
    TagLength(identity);
    LogBacksReceipts(s.env, s.cfg, s.seals, db.journal.log);
    RememberIngress(s.env, db.memory, identity, t.records, d.canonical, d.catalog, |db.journal.file|);
    var r := IngressReceipt(identity, |db.journal.file| + FRAME_HEADER_BYTES + INGRESS_IDENTITY_BYTES, |d.canonical|,
                            s.env.crc(d.canonical), None, |db.journal.file|, |PointsOf(t.records)|, |t.records|,
                            FRAME_HEADER_BYTES + INGRESS_IDENTITY_BYTES + |d.canonical|);
    assert after.memory.ids == RecordIngress(db.memory.ids, r);
    Recorded(db.memory.ids, r);
    TransactionRoundTrip(s.env, t.records);
    var x := WrittenReceipt(s.env, identity, t.records, d.canonical, |db.journal.file|);
    assert IngressCompacted(s.env, after.journal.log, r, x);
    FitsWithOneMore(s.env, s.cfg, db.journal.log, FrameOf(d), db.memory.ids, r, x);
  }

  // ---- A commit that never fits ----

  function EmptyBatches(n: nat): (rs: seq<Record>)
    ensures |rs| == n && forall r <- rs :: r == PointsRecord([])
  {
    if n == 0 then [] else [PointsRecord([])] + EmptyBatches(n - 1)
  }

  lemma {:induction false} NoPointsIn(rs: seq<Record>)
    requires forall r <- rs :: r.PointsRecord? && r.points == []
    ensures PointsOf(rs) == []
  {
    if rs != [] {
      assert rs[|rs| - 1] in rs;
      NoPointsIn(rs[..|rs| - 1]);
    }
  }

  lemma {:induction false} EmptyBatchesEncode(env: Env, n: nat)
    ensures EncodeRecords(env, EmptyBatches(n)).Some? && |EncodeRecords(env, EmptyBatches(n)).value| == 12 * n
  {
    hide LE;
    if n > 0 {
      EmptyBatchesEncode(env, n - 1);
      assert EmptyBatches(n)[1..] == EmptyBatches(n - 1);
      assert |EncodeRecord(env, PointsRecord([])).value| == 12;
    }
  }

  // As many empty point batches as the largest transaction limit admits.
  const MOST_BATCHES: nat := 357_913_936

  lemma MostBatches(env: Env)
    ensures EncodeCanonical(env, EmptyBatches(MOST_BATCHES)).Some?
    ensures |EncodeCanonical(env, EmptyBatches(MOST_BATCHES)).value| == 0xFFFF_FFCC
    ensures PointsOf(EmptyBatches(MOST_BATCHES)) == []
  {
    hide EmptyBatches, EncodeRecords;
    EmptyBatchesEncode(env, MOST_BATCHES);
    NoPointsIn(EmptyBatches(MOST_BATCHES));
  }

  lemma MostBatchesOverflow(r: CompactIngress)
    requires |r.payload| == r.payloadLen == 0xFFFF_FFCC && r.records == MOST_BATCHES
    requires r.bytesWritten >= |r.payload| && r.identity.commitId >= 0x1_0000_0000_0000_0000_0000_0000_0000
    ensures IndexSize(IngressAlone(r)) > U32_MAX
  {
    hide VarintSize, Pow128, IndexSize;
    Pow128Below();
    VarintAtLeast(r.identity.commitId, 16);
    VarintAtLeast(r.payloadLen, 4);
    VarintAtLeast(r.records, 4);
    VarintAtLeast(r.bytesWritten, 4);
    var any: CompactIdentified :| true;
    AloneSizes(any, r);
  }

  // A cursor and a commit identifier this handle would accept.
  predicate Unused(ids: Identities, identity: IngressIdentity) {
    && identity.sourceId != 0 && KeyOf(identity) !in ids.ingress && identity.commitId !in ids.commitIds
    && (identity.sourceId in ids.lastSequences ==> ids.lastSequences[identity.sourceId] < identity.sequence)
  }

  /**
  With the largest transaction limit, every database accepts an ordered commit of empty point
  batches under any unused identity whose commit identifier has 113 bits or more, and its receipt then fits
  no index frame.
  */
  lemma EmptyBatchesNeverFit(s: Setting, zones: set<string>, db: Handle, identity: IngressIdentity, io: Io)
    requires Fair(s) && Good(s, db) && CatalogEnv(s.env, zones) && |db.journal.file| <= U64_MAX
    requires s.cfg.maxTransactionBytes == U32_MAX && !db.journal.poisoned && io.syncOk && io.written >= 0x1_0000_0000_0000
    requires Unused(db.memory.ids, identity) && identity.commitId >= 0x1_0000_0000_0000_0000_0000_0000_0000
    ensures var t := Transaction(EmptyBatches(MOST_BATCHES), None, Some(identity));
            var (after, reply) := Perform(s.env, s.cfg, db, CommitTransaction(t), io);
            && reply.Done? && !reply.commit.deduplicated
            && !EveryReceiptFits(s.env, s.cfg, after.journal.log, after.memory.ids)
  {
    hide HandleInv, EncodeCanonical, EmptyBatches, PointsOf, EveryReceiptFits, IndexSize, Remember, CatalogEnv, WriteFrame,
      TagBytes;
    var rs := EmptyBatches(MOST_BATCHES);
    var t := Transaction(rs, None, Some(identity));
    MostBatches(s.env);
    EmptyBatchesApply(s.env, zones, db.memory.catalog, rs);
    var canonical := EncodeCanonical(s.env, rs).value;
    var d := Decide(s.env, s.cfg, db, CommitTransaction(t));
    TagLength(identity);
    assert d == WriteRecords(Ingress(identity), rs, canonical, db.memory.catalog);
    WriteAccepted(LogFormat(s.env, s.cfg), s.cfg.durability, db.journal, FrameOf(d), io);
    CommitFitsIff(s, db, identity, t, io);
    MostBatchesOverflow(WrittenReceipt(s.env, identity, rs, canonical, |db.journal.file|));
  }

  lemma EmptyBatchesApply(env: Env, zones: set<string>, c: Catalog, rs: seq<Record>)
    requires CatalogEnv(env, zones) && forall r <- rs :: r == PointsRecord([])
    ensures env.apply(c, rs) == Some(c)
  {
    assert env.apply(c, rs) == ApplyRecords(zones, c, rs);
  }

  lemma WriteAccepted(format: Format, durability: Durability, j: Journal, f: Frame, io: Io)
    requires FrameFits(f) && io.syncOk && io.written >= FrameBytes(f)
    ensures WriteFrame(format, durability, j, f, io).1.Accepted?
  {
    hide EncodeFrame;
  }

  /**
  A receipt that does not fit stays in every longer log, so a database that accepted one can
  not be reclaimed again.
  */
  lemma NeverFitsAgain(env: Env, cfg: Config, seals: set<u64>, log: seq<Frame>, n: nat)
    requires n <= |log| && Replay(LogSemantics(env, cfg, seals), log).Some?
    requires Replay(LogSemantics(env, cfg, seals), log[..n]).Some?
    requires !EveryReceiptFits(env, cfg, log[..n], Replay(LogSemantics(env, cfg, seals), log[..n]).value.ids)
    ensures !EveryReceiptFits(env, cfg, log, Replay(LogSemantics(env, cfg, seals), log).value.ids)
  {
    hide Replay, AppliedIn, IngressCompacted, IdentifiedCompacted, IndexSize, IdentityIndexFrameLimit;
    LogExtends(env, cfg, seals, log, n);
    var ids := Replay(LogSemantics(env, cfg, seals), log[..n]).value.ids;
    forall c <- ids.identified, x | IdentifiedCompacted(env, log[..n], c, ids.identified[c], x)
      ensures IdentifiedCompacted(env, log, c, ids.identified[c], x)
    {
      IdentifiedCompactedLonger(env, log, n, c, ids.identified[c], x);
    }
    forall k <- ids.ingress, x | IngressCompacted(env, log[..n], ids.ingress[k], x)
      ensures IngressCompacted(env, log, ids.ingress[k], x)
    {
      IngressCompactedLonger(env, log, n, ids.ingress[k], x);
    }
  }
}

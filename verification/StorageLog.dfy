/**
What the frames of `active.wlog` mean.

`ApplyFrame` is the effect of one frame on the recovered state; `LogSemantics`
packages it, with the checksum and the per-kind size rules, as the meaning of
a framed log.
*/
module StorageLog {
  import opened ByteCodec
  import opened Model
  import opened PointCodec
  import opened TransactionCodec
  import opened LogFrame
  import opened FramedLog
  import opened DurableLog

  const COMMIT_ID_BYTES: nat := 16
  const INGRESS_IDENTITY_BYTES: nat := 40
  const SEAL_CHECKPOINT_BYTES: nat := 16
  const IDENTITY_INDEX_ENTRY_OVERHEAD_BYTES: nat := 1024

  const KIND_LEGACY_POINTS: u16 := 0
  const KIND_TRANSACTION: u16 := 1
  const KIND_IDENTIFIED: u16 := 2
  const KIND_INGRESS: u16 := 3
  const KIND_SEAL_CHECKPOINT: u16 := 4
  const KIND_IDENTITY_INDEX: u16 := 5

  datatype Config = Config(durability: Durability, maxBatchPoints: nat, maxTransactionBytes: nat)

  predicate ValidConfig(cfg: Config) {
    && 0 < cfg.maxBatchPoints <= U32_MAX
    && TRANSACTION_HEADER_BYTES + RECORD_HEADER_BYTES <= cfg.maxTransactionBytes <= U32_MAX
    && cfg.durability != EveryBytes(0)
  }

  function IdentityIndexFrameLimit(cfg: Config): nat {
    if cfg.maxTransactionBytes + IDENTITY_INDEX_ENTRY_OVERHEAD_BYTES <= U32_MAX
    then cfg.maxTransactionBytes + IDENTITY_INDEX_ENTRY_OVERHEAD_BYTES
    else U32_MAX
  }

  // The per-kind size rules the reader applies before it looks at the payload.
  function HeaderRefusal(cfg: Config, kind: u16, items: u32, length: nat): Option<Fault> {
    if kind == KIND_LEGACY_POINTS then
      if items > cfg.maxBatchPoints || length != items * POINT_BYTES then Some(InvalidLegacyFrameSize) else None
    else if kind == KIND_TRANSACTION || kind == KIND_IDENTIFIED || kind == KIND_INGRESS then
      if length > cfg.maxTransactionBytes then Some(TransactionFrameTooLarge)
      else if kind == KIND_IDENTIFIED && length < COMMIT_ID_BYTES then Some(IdentifiedTransactionTooShort)
      else if kind == KIND_INGRESS && length < INGRESS_IDENTITY_BYTES then Some(IngressTransactionTooShort)
      else None
    else if kind == KIND_SEAL_CHECKPOINT then
      if items != 0 || length != SEAL_CHECKPOINT_BYTES then Some(SealCheckpointInvalid) else None
    else if kind == KIND_IDENTITY_INDEX then
      if items != 0 then Some(IdentityIndexInvalid)
      else if length > IdentityIndexFrameLimit(cfg) then Some(TransactionFrameTooLarge)
      else None
    else Some(UnknownFrameKind)
  }

  // ---- State ----

  datatype IngressKey = IngressKey(sourceId: u128, sequence: u64)

  // A stored receipt says where its bytes are: at an offset in the log, or (offset zero) in `compact`.
  datatype IdentifiedReceipt = IdentifiedReceipt(
    payloadOffset: nat,
    payloadLen: nat,
    payloadCrc: u32,
    compact: Option<Bytes>,
    frameOffset: nat,
    points: nat,
    records: nat,
    bytesWritten: nat)

  datatype IngressReceipt = IngressReceipt(
    identity: IngressIdentity,
    payloadOffset: nat,
    payloadLen: nat,
    payloadCrc: u32,
    compact: Option<Bytes>,
    frameOffset: nat,
    points: nat,
    records: nat,
    bytesWritten: nat)

  datatype Identities = Identities(
    commitIds: set<u128>,
    identified: map<u128, IdentifiedReceipt>,
    ingress: map<IngressKey, IngressReceipt>,
    ingressIds: map<u128, IngressKey>,
    lastSequences: map<u128, u64>)

  // `live` holds the unsealed points in log order; the query index groups and sorts them.
  datatype LogState = LogState(
    live: seq<Point>,
    catalog: Catalog,
    ids: Identities,
    commits: nat,
    catalogRecords: nat,
    pendingReclaim: bool)

  const NO_IDENTITIES := Identities({}, map[], map[], map[], map[])
  const EMPTY_STATE := LogState([], EMPTY_CATALOG, NO_IDENTITIES, 0, 0, false)

  function KeyOf(identity: IngressIdentity): IngressKey {
    IngressKey(identity.sourceId, identity.sequence)
  }

  // ---- Identity rules ----

  // Why an ingress identity cannot follow the identities already in the log.
  function IngressRefusal(ids: Identities, identity: IngressIdentity): Option<Fault> {
    if identity.sourceId == 0 then Some(InvalidIngressSequence)
    else if KeyOf(identity) in ids.ingress then Some(DuplicateIngressSequence)
    else if identity.commitId in ids.commitIds then Some(DuplicateCommitId)
    else if identity.sourceId in ids.lastSequences && identity.sequence <= ids.lastSequences[identity.sourceId]
    then Some(InvalidIngressSequence)
    else None
  }

  function RecordIdentified(ids: Identities, commitId: u128, receipt: IdentifiedReceipt): Identities {
    ids.(commitIds := ids.commitIds + {commitId}, identified := ids.identified[commitId := receipt])
  }

  function RecordIngress(ids: Identities, receipt: IngressReceipt): Identities {
    var identity := receipt.identity;
    ids.(commitIds := ids.commitIds + {identity.commitId},
         ingress := ids.ingress[KeyOf(identity) := receipt],
         ingressIds := ids.ingressIds[identity.commitId := KeyOf(identity)],
         lastSequences := ids.lastSequences[identity.sourceId := identity.sequence])
  }

  // ---- Compact identity index ----

  predicate CompactTransactionOk(env: Env, payload: Bytes, records: nat, points: nat) {
    match DecodeTransaction(env, payload, records)
    case None => false
    case Some(rs) => |PointsOf(rs)| == points && PointsOk(PointsOf(rs))
  }

  predicate CompactIdentifiedOk(env: Env, r: CompactIdentified) {
    && r.payloadLen >= COMMIT_ID_BYTES + TRANSACTION_HEADER_BYTES
    && (r.payload != [] ==>
          && |r.payload| == r.payloadLen
          && env.crc(r.payload) == r.payloadCrc
          && ReadU128(r.payload, 0) == r.commitId
          && CompactTransactionOk(env, r.payload[COMMIT_ID_BYTES..], r.records, r.points))
  }

  predicate CompactIngressOk(env: Env, r: CompactIngress) {
    && r.payloadLen >= TRANSACTION_HEADER_BYTES
    && (r.payload != [] ==>
          && |r.payload| == r.payloadLen
          && env.crc(r.payload) == r.payloadCrc
          && CompactTransactionOk(env, r.payload, r.records, r.points))
  }

  function RestoreIdentified(r: CompactIdentified, offset: nat): IdentifiedReceipt {
    IdentifiedReceipt(0, r.payloadLen, r.payloadCrc, if r.payload == [] then None else Some(r.payload),
                      offset, r.points, r.records, 0)
  }

  function RestoreIngress(r: CompactIngress): IngressReceipt {
    IngressReceipt(r.identity, 0, r.payloadLen, r.payloadCrc, if r.payload == [] then None else Some(r.payload),
                   r.frameOffset, r.points, r.records, r.bytesWritten)
  }

  function ApplyCompactIdentified(env: Env, ids: Identities, rs: seq<CompactIdentified>, offset: nat)
    : Option<Identities>
  {
    if rs == [] then Some(ids)
    else match ApplyCompactIdentified(env, ids, rs[..|rs| - 1], offset)
      case None => None
      case Some(before) =>
        var r := rs[|rs| - 1];
        if !CompactIdentifiedOk(env, r) || r.commitId in before.commitIds then None
        else Some(RecordIdentified(before, r.commitId, RestoreIdentified(r, offset)))
  }

  function ApplyCompactIngress(env: Env, ids: Identities, rs: seq<CompactIngress>): Option<Identities>
  {
    if rs == [] then Some(ids)
    else match ApplyCompactIngress(env, ids, rs[..|rs| - 1])
      case None => None
      case Some(before) =>
        var r := rs[|rs| - 1];
        if !CompactIngressOk(env, r) || IngressRefusal(before, r.identity).Some? then None
        else Some(RecordIngress(before, RestoreIngress(r)))
  }

  function ApplyIdentityIndex(env: Env, ids: Identities, payload: Bytes, offset: nat): Option<Identities> {
    match env.decodeIndex(payload)
    case None => None
    case Some(index) =>
      match ApplyCompactIdentified(env, ids, index.identified, offset)
      case None => None
      case Some(mid) => ApplyCompactIngress(env, mid, index.ingress)
  }

  // ---- Transactions ----

  datatype Tag = Untagged | Identified(commitId: u128) | Ingress(identity: IngressIdentity)

  function TagBytes(tag: Tag): Bytes {
    match tag
    case Untagged => []
    case Identified(commitId) => LE(commitId, 16)
    case Ingress(identity) => LE(identity.sourceId, 16) + LE(identity.sequence, 8) + LE(identity.commitId, 16)
  }

  function TagKind(tag: Tag): u16 {
    match tag
    case Untagged => KIND_TRANSACTION
    case Identified(_) => KIND_IDENTIFIED
    case Ingress(_) => KIND_INGRESS
  }

  function ReadTag(kind: u16, payload: Bytes): (tag: Tag)
    requires kind == KIND_IDENTIFIED ==> |payload| >= COMMIT_ID_BYTES
    requires kind == KIND_INGRESS ==> |payload| >= INGRESS_IDENTITY_BYTES
    ensures |TagBytes(tag)| <= |payload|
  {
    if kind == KIND_IDENTIFIED then Identified(ReadU128(payload, 0))
    else if kind == KIND_INGRESS then
      Ingress(IngressIdentity(ReadU128(payload, 0), ReadU64(payload, 16), ReadU128(payload, 24)))
    else Untagged
  }

  lemma ReadTagOfTagBytes(tag: Tag, canonical: Bytes)
    ensures var payload := TagBytes(tag) + canonical;
            && (tag.Identified? ==> |payload| >= COMMIT_ID_BYTES)
            && (tag.Ingress? ==> |payload| >= INGRESS_IDENTITY_BYTES)
            && ReadTag(TagKind(tag), payload) == tag
            && payload[|TagBytes(tag)|..] == canonical
  {
    hide LE, FromLE;
    var payload := TagBytes(tag) + canonical;
    Pow256Values();
    match tag
    case Untagged =>
    case Identified(commitId) =>
      assert payload[0..16] == LE(commitId, 16);
      FromLEOfLE(commitId, 16);
    case Ingress(identity) =>
      assert payload[0..16] == LE(identity.sourceId, 16);
      assert payload[16..24] == LE(identity.sequence, 8);
      assert payload[24..40] == LE(identity.commitId, 16);
      FromLEOfLE(identity.sourceId, 16);
      FromLEOfLE(identity.sequence, 8);
      FromLEOfLE(identity.commitId, 16);
  }

  function TagRefusal(ids: Identities, tag: Tag): Option<Fault> {
    match tag
    case Untagged => None
    case Identified(commitId) => if commitId in ids.commitIds then Some(DuplicateCommitId) else None
    case Ingress(identity) => IngressRefusal(ids, identity)
  }

  // The receipt book after a frame of `payload` bytes at `offset` carrying `records`.
  function RecordTag(env: Env, ids: Identities, tag: Tag, payload: Bytes, records: seq<Record>, offset: nat): Identities
    requires |TagBytes(tag)| <= |payload|
  {
    var points := |PointsOf(records)|;
    match tag
    case Untagged => ids
    case Identified(commitId) =>
      RecordIdentified(ids, commitId,
        IdentifiedReceipt(offset + FRAME_HEADER_BYTES, |payload|, env.crc(payload), None,
                          offset, points, |records|, FRAME_HEADER_BYTES + |payload|))
    case Ingress(identity) =>
      var canonical := payload[|TagBytes(tag)|..];
      RecordIngress(ids,
        IngressReceipt(identity, offset + FRAME_HEADER_BYTES + INGRESS_IDENTITY_BYTES, |canonical|,
                       env.crc(canonical), None, offset, points, |records|, FRAME_HEADER_BYTES + |payload|))
  }

  // The state after a transaction frame that passed every check.
  function AfterTransaction(env: Env, st: LogState, tag: Tag, payload: Bytes, records: seq<Record>,
                            catalog: Catalog, offset: nat): LogState
    requires |TagBytes(tag)| <= |payload|
  {
    LogState(
      st.live + PointsOf(records),
      catalog,
      RecordTag(env, st.ids, tag, payload, records, offset),
      st.commits + 1,
      st.catalogRecords + MetadataCount(records),
      st.pendingReclaim)
  }

  function ApplyTransactionFrame(env: Env, cfg: Config, st: LogState, f: Frame, offset: nat): Outcome<LogState>
    requires f.kind == KIND_IDENTIFIED ==> |f.payload| >= COMMIT_ID_BYTES
    requires f.kind == KIND_INGRESS ==> |f.payload| >= INGRESS_IDENTITY_BYTES
  {
    var tag := ReadTag(f.kind, f.payload);
    match TagRefusal(st.ids, tag)
    case Some(fault) => Reject(fault)
    case None =>
      match DecodeTransaction(env, f.payload[|TagBytes(tag)|..], f.items)
      case None => Reject(InvalidTransaction)
      case Some(records) =>
        match env.apply(st.catalog, records)
        case None => Reject(InvalidCatalogTransaction)
        case Some(catalog) =>
          if |PointsOf(records)| > cfg.maxBatchPoints then Reject(TransactionPointCountTooLarge)
          else Accept(AfterTransaction(env, st, tag, f.payload, records, catalog, offset))
  }

  function ApplyCheckpoint(seals: set<u64>, st: LogState, payload: Bytes): Outcome<LogState>
    requires |payload| == SEAL_CHECKPOINT_BYTES
  {
    var generation := ReadU64(payload, 0);
    if generation == 0 || ReadU64(payload, 8) != |st.live| then Reject(SealCheckpointInvalid)
    else if generation in seals then Accept(st.(live := [], pendingReclaim := true, commits := st.commits + 1))
    else Accept(st.(commits := st.commits + 1))
  }

  // The effect of a complete frame whose checksums have been verified.
  function ApplyFrame(env: Env, cfg: Config, seals: set<u64>, st: LogState, f: Frame, offset: nat): Outcome<LogState>
  {
    match HeaderRefusal(cfg, f.kind, f.items, |f.payload|)
    case Some(fault) => Reject(fault)
    case None =>
      if f.kind == KIND_LEGACY_POINTS then
        var points := DecodePoints(f.payload);
        if !PointsOk(points) then Reject(InvalidLegacyPoint)
        else Accept(st.(live := st.live + points, commits := st.commits + 1))
      else if f.kind == KIND_SEAL_CHECKPOINT then ApplyCheckpoint(seals, st, f.payload)
      else if f.kind == KIND_IDENTITY_INDEX then
        match ApplyIdentityIndex(env, st.ids, f.payload, offset)
        case None => Reject(IdentityIndexInvalid)
        case Some(ids) => Accept(st.(ids := ids, commits := st.commits + 1))
      else ApplyTransactionFrame(env, cfg, st, f, offset)
  }

  function LogFormat(env: Env, cfg: Config): Format {
    Format(env.crc, (kind: u16, items: u32, length: nat) => HeaderRefusal(cfg, kind, items, length))
  }

  function LogSemantics(env: Env, cfg: Config, seals: set<u64>): Semantics<LogState> {
    Semantics(
      LogFormat(env, cfg),
      EMPTY_STATE,
      (st: LogState, f: Frame, offset: nat) => ApplyFrame(env, cfg, seals, st, f, offset))
  }

  // ---- The frames the writer produces ----

  function PointsFrame(points: seq<Point>): Frame
    requires |points| <= U32_MAX
  {
    Frame(KIND_LEGACY_POINTS, |points|, EncodePoints(points))
  }

  function TaggedFrame(tag: Tag, records: seq<Record>, canonical: Bytes): Frame
    requires |records| <= U32_MAX
  {
    Frame(TagKind(tag), |records|, TagBytes(tag) + canonical)
  }

  // A point batch the writer accepts is accepted again by the reader, with the same effect.
  lemma PointsFrameApplies(env: Env, cfg: Config, seals: set<u64>, st: LogState, points: seq<Point>, offset: nat)
    requires |points| <= cfg.maxBatchPoints && |points| <= U32_MAX && PointsOk(points)
    ensures ApplyFrame(env, cfg, seals, st, PointsFrame(points), offset)
         == Accept(st.(live := st.live + points, commits := st.commits + 1))
  {
    PointsRoundTrip(points);
  }

  // So is a transaction, tagged or not.
  lemma TaggedFrameApplies(env: Env, cfg: Config, seals: set<u64>, st: LogState, tag: Tag,
                           records: seq<Record>, catalog: Catalog, offset: nat)
    requires Lawful(env)
    requires EncodeCanonical(env, records).Some? && TagRefusal(st.ids, tag).None?
    requires |TagBytes(tag) + EncodeCanonical(env, records).value| <= cfg.maxTransactionBytes
    requires env.apply(st.catalog, records) == Some(catalog)
    requires |PointsOf(records)| <= cfg.maxBatchPoints
    ensures var canonical := EncodeCanonical(env, records).value;
            && ApplyFrame(env, cfg, seals, st, TaggedFrame(tag, records, canonical), offset)
            == Accept(AfterTransaction(env, st, tag, TagBytes(tag) + canonical, records, catalog, offset))
  {
    hide EncodeCanonical, DecodeTransaction, TagBytes, ReadTag, AfterTransaction, TagRefusal, PointsOf, Lawful;
    var canonical := EncodeCanonical(env, records).value;
    ReadTagOfTagBytes(tag, canonical);
    TransactionRoundTrip(env, records);
    assert |records| <= U32_MAX by { CanonicalCount(env, records); }
    var f := TaggedFrame(tag, records, canonical);
    assert HeaderRefusal(cfg, f.kind, f.items, |f.payload|).None?;
  }

  lemma CanonicalCount(env: Env, records: seq<Record>)
    requires EncodeCanonical(env, records).Some?
    ensures |records| <= U32_MAX
  {
  }
}

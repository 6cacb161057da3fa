/**
Messages, frames and streams of the sidecar's wire protocol, version 1.

`EncodedDecodes` and `DecodedEncodes` are the two halves of the codec's law: every message that
encodes decodes to itself, and every accepted frame is the encoding of what it decodes to,
except the short health response of older peers. `StreamReadsBack` carries the first half to
any sequence of messages on one connection.
*/
module WireProtocol {
  import opened ByteCodec
  import opened Model
  import opened WireFields
  import opened WireRecords
  import opened CatalogRules
  import Crc32

  const PROTOCOL_VERSION: u16 := 1
  const FRAME_MAGIC: Bytes := [0x46, 0x54, 0x57, 0x53]
  const MAX_FRAME_BYTES: nat := 4 * 1024 * 1024
  const MAX_BATCH_POINTS: u32 := 16_384
  const MAX_METADATA_RECORDS: u32 := 16_384
  const MAX_QUEUE_ENTRIES: u32 := 65_536
  const MAX_ERROR_TEXT_BYTES: u16 := 512
  const HEADER_BYTES: nat := 12
  const CHECKSUM_BYTES: nat := 4
  const MAX_PAYLOAD_BYTES: nat := MAX_FRAME_BYTES - HEADER_BYTES - CHECKSUM_BYTES

  const HELLO_REQUEST: byte := 1
  const COMMIT_BATCH_REQUEST: byte := 2
  const FLUSH_REQUEST: byte := 3
  const HEALTH_REQUEST: byte := 4
  const HELLO_RESPONSE: byte := 128
  const ACK_RESPONSE: byte := 129
  const HEALTH_RESPONSE: byte := 130
  const ERROR_RESPONSE: byte := 131

  type SessionId = s: Bytes | |s| == 16 witness [0, 0, 0, 0, 0, 0, 0, 0, 0, 0, 0, 0, 0, 0, 0, 0]

  datatype Batch = Batch(
    sourceId: u128,
    sequence: u64,
    commitId: u128,
    entities: seq<Entity>,
    relations: seq<Relation>,
    series: seq<SeriesDefinition>,
    runs: seq<Run>,
    plans: seq<Plan>,
    points: seq<Point>)

  datatype AckKind = CommitAck | FlushAck

  datatype Ack = Ack(
    kind: AckKind,
    sourceId: u128,
    sequence: u64,
    commitId: u128,
    acceptedThrough: Option<u64>,
    durableThrough: Option<u64>,
    durable: bool,
    deduplicated: bool,
    frameOffset: u64,
    records: u32,
    points: u32,
    bytesWritten: u64)

  datatype HealthStatus = Healthy | Degraded | Unavailable
  datatype SyncPolicy = Always | Manual | EveryBytes(bytes: u64)

  // The fields a newer health response adds.
  datatype HealthDetail = HealthDetail(
    overloadCount: u64,
    protocolErrorCount: u64,
    databaseBytes: u64,
    databasePoints: u64,
    databaseCommits: u64,
    recoveredTailBytes: u64,
    syncPolicy: SyncPolicy,
    lastAckDurable: bool)

  const NO_DETAIL := HealthDetail(0, 0, 0, 0, 0, 0, Always, false)

  datatype Health = Health(
    nonce: u64,
    sourceId: u128,
    status: HealthStatus,
    queueEntries: u32,
    acceptedThrough: Option<u64>,
    durableThrough: Option<u64>,
    detail: HealthDetail)

  datatype ErrorCode = InvalidRequest | Overloaded | Internal | Unsupported | IdempotencyConflict

  datatype Message =
    | HelloRequest(sourceId: u128, nodeId: string, clientVersion: string, capabilities: u64)
    | CommitBatch(batch: Batch)
    | FlushRequest(sourceId: u128, throughSequence: u64)
    | HealthRequest(nonce: u64)
    | HelloResponse(selectedVersion: u16, sessionId: SessionId, serverTime: i64)
    | AckResponse(ack: Ack)
    | HealthResponse(health: Health)
    | ErrorResponse(code: ErrorCode, retryable: bool, message: string)

  // ---- Batches ----

  function MetadataCount(b: Batch): nat {
    |b.entities| + |b.relations| + |b.series| + |b.runs| + |b.plans|
  }

  predicate BatchValid(zones: set<string>, b: Batch) {
    && b.sourceId != 0
    && MetadataCount(b) <= MAX_METADATA_RECORDS
    && |b.points| <= MAX_BATCH_POINTS
    && (MetadataCount(b) > 0 || b.points != [])
    && (forall s <- b.series :: SeriesOk(zones, s))
    && (forall p <- b.plans :: PlanValid(p))
    && (forall p <- b.points :: p.seriesId != 0 && PointOk(p))
  }

  ghost predicate RecordsFit(zones: set<string>, b: Batch) {
    && (forall v <- b.entities :: EntityFits(v))
    && (forall v <- b.relations :: RelationFits(v))
    && (forall v <- b.series :: SeriesFits(zones, v))
    && (forall v <- b.runs :: RunFits(v))
    && (forall v <- b.plans :: PlanFits(v))
  }

  ghost function PutBatch(b: Batch): Bytes {
    PutU(b.sourceId, 16, PutU(b.sequence, 8, PutU(b.commitId, 16, PutRecords(b))))
  }

  ghost function PutRecords(b: Batch): Bytes {
    PutCollection(PutEntity, b.entities, PutCollection(PutRelation, b.relations,
      PutCollection(PutSeries, b.series, PutCollection(PutRun, b.runs,
        PutCollection(PutPlan, b.plans, PutCollection(PutPoint, b.points, []))))))
  }

  // The points must be exactly what remains.
  function TakePoints(raw: Bytes): (r: Parsed<seq<Point>>)
    ensures r.Parsed? ==>
              r.rest == [] && |r.value| <= MAX_BATCH_POINTS && raw == PutCollection(PutPoint, r.value, [])
  {
    var n :- TakeU32(raw);
    if n.value > MAX_BATCH_POINTS || |n.rest| != n.value * 72 then Rejected
    else
      PointInverse();
      PointsConsumed(n.value, n.rest);
      CollectionCanonical(AnyPoint, PutPoint, TakePoint, MAX_BATCH_POINTS, raw);
      TakeMany(TakePoint, n.value, n.rest)
  }

  lemma {:induction false} PointsConsumed(n: nat, raw: Bytes)
    requires |raw| == n * 72
    ensures TakeMany(TakePoint, n, raw).Parsed? ==> TakeMany(TakePoint, n, raw).rest == []
  {
    hide PutPoint, TakePoint;
    if n > 0 && TakePoint(raw).Parsed? {
      PointsConsumed(n - 1, TakePoint(raw).rest);
    }
  }

  lemma {:induction false} PointsSize(ps: seq<Point>)
    ensures |PutMany(PutPoint, ps, [])| == |ps| * 72
  {
    hide PutPoint;
    if ps != [] {
      PointsSize(ps[1..]);
    }
  }

  lemma PointsRoundTrip(ps: seq<Point>)
    requires |ps| <= MAX_BATCH_POINTS
    ensures TakePoints(PutCollection(PutPoint, ps, [])) == Parsed(ps, [])
  {
    hide TakeU32, PutU, PutMany, TakeMany, Inverse;
    PointInverse();
    PointsSize(ps);
    U32RoundTrip(|ps|, PutMany(PutPoint, ps, []));
    ManyRoundTrip(AnyPoint, PutPoint, TakePoint, ps, []);
  }

  // Five collections share one budget of records.
  function TakeBatch(zones: set<string>, raw: Bytes): Parsed<Batch> {
    var sourceId :- TakeU128(raw);
    var sequence :- TakeU64(sourceId.rest);
    var commitId :- TakeU128(sequence.rest);
    var most := MAX_METADATA_RECORDS;
    var entities :- TakeCollection(TakeEntity, most, commitId.rest);
    var most := most - |entities.value|;
    var relations :- TakeCollection(TakeRelation, most, entities.rest);
    var most := most - |relations.value|;
    var series :- TakeCollection(SeriesTaker(zones), most, relations.rest);
    var most := most - |series.value|;
    var runs :- TakeCollection(TakeRun, most, series.rest);
    var most := most - |runs.value|;
    var plans :- TakeCollection(TakePlan, most, runs.rest);
    var points :- TakePoints(plans.rest);
    var b := Batch(sourceId.value, sequence.value, commitId.value, entities.value, relations.value, series.value,
                   runs.value, plans.value, points.value);
    if BatchValid(zones, b) then Parsed(b, points.rest) else Rejected
  }

  lemma BatchCanonical(zones: set<string>, raw: Bytes)
    requires TakeBatch(zones, raw).Parsed?
    ensures var r := TakeBatch(zones, raw);
            r.rest == [] && BatchValid(zones, r.value) && RecordsFit(zones, r.value) && raw == PutBatch(r.value)
  {
    hide TakeU64, TakeU128, PutU, PutCollection, TakeCollection, Inverse, TakePoints, EntityFits, RelationFits,
         RunFits, PlanFits, SeriesFits, BatchValid;
    var start := TakeU128(TakeU64(TakeU128(raw).rest).rest).rest;
    var most := MAX_METADATA_RECORDS;
    EntityInverse();
    CollectionCanonical(EntityFits, PutEntity, TakeEntity, most, start);
    var entities := TakeCollection(TakeEntity, most, start);
    most := most - |entities.value|;
    RelationInverse();
    CollectionCanonical(RelationFits, PutRelation, TakeRelation, most, entities.rest);
    var relations := TakeCollection(TakeRelation, most, entities.rest);
    most := most - |relations.value|;
    SeriesInverse(zones);
    CollectionCanonical(SeriesFitter(zones), PutSeries, SeriesTaker(zones), most, relations.rest);
    var series := TakeCollection(SeriesTaker(zones), most, relations.rest);
    most := most - |series.value|;
    RunInverse();
    CollectionCanonical(RunFits, PutRun, TakeRun, most, series.rest);
    var runs := TakeCollection(TakeRun, most, series.rest);
    most := most - |runs.value|;
    PlanInverse();
    CollectionCanonical(PlanFits, PutPlan, TakePlan, most, runs.rest);
  }

  lemma BatchRoundTrip(zones: set<string>, b: Batch)
    requires BatchValid(zones, b) && RecordsFit(zones, b)
    ensures TakeBatch(zones, PutBatch(b)) == Parsed(b, [])
  {
    hide TakeU64, TakeU128, PutU, PutCollection, TakeCollection, Inverse, EntityFits, RelationFits, RunFits, PlanFits,
         SeriesFits, SeriesTaker, SeriesOk, PlanValid, PointOk, TakePoints;
    var r5 := PutCollection(PutPoint, b.points, []);
    var r4 := PutCollection(PutPlan, b.plans, r5);
    var r3 := PutCollection(PutRun, b.runs, r4);
    var r2 := PutCollection(PutSeries, b.series, r3);
    var r1 := PutCollection(PutRelation, b.relations, r2);
    var r0 := PutRecords(b);
    U128RoundTrip(b.sourceId, PutU(b.sequence, 8, PutU(b.commitId, 16, r0)));
    U64RoundTrip(b.sequence, PutU(b.commitId, 16, r0));
    U128RoundTrip(b.commitId, r0);
    var most := MAX_METADATA_RECORDS;
    EntityInverse();
    CollectionRoundTrip(EntityFits, PutEntity, TakeEntity, most, b.entities, r1);
    most := most - |b.entities|;
    RelationInverse();
    CollectionRoundTrip(RelationFits, PutRelation, TakeRelation, most, b.relations, r2);
    most := most - |b.relations|;
    SeriesInverse(zones);
    CollectionRoundTrip(SeriesFitter(zones), PutSeries, SeriesTaker(zones), most, b.series, r3);
    most := most - |b.series|;
    RunInverse();
    CollectionRoundTrip(RunFits, PutRun, TakeRun, most, b.runs, r4);
    most := most - |b.runs|;
    PlanInverse();
    CollectionRoundTrip(PlanFits, PutPlan, TakePlan, most, b.plans, r5);
    PointsRoundTrip(b.points);
  }

  // ---- Acknowledgements ----

  function AckByte(k: AckKind): byte {
    match k case CommitAck => 1 case FlushAck => 2
  }

  function AckFrom(b: byte): (r: Option<AckKind>)
    ensures forall k :: AckByte(k) == b <==> r == Some(k)
  {
    match b
    case 1 => Some(CommitAck)
    case 2 => Some(FlushAck)
    case _ => None
  }

  function PutAckTail(v: Ack, rest: Bytes): Bytes {
    PutBool(v.durable, PutBool(v.deduplicated,
      PutU(v.frameOffset, 8, PutU(v.records, 4, PutU(v.points, 4, PutU(v.bytesWritten, 8, rest))))))
  }

  function PutAck(v: Ack, rest: Bytes): Bytes {
    PutByte(AckByte(v.kind), PutU(v.sourceId, 16, PutU(v.sequence, 8, PutU(v.commitId, 16,
      PutOptionU64(v.acceptedThrough, PutOptionU64(v.durableThrough, PutAckTail(v, rest)))))))
  }

  function TakeAck(raw: Bytes): (r: Parsed<Ack>)
    ensures r.Parsed? ==> raw == PutAck(r.value, r.rest)
  {
    var tag :- TakeByte(raw);
    var kind :- Named(AckFrom(tag.value), tag.rest);
    var sourceId :- TakeU128(kind.rest);
    var sequence :- TakeU64(sourceId.rest);
    var commitId :- TakeU128(sequence.rest);
    var accepted :- TakeWatermark(commitId.rest);
    var durable :- TakeWatermark(accepted.rest);
    var isDurable :- TakeBool(durable.rest);
    var deduplicated :- TakeBool(isDurable.rest);
    var offset :- TakeU64(deduplicated.rest);
    var records :- TakeU32(offset.rest);
    var points :- TakeU32(records.rest);
    var written :- TakeU64(points.rest);
    Parsed(Ack(kind.value, sourceId.value, sequence.value, commitId.value, accepted.value, durable.value,
               isDurable.value, deduplicated.value, offset.value, records.value, points.value, written.value),
           written.rest)
  }

  lemma AckRoundTrip(v: Ack, rest: Bytes)
    ensures TakeAck(PutAck(v, rest)) == Parsed(v, rest)
  {
    hide TakeU32, TakeU64, TakeU128, PutU, TakeBool, PutBool, TakeWatermark, PutOptionU64, AckByte, AckFrom;
    var t5 := PutU(v.bytesWritten, 8, rest);
    var t4 := PutU(v.points, 4, t5);
    var t3 := PutU(v.records, 4, t4);
    var t2 := PutU(v.frameOffset, 8, t3);
    var t1 := PutBool(v.deduplicated, t2);
    var tail := PutAckTail(v, rest);
    var h4 := PutOptionU64(v.durableThrough, tail);
    var h3 := PutOptionU64(v.acceptedThrough, h4);
    var h2 := PutU(v.commitId, 16, h3);
    U128RoundTrip(v.sourceId, PutU(v.sequence, 8, h2));
    U64RoundTrip(v.sequence, h2);
    U128RoundTrip(v.commitId, h3);
    WatermarkRoundTrip(v.acceptedThrough, h4);
    WatermarkRoundTrip(v.durableThrough, tail);
    BoolRoundTrip(v.durable, t1);
    BoolRoundTrip(v.deduplicated, t2);
    U64RoundTrip(v.frameOffset, t3);
    U32RoundTrip(v.records, t4);
    U32RoundTrip(v.points, t5);
    U64RoundTrip(v.bytesWritten, rest);
  }

  // ---- Health ----

  function StatusByte(s: HealthStatus): byte {
    match s case Healthy => 1 case Degraded => 2 case Unavailable => 3
  }

  function StatusFrom(b: byte): (r: Option<HealthStatus>)
    ensures forall s :: StatusByte(s) == b <==> r == Some(s)
  {
    match b
    case 1 => Some(Healthy)
    case 2 => Some(Degraded)
    case 3 => Some(Unavailable)
    case _ => None
  }

  predicate PolicyEncodes(p: SyncPolicy) {
    p.EveryBytes? ==> p.bytes != 0
  }

  function PutSync(p: SyncPolicy, rest: Bytes): (r: Bytes)
    ensures |r| == 9 + |rest|
  {
    match p
    case Always => PutByte(1, PutU(0, 8, rest))
    case Manual => PutByte(2, PutU(0, 8, rest))
    case EveryBytes(bytes) => PutByte(3, PutU(bytes, 8, rest))
  }

  function TakeSync(raw: Bytes): (r: Parsed<SyncPolicy>)
    ensures r.Parsed? ==> PolicyEncodes(r.value) && raw == PutSync(r.value, r.rest)
  {
    var tag :- TakeByte(raw);
    if tag.value < 1 || tag.value > 3 then Rejected
    else
      var n :- TakeU64(tag.rest);
      if tag.value == 3 then
        if n.value == 0 then Rejected else Parsed(EveryBytes(n.value), n.rest)
      else if n.value != 0 then Rejected
      else Parsed(if tag.value == 1 then Always else Manual, n.rest)
  }

  lemma SyncRoundTrip(p: SyncPolicy, rest: Bytes)
    requires PolicyEncodes(p)
    ensures TakeSync(PutSync(p, rest)) == Parsed(p, rest)
  {
    hide TakeU64, PutU;
    U64RoundTrip(if p.EveryBytes? then p.bytes else 0, rest);
  }

  function PutDetail(d: HealthDetail, rest: Bytes): (r: Bytes)
    ensures |r| == 58 + |rest|
  {
    PutU(d.overloadCount, 8, PutU(d.protocolErrorCount, 8, PutU(d.databaseBytes, 8, PutU(d.databasePoints, 8,
      PutU(d.databaseCommits, 8, PutU(d.recoveredTailBytes, 8,
        PutSync(d.syncPolicy, PutByte(if d.lastAckDurable then 1 else 0, rest))))))))
  }

  function TakeDetail(raw: Bytes): (r: Parsed<HealthDetail>)
    ensures r.Parsed? ==> PolicyEncodes(r.value.syncPolicy) && raw == PutDetail(r.value, r.rest)
  {
    var overloads :- TakeU64(raw);
    var errors :- TakeU64(overloads.rest);
    var bytes :- TakeU64(errors.rest);
    var points :- TakeU64(bytes.rest);
    var commits :- TakeU64(points.rest);
    var tail :- TakeU64(commits.rest);
    var policy :- TakeSync(tail.rest);
    var durable :- TakeBool(policy.rest);
    Parsed(HealthDetail(overloads.value, errors.value, bytes.value, points.value, commits.value, tail.value,
                        policy.value, durable.value), durable.rest)
  }

  lemma DetailRoundTrip(d: HealthDetail, rest: Bytes)
    requires PolicyEncodes(d.syncPolicy)
    ensures TakeDetail(PutDetail(d, rest)) == Parsed(d, rest)
  {
    hide TakeU64, PutU, TakeSync, PutSync, PolicyEncodes, TakeBool;
    var r7 := PutByte(if d.lastAckDurable then 1 else 0, rest);
    var r6 := PutSync(d.syncPolicy, r7);
    var r5 := PutU(d.recoveredTailBytes, 8, r6);
    var r4 := PutU(d.databaseCommits, 8, r5);
    var r3 := PutU(d.databasePoints, 8, r4);
    var r2 := PutU(d.databaseBytes, 8, r3);
    U64RoundTrip(d.overloadCount, PutU(d.protocolErrorCount, 8, r2));
    U64RoundTrip(d.protocolErrorCount, r2);
    U64RoundTrip(d.databaseBytes, r3);
    U64RoundTrip(d.databasePoints, r4);
    U64RoundTrip(d.databaseCommits, r5);
    U64RoundTrip(d.recoveredTailBytes, r6);
    SyncRoundTrip(d.syncPolicy, r7);
    BoolRoundTrip(d.lastAckDurable, rest);
  }

  // What every health response starts with: 31, 39 or 47 bytes.
  function PutHealthBase(v: Health, rest: Bytes): (r: Bytes)
    ensures 31 + |rest| <= |r| <= 47 + |rest|
  {
    PutU(v.nonce, 8, PutU(v.sourceId, 16, PutByte(StatusByte(v.status), PutU(v.queueEntries, 4,
      PutOptionU64(v.acceptedThrough, PutOptionU64(v.durableThrough, rest))))))
  }

  function TakeHealthBase(raw: Bytes): (r: Parsed<Health>)
    ensures r.Parsed? ==> r.value.detail == NO_DETAIL && raw == PutHealthBase(r.value, r.rest)
  {
    var nonce :- TakeU64(raw);
    var sourceId :- TakeU128(nonce.rest);
    var tag :- TakeByte(sourceId.rest);
    var status :- Named(StatusFrom(tag.value), tag.rest);
    var queue :- TakeU32(status.rest);
    var accepted :- TakeWatermark(queue.rest);
    var durable :- TakeWatermark(accepted.rest);
    Parsed(Health(nonce.value, sourceId.value, status.value, queue.value, accepted.value, durable.value, NO_DETAIL),
           durable.rest)
  }

  lemma HealthBaseRoundTrip(v: Health, rest: Bytes)
    ensures TakeHealthBase(PutHealthBase(v, rest)) == Parsed(v.(detail := NO_DETAIL), rest)
  {
    hide TakeU32, TakeU64, TakeU128, PutU, TakeWatermark, PutOptionU64, StatusByte, StatusFrom;
    var r5 := PutOptionU64(v.durableThrough, rest);
    var r4 := PutOptionU64(v.acceptedThrough, r5);
    var r3 := PutU(v.queueEntries, 4, r4);
    var r2 := PutByte(StatusByte(v.status), r3);
    U64RoundTrip(v.nonce, PutU(v.sourceId, 16, r2));
    U128RoundTrip(v.sourceId, r2);
    U32RoundTrip(v.queueEntries, r4);
    WatermarkRoundTrip(v.acceptedThrough, r5);
    WatermarkRoundTrip(v.durableThrough, rest);
  }

  function PutHealth(v: Health): Bytes {
    PutHealthBase(v, PutDetail(v.detail, []))
  }

  // A response that stops after the watermarks comes from an older peer.
  function TakeHealth(raw: Bytes): (r: Parsed<Health>)
    ensures r.Parsed? ==> PolicyEncodes(r.value.detail.syncPolicy)
    ensures r.Parsed? && r.rest == [] ==>
              if |raw| <= 47 then raw == PutHealthBase(r.value, []) && r.value.detail == NO_DETAIL
              else raw == PutHealth(r.value)
  {
    var base :- TakeHealthBase(raw);
    if base.rest == [] then base
    else
      var detail :- TakeDetail(base.rest);
      assert PutHealthBase(base.value.(detail := detail.value), base.rest) == PutHealthBase(base.value, base.rest);
      Parsed(base.value.(detail := detail.value), detail.rest)
  }

  lemma HealthRoundTrip(v: Health)
    requires PolicyEncodes(v.detail.syncPolicy)
    ensures TakeHealth(PutHealth(v)) == Parsed(v, [])
  {
    hide TakeHealthBase, PutHealthBase, TakeDetail, PutDetail, PolicyEncodes;
    var tail := PutDetail(v.detail, []);
    HealthBaseRoundTrip(v, tail);
    DetailRoundTrip(v.detail, []);
  }

  // ---- Payloads ----

  function ErrorByte(c: ErrorCode): byte {
    match c case InvalidRequest => 1 case Overloaded => 2 case Internal => 3 case Unsupported => 4 case IdempotencyConflict => 5
  }

  function ErrorFrom(b: byte): (r: Option<ErrorCode>)
    ensures forall c :: ErrorByte(c) == b <==> r == Some(c)
  {
    match b
    case 1 => Some(InvalidRequest)
    case 2 => Some(Overloaded)
    case 3 => Some(Internal)
    case 4 => Some(Unsupported)
    case 5 => Some(IdempotencyConflict)
    case _ => None
  }

  function KindOf(m: Message): byte {
    match m
    case HelloRequest(_, _, _, _) => HELLO_REQUEST
    case CommitBatch(_) => COMMIT_BATCH_REQUEST
    case FlushRequest(_, _) => FLUSH_REQUEST
    case HealthRequest(_) => HEALTH_REQUEST
    case HelloResponse(_, _, _) => HELLO_RESPONSE
    case AckResponse(_) => ACK_RESPONSE
    case HealthResponse(_) => HEALTH_RESPONSE
    case ErrorResponse(_, _, _) => ERROR_RESPONSE
  }

  predicate KnownKind(kind: byte) {
    1 <= kind <= 4 || 128 <= kind <= 131
  }

  ghost predicate MessageFits(zones: set<string>, m: Message) {
    match m
    case HelloRequest(sourceId, node, version, _) => sourceId != 0 && TextFits(node, 1, 128) && TextFits(version, 1, 64)
    case CommitBatch(batch) => BatchValid(zones, batch) && RecordsFit(zones, batch)
    case FlushRequest(sourceId, _) => sourceId != 0
    case HealthRequest(_) => true
    case HelloResponse(version, _, _) => version == PROTOCOL_VERSION
    case AckResponse(ack) => ack.sourceId != 0
    case HealthResponse(v) =>
      v.queueEntries <= MAX_QUEUE_ENTRIES && v.sourceId != 0 && PolicyEncodes(v.detail.syncPolicy)
    case ErrorResponse(_, _, message) => TextFits(message, 1, MAX_ERROR_TEXT_BYTES)
  }

  ghost function PutPayload(m: Message): Bytes {
    match m
    case HelloRequest(sourceId, node, version, capabilities) =>
      PutU(sourceId, 16, PutText(node, PutText(version, PutU(capabilities, 8, []))))
    case CommitBatch(batch) => PutBatch(batch)
    case FlushRequest(sourceId, through) => PutU(sourceId, 16, PutU(through, 8, []))
    case HealthRequest(nonce) => PutU(nonce, 8, [])
    case HelloResponse(version, session, time) => PutU(version, 2, session + PutI64(time, []))
    case AckResponse(ack) => PutAck(ack, [])
    case HealthResponse(health) => PutHealth(health)
    case ErrorResponse(code, retryable, message) =>
      PutByte(ErrorByte(code), PutBool(retryable, PutText(message, [])))
  }

  function TakeHello(raw: Bytes): (r: Parsed<Message>)
    ensures r.Parsed? && r.rest == [] ==> r.value.HelloRequest? && raw == PutPayload(r.value)
    ensures r.Parsed? && r.value.HelloRequest? && r.value.sourceId != 0 ==> MessageFits({}, r.value)
  {
    var sourceId :- TakeU128(raw);
    var node :- TakeText(sourceId.rest, 1, 128);
    var version :- TakeText(node.rest, 1, 64);
    var capabilities :- TakeU64(version.rest);
    Parsed(HelloRequest(sourceId.value, node.value, version.value, capabilities.value), capabilities.rest)
  }

  function TakeFlush(raw: Bytes): (r: Parsed<Message>)
    ensures r.Parsed? && r.rest == [] ==> r.value.FlushRequest? && raw == PutPayload(r.value)
  {
    var sourceId :- TakeU128(raw);
    var through :- TakeU64(sourceId.rest);
    Parsed(FlushRequest(sourceId.value, through.value), through.rest)
  }

  function TakeHelloResponse(raw: Bytes): (r: Parsed<Message>)
    ensures r.Parsed? ==> MessageFits({}, r.value)
    ensures r.Parsed? && r.rest == [] ==> r.value.HelloResponse? && raw == PutPayload(r.value)
  {
    var version :- TakeU16(raw);
    if version.value != PROTOCOL_VERSION || |version.rest| < 16 then Rejected
    else
      var time :- TakeI64(version.rest[16..]);
      assert version.rest == version.rest[..16] + version.rest[16..];
      Parsed(HelloResponse(version.value, version.rest[..16], time.value), time.rest)
  }

  function TakeError(raw: Bytes): (r: Parsed<Message>)
    ensures r.Parsed? ==> MessageFits({}, r.value)
    ensures r.Parsed? && r.rest == [] ==> r.value.ErrorResponse? && raw == PutPayload(r.value)
  {
    var tag :- TakeByte(raw);
    var code :- Named(ErrorFrom(tag.value), tag.rest);
    var retryable :- TakeBool(code.rest);
    var message :- TakeText(retryable.rest, 1, MAX_ERROR_TEXT_BYTES);
    Parsed(ErrorResponse(code.value, retryable.value, message.value), message.rest)
  }

  function TakeMessage(zones: set<string>, kind: byte, raw: Bytes): Parsed<Message>
    requires KnownKind(kind)
  {
    match kind
    case 1 => TakeHello(raw)
    case 2 =>
      var batch :- TakeBatch(zones, raw);
      Parsed(CommitBatch(batch.value), batch.rest)
    case 3 => TakeFlush(raw)
    case 4 =>
      var nonce :- TakeU64(raw);
      Parsed(HealthRequest(nonce.value), nonce.rest)
    case 128 => TakeHelloResponse(raw)
    case 129 =>
      var ack :- TakeAck(raw);
      Parsed(AckResponse(ack.value), ack.rest)
    case 130 =>
      var health :- TakeHealth(raw);
      if health.value.queueEntries > MAX_QUEUE_ENTRIES then Rejected
      else Parsed(HealthResponse(health.value), health.rest)
    case _ => TakeError(raw)
  }

  predicate NamesSource(m: Message) {
    match m
    case HelloRequest(sourceId, _, _, _) => sourceId != 0
    case FlushRequest(sourceId, _) => sourceId != 0
    case AckResponse(ack) => ack.sourceId != 0
    case HealthResponse(health) => health.sourceId != 0
    case _ => true
  }

  function TakePayload(zones: set<string>, kind: byte, raw: Bytes): Option<Message>
    requires KnownKind(kind)
  {
    var m := TakeMessage(zones, kind, raw);
    if m.Rejected? || !NamesSource(m.value) || m.rest != [] then None else Some(m.value)
  }

  // A short health response: the one accepted payload that is not written any more.
  predicate Legacy(kind: byte, size: nat) {
    kind == HEALTH_RESPONSE && size <= 47
  }

  lemma PayloadCanonical(zones: set<string>, kind: byte, raw: Bytes)
    requires KnownKind(kind) && TakePayload(zones, kind, raw).Some?
    ensures var m := TakePayload(zones, kind, raw).value;
            && MessageFits(zones, m) && KindOf(m) == kind
            && (raw == PutPayload(m) <==> !Legacy(kind, |raw|))
  {
    hide TakeBatch, TakeAck, TakeHealth, TakeHello, TakeFlush, TakeHelloResponse, TakeError, TakeU64, PutBatch, PutAck,
         TextFits, BatchValid, RecordsFit, PolicyEncodes, PutHealthBase, PutDetail, PutU;
    if kind == COMMIT_BATCH_REQUEST {
      BatchCanonical(zones, raw);
    }
  }

  lemma PayloadRoundTrip(zones: set<string>, m: Message)
    requires MessageFits(zones, m)
    ensures TakePayload(zones, KindOf(m), PutPayload(m)) == Some(m)
  {
    hide TakeBatch, TakeAck, TakeHealth, PutBatch, PutAck, PutHealth, TextFits, BatchValid, RecordsFit, PolicyEncodes,
         TakeU16, TakeU64, TakeU128, TakeI64, PutU, PutI64, TakeText, PutText, TakeBool, PutBool;
    match m
    case HelloRequest(sourceId, node, version, capabilities) =>
      var r3 := PutU(capabilities, 8, []);
      var r2 := PutText(version, r3);
      U128RoundTrip(sourceId, PutText(node, r2));
      TextRoundTrip(node, 1, 128, r2);
      TextRoundTrip(version, 1, 64, r3);
      U64RoundTrip(capabilities, []);
    case CommitBatch(batch) => BatchRoundTrip(zones, batch);
    case FlushRequest(sourceId, through) =>
      U128RoundTrip(sourceId, PutU(through, 8, []));
      U64RoundTrip(through, []);
    case HealthRequest(nonce) => U64RoundTrip(nonce, []);
    case HelloResponse(version, session, time) =>
      U16RoundTrip(version, session + PutI64(time, []));
      TakeDrop(session, PutI64(time, []));
      I64RoundTrip(time, []);
    case AckResponse(ack) => AckRoundTrip(ack, []);
    case HealthResponse(health) => HealthRoundTrip(health);
    case ErrorResponse(code, retryable, message) =>
      var r2 := PutText(message, []);
      BoolRoundTrip(retryable, r2);
      TextRoundTrip(message, 1, MAX_ERROR_TEXT_BYTES, []);
  }

  // ---- Frames ----

  function Header(kind: byte, size: nat): (r: Bytes)
    ensures |r| == HEADER_BYTES
  {
    FRAME_MAGIC + BE(PROTOCOL_VERSION, 2) + [kind, 0] + BE(size, 4)
  }

  function Frame(kind: byte, payload: Bytes): (r: Bytes)
    ensures |r| == HEADER_BYTES + |payload| + CHECKSUM_BYTES
  {
    var body := Header(kind, |payload|) + payload;
    body + BE(Crc32.Checksum(body), 4)
  }

  ghost function Encode(zones: set<string>, m: Message): Option<Bytes> {
    if MessageFits(zones, m) && |PutPayload(m)| <= MAX_PAYLOAD_BYTES
    then Some(Frame(KindOf(m), PutPayload(m)))
    else None
  }

  // The message kind and the length of the whole frame.
  function ParseHeader(frame: Bytes): (r: Option<(byte, nat)>)
    ensures r.Some? ==> KnownKind(r.value.0) && HEADER_BYTES + CHECKSUM_BYTES <= r.value.1 <= MAX_FRAME_BYTES
  {
    if |frame| < HEADER_BYTES || frame[..4] != FRAME_MAGIC || FromBE(frame[4..6]) != PROTOCOL_VERSION then None
    else if !KnownKind(frame[6]) || frame[7] != 0 then None
    else
      var total := HEADER_BYTES + FromBE(frame[8..12]) + CHECKSUM_BYTES;
      if total > MAX_FRAME_BYTES then None else Some((frame[6], total))
  }

  function Decode(zones: set<string>, frame: Bytes): Option<Message> {
    match ParseHeader(frame)
    case None => None
    case Some((kind, total)) =>
      if |frame| != total || FromBE(frame[total - 4..]) != Crc32.Checksum(frame[..total - 4]) then None
      else TakePayload(zones, kind, frame[HEADER_BYTES..total - 4])
  }

  lemma HeaderRoundTrip(kind: byte, size: nat, rest: Bytes)
    requires KnownKind(kind) && size <= MAX_PAYLOAD_BYTES
    ensures ParseHeader(Header(kind, size) + rest) == Some((kind, HEADER_BYTES + size + CHECKSUM_BYTES))
  {
    var h := Header(kind, size);
    var frame := h + rest;
    Pow256Values();
    FromBEOfBE(PROTOCOL_VERSION, 2);
    FromBEOfBE(size, 4);
    assert frame[..4] == FRAME_MAGIC;
    assert frame[4..6] == BE(PROTOCOL_VERSION, 2);
    assert frame[8..12] == BE(size, 4);
    assert frame[6] == kind && frame[7] == 0;
  }

  lemma HeaderCanonical(frame: Bytes)
    requires ParseHeader(frame).Some?
    ensures var (kind, total) := ParseHeader(frame).value;
            frame[..HEADER_BYTES] == Header(kind, total - HEADER_BYTES - CHECKSUM_BYTES)
  {
    BEOfFromBE(frame[4..6]);
    BEOfFromBE(frame[8..12]);
    assert frame[..12] == frame[..4] + frame[4..6] + [frame[6], frame[7]] + frame[8..12];
  }

  lemma FrameParts(kind: byte, payload: Bytes)
    ensures var f := Frame(kind, payload);
            var body := Header(kind, |payload|) + payload;
            && f[..|f| - 4] == body && f[HEADER_BYTES..|f| - 4] == payload
            && f[|f| - 4..] == BE(Crc32.Checksum(body), 4)
  {
    hide Header;
    var body := Header(kind, |payload|) + payload;
    var f := Frame(kind, payload);
    TakeDrop(body, BE(Crc32.Checksum(body), 4));
    assert f[HEADER_BYTES..|f| - 4] == body[HEADER_BYTES..];
  }

  /** Every message that encodes decodes to itself, at any position of a stream's frame. */
  lemma EncodedDecodes(zones: set<string>, m: Message)
    requires Encode(zones, m).Some?
    ensures Decode(zones, Encode(zones, m).value) == Some(m)
  {
    hide Header, ParseHeader, TakePayload, PutPayload, MessageFits, Crc32.Checksum;
    var payload := PutPayload(m);
    var f := Encode(zones, m).value;
    var body := Header(KindOf(m), |payload|) + payload;
    var sum := BE(Crc32.Checksum(body), 4);
    FrameParts(KindOf(m), payload);
    assert f == Header(KindOf(m), |payload|) + (payload + sum);
    HeaderRoundTrip(KindOf(m), |payload|, payload + sum);
    Pow256Values();
    FromBEOfBE(Crc32.Checksum(body), 4);
    PayloadRoundTrip(zones, m);
  }

  /**
  Every accepted frame is the one encoding of its message, except the short health response,
  which never is.
  */
  lemma DecodedEncodes(zones: set<string>, frame: Bytes)
    requires Decode(zones, frame).Some?
    ensures |frame| >= HEADER_BYTES + CHECKSUM_BYTES
    ensures var m := Decode(zones, frame).value;
            && (Encode(zones, m) == Some(frame) <==> !Legacy(frame[6], |frame| - HEADER_BYTES - CHECKSUM_BYTES))
            && (Legacy(frame[6], |frame| - HEADER_BYTES - CHECKSUM_BYTES) ==>
                  m.HealthResponse? && m.health.detail == NO_DETAIL)
  {
    hide TakePayload, PutPayload, MessageFits, Crc32.Checksum, Header;
    var m := Decode(zones, frame).value;
    var total := |frame|;
    var payload := frame[HEADER_BYTES..total - 4];
    var kind := frame[6];
    PayloadCanonical(zones, kind, payload);
    HeaderCanonical(frame);
    LegacyHasNoDetail(zones, kind, payload);
    BEOfFromBE(frame[total - 4..]);
    var body := Header(kind, |payload|) + payload;
    assert frame[..total - 4] == body;
    assert frame == body + frame[total - 4..];
    assert frame == Frame(kind, payload);
    FrameParts(kind, payload);
    FrameParts(kind, PutPayload(m));
  }

  lemma LegacyHasNoDetail(zones: set<string>, kind: byte, raw: Bytes)
    requires KnownKind(kind) && TakePayload(zones, kind, raw).Some?
    ensures var m := TakePayload(zones, kind, raw).value;
            Legacy(kind, |raw|) ==> m.HealthResponse? && m.health.detail == NO_DETAIL
  {
    hide TakeBatch, TakeAck, TakeHealth, TakeHello, TakeFlush, TakeHelloResponse, TakeError, TakeU64, PutHealthBase;
  }

  // ---- Streams ----

  // Reads the header first, then the rest of that one frame.
  function ReadFrom(zones: set<string>, stream: Bytes): Parsed<Message> {
    if |stream| < HEADER_BYTES then Rejected
    else match ParseHeader(stream[..HEADER_BYTES])
      case None => Rejected
      case Some((_, total)) =>
        if |stream| < total then Rejected
        else match Decode(zones, stream[..total])
          case None => Rejected
          case Some(m) => Parsed(m, stream[total..])
  }

  ghost function WriteAll(zones: set<string>, ms: seq<Message>): Bytes
    requires forall m <- ms :: Encode(zones, m).Some?
  {
    if ms == [] then [] else
      assert ms[0] in ms;
      Encode(zones, ms[0]).value + WriteAll(zones, ms[1..])
  }

  function ReadAll(zones: set<string>, n: nat, stream: Bytes): Parsed<seq<Message>> {
    if n == 0 then Parsed([], stream)
    else
      var first :- ReadFrom(zones, stream);
      var others :- ReadAll(zones, n - 1, first.rest);
      Parsed([first.value] + others.value, others.rest)
  }

  lemma FrameReads(zones: set<string>, m: Message, rest: Bytes)
    requires Encode(zones, m).Some?
    ensures ReadFrom(zones, Encode(zones, m).value + rest) == Parsed(m, rest)
  {
    hide ParseHeader, Header, Decode, PutPayload, MessageFits, Crc32.Checksum;
    var f := Encode(zones, m).value;
    var payload := PutPayload(m);
    var head := Header(KindOf(m), |payload|);
    EncodedDecodes(zones, m);
    HeaderRoundTrip(KindOf(m), |payload|, []);
    assert (f + rest)[..HEADER_BYTES] == head + [];
    TakeDrop(f, rest);
  }

  // Messages written one after another read back in order, and nothing of what follows is consumed.
  lemma {:induction false} StreamReadsBack(zones: set<string>, ms: seq<Message>, rest: Bytes)
    requires forall m <- ms :: Encode(zones, m).Some?
    ensures ReadAll(zones, |ms|, WriteAll(zones, ms) + rest) == Parsed(ms, rest)
  {
    hide ReadFrom, Encode;
    if ms == [] {
      assert WriteAll(zones, ms) + rest == rest;
    } else {
      assert ms[0] in ms;
      var others := WriteAll(zones, ms[1..]) + rest;
      var stream := WriteAll(zones, ms) + rest;
      assert stream == Encode(zones, ms[0]).value + others;
      FrameReads(zones, ms[0], others);
      StreamReadsBack(zones, ms[1..], rest);
      assert ms == [ms[0]] + ms[1..];
    }
  }
}

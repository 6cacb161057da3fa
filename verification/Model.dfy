/**
The records a transaction carries: raw points and catalog metadata.

Floating-point values are kept as their 64 IEEE-754 bits; only finiteness and
the identification of the two zeros by `==` are interpreted.
*/
module Model {
  import opened ByteCodec

  datatype Point = Point(
    seriesId: u64,
    validTime: i64,
    validEnd: i64,
    knowledgeTime: i64,
    changeTime: i64,
    runId: u128,
    value: u64,
    quality: u32,
    flags: u32)

  // `f64::is_finite` on the bit pattern: the exponent field is not all ones.
  predicate IsFinite(bits: u64) {
    (bits / 0x10_0000_0000_0000) % 0x800 != 0x7FF
  }

  // Finite means a magnitude below the pattern of infinity, whatever the sign.
  lemma FiniteIffBelowInfinity(bits: u64)
    ensures IsFinite(bits) <==> bits % 0x8000_0000_0000_0000 < 0x7FF0_0000_0000_0000
  {
    var magnitude := bits % 0x8000_0000_0000_0000;
    assert bits == magnitude || bits == magnitude + 0x800 * 0x10_0000_0000_0000;
  }

  // `==` on finite `f64` values: equal bits, or the two zeros.
  predicate FloatEq(a: u64, b: u64) {
    a == b || (a % 0x8000_0000_0000_0000 == 0 && b % 0x8000_0000_0000_0000 == 0)
  }

  datatype PropertyValue =
    | Null
    | Bool(flag: bool)
    | Integer(number: i64)
    | Float(bits: u64)
    | Text(text: string)

  type Properties = map<string, PropertyValue>

  datatype Entity = Entity(
    id: u128,
    kind: string,
    name: string,
    parent: Option<u128>,
    validFrom: i64,
    validTo: Option<i64>,
    properties: Properties)

  datatype Relation = Relation(
    id: u128,
    kind: string,
    source: u128,
    target: u128,
    validFrom: i64,
    validTo: Option<i64>,
    properties: Properties)

  datatype SeriesSemantics = Gauge | IntervalTotal | Counter | State | Event
  datatype CalendarUnit = Day | Month | Year
  datatype RollupResolution = FixedMicros(micros: i64) | Calendar(unit: CalendarUnit, zone: string)
  datatype RollupTier = RollupTier(resolution: RollupResolution, retainFor: Option<i64>)
  datatype RollupPolicy = RollupPolicy(rawRetainFor: Option<i64>, tiers: seq<RollupTier>)

  datatype SeriesDefinition = SeriesDefinition(
    id: u64,
    ownerEntity: Option<u128>,
    ownerRelation: Option<u128>,
    name: string,
    physicalQuantity: string,
    canonicalUnit: string,
    semantics: SeriesSemantics,
    maximumGap: Option<i64>,
    rollupPolicy: RollupPolicy)

  datatype RunKind = Forecast | Optimization | Import | Control | Reconciliation
  datatype RunStatus = Pending | Running | Succeeded | Failed | RunCancelled

  datatype Run = Run(
    id: u128,
    kind: RunKind,
    status: RunStatus,
    createdAt: i64,
    knowledgeTime: i64,
    workflow: string,
    model: string,
    modelVersion: string,
    parentRun: Option<u128>,
    inputSnapshot: Option<u128>,
    attributes: Properties)

  datatype PlanStatus = Candidate | Approved | Deployed | Superseded | PlanCancelled

  datatype Plan = Plan(
    id: u128,
    runId: u128,
    status: PlanStatus,
    horizonStart: i64,
    horizonEnd: i64,
    resolution: i64,
    scenario: string,
    objectiveTerms: map<string, u64>,
    objectiveValue: Option<u64>,
    supersedes: Option<u128>,
    attributes: Properties)

  datatype Record =
    | EntityRecord(entity: Entity)
    | RelationRecord(relation: Relation)
    | SeriesRecord(series: SeriesDefinition)
    | RunRecord(run: Run)
    | PlanRecord(plan: Plan)
    | PointsRecord(points: seq<Point>)

  datatype Catalog = Catalog(
    entities: map<u128, Entity>,
    relations: map<u128, Relation>,
    series: map<u64, SeriesDefinition>,
    runs: map<u128, Run>,
    plans: map<u128, Plan>)

  const EMPTY_CATALOG := Catalog(map[], map[], map[], map[], map[])

  datatype IngressIdentity = IngressIdentity(sourceId: u128, sequence: u64, commitId: u128)

  datatype Transaction = Transaction(
    records: seq<Record>,
    commitId: Option<u128>,
    ingress: Option<IngressIdentity>)

  // ---- Receipts a compacted log keeps for retries ----

  datatype CompactIdentified = CompactIdentified(
    commitId: u128,
    payloadLen: u32,
    payloadCrc: u32,
    points: u64,
    records: u64,
    payload: Bytes)

  datatype CompactIngress = CompactIngress(
    identity: IngressIdentity,
    payloadLen: u32,
    payloadCrc: u32,
    points: u64,
    records: u64,
    payload: Bytes,
    frameOffset: u64,
    bytesWritten: u64)

  datatype IdentityIndex = IdentityIndex(identified: seq<CompactIdentified>, ingress: seq<CompactIngress>)

  // The points of a record list, in order.
  function PointsOf(records: seq<Record>): seq<Point> {
    if records == [] then []
    else
      var last := records[|records| - 1];
      PointsOf(records[..|records| - 1]) + (if last.PointsRecord? then last.points else [])
  }

  // The number of records that are not point batches.
  function MetadataCount(records: seq<Record>): nat {
    if records == [] then 0
    else
      var last := records[|records| - 1];
      MetadataCount(records[..|records| - 1]) + (if last.PointsRecord? then 0 else 1)
  }

  // Concatenation and one record determine both: every batch of a transaction counts, in order.
  lemma {:induction false} RecordsSplit(a: seq<Record>, b: seq<Record>)
    ensures PointsOf(a + b) == PointsOf(a) + PointsOf(b)
    ensures MetadataCount(a + b) == MetadataCount(a) + MetadataCount(b)
  {
    if b == [] {
      assert a + b == a;
    } else {
      RecordsSplit(a, b[..|b| - 1]);
      assert (a + b)[..|a + b| - 1] == a + b[..|b| - 1];
    }
  }

  lemma OneRecord(r: Record)
    ensures PointsOf([r]) == match r case PointsRecord(points) => points case _ => []
    ensures MetadataCount([r]) == match r case PointsRecord(_) => 0 case _ => 1
  {
    assert [r][..0] == [];
  }

  // The catalog-independent point rule both writers enforce.
  predicate PointOk(p: Point) {
    p.validTime <= p.validEnd && IsFinite(p.value)
  }

  predicate PointsOk(points: seq<Point>) {
    forall p <- points :: PointOk(p)
  }
}

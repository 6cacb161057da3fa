/**
Catalog records and points on the wire.

Each record is written field by field in declaration order and read back the same way.
For every kind of record `Inverse` is proved: what may be written reads back unchanged, and
what is read could only have been written one way.
*/
module WireRecords {
  import opened ByteCodec
  import opened Model
  import opened WireFields
  import opened CatalogRules

  const MAX_TEXT_BYTES: u16 := 4_096
  const MAX_PROPERTIES: u32 := 1_024
  const MAX_ROLLUP_TIERS: u32 := 64

  // ---- Tags ----

  function SemanticsByte(v: SeriesSemantics): byte {
    match v case Gauge => 1 case IntervalTotal => 2 case Counter => 3 case State => 4 case Event => 5
  }

  function SemanticsFrom(b: byte): (r: Option<SeriesSemantics>)
    ensures forall v :: SemanticsByte(v) == b <==> r == Some(v)
  {
    match b
    case 1 => Some(Gauge)
    case 2 => Some(IntervalTotal)
    case 3 => Some(Counter)
    case 4 => Some(State)
    case 5 => Some(Event)
    case _ => None
  }

  function UnitByte(v: CalendarUnit): byte {
    match v case Day => 1 case Month => 2 case Year => 3
  }

  function UnitFrom(b: byte): (r: Option<CalendarUnit>)
    ensures forall v :: UnitByte(v) == b <==> r == Some(v)
  {
    match b
    case 1 => Some(Day)
    case 2 => Some(Month)
    case 3 => Some(Year)
    case _ => None
  }

  function RunKindByte(v: RunKind): byte {
    match v case Forecast => 1 case Optimization => 2 case Import => 3 case Control => 4 case Reconciliation => 5
  }

  function RunKindFrom(b: byte): (r: Option<RunKind>)
    ensures forall v :: RunKindByte(v) == b <==> r == Some(v)
  {
    match b
    case 1 => Some(Forecast)
    case 2 => Some(Optimization)
    case 3 => Some(Import)
    case 4 => Some(Control)
    case 5 => Some(Reconciliation)
    case _ => None
  }

  function RunStatusByte(v: RunStatus): byte {
    match v case Pending => 1 case Running => 2 case Succeeded => 3 case Failed => 4 case RunCancelled => 5
  }

  function RunStatusFrom(b: byte): (r: Option<RunStatus>)
    ensures forall v :: RunStatusByte(v) == b <==> r == Some(v)
  {
    match b
    case 1 => Some(Pending)
    case 2 => Some(Running)
    case 3 => Some(Succeeded)
    case 4 => Some(Failed)
    case 5 => Some(RunCancelled)
    case _ => None
  }

  function PlanStatusByte(v: PlanStatus): byte {
    match v case Candidate => 1 case Approved => 2 case Deployed => 3 case Superseded => 4 case PlanCancelled => 5
  }

  function PlanStatusFrom(b: byte): (r: Option<PlanStatus>)
    ensures forall v :: PlanStatusByte(v) == b <==> r == Some(v)
  {
    match b
    case 1 => Some(Candidate)
    case 2 => Some(Approved)
    case 3 => Some(Deployed)
    case 4 => Some(Superseded)
    case 5 => Some(PlanCancelled)
    case _ => None
  }

  // A byte that must name a value.
  function Named<T>(tag: Option<T>, rest: Bytes): Parsed<T> {
    match tag case None => Rejected case Some(v) => Parsed(v, rest)
  }

  // ---- Properties ----

  predicate ValueFits(v: PropertyValue) {
    match v
    case Float(bits) => IsFinite(bits)
    case Text(text) => TextFits(text, 0, MAX_TEXT_BYTES)
    case _ => true
  }

  function PutValue(v: PropertyValue, rest: Bytes): Bytes {
    match v
    case Null => PutByte(0, rest)
    case Bool(flag) => PutByte(1, PutBool(flag, rest))
    case Integer(number) => PutByte(2, PutI64(number, rest))
    case Float(bits) => PutByte(3, PutU(bits, 8, rest))
    case Text(text) => PutByte(4, PutText(text, rest))
  }

  function TakeValue(raw: Bytes): (r: Parsed<PropertyValue>)
    ensures r.Parsed? ==> ValueFits(r.value) && raw == PutValue(r.value, r.rest)
  {
    var tag :- TakeByte(raw);
    match tag.value
    case 0 => Parsed(Null, tag.rest)
    case 1 =>
      var flag :- TakeBool(tag.rest);
      Parsed(Bool(flag.value), flag.rest)
    case 2 =>
      var number :- TakeI64(tag.rest);
      Parsed(Integer(number.value), number.rest)
    case 3 =>
      var bits :- TakeF64(tag.rest);
      Parsed(Float(bits.value), bits.rest)
    case 4 =>
      var text :- TakeText(tag.rest, 0, MAX_TEXT_BYTES);
      Parsed(Text(text.value), text.rest)
    case _ => Rejected
  }

  lemma ValueRoundTrip(v: PropertyValue, rest: Bytes)
    requires ValueFits(v)
    ensures TakeValue(PutValue(v, rest)) == Parsed(v, rest)
  {
    hide TakeBool, PutBool, TakeI64, PutI64, TakeF64, PutU, TakeText, PutText, TextFits;
    match v
    case Null =>
    case Bool(flag) => BoolRoundTrip(flag, rest);
    case Integer(number) => I64RoundTrip(number, rest);
    case Float(bits) => F64RoundTrip(bits, rest);
    case Text(text) => TextRoundTrip(text, 0, MAX_TEXT_BYTES, rest);
  }

  lemma ValueInverse()
    ensures Inverse(ValueFits, PutValue, TakeValue)
  {
    hide ValueFits, PutValue, TakeValue;
    forall v, rest | ValueFits(v) ensures TakeValue(PutValue(v, rest)) == Parsed(v, rest) {
      ValueRoundTrip(v, rest);
    }
  }

  ghost predicate PropertiesFit(m: Properties) {
    MapFits(ValueFits, MAX_PROPERTIES, m)
  }

  ghost function PutProperties(m: Properties, rest: Bytes): Bytes {
    PutMap(PutValue, m, rest)
  }

  function TakeProperties(raw: Bytes): (r: Parsed<Properties>)
    ensures r.Parsed? ==> PropertiesFit(r.value) && raw == PutProperties(r.value, r.rest)
  {
    ValueInverse();
    if TakeMap(TakeValue, MAX_PROPERTIES, raw).Rejected? then Rejected
    else
      MapCanonical(ValueFits, PutValue, TakeValue, MAX_PROPERTIES, raw);
      TakeMap(TakeValue, MAX_PROPERTIES, raw)
  }

  lemma PropertiesRoundTrip(m: Properties, rest: Bytes)
    requires PropertiesFit(m)
    ensures TakeProperties(PutProperties(m, rest)) == Parsed(m, rest)
  {
    hide MapFits, PutMap, TakeMap, Inverse;
    ValueInverse();
    MapRoundTrip(ValueFits, PutValue, TakeValue, MAX_PROPERTIES, m, rest);
  }

  // Objective terms: names and finite numbers.
  predicate TermFits(bits: u64) {
    IsFinite(bits)
  }

  function PutTerm(bits: u64, rest: Bytes): Bytes {
    PutU(bits, 8, rest)
  }

  lemma TermInverse()
    ensures Inverse(TermFits, PutTerm, TakeF64)
  {
    hide TakeF64, PutU;
    forall v: u64, rest | TermFits(v) ensures TakeF64(PutTerm(v, rest)) == Parsed(v, rest) {
      F64RoundTrip(v, rest);
    }
  }

  ghost predicate TermsFit(m: map<string, u64>) {
    MapFits(TermFits, MAX_PROPERTIES, m)
  }

  ghost function PutTerms(m: map<string, u64>, rest: Bytes): Bytes {
    PutMap(PutTerm, m, rest)
  }

  function TakeTerms(raw: Bytes): (r: Parsed<map<string, u64>>)
    ensures r.Parsed? ==> TermsFit(r.value) && raw == PutTerms(r.value, r.rest)
  {
    TermInverse();
    if TakeMap(TakeF64, MAX_PROPERTIES, raw).Rejected? then Rejected
    else
      MapCanonical(TermFits, PutTerm, TakeF64, MAX_PROPERTIES, raw);
      TakeMap(TakeF64, MAX_PROPERTIES, raw)
  }

  lemma TermsRoundTrip(m: map<string, u64>, rest: Bytes)
    requires TermsFit(m)
    ensures TakeTerms(PutTerms(m, rest)) == Parsed(m, rest)
  {
    hide MapFits, PutMap, TakeMap, Inverse;
    TermInverse();
    MapRoundTrip(TermFits, PutTerm, TakeF64, MAX_PROPERTIES, m, rest);
  }

  // ---- Entities and relations ----

  ghost predicate EntityFits(v: Entity) {
    TextFits(v.kind, 1, MAX_KEY_BYTES) && TextFits(v.name, 1, MAX_TEXT_BYTES) && PropertiesFit(v.properties)
  }

  ghost function PutEntity(v: Entity, rest: Bytes): Bytes {
    PutU(v.id, 16, PutText(v.kind, PutText(v.name,
      PutOptionU128(v.parent, PutI64(v.validFrom, PutOptionI64(v.validTo, PutProperties(v.properties, rest)))))))
  }

  function TakeEntity(raw: Bytes): (r: Parsed<Entity>)
    ensures r.Parsed? ==> EntityFits(r.value) && raw == PutEntity(r.value, r.rest)
  {
    var id :- TakeU128(raw);
    var kind :- TakeText(id.rest, 1, MAX_KEY_BYTES);
    var name :- TakeText(kind.rest, 1, MAX_TEXT_BYTES);
    var parent :- TakeOptionU128(name.rest);
    var validFrom :- TakeI64(parent.rest);
    var validTo :- TakeOptionI64(validFrom.rest);
    var properties :- TakeProperties(validTo.rest);
    Parsed(Entity(id.value, kind.value, name.value, parent.value, validFrom.value, validTo.value, properties.value),
           properties.rest)
  }

  lemma EntityRoundTrip(v: Entity, rest: Bytes)
    requires EntityFits(v)
    ensures TakeEntity(PutEntity(v, rest)) == Parsed(v, rest)
  {
    hide TakeU128, PutU, TakeText, PutText, TextFits, TakeOptionU128, PutOptionU128, TakeI64, PutI64,
         TakeOptionI64, PutOptionI64, TakeProperties, PutProperties, PropertiesFit;
    var r6 := PutProperties(v.properties, rest);
    var r5 := PutOptionI64(v.validTo, r6);
    var r4 := PutI64(v.validFrom, r5);
    var r3 := PutOptionU128(v.parent, r4);
    var r2 := PutText(v.name, r3);
    var r1 := PutText(v.kind, r2);
    U128RoundTrip(v.id, r1);
    TextRoundTrip(v.kind, 1, MAX_KEY_BYTES, r2);
    TextRoundTrip(v.name, 1, MAX_TEXT_BYTES, r3);
    OptionU128RoundTrip(v.parent, r4);
    I64RoundTrip(v.validFrom, r5);
    OptionI64RoundTrip(v.validTo, r6);
    PropertiesRoundTrip(v.properties, rest);
  }

  ghost predicate RelationFits(v: Relation) {
    TextFits(v.kind, 1, MAX_KEY_BYTES) && PropertiesFit(v.properties)
  }

  ghost function PutRelation(v: Relation, rest: Bytes): Bytes {
    PutU(v.id, 16, PutText(v.kind, PutU(v.source, 16,
      PutU(v.target, 16, PutI64(v.validFrom, PutOptionI64(v.validTo, PutProperties(v.properties, rest)))))))
  }

  function TakeRelation(raw: Bytes): (r: Parsed<Relation>)
    ensures r.Parsed? ==> RelationFits(r.value) && raw == PutRelation(r.value, r.rest)
  {
    var id :- TakeU128(raw);
    var kind :- TakeText(id.rest, 1, MAX_KEY_BYTES);
    var source :- TakeU128(kind.rest);
    var target :- TakeU128(source.rest);
    var validFrom :- TakeI64(target.rest);
    var validTo :- TakeOptionI64(validFrom.rest);
    var properties :- TakeProperties(validTo.rest);
    Parsed(Relation(id.value, kind.value, source.value, target.value, validFrom.value, validTo.value, properties.value),
           properties.rest)
  }

  lemma RelationRoundTrip(v: Relation, rest: Bytes)
    requires RelationFits(v)
    ensures TakeRelation(PutRelation(v, rest)) == Parsed(v, rest)
  {
    hide TakeU128, PutU, TakeText, PutText, TextFits, TakeI64, PutI64,
         TakeOptionI64, PutOptionI64, TakeProperties, PutProperties, PropertiesFit;
    var r6 := PutProperties(v.properties, rest);
    var r5 := PutOptionI64(v.validTo, r6);
    var r4 := PutI64(v.validFrom, r5);
    var r3 := PutU(v.target, 16, r4);
    var r2 := PutU(v.source, 16, r3);
    U128RoundTrip(v.id, PutText(v.kind, r2));
    TextRoundTrip(v.kind, 1, MAX_KEY_BYTES, r2);
    U128RoundTrip(v.source, r3);
    U128RoundTrip(v.target, r4);
    I64RoundTrip(v.validFrom, r5);
    OptionI64RoundTrip(v.validTo, r6);
    PropertiesRoundTrip(v.properties, rest);
  }

  // ---- Series ----

  predicate TierFits(t: RollupTier) {
    t.resolution.Calendar? ==> TextFits(t.resolution.zone, 1, MAX_KEY_BYTES)
  }

  function PutTier(t: RollupTier, rest: Bytes): Bytes {
    match t.resolution
    case FixedMicros(micros) => PutByte(1, PutI64(micros, PutOptionI64(t.retainFor, rest)))
    case Calendar(unit, zone) => PutByte(2, PutByte(UnitByte(unit), PutText(zone, PutOptionI64(t.retainFor, rest))))
  }

  function TakeResolution(raw: Bytes): (r: Parsed<RollupResolution>) {
    var tag :- TakeByte(raw);
    if tag.value == 1 then
      var micros :- TakeI64(tag.rest);
      Parsed(FixedMicros(micros.value), micros.rest)
    else if tag.value == 2 then
      var b :- TakeByte(tag.rest);
      var unit :- Named(UnitFrom(b.value), b.rest);
      var zone :- TakeText(unit.rest, 1, MAX_KEY_BYTES);
      Parsed(Calendar(unit.value, zone.value), zone.rest)
    else Rejected
  }

  function TakeTier(raw: Bytes): (r: Parsed<RollupTier>)
    ensures r.Parsed? ==> TierFits(r.value) && raw == PutTier(r.value, r.rest)
  {
    var resolution :- TakeResolution(raw);
    var retainFor :- TakeOptionI64(resolution.rest);
    Parsed(RollupTier(resolution.value, retainFor.value), retainFor.rest)
  }

  lemma TierRoundTrip(t: RollupTier, rest: Bytes)
    requires TierFits(t)
    ensures TakeTier(PutTier(t, rest)) == Parsed(t, rest)
  {
    hide TakeI64, PutI64, TakeText, PutText, TextFits, TakeOptionI64, PutOptionI64;
    var after := PutOptionI64(t.retainFor, rest);
    OptionI64RoundTrip(t.retainFor, rest);
    match t.resolution
    case FixedMicros(micros) => I64RoundTrip(micros, after);
    case Calendar(unit, zone) => TextRoundTrip(zone, 1, MAX_KEY_BYTES, after);
  }

  lemma TierInverse()
    ensures Inverse(TierFits, PutTier, TakeTier)
  {
    hide TierFits, PutTier, TakeTier;
    forall v, rest | TierFits(v) ensures TakeTier(PutTier(v, rest)) == Parsed(v, rest) {
      TierRoundTrip(v, rest);
    }
  }

  predicate PolicyFits(v: RollupPolicy) {
    |v.tiers| <= MAX_ROLLUP_TIERS && forall t <- v.tiers :: TierFits(t)
  }

  function PutPolicy(v: RollupPolicy, rest: Bytes): Bytes {
    PutOptionI64(v.rawRetainFor, PutCollection(PutTier, v.tiers, rest))
  }

  function TakePolicy(raw: Bytes): (r: Parsed<RollupPolicy>)
    ensures r.Parsed? ==> PolicyFits(r.value) && raw == PutPolicy(r.value, r.rest)
  {
    TierInverse();
    var rawRetainFor :- TakeOptionI64(raw);
    CollectionCanonical(TierFits, PutTier, TakeTier, MAX_ROLLUP_TIERS, rawRetainFor.rest);
    var tiers :- TakeCollection(TakeTier, MAX_ROLLUP_TIERS, rawRetainFor.rest);
    Parsed(RollupPolicy(rawRetainFor.value, tiers.value), tiers.rest)
  }

  lemma PolicyRoundTrip(v: RollupPolicy, rest: Bytes)
    requires PolicyFits(v)
    ensures TakePolicy(PutPolicy(v, rest)) == Parsed(v, rest)
  {
    hide TakeOptionI64, PutOptionI64, PutCollection, TakeCollection, TierFits, Inverse;
    TierInverse();
    CollectionRoundTrip(TierFits, PutTier, TakeTier, MAX_ROLLUP_TIERS, v.tiers, rest);
    OptionI64RoundTrip(v.rawRetainFor, PutCollection(PutTier, v.tiers, rest));
  }

  predicate SeriesFits(zones: set<string>, v: SeriesDefinition) {
    && SeriesOk(zones, v)
    && TextFits(v.name, 1, MAX_KEY_BYTES) && TextFits(v.physicalQuantity, 1, MAX_KEY_BYTES)
    && TextFits(v.canonicalUnit, 1, MAX_KEY_BYTES)
    && PolicyFits(v.rollupPolicy)
  }

  function PutSeries(v: SeriesDefinition, rest: Bytes): Bytes {
    PutU(v.id, 8, PutOptionU128(v.ownerEntity, PutOptionU128(v.ownerRelation,
      PutText(v.name, PutText(v.physicalQuantity, PutText(v.canonicalUnit,
        PutByte(SemanticsByte(v.semantics), PutOptionI64(v.maximumGap, PutPolicy(v.rollupPolicy, rest)))))))))
  }

  function TakeSeries(zones: set<string>, raw: Bytes): (r: Parsed<SeriesDefinition>)
    ensures r.Parsed? ==> SeriesFits(zones, r.value) && raw == PutSeries(r.value, r.rest)
  {
    var id :- TakeU64(raw);
    var ownerEntity :- TakeOptionU128(id.rest);
    var ownerRelation :- TakeOptionU128(ownerEntity.rest);
    var name :- TakeText(ownerRelation.rest, 1, MAX_KEY_BYTES);
    var quantity :- TakeText(name.rest, 1, MAX_KEY_BYTES);
    var canonical :- TakeText(quantity.rest, 1, MAX_KEY_BYTES);
    var tag :- TakeByte(canonical.rest);
    var semantics :- Named(SemanticsFrom(tag.value), tag.rest);
    var gap :- TakeOptionI64(semantics.rest);
    var policy :- TakePolicy(gap.rest);
    var v := SeriesDefinition(id.value, ownerEntity.value, ownerRelation.value, name.value, quantity.value,
                              canonical.value, semantics.value, gap.value, policy.value);
    if SeriesOk(zones, v) then Parsed(v, policy.rest) else Rejected
  }

  lemma SeriesRoundTrip(zones: set<string>, v: SeriesDefinition, rest: Bytes)
    requires SeriesFits(zones, v)
    ensures TakeSeries(zones, PutSeries(v, rest)) == Parsed(v, rest)
  {
    hide TakeU64, PutU, TakeText, PutText, TextFits, TakeOptionU128, PutOptionU128,
         TakeOptionI64, PutOptionI64, TakePolicy, PutPolicy, PolicyFits, SeriesOk, SemanticsByte, SemanticsFrom;
    var r8 := PutPolicy(v.rollupPolicy, rest);
    var r7 := PutOptionI64(v.maximumGap, r8);
    var r6 := PutByte(SemanticsByte(v.semantics), r7);
    var r5 := PutText(v.canonicalUnit, r6);
    var r4 := PutText(v.physicalQuantity, r5);
    var r3 := PutText(v.name, r4);
    var r2 := PutOptionU128(v.ownerRelation, r3);
    U64RoundTrip(v.id, PutOptionU128(v.ownerEntity, r2));
    OptionU128RoundTrip(v.ownerEntity, r2);
    OptionU128RoundTrip(v.ownerRelation, r3);
    TextRoundTrip(v.name, 1, MAX_KEY_BYTES, r4);
    TextRoundTrip(v.physicalQuantity, 1, MAX_KEY_BYTES, r5);
    TextRoundTrip(v.canonicalUnit, 1, MAX_KEY_BYTES, r6);
    OptionI64RoundTrip(v.maximumGap, r8);
    PolicyRoundTrip(v.rollupPolicy, rest);
  }

  // ---- Runs and plans ----

  ghost predicate RunFits(v: Run) {
    && TextFits(v.workflow, 1, MAX_TEXT_BYTES)
    && TextFits(v.model, 0, MAX_TEXT_BYTES) && TextFits(v.modelVersion, 0, MAX_TEXT_BYTES)
    && PropertiesFit(v.attributes)
  }

  ghost function PutRunTail(v: Run, rest: Bytes): Bytes {
    PutText(v.workflow, PutText(v.model, PutText(v.modelVersion,
      PutOptionU128(v.parentRun, PutOptionU128(v.inputSnapshot, PutProperties(v.attributes, rest))))))
  }

  ghost function PutRun(v: Run, rest: Bytes): Bytes {
    PutU(v.id, 16, PutByte(RunKindByte(v.kind), PutByte(RunStatusByte(v.status),
      PutI64(v.createdAt, PutI64(v.knowledgeTime, PutRunTail(v, rest))))))
  }

  function TakeRun(raw: Bytes): (r: Parsed<Run>)
    ensures r.Parsed? ==> RunFits(r.value) && raw == PutRun(r.value, r.rest)
  {
    var id :- TakeU128(raw);
    var kindTag :- TakeByte(id.rest);
    var kind :- Named(RunKindFrom(kindTag.value), kindTag.rest);
    var statusTag :- TakeByte(kind.rest);
    var status :- Named(RunStatusFrom(statusTag.value), statusTag.rest);
    var createdAt :- TakeI64(status.rest);
    var knowledgeTime :- TakeI64(createdAt.rest);
    var workflow :- TakeText(knowledgeTime.rest, 1, MAX_TEXT_BYTES);
    var model :- TakeText(workflow.rest, 0, MAX_TEXT_BYTES);
    var version :- TakeText(model.rest, 0, MAX_TEXT_BYTES);
    var parent :- TakeOptionU128(version.rest);
    var input :- TakeOptionU128(parent.rest);
    var attributes :- TakeProperties(input.rest);
    Parsed(Run(id.value, kind.value, status.value, createdAt.value, knowledgeTime.value, workflow.value, model.value,
               version.value, parent.value, input.value, attributes.value), attributes.rest)
  }

  lemma RunRoundTrip(v: Run, rest: Bytes)
    requires RunFits(v)
    ensures TakeRun(PutRun(v, rest)) == Parsed(v, rest)
  {
    hide TakeU128, PutU, TakeI64, PutI64, TakeText, PutText, TextFits, TakeOptionU128, PutOptionU128,
         TakeProperties, PutProperties, PropertiesFit, RunKindByte, RunKindFrom, RunStatusByte, RunStatusFrom;
    var r5 := PutProperties(v.attributes, rest);
    var r4 := PutOptionU128(v.inputSnapshot, r5);
    var r3 := PutOptionU128(v.parentRun, r4);
    var r2 := PutText(v.modelVersion, r3);
    var r1 := PutText(v.model, r2);
    var tail := PutRunTail(v, rest);
    var times := PutI64(v.createdAt, PutI64(v.knowledgeTime, tail));
    U128RoundTrip(v.id, PutByte(RunKindByte(v.kind), PutByte(RunStatusByte(v.status), times)));
    I64RoundTrip(v.createdAt, PutI64(v.knowledgeTime, tail));
    I64RoundTrip(v.knowledgeTime, tail);
    TextRoundTrip(v.workflow, 1, MAX_TEXT_BYTES, r1);
    TextRoundTrip(v.model, 0, MAX_TEXT_BYTES, r2);
    TextRoundTrip(v.modelVersion, 0, MAX_TEXT_BYTES, r3);
    OptionU128RoundTrip(v.parentRun, r4);
    OptionU128RoundTrip(v.inputSnapshot, r5);
    PropertiesRoundTrip(v.attributes, rest);
  }

  ghost predicate PlanFits(v: Plan) {
    && PlanValid(v)
    && TextFits(v.scenario, 1, MAX_TEXT_BYTES)
    && TermsFit(v.objectiveTerms) && FiniteOption(v.objectiveValue)
    && PropertiesFit(v.attributes)
  }

  ghost function PutPlanTail(v: Plan, rest: Bytes): Bytes {
    PutText(v.scenario, PutTerms(v.objectiveTerms,
      PutOptionU64(v.objectiveValue, PutOptionU128(v.supersedes, PutProperties(v.attributes, rest)))))
  }

  ghost function PutPlan(v: Plan, rest: Bytes): Bytes {
    PutU(v.id, 16, PutU(v.runId, 16, PutByte(PlanStatusByte(v.status),
      PutI64(v.horizonStart, PutI64(v.horizonEnd, PutI64(v.resolution, PutPlanTail(v, rest)))))))
  }

  function TakePlan(raw: Bytes): (r: Parsed<Plan>)
    ensures r.Parsed? ==> PlanFits(r.value) && raw == PutPlan(r.value, r.rest)
  {
    var id :- TakeU128(raw);
    var runId :- TakeU128(id.rest);
    var tag :- TakeByte(runId.rest);
    var status :- Named(PlanStatusFrom(tag.value), tag.rest);
    var start :- TakeI64(status.rest);
    var end :- TakeI64(start.rest);
    var resolution :- TakeI64(end.rest);
    var scenario :- TakeText(resolution.rest, 1, MAX_TEXT_BYTES);
    var terms :- TakeTerms(scenario.rest);
    var objective :- TakeOptionF64(terms.rest);
    var supersedes :- TakeOptionU128(objective.rest);
    var attributes :- TakeProperties(supersedes.rest);
    var v := Plan(id.value, runId.value, status.value, start.value, end.value, resolution.value, scenario.value,
                  terms.value, objective.value, supersedes.value, attributes.value);
    if PlanValid(v) then Parsed(v, attributes.rest) else Rejected
  }

  lemma PlanRoundTrip(v: Plan, rest: Bytes)
    requires PlanFits(v)
    ensures TakePlan(PutPlan(v, rest)) == Parsed(v, rest)
  {
    hide TakeU128, PutU, TakeI64, PutI64, TakeText, PutText, TextFits, TakeOptionU128, PutOptionU128, TakeOptionF64,
         PutOptionU64, FiniteOption, TakeTerms, PutTerms, TermsFit, TakeProperties, PutProperties, PropertiesFit,
         PlanStatusByte, PlanStatusFrom, PlanValid;
    var r4 := PutProperties(v.attributes, rest);
    var r3 := PutOptionU128(v.supersedes, r4);
    var r2 := PutOptionU64(v.objectiveValue, r3);
    var r1 := PutTerms(v.objectiveTerms, r2);
    var tail := PutPlanTail(v, rest);
    var h3 := PutI64(v.resolution, tail);
    var h2 := PutI64(v.horizonEnd, h3);
    var h1 := PutByte(PlanStatusByte(v.status), PutI64(v.horizonStart, h2));
    U128RoundTrip(v.id, PutU(v.runId, 16, h1));
    U128RoundTrip(v.runId, h1);
    I64RoundTrip(v.horizonStart, h2);
    I64RoundTrip(v.horizonEnd, h3);
    I64RoundTrip(v.resolution, tail);
    TextRoundTrip(v.scenario, 1, MAX_TEXT_BYTES, r1);
    TermsRoundTrip(v.objectiveTerms, r2);
    OptionF64RoundTrip(v.objectiveValue, r3);
    OptionU128RoundTrip(v.supersedes, r4);
    PropertiesRoundTrip(v.attributes, rest);
  }

  // ---- Points ----

  function PutPoint(p: Point, rest: Bytes): (r: Bytes)
    ensures |r| == 72 + |rest|
  {
    PutU(p.seriesId, 8, PutI64(p.validTime, PutI64(p.validEnd, PutI64(p.knowledgeTime, PutI64(p.changeTime,
      PutU(p.runId, 16, PutU(p.value, 8, PutU(p.quality, 4, PutU(p.flags, 4, rest)))))))))
  }

  function TakePoint(raw: Bytes): (r: Parsed<Point>)
    ensures r.Parsed? ==> raw == PutPoint(r.value, r.rest)
  {
    var seriesId :- TakeU64(raw);
    var validTime :- TakeI64(seriesId.rest);
    var validEnd :- TakeI64(validTime.rest);
    var knowledgeTime :- TakeI64(validEnd.rest);
    var changeTime :- TakeI64(knowledgeTime.rest);
    var runId :- TakeU128(changeTime.rest);
    var value :- TakeU64(runId.rest);
    var quality :- TakeU32(value.rest);
    var flags :- TakeU32(quality.rest);
    Parsed(Point(seriesId.value, validTime.value, validEnd.value, knowledgeTime.value, changeTime.value, runId.value,
                 value.value, quality.value, flags.value), flags.rest)
  }

  lemma PointRoundTrip(p: Point, rest: Bytes)
    ensures TakePoint(PutPoint(p, rest)) == Parsed(p, rest)
  {
    hide TakeU32, TakeU64, TakeU128, TakeI64, PutU, PutI64;
    var r8 := PutU(p.flags, 4, rest);
    var r7 := PutU(p.quality, 4, r8);
    var r6 := PutU(p.value, 8, r7);
    var r5 := PutU(p.runId, 16, r6);
    var r4 := PutI64(p.changeTime, r5);
    var r3 := PutI64(p.knowledgeTime, r4);
    var r2 := PutI64(p.validEnd, r3);
    U64RoundTrip(p.seriesId, PutI64(p.validTime, r2));
    I64RoundTrip(p.validTime, r2);
    I64RoundTrip(p.validEnd, r3);
    I64RoundTrip(p.knowledgeTime, r4);
    I64RoundTrip(p.changeTime, r5);
    U128RoundTrip(p.runId, r6);
    U64RoundTrip(p.value, r7);
    U32RoundTrip(p.quality, r8);
    U32RoundTrip(p.flags, rest);
  }

  predicate AnyPoint(p: Point) {
    true
  }

  // ---- Every record is written one way ----

  function SeriesFitter(zones: set<string>): SeriesDefinition -> bool {
    v => SeriesFits(zones, v)
  }

  function SeriesTaker(zones: set<string>): Bytes -> Parsed<SeriesDefinition> {
    raw => TakeSeries(zones, raw)
  }

  lemma EntityInverse()
    ensures Inverse(EntityFits, PutEntity, TakeEntity)
  {
    hide EntityFits, PutEntity, TakeEntity;
    forall v, rest | EntityFits(v) ensures TakeEntity(PutEntity(v, rest)) == Parsed(v, rest) {
      EntityRoundTrip(v, rest);
    }
  }

  lemma RelationInverse()
    ensures Inverse(RelationFits, PutRelation, TakeRelation)
  {
    hide RelationFits, PutRelation, TakeRelation;
    forall v, rest | RelationFits(v) ensures TakeRelation(PutRelation(v, rest)) == Parsed(v, rest) {
      RelationRoundTrip(v, rest);
    }
  }

  lemma SeriesInverse(zones: set<string>)
    ensures Inverse(SeriesFitter(zones), PutSeries, SeriesTaker(zones))
  {
    hide SeriesFits, PutSeries, TakeSeries;
    forall v, rest | SeriesFits(zones, v) ensures TakeSeries(zones, PutSeries(v, rest)) == Parsed(v, rest) {
      SeriesRoundTrip(zones, v, rest);
    }
  }

  lemma RunInverse()
    ensures Inverse(RunFits, PutRun, TakeRun)
  {
    hide RunFits, PutRun, TakeRun;
    forall v, rest | RunFits(v) ensures TakeRun(PutRun(v, rest)) == Parsed(v, rest) {
      RunRoundTrip(v, rest);
    }
  }

  lemma PlanInverse()
    ensures Inverse(PlanFits, PutPlan, TakePlan)
  {
    hide PlanFits, PutPlan, TakePlan;
    forall v, rest | PlanFits(v) ensures TakePlan(PutPlan(v, rest)) == Parsed(v, rest) {
      PlanRoundTrip(v, rest);
    }
  }

  lemma PointInverse()
    ensures Inverse(AnyPoint, PutPoint, TakePoint)
  {
    hide PutPoint, TakePoint;
    forall v, rest ensures TakePoint(PutPoint(v, rest)) == Parsed(v, rest) {
      PointRoundTrip(v, rest);
    }
  }
}

/**
The wire protocol, byte by byte.

Every message as the flat sequence of its fields that the protocol documentation gives: big-endian
numbers, `u16` text lengths, presence bytes, counted lists, maps in ascending key order. The codec
is proved to write exactly these bytes (`PayloadLayout`, `FrameLayout`), and `SendableIff` states
every limit it enforces as a number.
*/
module WireLayout {
  import opened ByteCodec
  import opened Model
  import opened SortedMaps
  import opened WireFields
  import opened WireRecords
  import opened WireProtocol
  import opened CatalogRules
  import Crc32
  import Utf8

  // ---- Fields ----

  function Signed(i: i64): Bytes {
    BE(i % 0x1_0000_0000_0000_0000, 8)
  }

  function Flag(b: bool): Bytes {
    if b then [1] else [0]
  }

  function MaybeU64(o: Option<u64>): Bytes {
    match o case None => [0] case Some(n) => [1] + BE(n, 8)
  }

  function MaybeU128(o: Option<u128>): Bytes {
    match o case None => [0] case Some(n) => [1] + BE(n, 16)
  }

  function MaybeSigned(o: Option<i64>): Bytes {
    match o case None => [0] case Some(i) => [1] + Signed(i)
  }

  function Length(s: string): nat {
    |Utf8.Encode(s)|
  }

  function Str(s: string): Bytes {
    BE(Length(s), 2) + Utf8.Encode(s)
  }

  lemma Join(a: Bytes, b: Bytes, rest: Bytes)
    ensures a + (b + rest) == (a + b) + rest
  {
  }

  lemma Join3(a: Bytes, b: Bytes, c: Bytes, rest: Bytes)
    ensures a + (b + (c + rest)) == a + b + c + rest
  {
    Join(a, b, c + rest);
    Join(a + b, c, rest);
  }

  lemma Join4(a: Bytes, b: Bytes, c: Bytes, d: Bytes, rest: Bytes)
    ensures a + (b + (c + (d + rest))) == a + b + c + d + rest
  {
    Join3(a, b, c, d + rest);
    Join(a + b + c, d, rest);
  }

  lemma SignedIs(i: i64, rest: Bytes)
    ensures PutI64(i, rest) == Signed(i) + rest
  {
    hide BE;
    ToUnsignedIsModular(i);
  }

  lemma MaybeIs(a: Option<u64>, b: Option<u128>, c: Option<i64>, rest: Bytes)
    ensures PutOptionU64(a, rest) == MaybeU64(a) + rest
    ensures PutOptionU128(b, rest) == MaybeU128(b) + rest
    ensures PutOptionI64(c, rest) == MaybeSigned(c) + rest
  {
    hide BE, Signed, PutI64;
    if a.Some? {
      Join([1], BE(a.value, 8), rest);
    }
    if b.Some? {
      Join([1], BE(b.value, 16), rest);
    }
    if c.Some? {
      SignedIs(c.value, rest);
      Join([1], Signed(c.value), rest);
    }
  }

  lemma StrIs(s: string, rest: Bytes)
    ensures PutText(s, rest) == Str(s) + rest
  {
    hide BE, Utf8.Encode;
    Join(BE(Length(s), 2), Utf8.Encode(s), rest);
  }

  // ---- Lists and maps ----

  function Each<T>(f: T -> Bytes, vs: seq<T>): Bytes {
    if vs == [] then [] else f(vs[0]) + Each(f, vs[1..])
  }

  function Counted<T>(f: T -> Bytes, vs: seq<T>): Bytes {
    BE(|vs|, 4) + Each(f, vs)
  }

  ghost predicate Writes<T(!new)>(put: (T, Bytes) -> Bytes, f: T -> Bytes) {
    forall v: T, rest: Bytes :: put(v, rest) == f(v) + rest
  }

  lemma {:induction false} EachIs<T(!new)>(put: (T, Bytes) -> Bytes, f: T -> Bytes, vs: seq<T>, rest: Bytes)
    requires Writes(put, f)
    ensures PutMany(put, vs, rest) == Each(f, vs) + rest
  {
    if vs == [] {
      assert [] + rest == rest;
    } else {
      EachIs(put, f, vs[1..], rest);
      Join(f(vs[0]), Each(f, vs[1..]), rest);
    }
  }

  lemma CountedIs<T(!new)>(put: (T, Bytes) -> Bytes, f: T -> Bytes, vs: seq<T>, rest: Bytes)
    requires Writes(put, f)
    ensures PutCollection(put, vs, rest) == Counted(f, vs) + rest
  {
    hide BE, Writes, PutMany, Each;
    EachIs(put, f, vs, rest);
    Join(BE(|vs|, 4), Each(f, vs), rest);
  }

  function Pairs<V>(f: V -> Bytes, es: Entries<V>): Bytes {
    if es == [] then [] else Str(es[0].0) + f(es[0].1) + Pairs(f, es[1..])
  }

  // A map is its size and its entries in ascending byte order of the keys.
  ghost function Dictionary<V>(f: V -> Bytes, m: map<string, V>): Bytes {
    BE(|m|, 4) + Pairs(f, Listing(m))
  }

  lemma {:induction false} PairsIs<V(!new)>(put: (V, Bytes) -> Bytes, f: V -> Bytes, es: Entries<V>, rest: Bytes)
    requires Writes(put, f)
    ensures PutEntries(put, es, rest) == Pairs(f, es) + rest
  {
    hide PutText, Str;
    if es == [] {
      assert [] + rest == rest;
    } else {
      PairsIs(put, f, es[1..], rest);
      var others := Pairs(f, es[1..]);
      StrIs(es[0].0, f(es[0].1) + (others + rest));
      Join(Str(es[0].0), f(es[0].1), others + rest);
      Join(Str(es[0].0) + f(es[0].1), others, rest);
    }
  }

  lemma DictionaryIs<V(!new)>(put: (V, Bytes) -> Bytes, f: V -> Bytes, m: map<string, V>, rest: Bytes)
    requires Writes(put, f)
    ensures PutMap(put, m, rest) == Dictionary(f, m) + rest
  {
    hide BE, Writes, PutEntries, Pairs, Listing;
    PairsIs(put, f, Listing(m), rest);
    Join(BE(|m|, 4), Pairs(f, Listing(m)), rest);
  }

  function ValueBytes(v: PropertyValue): Bytes {
    match v
    case Null => [0]
    case Bool(flag) => [1] + Flag(flag)
    case Integer(number) => [2] + Signed(number)
    case Float(bits) => [3] + BE(bits, 8)
    case Text(text) => [4] + Str(text)
  }

  lemma ValueIs(v: PropertyValue, rest: Bytes)
    ensures PutValue(v, rest) == ValueBytes(v) + rest
  {
    hide BE, Signed, Str, PutI64, PutText;
    match v {
      case Null =>
      case Bool(flag) => Join([1], Flag(flag), rest);
      case Integer(number) =>
        SignedIs(number, rest);
        Join([2], Signed(number), rest);
      case Float(bits) => Join([3], BE(bits, 8), rest);
      case Text(text) =>
        StrIs(text, rest);
        Join([4], Str(text), rest);
    }
  }

  ghost function Props(m: Properties): Bytes {
    Dictionary(ValueBytes, m)
  }

  lemma PropsIs(m: Properties, rest: Bytes)
    ensures PutProperties(m, rest) == Props(m) + rest
  {
    hide PutMap, Dictionary, PutValue, ValueBytes;
    forall v: PropertyValue, r: Bytes ensures PutValue(v, r) == ValueBytes(v) + r {
      ValueIs(v, r);
    }
    DictionaryIs(PutValue, ValueBytes, m, rest);
  }

  function TermBytes(bits: u64): Bytes {
    BE(bits, 8)
  }

  ghost function Terms(m: map<string, u64>): Bytes {
    Dictionary(TermBytes, m)
  }

  lemma TermsIs(m: map<string, u64>, rest: Bytes)
    ensures PutTerms(m, rest) == Terms(m) + rest
  {
    hide PutMap, Dictionary, BE;
    DictionaryIs(PutTerm, TermBytes, m, rest);
  }

  // ---- Records, field after field in declaration order ----

  ghost function EntityBytes(v: Entity): Bytes {
    BE(v.id, 16) + Str(v.kind) + Str(v.name) + MaybeU128(v.parent) + Signed(v.validFrom)
    + MaybeSigned(v.validTo) + Props(v.properties)
  }

  lemma EntityIs(v: Entity, rest: Bytes)
    ensures PutEntity(v, rest) == EntityBytes(v) + rest
  {
    hide BE, Signed, MaybeU64, MaybeU128, MaybeSigned, Str, Props, Terms, PutI64, PutText, PutOptionU64,
         PutOptionU128, PutOptionI64, PutProperties, PutTerms;
    PropsIs(v.properties, rest);
    var r6 := Props(v.properties) + rest;
    MaybeIs(None, None, v.validTo, r6);
    var r5 := MaybeSigned(v.validTo) + r6;
    SignedIs(v.validFrom, r5);
    var r4 := Signed(v.validFrom) + r5;
    MaybeIs(None, v.parent, None, r4);
    var r3 := MaybeU128(v.parent) + r4;
    StrIs(v.name, r3);
    var r2 := Str(v.name) + r3;
    StrIs(v.kind, r2);
    var r1 := Str(v.kind) + r2;
    Join4(BE(v.id, 16), Str(v.kind), Str(v.name), MaybeU128(v.parent), r4);
    var p1 := BE(v.id, 16) + Str(v.kind) + Str(v.name) + MaybeU128(v.parent);
    Join4(p1, Signed(v.validFrom), MaybeSigned(v.validTo), Props(v.properties), rest);
  }

  ghost function RelationBytes(v: Relation): Bytes {
    BE(v.id, 16) + Str(v.kind) + BE(v.source, 16) + BE(v.target, 16) + Signed(v.validFrom)
    + MaybeSigned(v.validTo) + Props(v.properties)
  }

  lemma RelationIs(v: Relation, rest: Bytes)
    ensures PutRelation(v, rest) == RelationBytes(v) + rest
  {
    hide BE, Signed, MaybeU64, MaybeU128, MaybeSigned, Str, Props, Terms, PutI64, PutText, PutOptionU64,
         PutOptionU128, PutOptionI64, PutProperties, PutTerms;
    PropsIs(v.properties, rest);
    var r6 := Props(v.properties) + rest;
    MaybeIs(None, None, v.validTo, r6);
    var r5 := MaybeSigned(v.validTo) + r6;
    SignedIs(v.validFrom, r5);
    var r4 := Signed(v.validFrom) + r5;
    var r3 := BE(v.target, 16) + r4;
    var r2 := BE(v.source, 16) + r3;
    StrIs(v.kind, r2);
    var r1 := Str(v.kind) + r2;
    Join4(BE(v.id, 16), Str(v.kind), BE(v.source, 16), BE(v.target, 16), r4);
    var p1 := BE(v.id, 16) + Str(v.kind) + BE(v.source, 16) + BE(v.target, 16);
    Join4(p1, Signed(v.validFrom), MaybeSigned(v.validTo), Props(v.properties), rest);
  }

  function ResolutionBytes(r: RollupResolution): Bytes {
    match r
    case FixedMicros(micros) => [1] + Signed(micros)
    case Calendar(unit, zone) => [2] + [match unit case Day => 1 case Month => 2 case Year => 3] + Str(zone)
  }

  function TierBytes(v: RollupTier): Bytes {
    ResolutionBytes(v.resolution) + MaybeSigned(v.retainFor)
  }

  lemma TierIs(v: RollupTier, rest: Bytes)
    ensures PutTier(v, rest) == TierBytes(v) + rest
  {
    hide BE, Signed, MaybeSigned, Str, PutI64, PutText, PutOptionI64;
    MaybeIs(None, None, v.retainFor, rest);
    var after := MaybeSigned(v.retainFor) + rest;
    Join(ResolutionBytes(v.resolution), MaybeSigned(v.retainFor), rest);
    match v.resolution {
      case FixedMicros(micros) =>
        SignedIs(micros, after);
        Join([1], Signed(micros), after);
      case Calendar(unit, zone) =>
        StrIs(zone, after);
        Join([2], [UnitByte(unit)], Str(zone) + after);
        Join([2] + [UnitByte(unit)], Str(zone), after);
    }
  }

  function PolicyBytes(v: RollupPolicy): Bytes {
    MaybeSigned(v.rawRetainFor) + Counted(TierBytes, v.tiers)
  }

  lemma PolicyIs(v: RollupPolicy, rest: Bytes)
    ensures PutPolicy(v, rest) == PolicyBytes(v) + rest
  {
    hide PutCollection, Counted, PutTier, TierBytes, MaybeSigned, PutOptionI64;
    forall t: RollupTier, r: Bytes ensures PutTier(t, r) == TierBytes(t) + r {
      TierIs(t, r);
    }
    CountedIs(PutTier, TierBytes, v.tiers, rest);
    MaybeIs(None, None, v.rawRetainFor, Counted(TierBytes, v.tiers) + rest);
    Join(MaybeSigned(v.rawRetainFor), Counted(TierBytes, v.tiers), rest);
  }

  function SemanticsTag(v: SeriesSemantics): byte {
    match v case Gauge => 1 case IntervalTotal => 2 case Counter => 3 case State => 4 case Event => 5
  }

  function SeriesBytes(v: SeriesDefinition): Bytes {
    BE(v.id, 8) + MaybeU128(v.ownerEntity) + MaybeU128(v.ownerRelation) + Str(v.name)
    + Str(v.physicalQuantity) + Str(v.canonicalUnit) + [SemanticsTag(v.semantics)]
    + MaybeSigned(v.maximumGap) + PolicyBytes(v.rollupPolicy)
  }

  lemma SeriesIs(v: SeriesDefinition, rest: Bytes)
    ensures PutSeries(v, rest) == SeriesBytes(v) + rest
  {
    hide BE, Signed, MaybeU128, MaybeSigned, Str, PutI64, PutText, PutOptionU128, PutOptionI64, PutPolicy,
         PolicyBytes;
    PolicyIs(v.rollupPolicy, rest);
    var r8 := PolicyBytes(v.rollupPolicy) + rest;
    MaybeIs(None, None, v.maximumGap, r8);
    var r7 := MaybeSigned(v.maximumGap) + r8;
    var r6 := [SemanticsTag(v.semantics)] + r7;
    StrIs(v.canonicalUnit, r6);
    var r5 := Str(v.canonicalUnit) + r6;
    StrIs(v.physicalQuantity, r5);
    var r4 := Str(v.physicalQuantity) + r5;
    StrIs(v.name, r4);
    var r3 := Str(v.name) + r4;
    MaybeIs(None, v.ownerRelation, None, r3);
    var r2 := MaybeU128(v.ownerRelation) + r3;
    MaybeIs(None, v.ownerEntity, None, r2);
    var r1 := MaybeU128(v.ownerEntity) + r2;
    Join4(BE(v.id, 8), MaybeU128(v.ownerEntity), MaybeU128(v.ownerRelation), Str(v.name), r4);
    var p1 := BE(v.id, 8) + MaybeU128(v.ownerEntity) + MaybeU128(v.ownerRelation) + Str(v.name);
    Join4(p1, Str(v.physicalQuantity), Str(v.canonicalUnit), [SemanticsTag(v.semantics)], r7);
    var p2 := p1 + Str(v.physicalQuantity) + Str(v.canonicalUnit) + [SemanticsTag(v.semantics)];
    Join3(p2, MaybeSigned(v.maximumGap), PolicyBytes(v.rollupPolicy), rest);
  }

  function RunTags(v: Run): Bytes {
    [match v.kind case Forecast => 1 case Optimization => 2 case Import => 3 case Control => 4 case Reconciliation => 5]
    + [match v.status case Pending => 1 case Running => 2 case Succeeded => 3 case Failed => 4 case RunCancelled => 5]
  }

  lemma RunTagsIs(v: Run, rest: Bytes)
    ensures PutByte(RunKindByte(v.kind), PutByte(RunStatusByte(v.status), rest)) == RunTags(v) + rest
  {
    Join([RunKindByte(v.kind)], [RunStatusByte(v.status)], rest);
  }

  ghost function RunBytes(v: Run): Bytes {
    BE(v.id, 16) + RunTags(v) + Signed(v.createdAt) + Signed(v.knowledgeTime) + Str(v.workflow)
    + Str(v.model) + Str(v.modelVersion) + MaybeU128(v.parentRun) + MaybeU128(v.inputSnapshot)
    + Props(v.attributes)
  }

  lemma RunIs(v: Run, rest: Bytes)
    ensures PutRun(v, rest) == RunBytes(v) + rest
  {
    hide BE, Signed, MaybeU64, MaybeU128, MaybeSigned, Str, Props, Terms, PutI64, PutText, PutOptionU64,
         PutOptionU128, PutOptionI64, PutProperties, PutTerms, RunTags, RunKindByte, RunStatusByte, PutByte;
    PropsIs(v.attributes, rest);
    var r9 := Props(v.attributes) + rest;
    MaybeIs(None, v.inputSnapshot, None, r9);
    var r8 := MaybeU128(v.inputSnapshot) + r9;
    MaybeIs(None, v.parentRun, None, r8);
    var r7 := MaybeU128(v.parentRun) + r8;
    StrIs(v.modelVersion, r7);
    var r6 := Str(v.modelVersion) + r7;
    StrIs(v.model, r6);
    var r5 := Str(v.model) + r6;
    StrIs(v.workflow, r5);
    var r4 := Str(v.workflow) + r5;
    SignedIs(v.knowledgeTime, r4);
    var r3 := Signed(v.knowledgeTime) + r4;
    SignedIs(v.createdAt, r3);
    var r2 := Signed(v.createdAt) + r3;
    RunTagsIs(v, r2);
    var r1 := RunTags(v) + r2;
    Join4(BE(v.id, 16), RunTags(v), Signed(v.createdAt), Signed(v.knowledgeTime), r4);
    var p1 := BE(v.id, 16) + RunTags(v) + Signed(v.createdAt) + Signed(v.knowledgeTime);
    Join4(p1, Str(v.workflow), Str(v.model), Str(v.modelVersion), r7);
    var p2 := p1 + Str(v.workflow) + Str(v.model) + Str(v.modelVersion);
    Join4(p2, MaybeU128(v.parentRun), MaybeU128(v.inputSnapshot), Props(v.attributes), rest);
  }

  function PlanTag(s: PlanStatus): byte {
    match s case Candidate => 1 case Approved => 2 case Deployed => 3 case Superseded => 4 case PlanCancelled => 5
  }

  ghost function PlanBytes(v: Plan): Bytes {
    BE(v.id, 16) + BE(v.runId, 16) + [PlanTag(v.status)] + Signed(v.horizonStart) + Signed(v.horizonEnd)
    + Signed(v.resolution) + Str(v.scenario) + Terms(v.objectiveTerms) + MaybeU64(v.objectiveValue)
    + MaybeU128(v.supersedes) + Props(v.attributes)
  }

  lemma PlanIs(v: Plan, rest: Bytes)
    ensures PutPlan(v, rest) == PlanBytes(v) + rest
  {
    hide BE, Signed, MaybeU64, MaybeU128, MaybeSigned, Str, Props, Terms, PutI64, PutText, PutOptionU64,
         PutOptionU128, PutOptionI64, PutProperties, PutTerms;
    PropsIs(v.attributes, rest);
    var r10 := Props(v.attributes) + rest;
    MaybeIs(None, v.supersedes, None, r10);
    var r9 := MaybeU128(v.supersedes) + r10;
    MaybeIs(v.objectiveValue, None, None, r9);
    var r8 := MaybeU64(v.objectiveValue) + r9;
    TermsIs(v.objectiveTerms, r8);
    var r7 := Terms(v.objectiveTerms) + r8;
    StrIs(v.scenario, r7);
    var r6 := Str(v.scenario) + r7;
    SignedIs(v.resolution, r6);
    var r5 := Signed(v.resolution) + r6;
    SignedIs(v.horizonEnd, r5);
    var r4 := Signed(v.horizonEnd) + r5;
    SignedIs(v.horizonStart, r4);
    var r3 := Signed(v.horizonStart) + r4;
    var r2 := [PlanTag(v.status)] + r3;
    var r1 := BE(v.runId, 16) + r2;
    Join4(BE(v.id, 16), BE(v.runId, 16), [PlanTag(v.status)], Signed(v.horizonStart), r4);
    var p1 := BE(v.id, 16) + BE(v.runId, 16) + [PlanTag(v.status)] + Signed(v.horizonStart);
    Join4(p1, Signed(v.horizonEnd), Signed(v.resolution), Str(v.scenario), r7);
    var p2 := p1 + Signed(v.horizonEnd) + Signed(v.resolution) + Str(v.scenario);
    Join4(p2, Terms(v.objectiveTerms), MaybeU64(v.objectiveValue), MaybeU128(v.supersedes), r10);
    var p3 := p2 + Terms(v.objectiveTerms) + MaybeU64(v.objectiveValue) + MaybeU128(v.supersedes);
    Join(p3, Props(v.attributes), rest);
  }

  function PointBytes(v: Point): Bytes {
    BE(v.seriesId, 8) + Signed(v.validTime) + Signed(v.validEnd) + Signed(v.knowledgeTime)
    + Signed(v.changeTime) + BE(v.runId, 16) + BE(v.value, 8) + BE(v.quality, 4) + BE(v.flags, 4)
  }

  lemma PointIs(v: Point, rest: Bytes)
    ensures PutPoint(v, rest) == PointBytes(v) + rest
  {
    hide BE, Signed, PutI64;
    var r8 := BE(v.flags, 4) + rest;
    var r7 := BE(v.quality, 4) + r8;
    var r6 := BE(v.value, 8) + r7;
    var r5 := BE(v.runId, 16) + r6;
    SignedIs(v.changeTime, r5);
    var r4 := Signed(v.changeTime) + r5;
    SignedIs(v.knowledgeTime, r4);
    var r3 := Signed(v.knowledgeTime) + r4;
    SignedIs(v.validEnd, r3);
    var r2 := Signed(v.validEnd) + r3;
    SignedIs(v.validTime, r2);
    var r1 := Signed(v.validTime) + r2;
    Join4(BE(v.seriesId, 8), Signed(v.validTime), Signed(v.validEnd), Signed(v.knowledgeTime), r4);
    var p1 := BE(v.seriesId, 8) + Signed(v.validTime) + Signed(v.validEnd) + Signed(v.knowledgeTime);
    Join4(p1, Signed(v.changeTime), BE(v.runId, 16), BE(v.value, 8), r7);
    var p2 := p1 + Signed(v.changeTime) + BE(v.runId, 16) + BE(v.value, 8);
    Join3(p2, BE(v.quality, 4), BE(v.flags, 4), rest);
  }

  // ---- Messages ----

  function AckBytes(v: Ack): Bytes {
    [if v.kind.CommitAck? then 1 else 2] + BE(v.sourceId, 16) + BE(v.sequence, 8) + BE(v.commitId, 16)
    + MaybeU64(v.acceptedThrough) + MaybeU64(v.durableThrough) + Flag(v.durable) + Flag(v.deduplicated)
    + BE(v.frameOffset, 8) + BE(v.records, 4) + BE(v.points, 4) + BE(v.bytesWritten, 8)
  }

  lemma AckIs(v: Ack, rest: Bytes)
    ensures PutAck(v, rest) == AckBytes(v) + rest
  {
    hide BE, MaybeU64, PutOptionU64;
    var r11 := BE(v.bytesWritten, 8) + rest;
    var r10 := BE(v.points, 4) + r11;
    var r9 := BE(v.records, 4) + r10;
    var r8 := BE(v.frameOffset, 8) + r9;
    var r7 := Flag(v.deduplicated) + r8;
    var r6 := Flag(v.durable) + r7;
    MaybeIs(v.durableThrough, None, None, r6);
    var r5 := MaybeU64(v.durableThrough) + r6;
    MaybeIs(v.acceptedThrough, None, None, r5);
    var r4 := MaybeU64(v.acceptedThrough) + r5;
    var r3 := BE(v.commitId, 16) + r4;
    var r2 := BE(v.sequence, 8) + r3;
    var r1 := BE(v.sourceId, 16) + r2;
    Join4([if v.kind.CommitAck? then 1 else 2], BE(v.sourceId, 16), BE(v.sequence, 8), BE(v.commitId, 16), r4);
    var p1 := [if v.kind.CommitAck? then 1 else 2] + BE(v.sourceId, 16) + BE(v.sequence, 8) + BE(v.commitId, 16);
    Join4(p1, MaybeU64(v.acceptedThrough), MaybeU64(v.durableThrough), Flag(v.durable), r7);
    var p2 := p1 + MaybeU64(v.acceptedThrough) + MaybeU64(v.durableThrough) + Flag(v.durable);
    Join4(p2, Flag(v.deduplicated), BE(v.frameOffset, 8), BE(v.records, 4), r10);
    var p3 := p2 + Flag(v.deduplicated) + BE(v.frameOffset, 8) + BE(v.records, 4);
    Join3(p3, BE(v.points, 4), BE(v.bytesWritten, 8), rest);
  }

  function SyncBytes(p: SyncPolicy): Bytes {
    match p
    case Always => [1] + BE(0, 8)
    case Manual => [2] + BE(0, 8)
    case EveryBytes(bytes) => [3] + BE(bytes, 8)
  }

  lemma SyncIs(p: SyncPolicy, rest: Bytes)
    ensures PutSync(p, rest) == SyncBytes(p) + rest
  {
    hide BE;
    match p {
      case Always => Join([1], BE(0, 8), rest);
      case Manual => Join([2], BE(0, 8), rest);
      case EveryBytes(bytes) => Join([3], BE(bytes, 8), rest);
    }
  }

  function DetailBytes(v: HealthDetail): Bytes {
    BE(v.overloadCount, 8) + BE(v.protocolErrorCount, 8) + BE(v.databaseBytes, 8) + BE(v.databasePoints, 8)
    + BE(v.databaseCommits, 8) + BE(v.recoveredTailBytes, 8) + SyncBytes(v.syncPolicy)
    + Flag(v.lastAckDurable)
  }

  lemma DetailIs(v: HealthDetail, rest: Bytes)
    ensures PutDetail(v, rest) == DetailBytes(v) + rest
  {
    hide BE, PutSync, SyncBytes;
    var r7 := Flag(v.lastAckDurable) + rest;
    SyncIs(v.syncPolicy, r7);
    var r6 := SyncBytes(v.syncPolicy) + r7;
    var r5 := BE(v.recoveredTailBytes, 8) + r6;
    var r4 := BE(v.databaseCommits, 8) + r5;
    var r3 := BE(v.databasePoints, 8) + r4;
    var r2 := BE(v.databaseBytes, 8) + r3;
    var r1 := BE(v.protocolErrorCount, 8) + r2;
    Join4(BE(v.overloadCount, 8), BE(v.protocolErrorCount, 8), BE(v.databaseBytes, 8), BE(v.databasePoints, 8), r4);
    var p1 := BE(v.overloadCount, 8) + BE(v.protocolErrorCount, 8) + BE(v.databaseBytes, 8) + BE(v.databasePoints, 8);
    Join4(p1, BE(v.databaseCommits, 8), BE(v.recoveredTailBytes, 8), SyncBytes(v.syncPolicy), r7);
    var p2 := p1 + BE(v.databaseCommits, 8) + BE(v.recoveredTailBytes, 8) + SyncBytes(v.syncPolicy);
    Join(p2, Flag(v.lastAckDurable), rest);
  }

  function StatusTag(s: HealthStatus): byte {
    match s case Healthy => 1 case Degraded => 2 case Unavailable => 3
  }

  // What an older peer sends; a newer one appends the detail.
  function HealthBaseBytes(v: Health): Bytes {
    BE(v.nonce, 8) + BE(v.sourceId, 16) + [StatusTag(v.status)] + BE(v.queueEntries, 4)
    + MaybeU64(v.acceptedThrough) + MaybeU64(v.durableThrough)
  }

  lemma HealthBaseIs(v: Health, rest: Bytes)
    ensures PutHealthBase(v, rest) == HealthBaseBytes(v) + rest
  {
    hide BE, MaybeU64, PutOptionU64;
    MaybeIs(v.durableThrough, None, None, rest);
    var r5 := MaybeU64(v.durableThrough) + rest;
    MaybeIs(v.acceptedThrough, None, None, r5);
    var r4 := MaybeU64(v.acceptedThrough) + r5;
    var r3 := BE(v.queueEntries, 4) + r4;
    var r2 := [StatusTag(v.status)] + r3;
    var r1 := BE(v.sourceId, 16) + r2;
    Join4(BE(v.nonce, 8), BE(v.sourceId, 16), [StatusTag(v.status)], BE(v.queueEntries, 4), r4);
    var p1 := BE(v.nonce, 8) + BE(v.sourceId, 16) + [StatusTag(v.status)] + BE(v.queueEntries, 4);
    Join3(p1, MaybeU64(v.acceptedThrough), MaybeU64(v.durableThrough), rest);
  }

  lemma RecordsWrite()
    ensures Writes(PutEntity, EntityBytes) && Writes(PutRelation, RelationBytes) && Writes(PutSeries, SeriesBytes)
    ensures Writes(PutRun, RunBytes) && Writes(PutPlan, PlanBytes) && Writes(PutPoint, PointBytes)
  {
    hide PutEntity, EntityBytes, PutRelation, RelationBytes, PutSeries, SeriesBytes, PutRun, RunBytes, PutPlan,
         PlanBytes, PutPoint, PointBytes;
    forall v: Entity, r: Bytes ensures PutEntity(v, r) == EntityBytes(v) + r { EntityIs(v, r); }
    forall v: Relation, r: Bytes ensures PutRelation(v, r) == RelationBytes(v) + r { RelationIs(v, r); }
    forall v: SeriesDefinition, r: Bytes ensures PutSeries(v, r) == SeriesBytes(v) + r { SeriesIs(v, r); }
    forall v: Run, r: Bytes ensures PutRun(v, r) == RunBytes(v) + r { RunIs(v, r); }
    forall v: Plan, r: Bytes ensures PutPlan(v, r) == PlanBytes(v) + r { PlanIs(v, r); }
    forall v: Point, r: Bytes ensures PutPoint(v, r) == PointBytes(v) + r { PointIs(v, r); }
  }

  ghost function BatchBytes(v: Batch): Bytes {
    BE(v.sourceId, 16) + BE(v.sequence, 8) + BE(v.commitId, 16) + Counted(EntityBytes, v.entities)
    + Counted(RelationBytes, v.relations) + Counted(SeriesBytes, v.series) + Counted(RunBytes, v.runs)
    + Counted(PlanBytes, v.plans) + Counted(PointBytes, v.points)
  }

  lemma BatchIs(v: Batch)
    ensures PutBatch(v) == BatchBytes(v)
  {
    hide BE, PutCollection, Counted, Writes;
    RecordsWrite();
    var rest: Bytes := [];
    CountedIs(PutPoint, PointBytes, v.points, rest);
    var r8 := Counted(PointBytes, v.points) + rest;
    CountedIs(PutPlan, PlanBytes, v.plans, r8);
    var r7 := Counted(PlanBytes, v.plans) + r8;
    CountedIs(PutRun, RunBytes, v.runs, r7);
    var r6 := Counted(RunBytes, v.runs) + r7;
    CountedIs(PutSeries, SeriesBytes, v.series, r6);
    var r5 := Counted(SeriesBytes, v.series) + r6;
    CountedIs(PutRelation, RelationBytes, v.relations, r5);
    var r4 := Counted(RelationBytes, v.relations) + r5;
    CountedIs(PutEntity, EntityBytes, v.entities, r4);
    var r3 := Counted(EntityBytes, v.entities) + r4;
    var r2 := BE(v.commitId, 16) + r3;
    var r1 := BE(v.sequence, 8) + r2;
    Join4(BE(v.sourceId, 16), BE(v.sequence, 8), BE(v.commitId, 16), Counted(EntityBytes, v.entities), r4);
    var p1 := BE(v.sourceId, 16) + BE(v.sequence, 8) + BE(v.commitId, 16) + Counted(EntityBytes, v.entities);
    Join4(p1, Counted(RelationBytes, v.relations), Counted(SeriesBytes, v.series), Counted(RunBytes, v.runs), r7);
    var p2 := p1 + Counted(RelationBytes, v.relations) + Counted(SeriesBytes, v.series) + Counted(RunBytes, v.runs);
    Join3(p2, Counted(PlanBytes, v.plans), Counted(PointBytes, v.points), rest);
    assert BatchBytes(v) + [] == BatchBytes(v);
  }

  function ErrorTag(c: ErrorCode): byte {
    match c
    case InvalidRequest => 1 case Overloaded => 2 case Internal => 3 case Unsupported => 4 case IdempotencyConflict => 5
  }

  ghost function PayloadBytes(m: Message): Bytes {
    match m
    case HelloRequest(source, node, version, capabilities) =>
      BE(source, 16) + Str(node) + Str(version) + BE(capabilities, 8)
    case CommitBatch(batch) => BatchBytes(batch)
    case FlushRequest(source, through) => BE(source, 16) + BE(through, 8)
    case HealthRequest(nonce) => BE(nonce, 8)
    case HelloResponse(version, session, time) => BE(version, 2) + session + Signed(time)
    case AckResponse(ack) => AckBytes(ack)
    case HealthResponse(health) => HealthBaseBytes(health) + DetailBytes(health.detail)
    case ErrorResponse(code, retryable, message) => [ErrorTag(code)] + Flag(retryable) + Str(message)
  }

  // The codec writes exactly these fields, for every message.
  lemma PayloadLayout(m: Message)
    ensures PutPayload(m) == PayloadBytes(m)
  {
    hide BE, Str, Signed, PutText, PutI64, PutAck, AckBytes, PutBatch, BatchBytes, PutHealthBase, HealthBaseBytes,
         PutDetail, DetailBytes;
    match m {
      case HelloRequest(source, node, version, capabilities) =>
        var last := BE(capabilities, 8) + [];
        StrIs(version, last);
        StrIs(node, Str(version) + last);
        Join(BE(source, 16), Str(node), Str(version) + last);
        Join(BE(source, 16) + Str(node), Str(version), last);
      case CommitBatch(batch) => BatchIs(batch);
      case FlushRequest(source, through) => assert BE(through, 8) + [] == BE(through, 8);
      case HealthRequest(nonce) => assert BE(nonce, 8) + [] == BE(nonce, 8);
      case HelloResponse(version, session, time) =>
        SignedIs(time, []);
        assert Signed(time) + [] == Signed(time);
        Join(BE(version, 2), session, Signed(time));
      case AckResponse(ack) =>
        AckIs(ack, []);
        assert AckBytes(ack) + [] == AckBytes(ack);
      case HealthResponse(health) =>
        DetailIs(health.detail, []);
        assert DetailBytes(health.detail) + [] == DetailBytes(health.detail);
        HealthBaseIs(health, DetailBytes(health.detail));
      case ErrorResponse(code, retryable, message) =>
        StrIs(message, []);
        assert Str(message) + [] == Str(message);
        Join([ErrorTag(code)], Flag(retryable), Str(message));
    }
  }

  // The frame around it: `FTWS`, version 1, kind, a zero byte, the length, the payload and a checksum of all before.
  lemma FrameLayout(zones: set<string>, m: Message)
    requires Encode(zones, m).Some?
    ensures var f, payload := Encode(zones, m).value, PayloadBytes(m);
            && |f| == 16 + |payload|
            && f[..6] == [0x46, 0x54, 0x57, 0x53, 0, 1]
            && f[6] == (match m
                        case HelloRequest(_, _, _, _) => 1 case CommitBatch(_) => 2 case FlushRequest(_, _) => 3
                        case HealthRequest(_) => 4 case HelloResponse(_, _, _) => 128 case AckResponse(_) => 129
                        case HealthResponse(_) => 130 case ErrorResponse(_, _, _) => 131)
            && f[7] == 0 && f[8..12] == BE(|payload|, 4)
            && f[12..12 + |payload|] == payload
            && f[12 + |payload|..] == BE(Crc32.Checksum(f[..12 + |payload|]), 4)
  {
    hide Crc32.Checksum, PutPayload, PayloadBytes, MessageFits;
    PayloadLayout(m);
    var payload := PutPayload(m);
    FrameParts(KindOf(m), payload);
    VersionBytes();
    hide BE;
    var f, head := Encode(zones, m).value, Header(KindOf(m), |payload|);
    assert f[..12] == head;
    assert head[..6] == FRAME_MAGIC + BE(PROTOCOL_VERSION, 2);
    assert f[..6] == head[..6] && f[8..12] == head[8..12] == BE(|payload|, 4);
  }

  lemma VersionBytes()
    ensures BE(1, 2) == [0, 1]
  {
    assert BE(1, 2) == BE(0, 1) + [1] && BE(0, 1) == BE(0, 0) + [0];
  }

  // ---- Limits ----

  predicate Between(s: string, least: nat, most: nat) {
    least <= Length(s) <= most
  }

  ghost predicate PropsWithin(m: Properties) {
    |m| <= 1024
    && forall k <- m :: Between(k, 1, 256) && (m[k].Float? ==> IsFinite(m[k].bits))
                        && (m[k].Text? ==> Between(m[k].text, 0, 4096))
  }

  lemma PropsWithinIff(m: Properties)
    ensures PropertiesFit(m) <==> PropsWithin(m)
  {
    hide Utf8.Encode, IsFinite;
  }

  ghost predicate EntityWithin(e: Entity) {
    Between(e.kind, 1, 256) && Between(e.name, 1, 4096) && PropsWithin(e.properties)
  }

  ghost predicate RelationWithin(e: Relation) {
    Between(e.kind, 1, 256) && PropsWithin(e.properties)
  }

  predicate SeriesWithin(zones: set<string>, e: SeriesDefinition) {
    && SeriesOk(zones, e)
    && Between(e.name, 1, 256) && Between(e.physicalQuantity, 1, 256) && Between(e.canonicalUnit, 1, 256)
    && |e.rollupPolicy.tiers| <= 64
    && forall t <- e.rollupPolicy.tiers :: t.resolution.Calendar? ==> Between(t.resolution.zone, 1, 256)
  }

  ghost predicate RunWithin(e: Run) {
    && Between(e.workflow, 1, 4096) && Between(e.model, 0, 4096) && Between(e.modelVersion, 0, 4096)
    && PropsWithin(e.attributes)
  }

  ghost predicate PlanWithin(e: Plan) {
    && PlanValid(e) && Between(e.scenario, 1, 4096) && |e.objectiveTerms| <= 1024
    && (forall k <- e.objectiveTerms :: Between(k, 1, 256) && IsFinite(e.objectiveTerms[k]))
    && (e.objectiveValue.Some? ==> IsFinite(e.objectiveValue.value))
    && PropsWithin(e.attributes)
  }

  lemma EntityWithinIff(e: Entity)
    ensures EntityFits(e) <==> EntityWithin(e)
  {
    hide Utf8.Encode, PropertiesFit, PropsWithin;
    PropsWithinIff(e.properties);
  }

  lemma RelationWithinIff(e: Relation)
    ensures RelationFits(e) <==> RelationWithin(e)
  {
    hide Utf8.Encode, PropertiesFit, PropsWithin;
    PropsWithinIff(e.properties);
  }

  lemma SeriesWithinIff(zones: set<string>, e: SeriesDefinition)
    ensures SeriesFits(zones, e) <==> SeriesWithin(zones, e)
    ensures SeriesFits(zones, e) ==> SeriesOk(zones, e)
  {
    hide Utf8.Encode, SeriesOk;
  }

  lemma RunWithinIff(e: Run)
    ensures RunFits(e) <==> RunWithin(e)
  {
    hide Utf8.Encode, PropertiesFit, PropsWithin;
    PropsWithinIff(e.attributes);
  }

  lemma PlanWithinIff(e: Plan)
    ensures PlanFits(e) <==> PlanWithin(e)
    ensures PlanFits(e) ==> PlanValid(e)
  {
    hide Utf8.Encode, PropertiesFit, PropsWithin, PlanValid, IsFinite;
    PropsWithinIff(e.attributes);
  }

  ghost predicate BatchWithin(zones: set<string>, b: Batch) {
    var records := |b.entities| + |b.relations| + |b.series| + |b.runs| + |b.plans|;
    && b.sourceId != 0 && records <= 16384 && |b.points| <= 16384 && (records > 0 || |b.points| > 0)
    && (forall e <- b.entities :: EntityWithin(e)) && (forall e <- b.relations :: RelationWithin(e))
    && (forall e <- b.series :: SeriesWithin(zones, e))
    && (forall e <- b.runs :: RunWithin(e)) && (forall e <- b.plans :: PlanWithin(e))
    && (forall p <- b.points :: p.seriesId != 0 && p.validTime <= p.validEnd && IsFinite(p.value))
  }

  /**
  A message can be sent exactly within these limits: source identifiers are not zero, texts have
  their byte lengths, a batch brings something and no more than its budgets, and the whole frame
  is at most four mebibytes.
  */
  lemma SendableIff(zones: set<string>, m: Message)
    ensures Encode(zones, m).Some? <==>
            && |PayloadBytes(m)| + 16 <= 4_194_304
            && match m
               case HelloRequest(source, node, version, _) =>
                 source != 0 && Between(node, 1, 128) && Between(version, 1, 64)
               case CommitBatch(batch) => BatchWithin(zones, batch)
               case FlushRequest(source, _) => source != 0
               case HealthRequest(_) => true
               case HelloResponse(version, _, _) => version == 1
               case AckResponse(ack) => ack.sourceId != 0
               case HealthResponse(v) =>
                 && v.sourceId != 0 && v.queueEntries <= 65_536
                 && (v.detail.syncPolicy.EveryBytes? ==> v.detail.syncPolicy.bytes != 0)
               case ErrorResponse(_, _, message) => Between(message, 1, 512)
  {
    hide PutPayload, PayloadBytes, Utf8.Encode, Frame, BatchWithin, BatchValid, RecordsFit;
    PayloadLayout(m);
    if m.CommitBatch? {
      BatchWithinIff(zones, m.batch);
    }
  }

  lemma BatchWithinIff(zones: set<string>, b: Batch)
    ensures BatchValid(zones, b) && RecordsFit(zones, b) <==> BatchWithin(zones, b)
  {
    hide EntityFits, EntityWithin, RelationFits, RelationWithin, SeriesFits, SeriesWithin, RunFits, RunWithin, PlanFits,
         PlanWithin, SeriesOk, PlanValid, IsFinite;
    forall e <- b.entities ensures EntityFits(e) <==> EntityWithin(e) {
      EntityWithinIff(e);
    }
    forall e <- b.relations ensures RelationFits(e) <==> RelationWithin(e) {
      RelationWithinIff(e);
    }
    forall e <- b.series
      ensures SeriesFits(zones, e) <==> SeriesWithin(zones, e)
      ensures SeriesFits(zones, e) ==> SeriesOk(zones, e)
    {
      SeriesWithinIff(zones, e);
    }
    forall e <- b.runs ensures RunFits(e) <==> RunWithin(e) {
      RunWithinIff(e);
    }
    forall e <- b.plans
      ensures PlanFits(e) <==> PlanWithin(e)
      ensures PlanFits(e) ==> PlanValid(e)
    {
      PlanWithinIff(e);
    }
  }
}

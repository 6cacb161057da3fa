/**
The metadata catalog: what a record must look like, how records replace one another,
and what a whole catalog must satisfy.

`ApplyRecords` is the catalog after a transaction, or its rejection. `ApplyKeeps` and
`HistoryKeeps` say what every accepted transaction preserves, over every history; the
methods are the searches and loops that decide it.
*/
module CatalogRules {
  import opened ByteCodec
  import opened Model
  import opened Graphs

  // ---- Single records ----

  // Unicode White_Space, which `trim` strips.
  predicate IsWhitespace(c: char) {
    var n := c as int;
    || 0x09 <= n <= 0x0D || n == 0x20 || n == 0x85 || n == 0xA0 || n == 0x1680
    || 0x2000 <= n <= 0x200A || n == 0x2028 || n == 0x2029 || n == 0x202F || n == 0x205F || n == 0x3000
  }

  predicate Blank(s: string) {
    forall c <- s :: IsWhitespace(c)
  }

  // `str::trim`: the text without white space at either end.
  function Trim(s: string): string {
    if s == "" then ""
    else if IsWhitespace(s[0]) then Trim(s[1..])
    else if IsWhitespace(s[|s| - 1]) then Trim(s[..|s| - 1])
    else s
  }

  lemma {:induction false} TrimEmptyIffBlank(s: string)
    ensures Trim(s) == "" <==> Blank(s)
  {
    if s != "" {
      if IsWhitespace(s[0]) {
        TrimEmptyIffBlank(s[1..]);
        assert s == [s[0]] + s[1..];
      } else if IsWhitespace(s[|s| - 1]) {
        TrimEmptyIffBlank(s[..|s| - 1]);
        assert s == s[..|s| - 1] + [s[|s| - 1]];
      }
    }
  }

  predicate PropertiesOk(p: Properties) {
    forall name <- p :: !Blank(name) && (p[name].Float? ==> IsFinite(p[name].bits))
  }

  predicate IntervalOk(start: i64, end: Option<i64>) {
    end.Some? ==> start < end.value
  }

  predicate EntityOk(e: Entity) {
    && e.id != 0
    && !Blank(e.kind) && !Blank(e.name)
    && e.parent != Some(e.id)
    && IntervalOk(e.validFrom, e.validTo)
    && PropertiesOk(e.properties)
  }

  predicate RelationOk(r: Relation) {
    r.id != 0 && !Blank(r.kind) && IntervalOk(r.validFrom, r.validTo) && PropertiesOk(r.properties)
  }

  predicate Positive(retention: Option<i64>) {
    retention.Some? ==> retention.value > 0
  }

  predicate TierOk(zones: set<string>, tier: RollupTier) {
    && (match tier.resolution
        case FixedMicros(micros) => micros > 0
        case Calendar(_, zone) => !Blank(zone) && zone in zones)
    && Positive(tier.retainFor)
  }

  // `zones` is the set of IANA names the time zone database knows.
  predicate SeriesOk(zones: set<string>, s: SeriesDefinition) {
    && s.id != 0
    && !Blank(s.name) && !Blank(s.physicalQuantity) && !Blank(s.canonicalUnit)
    && (s.ownerEntity.Some? <==> s.ownerRelation.None?)
    && (s.maximumGap.Some? ==> s.maximumGap.value >= 0)
    && Positive(s.rollupPolicy.rawRetainFor)
    && (forall tier <- s.rollupPolicy.tiers :: TierOk(zones, tier))
  }

  predicate RunOk(r: Run) {
    && r.id != 0 && !Blank(r.workflow)
    && r.parentRun != Some(r.id) && r.inputSnapshot != Some(r.id)
    && PropertiesOk(r.attributes)
  }

  predicate PlanValid(p: Plan) {
    && p.id != 0 && p.runId != 0
    && p.horizonStart < p.horizonEnd
    && p.resolution > 0
    && !Blank(p.scenario)
    && p.supersedes != Some(p.id)
    && (forall name <- p.objectiveTerms :: !Blank(name) && IsFinite(p.objectiveTerms[name]))
    && (p.objectiveValue.Some? ==> IsFinite(p.objectiveValue.value))
  }

  predicate PlanOk(p: Plan) {
    PlanValid(p) && PropertiesOk(p.attributes)
  }

  // ---- Replacing a record ----

  // `==` on property values compares floats as numbers.
  predicate ValueEq(a: PropertyValue, b: PropertyValue) {
    if a.Float? && b.Float? then FloatEq(a.bits, b.bits) else a == b
  }

  predicate PropertiesEq(a: Properties, b: Properties) {
    a.Keys == b.Keys && forall name <- a :: ValueEq(a[name], b[name])
  }

  predicate RunEq(a: Run, b: Run) {
    PropertiesEq(a.attributes, b.attributes) && a.(attributes := b.attributes) == b
  }

  predicate Finished(r: Run) {
    r.status.Succeeded? || r.status.Failed? || r.status.RunCancelled?
  }

  predicate RunTransitionOk(previous: Run, next: Run) {
    && (Finished(previous) ==> RunEq(previous, next))
    && previous.kind == next.kind && previous.createdAt == next.createdAt
  }

  predicate StatusStepOk(previous: PlanStatus, next: PlanStatus) {
    || previous == next
    || (previous.Candidate? && (next.Approved? || next.PlanCancelled? || next.Superseded?))
    || (previous.Approved? && (next.Deployed? || next.PlanCancelled? || next.Superseded?))
    || (previous.Deployed? && next.Superseded?)
  }

  predicate SameSchedule(a: Plan, b: Plan) {
    a.runId == b.runId && a.horizonStart == b.horizonStart && a.horizonEnd == b.horizonEnd && a.resolution == b.resolution
  }

  predicate PlanTransitionOk(previous: Plan, next: Plan) {
    SameSchedule(previous, next) && StatusStepOk(previous.status, next.status)
  }

  function ApplyRecord(zones: set<string>, c: Catalog, r: Record): Option<Catalog> {
    match r
    case EntityRecord(e) => if EntityOk(e) then Some(c.(entities := c.entities[e.id := e])) else None
    case RelationRecord(r) => if RelationOk(r) then Some(c.(relations := c.relations[r.id := r])) else None
    case SeriesRecord(s) => if SeriesOk(zones, s) then Some(c.(series := c.series[s.id := s])) else None
    case RunRecord(r) =>
      if RunOk(r) && (r.id in c.runs ==> RunTransitionOk(c.runs[r.id], r))
      then Some(c.(runs := c.runs[r.id := r])) else None
    case PlanRecord(p) =>
      if PlanOk(p) && (p.id in c.plans ==> PlanTransitionOk(c.plans[p.id], p))
      then Some(c.(plans := c.plans[p.id := p])) else None
    case PointsRecord(_) => Some(c)
  }

  // ---- Every refusal, by the field that causes it ----

  ghost predicate BadProperties(p: Properties) {
    exists name <- p :: Trim(name) == "" || (p[name].Float? && !IsFinite(p[name].bits))
  }

  lemma BadPropertiesRefused(p: Properties)
    ensures BadProperties(p) <==> !PropertiesOk(p)
  {
    forall name: string ensures Trim(name) == "" <==> Blank(name) {
      TrimEmptyIffBlank(name);
    }
  }

  // The status changes a plan may make.
  lemma StatusTable(a: PlanStatus, b: PlanStatus)
    ensures StatusStepOk(a, b) <==>
            a == b || (a, b) in {(Candidate, Approved), (Candidate, PlanCancelled), (Candidate, Superseded),
                                 (Approved, Deployed), (Approved, PlanCancelled), (Approved, Superseded),
                                 (Deployed, Superseded)}
  {
  }

  lemma EntityRefused(zones: set<string>, c: Catalog, e: Entity)
    ensures ApplyRecord(zones, c, EntityRecord(e)).None? <==>
            || e.id == 0
            || Trim(e.kind) == "" || Trim(e.name) == ""
            || e.parent == Some(e.id)
            || (e.validTo.Some? && e.validTo.value <= e.validFrom)
            || BadProperties(e.properties)
  {
    hide BadProperties, PropertiesOk, Trim, Blank;
    TrimEmptyIffBlank(e.kind);
    TrimEmptyIffBlank(e.name);
    BadPropertiesRefused(e.properties);
  }

  lemma RelationRefused(zones: set<string>, c: Catalog, r: Relation)
    ensures ApplyRecord(zones, c, RelationRecord(r)).None? <==>
            || r.id == 0
            || Trim(r.kind) == ""
            || (r.validTo.Some? && r.validTo.value <= r.validFrom)
            || BadProperties(r.properties)
  {
    hide BadProperties, PropertiesOk, Trim, Blank;
    TrimEmptyIffBlank(r.kind);
    BadPropertiesRefused(r.properties);
  }

  lemma SeriesRefused(zones: set<string>, c: Catalog, s: SeriesDefinition)
    ensures ApplyRecord(zones, c, SeriesRecord(s)).None? <==>
            || s.id == 0
            || Trim(s.name) == "" || Trim(s.physicalQuantity) == "" || Trim(s.canonicalUnit) == ""
            || (s.ownerEntity.Some? && s.ownerRelation.Some?) || (s.ownerEntity.None? && s.ownerRelation.None?)
            || (s.maximumGap.Some? && s.maximumGap.value < 0)
            || (s.rollupPolicy.rawRetainFor.Some? && s.rollupPolicy.rawRetainFor.value <= 0)
            || exists tier <- s.rollupPolicy.tiers ::
                 || (tier.resolution.FixedMicros? && tier.resolution.micros <= 0)
                 || (tier.resolution.Calendar? && (Trim(tier.resolution.zone) == "" || tier.resolution.zone !in zones))
                 || (tier.retainFor.Some? && tier.retainFor.value <= 0)
  {
    hide Trim, Blank;
    forall name: string ensures Trim(name) == "" <==> Blank(name) {
      TrimEmptyIffBlank(name);
    }
  }

  lemma RunRefused(zones: set<string>, c: Catalog, r: Run)
    ensures ApplyRecord(zones, c, RunRecord(r)).None? <==>
            || r.id == 0
            || Trim(r.workflow) == ""
            || r.parentRun == Some(r.id) || r.inputSnapshot == Some(r.id)
            || BadProperties(r.attributes)
            || (r.id in c.runs
                && var previous := c.runs[r.id];
                   || (previous.status in {Succeeded, Failed, RunCancelled} && !RunEq(previous, r))
                   || previous.kind != r.kind || previous.createdAt != r.createdAt)
  {
    hide BadProperties, PropertiesOk, Trim, Blank, RunEq;
    TrimEmptyIffBlank(r.workflow);
    BadPropertiesRefused(r.attributes);
  }

  lemma PlanRefused(zones: set<string>, c: Catalog, p: Plan)
    ensures ApplyRecord(zones, c, PlanRecord(p)).None? <==>
            || p.id == 0 || p.runId == 0
            || p.horizonEnd <= p.horizonStart
            || p.resolution <= 0
            || Trim(p.scenario) == ""
            || p.supersedes == Some(p.id)
            || (exists name <- p.objectiveTerms :: Trim(name) == "" || !IsFinite(p.objectiveTerms[name]))
            || (p.objectiveValue.Some? && !IsFinite(p.objectiveValue.value))
            || BadProperties(p.attributes)
            || (p.id in c.plans
                && var previous := c.plans[p.id];
                   || previous.runId != p.runId
                   || previous.horizonStart != p.horizonStart || previous.horizonEnd != p.horizonEnd
                   || previous.resolution != p.resolution
                   || !StatusStepOk(previous.status, p.status))
  {
    hide BadProperties, PropertiesOk, Trim, Blank, StatusStepOk;
    forall name: string ensures Trim(name) == "" <==> Blank(name) {
      TrimEmptyIffBlank(name);
    }
    BadPropertiesRefused(p.attributes);
  }

  function ApplyEach(zones: set<string>, c: Catalog, rs: seq<Record>): Option<Catalog> {
    if rs == [] then Some(c)
    else match ApplyEach(zones, c, rs[..|rs| - 1])
      case None => None
      case Some(d) => ApplyRecord(zones, d, rs[|rs| - 1])
  }

  // ---- The last record of an identifier stands ----

  function EntityIn(r: Record): Option<(u128, Entity)> {
    match r case EntityRecord(e) => Some((e.id, e)) case _ => None
  }

  function RelationIn(r: Record): Option<(u128, Relation)> {
    match r case RelationRecord(e) => Some((e.id, e)) case _ => None
  }

  function SeriesIn(r: Record): Option<(u64, SeriesDefinition)> {
    match r case SeriesRecord(e) => Some((e.id, e)) case _ => None
  }

  function RunIn(r: Record): Option<(u128, Run)> {
    match r case RunRecord(e) => Some((e.id, e)) case _ => None
  }

  function PlanIn(r: Record): Option<(u128, Plan)> {
    match r case PlanRecord(e) => Some((e.id, e)) case _ => None
  }

  ghost predicate Names<K, T>(rs: seq<Record>, pick: Record -> Option<(K, T)>, from: nat, id: K) {
    exists j :: from <= j < |rs| && pick(rs[j]).Some? && pick(rs[j]).value.0 == id
  }

  // Under every identifier: the last object the records give it, or what was there if they give none.
  ghost predicate LastStands<K(!new), T>(rs: seq<Record>, pick: Record -> Option<(K, T)>,
                                         before: map<K, T>, after: map<K, T>) {
    && (forall k | 0 <= k < |rs| && pick(rs[k]).Some? ::
          var (id, x) := pick(rs[k]).value;
          Names(rs, pick, k + 1, id) || (id in after && after[id] == x))
    && (forall id: K | !Names(rs, pick, 0, id) ::
          (id in after <==> id in before) && (id in before ==> after[id] == before[id]))
  }

  ghost predicate LastRecordsStand(rs: seq<Record>, c: Catalog, d: Catalog) {
    && LastStands(rs, EntityIn, c.entities, d.entities)
    && LastStands(rs, RelationIn, c.relations, d.relations)
    && LastStands(rs, SeriesIn, c.series, d.series)
    && LastStands(rs, RunIn, c.runs, d.runs)
    && LastStands(rs, PlanIn, c.plans, d.plans)
  }

  // One more record, whether it concerns this map or not.
  lemma OneMoreStands<K(!new), T(!new)>(rs: seq<Record>, r: Record, pick: Record -> Option<(K, T)>,
                                        before: map<K, T>, mid: map<K, T>, after: map<K, T>)
    requires LastStands(rs, pick, before, mid)
    requires after == Put(mid, pick(r))
    ensures LastStands(rs + [r], pick, before, after)
  {
    var all := rs + [r];
    forall k | 0 <= k < |all| && pick(all[k]).Some?
      ensures var (id, x) := pick(all[k]).value; Names(all, pick, k + 1, id) || (id in after && after[id] == x)
    {
      var (id, x) := pick(all[k]).value;
      if k < |rs| {
        assert rs[k] == all[k];
        if Names(rs, pick, k + 1, id) {
          var j :| k + 1 <= j < |rs| && pick(rs[j]).Some? && pick(rs[j]).value.0 == id;
          assert all[j] == rs[j];
        } else if pick(r).Some? && pick(r).value.0 == id {
          assert all[|rs|] == r;
        }
      }
    }
    forall id: K | !Names(all, pick, 0, id)
      ensures (id in after <==> id in before) && (id in before ==> after[id] == before[id])
    {
      assert all[|rs|] == r;
      if Names(rs, pick, 0, id) {
        var j :| 0 <= j < |rs| && pick(rs[j]).Some? && pick(rs[j]).value.0 == id;
        assert all[j] == rs[j];
      }
    }
  }

  lemma NothingStands<K(!new), T>(pick: Record -> Option<(K, T)>, m: map<K, T>)
    ensures LastStands([], pick, m, m)
  {
  }

  function Put<K, T>(m: map<K, T>, x: Option<(K, T)>): map<K, T> {
    match x case None => m case Some(e) => m[e.0 := e.1]
  }

  // One accepted record puts its object under its identifier and touches nothing else.
  lemma RecordPuts(zones: set<string>, c: Catalog, r: Record, d: Catalog)
    requires ApplyRecord(zones, c, r) == Some(d)
    ensures d.entities == Put(c.entities, EntityIn(r)) && d.relations == Put(c.relations, RelationIn(r))
    ensures d.series == Put(c.series, SeriesIn(r))
    ensures d.runs == Put(c.runs, RunIn(r)) && d.plans == Put(c.plans, PlanIn(r))
  {
    hide EntityOk, RelationOk, SeriesOk, RunOk, PlanOk, RunTransitionOk, PlanTransitionOk;
  }

  /**
  What an accepted list of records leaves: for each of the five kinds and every identifier,
  the last record of that identifier, or the object from before if there is none.
  */
  lemma {:induction false} EachLeavesLast(zones: set<string>, c: Catalog, rs: seq<Record>, d: Catalog)
    requires ApplyEach(zones, c, rs) == Some(d)
    ensures LastRecordsStand(rs, c, d)
  {
    hide LastStands, ApplyRecord, Put, EntityIn, RelationIn, SeriesIn, RunIn, PlanIn;
    if rs == [] {
      NothingStands(EntityIn, c.entities);
      NothingStands(RelationIn, c.relations);
      NothingStands(SeriesIn, c.series);
      NothingStands(RunIn, c.runs);
      NothingStands(PlanIn, c.plans);
    } else {
      var front, last := rs[..|rs| - 1], rs[|rs| - 1];
      var mid := ApplyEach(zones, c, front).value;
      EachLeavesLast(zones, c, front, mid);
      RecordPuts(zones, mid, last, d);
      assert rs == front + [last];
      OneMoreStands(front, last, EntityIn, c.entities, mid.entities, d.entities);
      OneMoreStands(front, last, RelationIn, c.relations, mid.relations, d.relations);
      OneMoreStands(front, last, SeriesIn, c.series, mid.series, d.series);
      OneMoreStands(front, last, RunIn, c.runs, mid.runs, d.runs);
      OneMoreStands(front, last, PlanIn, c.plans, mid.plans, d.plans);
    }
  }

  // ---- References ----

  function Single(x: Option<u128>): seq<u128> {
    match x case None => [] case Some(y) => [y]
  }

  function ParentGraph(c: Catalog): Graph {
    map id <- c.entities :: Single(c.entities[id].parent)
  }

  // In the order the search pushes them.
  function RunGraph(c: Catalog): Graph {
    map id <- c.runs :: Single(c.runs[id].inputSnapshot) + Single(c.runs[id].parentRun)
  }

  function PlanGraph(c: Catalog): Graph {
    map id <- c.plans :: Single(c.plans[id].supersedes)
  }

  predicate Known<T>(x: Option<u128>, m: map<u128, T>) {
    x.Some? ==> x.value in m
  }

  // Every reference names something the catalog holds; plans belong to optimization runs.
  ghost predicate Resolved(c: Catalog) {
    && (forall id <- c.entities :: Known(c.entities[id].parent, c.entities))
    && (forall id <- c.relations :: c.relations[id].source in c.entities && c.relations[id].target in c.entities)
    && (forall id <- c.series ::
          Known(c.series[id].ownerEntity, c.entities) && Known(c.series[id].ownerRelation, c.relations))
    && (forall id <- c.runs :: Known(c.runs[id].parentRun, c.runs) && Known(c.runs[id].inputSnapshot, c.runs))
    && (forall id <- c.plans ::
          && c.plans[id].runId in c.runs
          && c.runs[c.plans[id].runId].kind == Optimization
          && Known(c.plans[id].supersedes, c.plans))
  }

  ghost predicate Acyclic(c: Catalog) {
    !HasCycle(ParentGraph(c)) && !HasCycle(RunGraph(c)) && !HasCycle(PlanGraph(c))
  }

  ghost predicate ReferencesOk(c: Catalog) {
    Resolved(c) && Acyclic(c)
  }

  predicate PointsKnown(c: Catalog, points: seq<Point>) {
    && PointsOk(points)
    && (forall p <- points :: p.seriesId in c.series && (p.runId != 0 ==> p.runId in c.runs))
  }

  predicate AllPointsKnown(c: Catalog, rs: seq<Record>) {
    forall r <- rs :: r.PointsRecord? ==> PointsKnown(c, r.points)
  }

  predicate OnlyPoints(rs: seq<Record>) {
    forall r <- rs :: r.PointsRecord?
  }

  // The full path of a transaction.
  ghost function ValidateAndApply(zones: set<string>, c: Catalog, rs: seq<Record>): Option<Catalog> {
    match ApplyEach(zones, c, rs)
    case None => None
    case Some(d) => if ReferencesOk(d) && AllPointsKnown(d, rs) then Some(d) else None
  }

  // With the shortcut for transactions of points alone.
  ghost function ApplyRecords(zones: set<string>, c: Catalog, rs: seq<Record>): Option<Catalog> {
    if OnlyPoints(rs) then if AllPointsKnown(c, rs) then Some(c) else None
    else ValidateAndApply(zones, c, rs)
  }

  // Following one kind of reference from object to object never leads back to the start.
  ghost predicate NoLoop(refers: (u128, u128) -> bool) {
    forall p: seq<u128> | |p| >= 2 && p[0] == p[|p| - 1] :: exists i :: 0 <= i < |p| - 1 && !refers(p[i], p[i + 1])
  }

  lemma NoLoopIffNoCycle(g: Graph, refers: (u128, u128) -> bool)
    requires forall x: u128, y: u128 :: refers(x, y) <==> Edge(g, x, y)
    ensures NoLoop(refers) <==> !HasCycle(g)
  {
    forall p: seq<u128> | |p| >= 2 && p[0] == p[|p| - 1]
      ensures (exists i :: 0 <= i < |p| - 1 && !refers(p[i], p[i + 1])) <==> !IsCycle(g, p)
    {
      assert forall i :: 0 <= i < |p| - 1 ==> (refers(p[i], p[i + 1]) <==> Edge(g, p[i], p[i + 1]));
    }
  }

  // References resolve, by fields: nothing refers to a missing object, and plans belong to optimization runs.
  lemma ResolvedByFields(c: Catalog)
    ensures Resolved(c) <==>
            && !(exists id <- c.entities :: c.entities[id].parent.Some? && c.entities[id].parent.value !in c.entities)
            && !(exists id <- c.relations ::
                   c.relations[id].source !in c.entities || c.relations[id].target !in c.entities)
            && !(exists id <- c.series ::
                   || (c.series[id].ownerEntity.Some? && c.series[id].ownerEntity.value !in c.entities)
                   || (c.series[id].ownerRelation.Some? && c.series[id].ownerRelation.value !in c.relations))
            && !(exists id <- c.runs ::
                   || (c.runs[id].parentRun.Some? && c.runs[id].parentRun.value !in c.runs)
                   || (c.runs[id].inputSnapshot.Some? && c.runs[id].inputSnapshot.value !in c.runs))
            && !(exists id <- c.plans ::
                   || c.plans[id].runId !in c.runs || c.runs[c.plans[id].runId].kind != Optimization
                   || (c.plans[id].supersedes.Some? && c.plans[id].supersedes.value !in c.plans))
  {
  }

  lemma EdgesByFields(c: Catalog, x: u128, y: u128)
    ensures Edge(ParentGraph(c), x, y) <==> x in c.entities && c.entities[x].parent == Some(y)
    ensures Edge(RunGraph(c), x, y) <==>
            x in c.runs && (c.runs[x].parentRun == Some(y) || c.runs[x].inputSnapshot == Some(y))
    ensures Edge(PlanGraph(c), x, y) <==> x in c.plans && c.plans[x].supersedes == Some(y)
  {
  }

  // Acyclicity, by fields: neither parents nor run provenance nor supersession loop.
  lemma AcyclicByFields(c: Catalog)
    ensures Acyclic(c) <==>
            && NoLoop((x: u128, y: u128) => x in c.entities && c.entities[x].parent == Some(y))
            && NoLoop((x: u128, y: u128) =>
                        x in c.runs && (c.runs[x].parentRun == Some(y) || c.runs[x].inputSnapshot == Some(y)))
            && NoLoop((x: u128, y: u128) => x in c.plans && c.plans[x].supersedes == Some(y))
  {
    hide NoLoop, HasCycle, Edge, ParentGraph, RunGraph, PlanGraph;
    forall x: u128, y: u128
      ensures Edge(ParentGraph(c), x, y) <==> x in c.entities && c.entities[x].parent == Some(y)
      ensures Edge(RunGraph(c), x, y) <==>
              x in c.runs && (c.runs[x].parentRun == Some(y) || c.runs[x].inputSnapshot == Some(y))
      ensures Edge(PlanGraph(c), x, y) <==> x in c.plans && c.plans[x].supersedes == Some(y)
    {
      EdgesByFields(c, x, y);
    }
    NoLoopIffNoCycle(ParentGraph(c), (x: u128, y: u128) => x in c.entities && c.entities[x].parent == Some(y));
    NoLoopIffNoCycle(RunGraph(c), (x: u128, y: u128) =>
      x in c.runs && (c.runs[x].parentRun == Some(y) || c.runs[x].inputSnapshot == Some(y)));
    NoLoopIffNoCycle(PlanGraph(c), (x: u128, y: u128) => x in c.plans && c.plans[x].supersedes == Some(y));
  }

  // A transaction is accepted exactly when its records apply one after another, the references of
  // the result are valid (unless it only brings points), and its points fit the result.
  lemma AcceptedIff(zones: set<string>, c: Catalog, rs: seq<Record>, d: Catalog)
    ensures ApplyRecords(zones, c, rs) == Some(d) <==>
            && ApplyEach(zones, c, rs) == Some(d)
            && (ReferencesOk(d) || forall r <- rs :: r.PointsRecord?)
            && forall r <- rs | r.PointsRecord? :: forall p <- r.points ::
                 && p.validTime <= p.validEnd && IsFinite(p.value)
                 && p.seriesId in d.series && (p.runId == 0 || p.runId in d.runs)
  {
    hide ReferencesOk, ApplyEach, IsFinite;
    if OnlyPoints(rs) {
      PointsChangeNothing(zones, c, rs);
    }
  }

  // ---- Deciding it ----

  lemma GraphsClosed(c: Catalog)
    requires Resolved(c)
    ensures Closed(ParentGraph(c)) && Closed(RunGraph(c)) && Closed(PlanGraph(c))
  {
  }

  // Parents resolve and form no cycle: the per-entity loop.
  method CheckParents(c: Catalog) returns (ok: bool)
    ensures ok <==> (forall id <- c.entities :: Known(c.entities[id].parent, c.entities)) && !HasCycle(ParentGraph(c))
  {
    hide HasCycle;
    var g := ParentGraph(c);
    var pending := c.entities.Keys;
    while pending != {}
      invariant pending <= c.entities.Keys
      invariant forall id <- c.entities.Keys - pending ::
                  Known(c.entities[id].parent, c.entities) && exists n: nat :: Climb(g, id, n) == None
      decreases |pending|
    {
      var id :| id in pending;
      pending := pending - {id};
      var parent := c.entities[id].parent;
      if parent.Some? && parent.value !in c.entities {
        return false;
      }
      var ends := ParentChainEnds(g, id);
      if !ends {
        return false;
      }
    }
    assert c.entities.Keys - pending == c.entities.Keys;
    ChainsEndMeansNoCycle(g);
    ok := true;
  }

  // References resolve and the three graphs are acyclic, decided exactly.
  method ValidateReferences(c: Catalog) returns (ok: bool)
    ensures ok <==> ReferencesOk(c)
  {
    hide HasCycle;
    var parents := CheckParents(c);
    if !parents {
      return false;
    }
    if !(forall id <- c.relations :: c.relations[id].source in c.entities && c.relations[id].target in c.entities) {
      return false;
    }
    if !(forall id <- c.series ::
           Known(c.series[id].ownerEntity, c.entities) && Known(c.series[id].ownerRelation, c.relations)) {
      return false;
    }
    if !(forall id <- c.runs :: Known(c.runs[id].parentRun, c.runs) && Known(c.runs[id].inputSnapshot, c.runs)) {
      return false;
    }
    var runs := SearchCycles(RunGraph(c));
    if !runs {
      return false;
    }
    if !(forall id <- c.plans ::
           && c.plans[id].runId in c.runs
           && c.runs[c.plans[id].runId].kind == Optimization
           && Known(c.plans[id].supersedes, c.plans)) {
      return false;
    }
    ok := SearchCycles(PlanGraph(c));
  }

  method ApplyInOrder(zones: set<string>, c: Catalog, rs: seq<Record>) returns (r: Option<Catalog>)
    ensures r == ApplyEach(zones, c, rs)
    ensures r.Some? ==> LastRecordsStand(rs, c, r.value)
  {
    hide LastRecordsStand;
    var candidate := c;
    for i := 0 to |rs|
      invariant ApplyEach(zones, c, rs[..i]) == Some(candidate)
    {
      assert rs[..i + 1][..i] == rs[..i];
      var next := ApplyRecord(zones, candidate, rs[i]);
      if next.None? {
        RejectionSpreads(zones, c, rs, i + 1);
        return None;
      }
      candidate := next.value;
    }
    assert rs[..|rs|] == rs;
    EachLeavesLast(zones, c, rs, candidate);
    r := Some(candidate);
  }

  lemma {:induction false} RejectionSpreads(zones: set<string>, c: Catalog, rs: seq<Record>, n: nat)
    requires n <= |rs| && ApplyEach(zones, c, rs[..n]).None?
    ensures ApplyEach(zones, c, rs).None?
    decreases |rs|
  {
    hide ApplyRecord;
    if n == |rs| {
      assert rs[..n] == rs;
    } else {
      assert rs[..|rs| - 1][..n] == rs[..n];
      RejectionSpreads(zones, c, rs[..|rs| - 1], n);
    }
  }

  // A transaction's effect on the catalog: rejected, unchanged, or replaced.
  method Apply(zones: set<string>, c: Catalog, rs: seq<Record>) returns (r: Option<Catalog>)
    ensures r == ApplyRecords(zones, c, rs)
    ensures r.Some? ==> LastRecordsStand(rs, c, r.value)
  {
    hide ReferencesOk, ApplyEach, PointsKnown, LastRecordsStand;
    if OnlyPoints(rs) {
      PointsChangeNothing(zones, c, rs);
      EachLeavesLast(zones, c, rs, c);
      return if AllPointsKnown(c, rs) then Some(c) else None;
    }
    var candidate := ApplyInOrder(zones, c, rs);
    if candidate.None? {
      return None;
    }
    var ok := ValidateReferences(candidate.value);
    r := if ok && AllPointsKnown(candidate.value, rs) then candidate else None;
  }

  // The shortcut agrees with the full path on every point-only transaction exactly for valid catalogs.
  lemma ShortcutAgreesIffValid(zones: set<string>, c: Catalog)
    ensures ReferencesOk(c) <==>
            forall rs: seq<Record> :: OnlyPoints(rs) ==> ApplyRecords(zones, c, rs) == ValidateAndApply(zones, c, rs)
  {
    hide ReferencesOk;
    forall rs: seq<Record> | OnlyPoints(rs) ensures ApplyEach(zones, c, rs) == Some(c) {
      PointsChangeNothing(zones, c, rs);
    }
    if !ReferencesOk(c) {
      assert OnlyPoints([]) && ApplyRecords(zones, c, []) == Some(c);
      assert ValidateAndApply(zones, c, []).None?;
    }
  }

  lemma {:induction false} PointsChangeNothing(zones: set<string>, c: Catalog, rs: seq<Record>)
    requires OnlyPoints(rs)
    ensures ApplyEach(zones, c, rs) == Some(c)
  {
    if rs != [] {
      assert rs[|rs| - 1] in rs;
      PointsChangeNothing(zones, c, rs[..|rs| - 1]);
    }
  }

  // ---- What every transaction keeps ----

  // Every object is valid and filed under its own identifier.
  ghost predicate WellFormed(zones: set<string>, c: Catalog) {
    && (forall id <- c.entities :: c.entities[id].id == id && EntityOk(c.entities[id]))
    && (forall id <- c.relations :: c.relations[id].id == id && RelationOk(c.relations[id]))
    && (forall id <- c.series :: c.series[id].id == id && SeriesOk(zones, c.series[id]))
    && (forall id <- c.runs :: c.runs[id].id == id && RunOk(c.runs[id]))
    && (forall id <- c.plans :: c.plans[id].id == id && PlanOk(c.plans[id]))
  }

  ghost predicate CatalogOk(zones: set<string>, c: Catalog) {
    WellFormed(zones, c) && ReferencesOk(c)
  }

  predicate Settled(s: PlanStatus) {
    s.Superseded? || s.PlanCancelled?
  }

  function Rank(s: PlanStatus): nat {
    match s
    case Candidate => 0
    case Approved => 1
    case Deployed => 2
    case Superseded => 3
    case PlanCancelled => 3
  }

  // What may change between an earlier and a later catalog.
  ghost predicate RunKept(a: Run, b: Run) {
    a.kind == b.kind && a.createdAt == b.createdAt && (Finished(a) ==> RunEq(a, b))
  }

  ghost predicate PlanKept(a: Plan, b: Plan) {
    && SameSchedule(a, b)
    && Rank(a.status) <= Rank(b.status)
    && (Settled(a.status) ==> b.status == a.status)
    && (a.status.Deployed? ==> b.status.Deployed? || b.status.Superseded?)
  }

  ghost predicate Evolves(a: Catalog, b: Catalog) {
    && a.entities.Keys <= b.entities.Keys && a.relations.Keys <= b.relations.Keys && a.series.Keys <= b.series.Keys
    && (forall id <- a.runs :: id in b.runs && RunKept(a.runs[id], b.runs[id]))
    && (forall id <- a.plans :: id in b.plans && PlanKept(a.plans[id], b.plans[id]))
  }

  lemma RunEqSelf(a: Run)
    ensures RunEq(a, a)
  {
  }

  lemma RunEqTransitive(a: Run, b: Run, c: Run)
    requires RunEq(a, b) && RunEq(b, c)
    ensures RunEq(a, c)
  {
    forall name <- a.attributes ensures ValueEq(a.attributes[name], c.attributes[name]) {
      assert ValueEq(a.attributes[name], b.attributes[name]) && ValueEq(b.attributes[name], c.attributes[name]);
    }
    assert a.(attributes := c.attributes) == b.(attributes := c.attributes);
  }

  lemma EvolvesSelf(a: Catalog)
    ensures Evolves(a, a)
  {
    hide RunEq;
    forall id <- a.runs ensures RunKept(a.runs[id], a.runs[id]) {
      RunEqSelf(a.runs[id]);
    }
  }

  lemma EvolvesTransitive(a: Catalog, b: Catalog, c: Catalog)
    requires Evolves(a, b) && Evolves(b, c)
    ensures Evolves(a, c)
  {
    hide RunEq, PlanKept;
    forall id <- a.runs ensures id in c.runs && RunKept(a.runs[id], c.runs[id]) {
      if Finished(a.runs[id]) {
        assert Finished(b.runs[id]) by { EqualStatus(a.runs[id], b.runs[id]); }
        RunEqTransitive(a.runs[id], b.runs[id], c.runs[id]);
      }
    }
    forall id <- a.plans ensures id in c.plans && PlanKept(a.plans[id], c.plans[id]) {
      PlanKeptTransitive(a.plans[id], b.plans[id], c.plans[id]);
    }
  }

  lemma EqualStatus(a: Run, b: Run)
    requires RunEq(a, b)
    ensures a.status == b.status
  {
  }

  lemma PlanKeptTransitive(a: Plan, b: Plan, c: Plan)
    requires PlanKept(a, b) && PlanKept(b, c)
    ensures PlanKept(a, c)
  {
  }

  lemma RecordWellFormed(zones: set<string>, c: Catalog, r: Record, d: Catalog)
    requires WellFormed(zones, c) && ApplyRecord(zones, c, r) == Some(d)
    ensures WellFormed(zones, d)
  {
    hide EntityOk, RelationOk, SeriesOk, RunOk, PlanOk, RunTransitionOk, PlanTransitionOk;
  }

  lemma RecordEvolves(zones: set<string>, c: Catalog, r: Record, d: Catalog)
    requires ApplyRecord(zones, c, r) == Some(d)
    ensures Evolves(c, d)
  {
    hide EntityOk, RelationOk, SeriesOk, RunOk, PlanOk, RunEq;
    match r
    case RunRecord(run) =>
      forall id <- c.runs ensures id in d.runs && RunKept(c.runs[id], d.runs[id]) {
        RunEqSelf(c.runs[id]);
      }
    case _ =>
      assert d.runs == c.runs;
      forall id <- c.runs ensures RunKept(c.runs[id], d.runs[id]) {
        RunEqSelf(c.runs[id]);
      }
  }

  lemma RecordKeeps(zones: set<string>, c: Catalog, r: Record, d: Catalog)
    requires WellFormed(zones, c) && ApplyRecord(zones, c, r) == Some(d)
    ensures WellFormed(zones, d) && Evolves(c, d)
  {
    hide WellFormed, Evolves, ApplyRecord;
    RecordWellFormed(zones, c, r, d);
    RecordEvolves(zones, c, r, d);
  }

  lemma {:induction false} EachKeeps(zones: set<string>, c: Catalog, rs: seq<Record>, d: Catalog)
    requires WellFormed(zones, c) && ApplyEach(zones, c, rs) == Some(d)
    ensures WellFormed(zones, d) && Evolves(c, d)
  {
    hide WellFormed, Evolves, ApplyRecord;
    if rs == [] {
      EvolvesSelf(c);
    } else {
      var mid := ApplyEach(zones, c, rs[..|rs| - 1]).value;
      EachKeeps(zones, c, rs[..|rs| - 1], mid);
      RecordKeeps(zones, mid, rs[|rs| - 1], d);
      EvolvesTransitive(c, mid, d);
    }
  }

  lemma ApplyKeeps(zones: set<string>, c: Catalog, rs: seq<Record>, d: Catalog)
    requires CatalogOk(zones, c) && ApplyRecords(zones, c, rs) == Some(d)
    ensures CatalogOk(zones, d) && Evolves(c, d)
  {
    hide WellFormed, Evolves, ReferencesOk, ApplyEach;
    if OnlyPoints(rs) {
      EvolvesSelf(c);
    } else {
      EachKeeps(zones, c, rs, d);
    }
  }

  // The catalogs a history of transactions passes through; a rejected one changes nothing.
  ghost function After(zones: set<string>, history: seq<seq<Record>>): Catalog {
    if history == [] then EMPTY_CATALOG
    else
      var before := After(zones, history[..|history| - 1]);
      match ApplyRecords(zones, before, history[|history| - 1])
      case None => before
      case Some(next) => next
  }

  lemma EmptyOk(zones: set<string>)
    ensures CatalogOk(zones, EMPTY_CATALOG)
  {
    assert Topo(map[], []);
    OrderedHasNoCycle(map[]);
    assert ParentGraph(EMPTY_CATALOG) == map[] && RunGraph(EMPTY_CATALOG) == map[] && PlanGraph(EMPTY_CATALOG) == map[];
  }

  /**
  Every history of transactions: the catalog is always well formed, reference-closed
  and acyclic; from any earlier point to any later one no object disappears, finished
  runs keep their content, plans keep their schedule and only move forward.
  */
  lemma {:induction false} HistoryKeeps(zones: set<string>, history: seq<seq<Record>>, n: nat)
    requires n <= |history|
    ensures CatalogOk(zones, After(zones, history))
    ensures Evolves(After(zones, history[..n]), After(zones, history))
  {
    hide CatalogOk, Evolves, ApplyRecords;
    if history == [] {
      EmptyOk(zones);
      EvolvesSelf(EMPTY_CATALOG);
    } else {
      var front := history[..|history| - 1];
      var before, after := After(zones, front), After(zones, history);
      HistoryKeeps(zones, front, if n < |history| then n else |front|);
      if ApplyRecords(zones, before, history[|history| - 1]).Some? {
        ApplyKeeps(zones, before, history[|history| - 1], after);
      } else {
        EvolvesSelf(before);
      }
      if n < |history| {
        assert front[..n] == history[..n];
        EvolvesTransitive(After(zones, history[..n]), before, after);
      } else {
        assert history[..n] == history;
        EvolvesSelf(after);
      }
    }
  }

  // ---- How fixed a finished run is ----

  predicate IsZero(v: PropertyValue) {
    v.Float? && v.bits % 0x8000_0000_0000_0000 == 0
  }

  // A finished run cannot be replaced by a different one exactly when none of its values is a float zero.
  lemma FinishedRunFixedIff(r: Run)
    requires Finished(r)
    ensures (forall next: Run :: RunTransitionOk(r, next) ==> next == r)
       <==> (forall name <- r.attributes :: !IsZero(r.attributes[name]))
  {
    if forall name <- r.attributes :: !IsZero(r.attributes[name]) {
      forall next: Run | RunTransitionOk(r, next) ensures next == r {
        forall name <- r.attributes ensures next.attributes[name] == r.attributes[name] {
          assert ValueEq(r.attributes[name], next.attributes[name]);
        }
        assert next.attributes == r.attributes;
      }
    } else {
      var name :| name in r.attributes && IsZero(r.attributes[name]);
      var bits := r.attributes[name].bits;
      var flipped: u64 := if bits == 0 then 0x8000_0000_0000_0000 else 0;
      var next := r.(attributes := r.attributes[name := Float(flipped)]);
      assert RunTransitionOk(r, next);
      assert next.attributes[name] != r.attributes[name];
    }
  }
}

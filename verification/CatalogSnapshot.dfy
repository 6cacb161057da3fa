/**
The catalog written out as records that rebuild it.

A compacted log starts from this list. `SnapshotRecords` never gets stuck on a valid
catalog, and its list is apply-safe: every prefix is a valid catalog, each object is
written once, and the whole list rebuilds the catalog it was taken from.
*/
module CatalogSnapshot {
  import opened ByteCodec
  import opened Model
  import opened Graphs
  import opened CatalogRules

  // In which order the objects of each kind are written.
  datatype Listing = Listing(
    entities: seq<u128>, relations: seq<u128>, series: seq<u64>, runs: seq<u128>, plans: seq<u128>)

  function Restrict<K, V>(m: map<K, V>, keys: seq<K>): map<K, V> {
    map k | k in m && k in keys :: m[k]
  }

  // The part of a catalog a listing covers.
  function Part(c: Catalog, l: Listing): Catalog {
    Catalog(Restrict(c.entities, l.entities), Restrict(c.relations, l.relations), Restrict(c.series, l.series),
            Restrict(c.runs, l.runs), Restrict(c.plans, l.plans))
  }

  predicate Listed(c: Catalog, l: Listing) {
    && (forall id <- l.entities :: id in c.entities)
    && (forall id <- l.relations :: id in c.relations)
    && (forall id <- l.series :: id in c.series)
    && (forall id <- l.runs :: id in c.runs)
    && (forall id <- l.plans :: id in c.plans)
  }

  function RecordsOf(c: Catalog, l: Listing): seq<Record>
    requires Listed(c, l)
  {
    seq(|l.entities|, i requires 0 <= i < |l.entities| => EntityRecord(c.entities[l.entities[i]]))
    + seq(|l.relations|, i requires 0 <= i < |l.relations| => RelationRecord(c.relations[l.relations[i]]))
    + seq(|l.series|, i requires 0 <= i < |l.series| => SeriesRecord(c.series[l.series[i]]))
    + seq(|l.runs|, i requires 0 <= i < |l.runs| => RunRecord(c.runs[l.runs[i]]))
    + seq(|l.plans|, i requires 0 <= i < |l.plans| => PlanRecord(c.plans[l.plans[i]]))
  }

  ghost predicate NoRepeat<K>(keys: seq<K>) {
    forall i, j :: 0 <= i < j < |keys| ==> keys[i] != keys[j]
  }

  // Kinds are written in stages, and within a kind everything after what it refers to.
  ghost predicate Staged(c: Catalog, l: Listing) {
    && Listed(c, l)
    && Sorted(ParentGraph(c), l.entities) && Sorted(RunGraph(c), l.runs) && Sorted(PlanGraph(c), l.plans)
    && NoRepeat(l.relations) && NoRepeat(l.series)
    && (l.relations != [] || l.series != [] ==> forall id <- c.entities :: id in l.entities)
    && (l.series != [] ==> forall id <- c.relations :: id in l.relations)
    && (l.plans != [] ==> forall id <- c.runs :: id in l.runs)
  }

  ghost predicate Complete(c: Catalog, l: Listing) {
    && Staged(c, l)
    && (forall id <- c.entities :: id in l.entities) && (forall id <- c.relations :: id in l.relations)
    && (forall id <- c.series :: id in l.series) && (forall id <- c.runs :: id in l.runs)
    && (forall id <- c.plans :: id in l.plans)
  }

  // ---- Adding one object whose references are there ----

  // A new object, everything it refers to already present.
  predicate Ready(c: Catalog, r: Record) {
    match r
    case EntityRecord(e) => e.id !in c.entities && Known(e.parent, c.entities)
    case RelationRecord(r) => r.id !in c.relations && r.source in c.entities && r.target in c.entities
    case SeriesRecord(s) => s.id !in c.series && Known(s.ownerEntity, c.entities) && Known(s.ownerRelation, c.relations)
    case RunRecord(r) => r.id !in c.runs && Known(r.parentRun, c.runs) && Known(r.inputSnapshot, c.runs)
    case PlanRecord(p) =>
      && p.id !in c.plans && p.runId in c.runs && c.runs[p.runId].kind == Optimization
      && Known(p.supersedes, c.plans)
    case PointsRecord(_) => false
  }

  lemma ExtendAcyclic(g: Graph, x: u128, ys: seq<u128>)
    requires Closed(g) && !HasCycle(g) && x !in g && forall y <- ys :: y in g
    ensures !HasCycle(g[x := ys])
  {
    OrderedIffNoCycle(g);
    var order :| Topo(g, order);
    var more := g[x := ys];
    assert x !in order;
    assert Sorted(more, order);
    SortedSnoc(more, order, x);
    assert Topo(more, order + [x]);
    OrderedHasNoCycle(more);
  }

  lemma EntityKeepsAcyclic(c: Catalog, e: Entity)
    requires Closed(ParentGraph(c)) && Acyclic(c) && e.id !in c.entities && Known(e.parent, c.entities)
    ensures Acyclic(c.(entities := c.entities[e.id := e]))
  {
    hide HasCycle, Closed;
    var d := c.(entities := c.entities[e.id := e]);
    ExtendAcyclic(ParentGraph(c), e.id, Single(e.parent));
    assert ParentGraph(d) == ParentGraph(c)[e.id := Single(e.parent)];
    assert RunGraph(d) == RunGraph(c) && PlanGraph(d) == PlanGraph(c);
  }

  lemma RunKeepsAcyclic(c: Catalog, r: Run)
    requires Closed(RunGraph(c)) && Acyclic(c)
    requires r.id !in c.runs && Known(r.parentRun, c.runs) && Known(r.inputSnapshot, c.runs)
    ensures Acyclic(c.(runs := c.runs[r.id := r]))
  {
    hide HasCycle, Closed;
    var d := c.(runs := c.runs[r.id := r]);
    var ys := Single(r.inputSnapshot) + Single(r.parentRun);
    ExtendAcyclic(RunGraph(c), r.id, ys);
    assert RunGraph(d) == RunGraph(c)[r.id := ys];
    assert ParentGraph(d) == ParentGraph(c) && PlanGraph(d) == PlanGraph(c);
  }

  lemma PlanKeepsAcyclic(c: Catalog, p: Plan)
    requires Closed(PlanGraph(c)) && Acyclic(c) && p.id !in c.plans && Known(p.supersedes, c.plans)
    ensures Acyclic(c.(plans := c.plans[p.id := p]))
  {
    hide HasCycle, Closed;
    var d := c.(plans := c.plans[p.id := p]);
    ExtendAcyclic(PlanGraph(c), p.id, Single(p.supersedes));
    assert PlanGraph(d) == PlanGraph(c)[p.id := Single(p.supersedes)];
    assert ParentGraph(d) == ParentGraph(c) && RunGraph(d) == RunGraph(c);
  }

  lemma ReadyKeepsAcyclic(zones: set<string>, c: Catalog, r: Record, d: Catalog)
    requires ReferencesOk(c) && Ready(c, r) && ApplyRecord(zones, c, r) == Some(d)
    ensures Acyclic(d)
  {
    hide EntityOk, RelationOk, SeriesOk, RunOk, PlanOk, HasCycle, RunTransitionOk, PlanTransitionOk, Resolved, Closed,
      ParentGraph, RunGraph, PlanGraph;
    GraphsClosed(c);
    match r
    case EntityRecord(e) => EntityKeepsAcyclic(c, e);
    case RunRecord(r) => RunKeepsAcyclic(c, r);
    case PlanRecord(p) => PlanKeepsAcyclic(c, p);
    case _ => SameGraphs(c, d);
  }

  lemma SameGraphs(c: Catalog, d: Catalog)
    requires c.entities == d.entities && c.runs == d.runs && c.plans == d.plans
    ensures Acyclic(c) <==> Acyclic(d)
  {
    hide HasCycle;
    assert ParentGraph(d) == ParentGraph(c) && RunGraph(d) == RunGraph(c) && PlanGraph(d) == PlanGraph(c);
  }

  lemma ReadyKeepsResolved(zones: set<string>, c: Catalog, r: Record, d: Catalog)
    requires Resolved(c) && Ready(c, r) && ApplyRecord(zones, c, r) == Some(d)
    ensures Resolved(d)
  {
    hide EntityOk, RelationOk, SeriesOk, RunOk, PlanOk, RunTransitionOk, PlanTransitionOk;
  }

  lemma ReadyKeeps(zones: set<string>, c: Catalog, r: Record, d: Catalog)
    requires CatalogOk(zones, c) && Ready(c, r) && ApplyRecord(zones, c, r) == Some(d)
    ensures CatalogOk(zones, d)
  {
    hide WellFormed, Ready, ApplyRecord, Resolved, Acyclic;
    RecordKeeps(zones, c, r, d);
    ReadyKeepsResolved(zones, c, r, d);
    ReadyKeepsAcyclic(zones, c, r, d);
  }

  // ---- Listings build the catalog up ----

  // A record of the catalog that is not in the part yet extends the part by it.
  ghost predicate Extends(zones: set<string>, c: Catalog, before: Listing, r: Record, after: Listing) {
    Ready(Part(c, before), r) && ApplyRecord(zones, Part(c, before), r) == Some(Part(c, after))
  }

  lemma EntityExtends(zones: set<string>, c: Catalog, l: Listing, id: u128)
    requires CatalogOk(zones, c) && Staged(c, l.(entities := l.entities + [id]))
    ensures Extends(zones, c, l, EntityRecord(c.entities[id]), l.(entities := l.entities + [id]))
  {
    hide EntityOk, RelationOk, SeriesOk, RunOk, PlanOk, Acyclic;
    var after := l.(entities := l.entities + [id]);
    SortedLast(ParentGraph(c), l.entities, id);
    var e := c.entities[id];
    assert e.id == id && ParentGraph(c)[id] == Single(e.parent);
    assert e.parent.Some? ==> e.parent.value in Single(e.parent);
    assert Restrict(c.entities, after.entities) == Restrict(c.entities, l.entities)[id := e];
  }

  lemma RelationExtends(zones: set<string>, c: Catalog, l: Listing, id: u128)
    requires CatalogOk(zones, c) && Staged(c, l.(relations := l.relations + [id]))
    ensures Extends(zones, c, l, RelationRecord(c.relations[id]), l.(relations := l.relations + [id]))
  {
    hide EntityOk, RelationOk, SeriesOk, RunOk, PlanOk, Acyclic, Sorted;
    var after := l.(relations := l.relations + [id]);
    NoRepeatLast(l.relations, id);
    assert Restrict(c.relations, after.relations) == Restrict(c.relations, l.relations)[id := c.relations[id]];
  }

  lemma SeriesExtends(zones: set<string>, c: Catalog, l: Listing, id: u64)
    requires CatalogOk(zones, c) && Staged(c, l.(series := l.series + [id]))
    ensures Extends(zones, c, l, SeriesRecord(c.series[id]), l.(series := l.series + [id]))
  {
    hide EntityOk, RelationOk, SeriesOk, RunOk, PlanOk, Acyclic, Sorted;
    var after := l.(series := l.series + [id]);
    NoRepeatLast(l.series, id);
    assert Restrict(c.series, after.series) == Restrict(c.series, l.series)[id := c.series[id]];
  }

  // What the two lemmas below need to know about a run or plan of a valid catalog.
  lemma ListedRun(zones: set<string>, c: Catalog, l: Listing, id: u128)
    requires CatalogOk(zones, c) && Staged(c, l.(runs := l.runs + [id]))
    ensures id in c.runs && c.runs[id].id == id && RunOk(c.runs[id]) && Sorted(RunGraph(c), l.runs + [id])
  {
    hide Sorted, RunOk, Acyclic, Resolved;
    assert id in l.(runs := l.runs + [id]).runs;
  }

  lemma ListedPlan(zones: set<string>, c: Catalog, l: Listing, id: u128)
    requires CatalogOk(zones, c) && Staged(c, l.(plans := l.plans + [id]))
    ensures id in c.plans && c.plans[id].id == id && PlanOk(c.plans[id]) && Sorted(PlanGraph(c), l.plans + [id])
    ensures var runId := c.plans[id].runId; runId in c.runs && runId in l.runs && c.runs[runId].kind == Optimization
  {
    hide Sorted, PlanOk, Acyclic;
    assert id in l.(plans := l.plans + [id]).plans;
  }

  lemma RunReferences(c: Catalog, id: u128)
    requires id in c.runs
    ensures id in RunGraph(c)
    ensures c.runs[id].parentRun.Some? ==> c.runs[id].parentRun.value in RunGraph(c)[id]
    ensures c.runs[id].inputSnapshot.Some? ==> c.runs[id].inputSnapshot.value in RunGraph(c)[id]
  {
    var a, b := Single(c.runs[id].inputSnapshot), Single(c.runs[id].parentRun);
    assert forall y <- a :: y in a + b;
    assert forall y <- b :: y in a + b;
  }

  // A run listed after its references is ready to be added.
  lemma RunReady(zones: set<string>, c: Catalog, l: Listing, id: u128)
    requires CatalogOk(zones, c) && Staged(c, l.(runs := l.runs + [id]))
    ensures id in c.runs && id !in l.runs && Ready(Part(c, l), RunRecord(c.runs[id]))
  {
    hide CatalogOk, Staged, Sorted, RunGraph, RunOk;
    ListedRun(zones, c, l, id);
    SortedLast(RunGraph(c), l.runs, id);
    RunReferences(c, id);
    RunsHeld(c, l.runs);
  }

  lemma RunsHeld(c: Catalog, runs: seq<u128>)
    requires Sorted(RunGraph(c), runs)
    ensures forall id <- runs :: id in c.runs
  {
  }

  lemma RunExtends(zones: set<string>, c: Catalog, l: Listing, id: u128)
    requires CatalogOk(zones, c) && Staged(c, l.(runs := l.runs + [id]))
    ensures Extends(zones, c, l, RunRecord(c.runs[id]), l.(runs := l.runs + [id]))
  {
    hide CatalogOk, Staged, RunOk, RunTransitionOk, Sorted, Ready, RunGraph;
    RunReady(zones, c, l, id);
    ListedRun(zones, c, l, id);
    var r := c.runs[id];
    var part := Part(c, l);
    assert Restrict(c.runs, l.runs + [id]) == Restrict(c.runs, l.runs)[id := r];
    assert Part(c, l.(runs := l.runs + [id])) == part.(runs := part.runs[id := r]);
  }

  lemma PlanExtends(zones: set<string>, c: Catalog, l: Listing, id: u128)
    requires CatalogOk(zones, c) && Staged(c, l.(plans := l.plans + [id]))
    ensures Extends(zones, c, l, PlanRecord(c.plans[id]), l.(plans := l.plans + [id]))
  {
    hide CatalogOk, Staged, PlanOk, PlanTransitionOk, Sorted;
    ListedPlan(zones, c, l, id);
    var p := c.plans[id];
    SortedLast(PlanGraph(c), l.plans, id);
    assert PlanGraph(c)[id] == Single(p.supersedes);
    assert p.supersedes.Some? ==> p.supersedes.value in Single(p.supersedes);
    assert Restrict(c.plans, l.plans + [id]) == Restrict(c.plans, l.plans)[id := p];
  }

  lemma SortedLast(g: Graph, order: seq<u128>, x: u128)
    requires Sorted(g, order + [x])
    ensures Sorted(g, order) && x in g && x !in order && forall y <- g[x] :: y in order
  {
    var more := order + [x];
    assert more[|order|] == x && more[..|order|] == order;
    forall i | 0 <= i < |order| ensures order[i] in g && forall y <- g[order[i]] :: y in order[..i] {
      assert more[i] == order[i] && more[..i] == order[..i];
    }
    forall i, j | 0 <= i < j < |order| ensures order[i] != order[j] {
      assert more[i] != more[j];
    }
    forall i | 0 <= i < |order| ensures order[i] != x {
      assert more[i] != more[|order|];
    }
  }

  lemma NoRepeatLast<K>(keys: seq<K>, x: K)
    requires NoRepeat(keys + [x])
    ensures NoRepeat(keys) && x !in keys
  {
    var more := keys + [x];
    forall i, j | 0 <= i < j < |keys| ensures keys[i] != keys[j] {
      assert more[i] != more[j];
    }
    forall i | 0 <= i < |keys| ensures keys[i] != x {
      assert more[i] != more[|keys|];
    }
  }

  // The listing without its last object, and that object's record.
  ghost function Shorter(l: Listing): Listing {
    if l.plans != [] then l.(plans := l.plans[..|l.plans| - 1])
    else if l.runs != [] then l.(runs := l.runs[..|l.runs| - 1])
    else if l.series != [] then l.(series := l.series[..|l.series| - 1])
    else if l.relations != [] then l.(relations := l.relations[..|l.relations| - 1])
    else if l.entities != [] then l.(entities := l.entities[..|l.entities| - 1])
    else l
  }

  ghost function Size(l: Listing): nat {
    |l.entities| + |l.relations| + |l.series| + |l.runs| + |l.plans|
  }

  lemma ShorterStaged(c: Catalog, l: Listing)
    requires Staged(c, l) && Size(l) > 0
    ensures Staged(c, Shorter(l)) && Size(Shorter(l)) == Size(l) - 1
  {
    hide Sorted;
    if l.plans != [] {
      SortedFront(PlanGraph(c), l.plans);
    } else if l.runs != [] {
      SortedFront(RunGraph(c), l.runs);
    } else if l.series == [] && l.relations == [] {
      SortedFront(ParentGraph(c), l.entities);
    }
  }

  lemma SortedFront(g: Graph, order: seq<u128>)
    requires Sorted(g, order) && order != []
    ensures Sorted(g, order[..|order| - 1])
  {
    assert order == order[..|order| - 1] + [order[|order| - 1]];
    SortedLast(g, order[..|order| - 1], order[|order| - 1]);
  }

  lemma RecordsShorter(c: Catalog, l: Listing)
    requires Listed(c, l) && Listed(c, Shorter(l)) && Size(l) > 0
    ensures |RecordsOf(c, l)| == Size(l)
    ensures RecordsOf(c, l)[..Size(l) - 1] == RecordsOf(c, Shorter(l))
  {
  }

  lemma LastRecord(c: Catalog, l: Listing)
    requires Listed(c, l) && Size(l) > 0
    ensures |RecordsOf(c, l)| == Size(l)
    ensures RecordsOf(c, l)[Size(l) - 1] ==
            if l.plans != [] then PlanRecord(c.plans[l.plans[|l.plans| - 1]])
            else if l.runs != [] then RunRecord(c.runs[l.runs[|l.runs| - 1]])
            else if l.series != [] then SeriesRecord(c.series[l.series[|l.series| - 1]])
            else if l.relations != [] then RelationRecord(c.relations[l.relations[|l.relations| - 1]])
            else EntityRecord(c.entities[l.entities[|l.entities| - 1]])
  {
  }

  lemma LastEntity(zones: set<string>, c: Catalog, l: Listing, s: Listing)
    requires CatalogOk(zones, c) && Staged(c, l) && l.entities != []
    requires s == l.(entities := l.entities[..|l.entities| - 1])
    ensures Extends(zones, c, s, EntityRecord(c.entities[l.entities[|l.entities| - 1]]), l)
  {
    hide CatalogOk, Extends, Staged;
    var id := l.entities[|l.entities| - 1];
    assert s.entities + [id] == l.entities;
    assert s.(entities := s.entities + [id]) == l;
    EntityExtends(zones, c, s, id);
  }

  lemma LastRelation(zones: set<string>, c: Catalog, l: Listing, s: Listing)
    requires CatalogOk(zones, c) && Staged(c, l) && l.relations != []
    requires s == l.(relations := l.relations[..|l.relations| - 1])
    ensures Extends(zones, c, s, RelationRecord(c.relations[l.relations[|l.relations| - 1]]), l)
  {
    hide CatalogOk, Extends, Staged;
    var id := l.relations[|l.relations| - 1];
    assert s.relations + [id] == l.relations;
    assert s.(relations := s.relations + [id]) == l;
    RelationExtends(zones, c, s, id);
  }

  lemma LastSeries(zones: set<string>, c: Catalog, l: Listing, s: Listing)
    requires CatalogOk(zones, c) && Staged(c, l) && l.series != []
    requires s == l.(series := l.series[..|l.series| - 1])
    ensures Extends(zones, c, s, SeriesRecord(c.series[l.series[|l.series| - 1]]), l)
  {
    hide CatalogOk, Extends, Staged;
    var id := l.series[|l.series| - 1];
    assert s.series + [id] == l.series;
    assert s.(series := s.series + [id]) == l;
    SeriesExtends(zones, c, s, id);
  }

  lemma LastRun(zones: set<string>, c: Catalog, l: Listing, s: Listing)
    requires CatalogOk(zones, c) && Staged(c, l) && l.runs != []
    requires s == l.(runs := l.runs[..|l.runs| - 1])
    ensures Extends(zones, c, s, RunRecord(c.runs[l.runs[|l.runs| - 1]]), l)
  {
    hide CatalogOk, Extends, Staged;
    var id := l.runs[|l.runs| - 1];
    assert s.runs + [id] == l.runs;
    assert s.(runs := s.runs + [id]) == l;
    RunExtends(zones, c, s, id);
  }

  lemma LastPlan(zones: set<string>, c: Catalog, l: Listing, s: Listing)
    requires CatalogOk(zones, c) && Staged(c, l) && l.plans != []
    requires s == l.(plans := l.plans[..|l.plans| - 1])
    ensures Extends(zones, c, s, PlanRecord(c.plans[l.plans[|l.plans| - 1]]), l)
  {
    hide CatalogOk, Extends, Staged;
    var id := l.plans[|l.plans| - 1];
    assert s.plans + [id] == l.plans;
    assert s.(plans := s.plans + [id]) == l;
    PlanExtends(zones, c, s, id);
  }

  lemma LastExtends(zones: set<string>, c: Catalog, l: Listing)
    requires CatalogOk(zones, c) && Staged(c, l) && Size(l) > 0
    ensures |RecordsOf(c, l)| == Size(l)
    ensures Extends(zones, c, Shorter(l), RecordsOf(c, l)[Size(l) - 1], l)
  {
    hide CatalogOk, Extends, Staged, RecordsOf, Listed;
    StagedListed(c, l);
    LastRecord(c, l);
    if l.plans != [] {
      LastPlan(zones, c, l, Shorter(l));
    } else if l.runs != [] {
      LastRun(zones, c, l, Shorter(l));
    } else if l.series != [] {
      LastSeries(zones, c, l, Shorter(l));
    } else if l.relations != [] {
      LastRelation(zones, c, l, Shorter(l));
    } else {
      LastEntity(zones, c, l, Shorter(l));
    }
  }

  // Every prefix of a staged listing is a valid catalog: the part written so far.
  lemma {:induction false} ListingBuilds(zones: set<string>, c: Catalog, l: Listing, n: nat)
    requires CatalogOk(zones, c) && Staged(c, l) && n <= |RecordsOf(c, l)|
    ensures ApplyEach(zones, EMPTY_CATALOG, RecordsOf(c, l)) == Some(Part(c, l))
    ensures CatalogOk(zones, Part(c, l))
    ensures ApplyEach(zones, EMPTY_CATALOG, RecordsOf(c, l)[..n]).Some?
    ensures CatalogOk(zones, ApplyEach(zones, EMPTY_CATALOG, RecordsOf(c, l)[..n]).value)
    decreases Size(l)
  {
    hide CatalogOk, Staged, ApplyRecord, Ready, RecordsOf, Part, Listed;
    StagedListed(c, l);
    var rs := RecordsOf(c, l);
    if Size(l) == 0 {
      EmptyListing(c, l);
      EmptyOk(zones);
      assert rs[..n] == [];
    } else {
      var s := Shorter(l);
      ShorterStaged(c, l);
      StagedListed(c, s);
      RecordsShorter(c, l);
      var front := RecordsOf(c, s);
      ListingBuilds(zones, c, s, if n < |rs| then n else |front|);
      LastExtends(zones, c, l);
      ReadyKeeps(zones, Part(c, s), rs[|rs| - 1], Part(c, l));
      if n < |rs| {
        assert rs[..n] == front[..n];
      } else {
        assert rs[..n] == rs;
      }
    }
  }

  lemma StagedListed(c: Catalog, l: Listing)
    requires Staged(c, l)
    ensures Listed(c, l)
  {
  }

  lemma EmptyListing(c: Catalog, l: Listing)
    requires Listed(c, l) && Size(l) == 0
    ensures RecordsOf(c, l) == [] && Part(c, l) == EMPTY_CATALOG
  {
  }

  // What a record list must do to stand in for a catalog.
  ghost predicate Rebuilds(zones: set<string>, c: Catalog, rs: seq<Record>) {
    && ApplyRecords(zones, EMPTY_CATALOG, rs) == Some(c)
    && (forall n :: 0 <= n <= |rs| ==> PrefixOk(zones, rs, n))
    && |rs| == |c.entities| + |c.relations| + |c.series| + |c.runs| + |c.plans|
    && (forall r <- rs :: !r.PointsRecord?)
  }

  ghost predicate PrefixOk(zones: set<string>, rs: seq<Record>, n: nat)
    requires n <= |rs|
  {
    var d := ApplyEach(zones, EMPTY_CATALOG, rs[..n]);
    d.Some? && CatalogOk(zones, d.value)
  }

  lemma CompletePart(c: Catalog, l: Listing)
    requires Complete(c, l)
    ensures Part(c, l) == c
  {
    hide Sorted;
  }

  lemma {:induction false} KeysCounted<K>(keys: seq<K>, s: set<K>)
    requires NoRepeat(keys) && (forall k <- keys :: k in s) && (forall k <- s :: k in keys)
    ensures |keys| == |s|
  {
    if keys == [] {
      assert s == {};
    } else {
      var front, last := keys[..|keys| - 1], keys[|keys| - 1];
      assert keys == front + [last] && last in keys;
      NoRepeatLast(front, last);
      KeysCounted(front, s - {last});
    }
  }

  lemma CompleteSize(c: Catalog, l: Listing)
    requires Complete(c, l)
    ensures Size(l) == |c.entities| + |c.relations| + |c.series| + |c.runs| + |c.plans|
  {
    KeysCounted(l.entities, c.entities.Keys);
    KeysCounted(l.relations, c.relations.Keys);
    KeysCounted(l.series, c.series.Keys);
    KeysCounted(l.runs, c.runs.Keys);
    KeysCounted(l.plans, c.plans.Keys);
  }

  /**
  The snapshot of a valid catalog rebuilds it from nothing, every prefix of it is a
  valid catalog, and every object is written once.
  */
  lemma SnapshotRebuilds(zones: set<string>, c: Catalog, l: Listing)
    requires CatalogOk(zones, c) && Complete(c, l)
    ensures Listed(c, l) && Rebuilds(zones, c, RecordsOf(c, l))
  {
    hide CatalogOk, Staged, ApplyEach, Part, RecordsOf, ReferencesOk, Listed, PointsKnown;
    StagedListed(c, l);
    var rs := RecordsOf(c, l);
    CompletePart(c, l);
    CompleteSize(c, l);
    MetadataOnly(c, l);
    ListingBuilds(zones, c, l, |rs|);
    forall n | 0 <= n <= |rs| ensures PrefixOk(zones, rs, n) {
      ListingBuilds(zones, c, l, n);
    }
    OkParts(zones, c);
    NothingApplied(zones);
  }

  lemma MetadataOnly(c: Catalog, l: Listing)
    requires Listed(c, l)
    ensures |RecordsOf(c, l)| == Size(l)
    ensures forall r <- RecordsOf(c, l) :: !r.PointsRecord?
    ensures forall d: Catalog :: AllPointsKnown(d, RecordsOf(c, l))
    ensures OnlyPoints(RecordsOf(c, l)) ==> RecordsOf(c, l) == []
  {
    hide RecordsOf, PointsKnown;
    var rs := RecordsOf(c, l);
    RecordCount(c, l);
    assert forall r <- rs :: !r.PointsRecord? by { MetadataRecords(c, l); }
    assert rs != [] ==> rs[0] in rs;
  }

  lemma RecordCount(c: Catalog, l: Listing)
    requires Listed(c, l)
    ensures |RecordsOf(c, l)| == Size(l)
  {
  }

  lemma MetadataRecords(c: Catalog, l: Listing)
    requires Listed(c, l)
    ensures forall r <- RecordsOf(c, l) :: !r.PointsRecord?
  {
  }

  lemma NothingApplied(zones: set<string>)
    ensures ApplyEach(zones, EMPTY_CATALOG, []) == Some(EMPTY_CATALOG)
  {
  }

  lemma OkParts(zones: set<string>, c: Catalog)
    requires CatalogOk(zones, c)
    ensures ReferencesOk(c)
  {
  }

  // ---- The snapshot as it is taken ----

  method ListKeys<K(==)>(s: set<K>) returns (keys: seq<K>)
    ensures NoRepeat(keys) && (forall k <- keys :: k in s) && (forall k <- s :: k in keys)
  {
    keys := [];
    var pending := s;
    while pending != {}
      invariant pending <= s && NoRepeat(keys)
      invariant forall k <- keys :: k in s && k !in pending
      invariant forall k <- s :: k in pending || k in keys
      decreases |pending|
    {
      var k :| k in pending;
      keys := keys + [k];
      pending := pending - {k};
    }
  }

  method SnapshotRecords(c: Catalog, ghost zones: set<string>) returns (r: Option<seq<Record>>)
    ensures r.Some? <==> ReferencesOk(c)
    ensures r.Some? && CatalogOk(zones, c) ==> Rebuilds(zones, c, r.value)
  {
    hide HasCycle, Sorted, Resolved, Rebuilds, WellFormed;
    var ok := ValidateReferences(c);
    if !ok {
      return None;
    }
    GraphsClosed(c);
    var entities := LayeredOrder(ParentGraph(c));
    var runs := LayeredOrder(RunGraph(c));
    var plans := LayeredOrder(PlanGraph(c));
    if entities.None? || runs.None? || plans.None? {
      return None;
    }
    var relations := ListKeys(c.relations.Keys);
    var series := ListKeys(c.series.Keys);
    var l := Listing(entities.value, relations, series, runs.value, plans.value);
    TopoListed(c, l);
    assert Complete(c, l);
    if CatalogOk(zones, c) {
      SnapshotRebuilds(zones, c, l);
    }
    r := Some(RecordsOf(c, l));
  }

  lemma TopoListed(c: Catalog, l: Listing)
    requires Sorted(ParentGraph(c), l.entities) && Sorted(RunGraph(c), l.runs) && Sorted(PlanGraph(c), l.plans)
    ensures forall id <- l.entities :: id in c.entities
    ensures forall id <- l.runs :: id in c.runs
    ensures forall id <- l.plans :: id in c.plans
  {
  }
}

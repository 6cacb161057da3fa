/**
Building rollups, querying them, and the checks a stored rollup must pass.

A grid says which bucket a time falls in: fixed durations, or the days, months or years of a
calendar, whose edges come from outside and are assumed to divide time. The builder makes one
pass over the samples and one over the gaps between them, updating a map of buckets. `BuildOn`
proves the map holds, bucket by bucket, the content of its range; `CoarseIsMergedFine` that
coarser grids hold the exact merge of finer ones; `BuiltBucketsValid` that the result passes the
reader's validation; `RangeIsOverlap` and `QueryStored` that both range queries return exactly the
overlapping buckets.
*/
module RollupBuild {
  import opened ByteCodec
  import opened StableSorting
  import opened Aggregate
  import opened Rollup

  datatype Bucket = Bucket(start: int, end: int, content: Content)

  type Buckets = map<int, Bucket>

  function TimeKey(s: Sample): Key { [s.timestamp] }

  function ContentAt(buckets: Buckets, s: int): Content {
    if s in buckets then buckets[s].content else EMPTY
  }

  // ---- The updates of a bucket ----

  function AddSample(c: Content, s: Sample): Content {
    c.(count := c.count + 1,
       sum := c.sum + s.value,
       min := Some(if c.min.Some? then Min(c.min.value, s.value) else s.value),
       max := Some(if c.max.Some? then Max(c.max.value, s.value) else s.value),
       first := if c.first.Some? then c.first else Some(s),
       last := Some(s))
  }

  function AddCoveredInterval(c: Content, value: real, micros: int): Content {
    c.(integral := c.integral + Held(value, micros),
       covered := c.covered + micros,
       min := Some(if c.min.Some? then Min(c.min.value, value) else value),
       max := Some(if c.max.Some? then Max(c.max.value, value) else value))
  }

  lemma AddSampleIsProduct(c: Content, s: Sample)
    ensures AddSample(c, s) == Combine(c, One(s))
  {
  }

  lemma AddIntervalIsProduct(c: Content, value: real, micros: int)
    requires micros > 0
    ensures AddCoveredInterval(c, value, micros) == Combine(c, Cover(value, micros))
  {
    hide Held;
  }

  // ---- Grids ----

  datatype Span = Span(start: int, end: int)

  // The bucket a time falls in, or None where the grid is not defined.
  datatype Grid = Grid(bounds: int -> Option<Span>)

  // Every time is in its bucket, all times of a bucket are in the same one, and the grid has no holes.
  ghost predicate Partition(g: Grid) {
    && (forall t :: g.bounds(t).Some? ==> g.bounds(t).value.start <= t < g.bounds(t).value.end)
    && (forall t, u :: g.bounds(t).Some? && g.bounds(t).value.start <= u < g.bounds(t).value.end
                       ==> g.bounds(u) == g.bounds(t))
    && (forall t, u, v :: t <= u <= v && g.bounds(t).Some? && g.bounds(v).Some? ==> g.bounds(u).Some?)
  }

  // A bucket of the grid.
  predicate Cell(g: Grid, s: int, e: int) {
    g.bounds(s) == Some(Span(s, e))
  }

  lemma CellOf(g: Grid, t: int)
    requires Partition(g) && g.bounds(t).Some?
    ensures var b := g.bounds(t).value; b.start <= t < b.end && Cell(g, b.start, b.end)
  {
  }

  // Each time is in exactly one bucket.
  lemma InCellIff(g: Grid, t: int, s: int, e: int)
    requires Partition(g) && g.bounds(t).Some? && Cell(g, s, e)
    ensures s <= t < e <==> g.bounds(t).value.start == s
    ensures g.bounds(t).value.start == s ==> g.bounds(t).value.end == e
  {
    CellOf(g, t);
  }

  // Different buckets do not overlap.
  lemma CellsApart(g: Grid, a: int, b: int, c: int, d: int)
    requires Partition(g) && Cell(g, a, b) && Cell(g, c, d)
    ensures a < b && c < d
    ensures a < c ==> b <= c
    ensures a == c ==> b == d
  {
    assert g.bounds(a).value.start <= a < g.bounds(a).value.end;
    assert g.bounds(c).value.start <= c < g.bounds(c).value.end;
  }

  lemma NoHoles(g: Grid, t: int, u: int, v: int)
    requires Partition(g) && t <= u <= v && g.bounds(t).Some? && g.bounds(v).Some?
    ensures g.bounds(u).Some?
  {
  }

  // ---- Fixed durations ----

  function BucketStart(t: int, r: int): int
    requires r > 0
  {
    (t / r) * r
  }

  // The end of a bucket must be representable.
  function FixedGrid(r: int): Grid
    requires r > 0
  {
    Grid((t: int) => if BucketStart(t, r) + r <= I64_MAX then Some(Span(BucketStart(t, r), BucketStart(t, r) + r)) else None)
  }

  lemma BucketHolds(t: int, r: int)
    requires r > 0
    ensures BucketStart(t, r) <= t < BucketStart(t, r) + r && BucketStart(t, r) % r == 0
  {
    assert t == (t / r) * r + t % r;
    MultipleRemainder(t / r, r);
  }

  lemma MultipleRemainder(q: int, r: int)
    requires r > 0
    ensures (q * r) % r == 0 && (q * r) / r == q
  {
    var m := q * r;
    assert m == (m / r) * r + m % r;
    var d := q - m / r;
    DifferenceTimes(q, m / r, r);
    MultipleSize(d, r);
  }

  lemma MultipleSize(d: int, r: int)
    requires r > 0
    ensures d > 0 ==> d * r >= r
    ensures d < 0 ==> d * r <= -r
  {
  }

  lemma DifferenceTimes(p: int, q: int, r: int)
    ensures (p - q) * r == p * r - q * r
  {
  }

  // Different multiples of r are at least r apart.
  lemma AlignedApart(a: int, b: int, r: int)
    requires r > 0 && a % r == 0 && b % r == 0
    ensures a < b ==> a + r <= b
    ensures b < a ==> b + r <= a
  {
    var p, q := a / r, b / r;
    assert a == p * r && b == q * r;
    DifferenceTimes(q, p, r);
    MultipleSize(q - p, r);
  }

  lemma StartsMonotone(t: int, u: int, r: int)
    requires r > 0 && t <= u
    ensures BucketStart(t, r) <= BucketStart(u, r)
  {
    BucketHolds(t, r);
    BucketHolds(u, r);
    AlignedApart(BucketStart(t, r), BucketStart(u, r), r);
  }

  lemma FixedPartition(r: int)
    requires r > 0
    ensures Partition(FixedGrid(r))
  {
    hide BucketStart, FixedGrid;
    var g := FixedGrid(r);
    forall t | g.bounds(t).Some? ensures g.bounds(t).value.start <= t < g.bounds(t).value.end {
      FixedBounds(r, t);
      BucketHolds(t, r);
    }
    forall t, u | g.bounds(t).Some? && g.bounds(t).value.start <= u < g.bounds(t).value.end
      ensures g.bounds(u) == g.bounds(t)
    {
      FixedBounds(r, t);
      SameBucket(r, t, u);
    }
    forall t, u, v | t <= u <= v && g.bounds(t).Some? && g.bounds(v).Some? ensures g.bounds(u).Some? {
      FixedBounds(r, u);
      FixedBounds(r, v);
      StartsMonotone(u, v, r);
    }
  }

  lemma FixedBounds(r: int, t: int)
    requires r > 0
    ensures FixedGrid(r).bounds(t)
         == if BucketStart(t, r) + r <= I64_MAX then Some(Span(BucketStart(t, r), BucketStart(t, r) + r)) else None
  {
    hide BucketStart;
  }

  lemma SameBucket(r: int, t: int, u: int)
    requires r > 0 && BucketStart(t, r) <= u < BucketStart(t, r) + r
    ensures BucketStart(u, r) == BucketStart(t, r) && FixedGrid(r).bounds(u) == FixedGrid(r).bounds(t)
  {
    hide BucketStart, FixedGrid;
    BucketHolds(t, r);
    BucketHolds(u, r);
    AlignedApart(BucketStart(t, r), BucketStart(u, r), r);
    FixedBounds(r, t);
    FixedBounds(r, u);
  }

  lemma FixedCell(r: int, s: int)
    requires r > 0 && s % r == 0 && s + r <= I64_MAX
    ensures Cell(FixedGrid(r), s, s + r)
  {
    assert s == (s / r) * r;
  }

  // ---- What the builder maintains ----

  ghost predicate Shaped(buckets: Buckets, g: Grid) {
    forall s <- buckets ::
      && Cell(g, s, buckets[s].end) && buckets[s].start == s
      && (buckets[s].content.count > 0 || buckets[s].content.covered > 0)
  }

  ghost predicate HoldsSamples(buckets: Buckets, ss: seq<Sample>, g: Grid) {
    forall s: int, e: int | Cell(g, s, e) :: ContentAt(buckets, s) == SamplePart(ss, s, e)
  }

  // After the samples, and the gaps between the first samples of the list.
  ghost predicate HoldsBoth(buckets: Buckets, ss: seq<Sample>, done: seq<Sample>, maxGap: int, g: Grid) {
    forall s: int, e: int | Cell(g, s, e) ::
      ContentAt(buckets, s) == Combine(SamplePart(ss, s, e), CoverPart(done, maxGap, s, e))
  }

  // The finished map: every bucket holds the content of its range, and every bucket holds something.
  ghost predicate Built(buckets: Buckets, ss: seq<Sample>, g: Grid, maxGap: int) {
    && Shaped(buckets, g)
    && forall s: int, e: int | Cell(g, s, e) :: ContentAt(buckets, s) == RangeContent(ss, maxGap, s, e)
  }

  predicate OnGrid(ss: seq<Sample>, g: Grid) {
    forall s <- ss :: g.bounds(s.timestamp).Some?
  }

  predicate GapsFit(ss: seq<Sample>) {
    forall i :: 0 < i < |ss| ==> IsI64(ss[i].timestamp - ss[i - 1].timestamp)
  }

  // The first pass.
  method AddSamples(ss: seq<Sample>, g: Grid) returns (buckets: Option<Buckets>)
    requires Partition(g)
    ensures buckets.Some? <==> OnGrid(ss, g)
    ensures buckets.Some? ==> Shaped(buckets.value, g) && HoldsSamples(buckets.value, ss, g)
  {
    hide SamplePart, Combine, Partition, Shaped, HoldsSamples, AddSample;
    var map': Buckets := map[];
    EmptyHolds(g);
    for i := 0 to |ss|
      invariant OnGrid(ss[..i], g)
      invariant Shaped(map', g) && HoldsSamples(map', ss[..i], g)
    {
      var s := ss[i];
      if g.bounds(s.timestamp).None? {
        assert s in ss;
        return None;
      }
      var b := g.bounds(s.timestamp).value;
      SampleStep(map', ss[..i], s, g, b);
      assert ss[..i + 1] == ss[..i] + [s];
      map' := map'[b.start := Bucket(b.start, b.end, AddSample(ContentAt(map', b.start), s))];
    }
    assert ss[..|ss|] == ss;
    buckets := Some(map');
  }

  lemma EmptyHolds(g: Grid)
    ensures HoldsSamples(map[], [], g) && Shaped(map[], g)
  {
  }

  lemma SampleStep(buckets: Buckets, ss: seq<Sample>, x: Sample, g: Grid, b: Span)
    requires Partition(g) && g.bounds(x.timestamp) == Some(b) && Shaped(buckets, g) && HoldsSamples(buckets, ss, g)
    ensures var after := buckets[b.start := Bucket(b.start, b.end, AddSample(ContentAt(buckets, b.start), x))];
            Shaped(after, g) && HoldsSamples(after, ss + [x], g)
  {
    hide Partition, Combine, AddSample, One;
    CellOf(g, x.timestamp);
    var c := ContentAt(buckets, b.start);
    var after := buckets[b.start := Bucket(b.start, b.end, AddSample(c, x))];
    AddSampleIsProduct(c, x);
    OneCounts(c, x);
    var more := ss + [x];
    assert more[..|more| - 1] == ss && more[|more| - 1] == x;
    forall s: int, e: int | Cell(g, s, e) ensures ContentAt(after, s) == SamplePart(more, s, e) {
      InCellIff(g, x.timestamp, s, e);
      assert ContentAt(buckets, s) == SamplePart(ss, s, e);
    }
  }

  lemma OneCounts(c: Content, x: Sample)
    ensures AddSample(c, x).count > 0
  {
  }

  // ---- The second pass ----

  // The part of one held interval added so far.
  ghost predicate PartAdded(before: Buckets, after: Buckets, value: real, start: int, reached: int, g: Grid) {
    forall s: int, e: int | Cell(g, s, e) ::
      ContentAt(after, s) == Combine(ContentAt(before, s), Cover(value, Overlap(start, reached, s, e)))
  }

  ghost predicate CoveredOk(buckets: Buckets) {
    forall s <- buckets :: buckets[s].content.covered >= 0
  }

  // Cuts an interval at bucket edges and adds each piece to its bucket.
  method AddInterval(before: Buckets, g: Grid, start: int, end: int, value: real) returns (buckets: Option<Buckets>)
    requires Partition(g) && start < end && Shaped(before, g) && CoveredOk(before)
    ensures g.bounds(start).Some? && g.bounds(end).Some? && IsI64(end - start) ==> buckets.Some?
    ensures buckets.Some? ==>
              Shaped(buckets.value, g) && CoveredOk(buckets.value) && PartAdded(before, buckets.value, value, start, end, g)
  {
    hide Combine, Cover, Partition, Shaped, PartAdded, CoveredOk, AddCoveredInterval;
    var at := start;
    var map' := before;
    NothingAdded(before, value, start, g);
    while at < end
      invariant start <= at <= end
      invariant Shaped(map', g) && CoveredOk(map') && PartAdded(before, map', value, start, at, g)
      decreases end - at
    {
      if g.bounds(start).Some? && g.bounds(end).Some? {
        NoHoles(g, start, at, end);
      }
      if g.bounds(at).None? {
        return None;
      }
      var b := g.bounds(at).value;
      CellOf(g, at);
      var intervalEnd := if end < b.end then end else b.end;
      var duration := intervalEnd - at;
      if !IsI64(duration) {
        return None;
      }
      PieceStep(before, map', value, start, at, intervalEnd, g, b);
      map' := map'[b.start := Bucket(b.start, b.end, AddCoveredInterval(ContentAt(map', b.start), value, duration))];
      at := intervalEnd;
    }
    buckets := Some(map');
  }

  lemma NothingAdded(before: Buckets, value: real, start: int, g: Grid)
    ensures PartAdded(before, before, value, start, start, g)
  {
    forall s: int, e: int | Cell(g, s, e)
      ensures ContentAt(before, s) == Combine(ContentAt(before, s), Cover(value, Overlap(start, start, s, e)))
    {
      CombineEmpty(ContentAt(before, s));
    }
  }

  // One piece lies in one bucket.
  lemma PieceStep(before: Buckets, now: Buckets, value: real, start: int, at: int, next: int, g: Grid, b: Span)
    requires Partition(g) && start <= at < next <= b.end && Shaped(now, g) && CoveredOk(now)
    requires PartAdded(before, now, value, start, at, g) && g.bounds(at) == Some(b)
    ensures var after := now[b.start := Bucket(b.start, b.end,
                                               AddCoveredInterval(ContentAt(now, b.start), value, next - at))];
            Shaped(after, g) && CoveredOk(after) && PartAdded(before, after, value, start, next, g)
  {
    hide Combine, Partition, Cover;
    CellOf(g, at);
    var c := ContentAt(now, b.start);
    var after := now[b.start := Bucket(b.start, b.end, AddCoveredInterval(c, value, next - at))];
    AddIntervalIsProduct(c, value, next - at);
    forall s: int, e: int | Cell(g, s, e)
      ensures ContentAt(after, s) == Combine(ContentAt(before, s), Cover(value, Overlap(start, next, s, e)))
    {
      var reached := Overlap(start, at, s, e);
      CellsApart(g, s, e, b.start, b.end);
      CellsApart(g, b.start, b.end, s, e);
      if s == b.start {
        CoverAdds(value, reached, next - at);
        CombineAssociative(ContentAt(before, s), Cover(value, reached), Cover(value, next - at));
        assert Overlap(start, next, s, e) == reached + (next - at);
      } else {
        assert Overlap(start, next, s, e) == reached;
      }
    }
    CoveredPositive(now, b.start);
  }

  lemma CoveredPositive(buckets: Buckets, s: int)
    requires CoveredOk(buckets)
    ensures ContentAt(buckets, s).covered >= 0
  {
  }

  lemma GapStep(before: Buckets, after: Buckets, ss: seq<Sample>, done: seq<Sample>, next: Sample, maxGap: int, g: Grid)
    requires done != [] && HoldsBoth(before, ss, done, maxGap, g) && Holds(done[|done| - 1], next, maxGap)
    requires PartAdded(before, after, done[|done| - 1].value, done[|done| - 1].timestamp, next.timestamp, g)
    ensures HoldsBoth(after, ss, done + [next], maxGap, g)
  {
    hide Combine, Cover, SamplePart, Overlap;
    var more, last := done + [next], done[|done| - 1];
    assert more[..|more| - 1] == done && more[|more| - 2] == last && more[|more| - 1] == next;
    forall s: int, e: int | Cell(g, s, e)
      ensures ContentAt(after, s) == Combine(SamplePart(ss, s, e), CoverPart(more, maxGap, s, e))
    {
      CombineAssociative(SamplePart(ss, s, e), CoverPart(done, maxGap, s, e),
                         Cover(last.value, Overlap(last.timestamp, next.timestamp, s, e)));
    }
  }

  lemma NoGapStep(buckets: Buckets, ss: seq<Sample>, done: seq<Sample>, next: Sample, maxGap: int, g: Grid)
    requires done != [] && HoldsBoth(buckets, ss, done, maxGap, g)
    requires next.timestamp == done[|done| - 1].timestamp || !Holds(done[|done| - 1], next, maxGap)
    ensures HoldsBoth(buckets, ss, done + [next], maxGap, g)
  {
    hide Combine, SamplePart;
    var more, last := done + [next], done[|done| - 1];
    assert more[..|more| - 1] == done && more[|more| - 2] == last && more[|more| - 1] == next;
    forall s: int, e: int | Cell(g, s, e) ensures CoverPart(more, maxGap, s, e) == CoverPart(done, maxGap, s, e) {
      CombineEmpty(CoverPart(done, maxGap, s, e));
    }
  }

  // The gap between two neighbouring samples.
  method AddGap(before: Buckets, ghost ss: seq<Sample>, done: seq<Sample>, next: Sample, g: Grid, maxGap: int)
    returns (buckets: Buckets)
    requires Partition(g) && done != [] && done[|done| - 1].timestamp <= next.timestamp
    requires g.bounds(done[|done| - 1].timestamp).Some? && g.bounds(next.timestamp).Some?
    requires IsI64(next.timestamp - done[|done| - 1].timestamp)
    requires Shaped(before, g) && CoveredOk(before) && HoldsBoth(before, ss, done, maxGap, g)
    ensures Shaped(buckets, g) && CoveredOk(buckets) && HoldsBoth(buckets, ss, done + [next], maxGap, g)
  {
    hide Shaped, HoldsBoth, CoveredOk, Partition, PartAdded;
    var previous := done[|done| - 1];
    var gap := next.timestamp - previous.timestamp;
    if gap == 0 || gap > maxGap {
      NoGapStep(before, ss, done, next, maxGap, g);
      return before;
    }
    var added := AddInterval(before, g, previous.timestamp, next.timestamp, previous.value);
    GapStep(before, added.value, ss, done, next, maxGap, g);
    buckets := added.value;
  }

  method AddGaps(start: Buckets, ss: seq<Sample>, g: Grid, maxGap: int) returns (buckets: Option<Buckets>)
    requires Partition(g) && Ascending(ss) && ss != [] && OnGrid(ss, g)
    requires Shaped(start, g) && CoveredOk(start) && HoldsSamples(start, ss, g)
    ensures buckets.Some? <==> GapsFit(ss)
    ensures buckets.Some? ==> Shaped(buckets.value, g) && HoldsBoth(buckets.value, ss, ss, maxGap, g)
  {
    hide Shaped, HoldsBoth, CoveredOk, Partition, HoldsSamples, OnGrid, Ascending;
    var map' := start;
    SamplesOnly(map', ss, ss[..1], maxGap, g);
    for i := 1 to |ss|
      invariant forall j :: 0 < j < i ==> IsI64(ss[j].timestamp - ss[j - 1].timestamp)
      invariant Shaped(map', g) && CoveredOk(map') && HoldsBoth(map', ss, ss[..i], maxGap, g)
    {
      if !IsI64(ss[i].timestamp - ss[i - 1].timestamp) {
        return None;
      }
      NeighboursOnGrid(ss, g, i);
      assert ss[..i + 1] == ss[..i] + [ss[i]] && ss[..i][i - 1] == ss[i - 1];
      map' := AddGap(map', ss, ss[..i], ss[i], g, maxGap);
    }
    assert ss[..|ss|] == ss;
    buckets := Some(map');
  }

  lemma NeighboursOnGrid(ss: seq<Sample>, g: Grid, i: nat)
    requires Ascending(ss) && OnGrid(ss, g) && 0 < i < |ss|
    ensures ss[i - 1].timestamp <= ss[i].timestamp
    ensures g.bounds(ss[i - 1].timestamp).Some? && g.bounds(ss[i].timestamp).Some?
  {
    assert ss[i] in ss && ss[i - 1] in ss;
  }

  lemma SamplesOnly(buckets: Buckets, ss: seq<Sample>, one: seq<Sample>, maxGap: int, g: Grid)
    requires |one| < 2 && HoldsSamples(buckets, ss, g)
    ensures HoldsBoth(buckets, ss, one, maxGap, g)
  {
    hide Combine, SamplePart;
    forall s: int, e: int | Cell(g, s, e)
      ensures ContentAt(buckets, s) == Combine(SamplePart(ss, s, e), CoverPart(one, maxGap, s, e))
    {
      CombineEmpty(SamplePart(ss, s, e));
    }
  }

  lemma OrderedSamples(samples: seq<Sample>)
    ensures Ascending(Sort(samples, TimeKey))
    ensures forall s :: s in Sort(samples, TimeKey) <==> s in samples
  {
    hide Sort;
    SortIsStable(samples, TimeKey);
    SortElements(samples, TimeKey);
    var ss := Sort(samples, TimeKey);
    forall i, j | 0 <= i < j < |ss| ensures ss[i].timestamp <= ss[j].timestamp {
      assert KeyLe(TimeKey(ss[i]), TimeKey(ss[j]));
    }
  }

  /**
  Building a rollup on any grid. It succeeds exactly when the gap limit is valid, every sample has
  a bucket and no gap between neighbours overflows; then every bucket holds the content of its
  range, and exactly the ranges that hold something have a bucket.
  */
  method BuildOn(samples: seq<Sample>, g: Grid, maxGap: int) returns (buckets: Option<Buckets>)
    requires Partition(g)
    ensures var ss := Sort(samples, TimeKey);
            && (buckets.Some? <==> maxGap >= 0 && OnGrid(ss, g) && GapsFit(ss))
            && (buckets.Some? ==> Built(buckets.value, ss, g, maxGap))
  {
    hide Combine, SamplePart, CoverPart, Sort, OnGrid, GapsFit, Partition;
    if maxGap < 0 {
      return None;
    }
    var ss := Sort(samples, TimeKey);
    OrderedSamples(samples);
    buckets := AddSamples(ss, g);
    if buckets.None? {
      return;
    }
    if ss == [] {
      assert GapsFit(ss) by { NoGaps(ss); }
      SamplesOnly(buckets.value, ss, ss, maxGap, g);
    } else {
      SamplesCoverNone(buckets.value, ss, g);
      buckets := AddGaps(buckets.value, ss, g, maxGap);
    }
  }

  // Fixed durations. Aligned bucket starts must be representable, which the source does not check.
  method Build(samples: seq<Sample>, r: int, maxGap: int) returns (buckets: Option<Buckets>)
    requires r > 0 ==> forall s <- samples :: IsI64(BucketStart(s.timestamp, r))
    ensures r <= 0 ==> buckets.None?
    ensures r > 0 ==>
              var ss, g := Sort(samples, TimeKey), FixedGrid(r);
              && (buckets.Some? <==> maxGap >= 0 && OnGrid(ss, g) && GapsFit(ss))
              && (buckets.Some? ==> Built(buckets.value, ss, g, maxGap))
  {
    hide Partition, Built, OnGrid, GapsFit, Sort, FixedGrid;
    if r <= 0 {
      return None;
    }
    FixedPartition(r);
    buckets := BuildOn(samples, FixedGrid(r), maxGap);
  }

  // Calendar buckets. The time zone may be unknown; a known one divides time.
  method BuildCalendar(samples: seq<Sample>, calendar: Option<Grid>, maxGap: int) returns (buckets: Option<Buckets>)
    requires calendar.Some? ==> Partition(calendar.value)
    ensures calendar.None? ==> buckets.None?
    ensures calendar.Some? ==>
              var ss, g := Sort(samples, TimeKey), calendar.value;
              && (buckets.Some? <==> maxGap >= 0 && OnGrid(ss, g) && GapsFit(ss))
              && (buckets.Some? ==> Built(buckets.value, ss, g, maxGap))
  {
    hide Partition, Built, OnGrid, GapsFit, Sort;
    if maxGap < 0 || calendar.None? {
      return None;
    }
    buckets := BuildOn(samples, calendar.value, maxGap);
  }

  lemma NoGaps(ss: seq<Sample>)
    requires |ss| < 2
    ensures GapsFit(ss)
  {
  }

  lemma SamplesCoverNone(buckets: Buckets, ss: seq<Sample>, g: Grid)
    requires Shaped(buckets, g) && HoldsSamples(buckets, ss, g)
    ensures CoveredOk(buckets)
  {
    hide SamplePart;
    forall s <- buckets ensures buckets[s].content.covered >= 0 {
      SamplesCoverNothing(ss, s, buckets[s].end);
      assert ContentAt(buckets, s) == SamplePart(ss, s, buckets[s].end);
    }
  }

  // The second pass can fail after the first succeeded: the gap between far-apart samples overflows.
  lemma GapMayOverflow()
    ensures var ss := [Sample(I64_MIN, 1.0), Sample(I64_MAX - 1, 1.0)];
            OnGrid(ss, FixedGrid(1)) && !GapsFit(ss) && Ascending(ss)
  {
    var ss := [Sample(I64_MIN, 1.0), Sample(I64_MAX - 1, 1.0)];
    assert BucketStart(I64_MIN, 1) == I64_MIN && BucketStart(I64_MAX - 1, 1) == I64_MAX - 1;
    assert !IsI64(ss[1].timestamp - ss[1 - 1].timestamp);
  }

  // ---- Coarser levels ----

  function MergeExact(a: Bucket, b: Bucket): Option<Bucket> {
    if a.end != b.start then None else Some(Bucket(a.start, b.end, Combine(a.content, b.content)))
  }

  // Merging the buckets of two adjacent ranges gives the bucket of the joint range; anything else is refused.
  lemma MergeExactIsRange(ss: seq<Sample>, maxGap: int, lo: int, mid: int, start: int, hi: int)
    requires Ascending(ss) && lo <= mid && start <= hi
    ensures MergeExact(Bucket(lo, mid, RangeContent(ss, maxGap, lo, mid)),
                       Bucket(start, hi, RangeContent(ss, maxGap, start, hi)))
         == if mid == start then Some(Bucket(lo, hi, RangeContent(ss, maxGap, lo, hi))) else None
  {
    hide RangeContent, Combine;
    if mid == start {
      AdjacentRanges(ss, maxGap, lo, mid, hi);
    }
  }

  // The merge of the stored buckets between consecutive edges, absent ones empty.
  function MergeStored(buckets: Buckets, edges: seq<int>): Content {
    var n := |edges|;
    if n < 2 then EMPTY else Combine(MergeStored(buckets, edges[..n - 1]), ContentAt(buckets, edges[n - 2]))
  }

  // The edges cut a bucket of the coarse grid into buckets of the fine one.
  ghost predicate Divides(edges: seq<int>, fine: Grid, coarse: Grid) {
    && edges != [] && Cell(coarse, edges[0], edges[|edges| - 1])
    && forall i :: 0 < i < |edges| ==> Cell(fine, edges[i - 1], edges[i])
  }

  /**
  The pyramid. Wherever buckets of a finer grid make up a bucket of a coarser one, building on the
  coarser grid stores there the exact merge of what building on the finer grid stores: days and
  months, hours of any days, or multiples of a duration.
  */
  lemma CoarseIsMergedFine(samples: seq<Sample>, maxGap: int, fineGrid: Grid, coarseGrid: Grid, fine: Buckets,
                           coarse: Buckets, edges: seq<int>)
    requires Partition(fineGrid) && Divides(edges, fineGrid, coarseGrid)
    requires Built(fine, Sort(samples, TimeKey), fineGrid, maxGap)
    requires Built(coarse, Sort(samples, TimeKey), coarseGrid, maxGap)
    ensures ContentAt(coarse, edges[0]) == MergeStored(fine, edges)
  {
    hide Combine, SamplePart, CoverPart, Sort, RangeContent, Shaped, Partition;
    var ss := Sort(samples, TimeKey);
    OrderedSamples(samples);
    MergedFine(ss, maxGap, fineGrid, fine, edges);
    PyramidExact(ss, maxGap, edges);
  }

  lemma {:induction false} MergedFine(ss: seq<Sample>, maxGap: int, g: Grid, fine: Buckets, edges: seq<int>)
    requires Partition(g) && Built(fine, ss, g, maxGap)
    requires forall i :: 0 < i < |edges| ==> Cell(g, edges[i - 1], edges[i])
    ensures MergeStored(fine, edges) == MergeBuckets(ss, maxGap, edges) && Increasing(edges)
  {
    hide Combine, RangeContent, Shaped, Partition;
    var n := |edges|;
    if n >= 2 {
      MergedFine(ss, maxGap, g, fine, edges[..n - 1]);
      var s, e := edges[n - 2], edges[n - 1];
      assert Cell(g, edges[n - 1 - 1], edges[n - 1]);
      assert ContentAt(fine, s) == RangeContent(ss, maxGap, s, e);
      CellsApart(g, s, e, s, e);
      forall i | 0 < i < n ensures edges[i - 1] <= edges[i] {
        if i < n - 1 {
          assert edges[..n - 1][i - 1] <= edges[..n - 1][i];
        }
      }
    }
  }

  // The stored buckets of any stretch of the grid that spans the samples keep their totals.
  lemma BuiltConserves(samples: seq<Sample>, maxGap: int, g: Grid, buckets: Buckets, edges: seq<int>)
    requires Partition(g) && Built(buckets, Sort(samples, TimeKey), g, maxGap) && edges != []
    requires forall i :: 0 < i < |edges| ==> Cell(g, edges[i - 1], edges[i])
    requires forall s <- samples :: Within(s, edges[0], edges[|edges| - 1])
    ensures var ss, c := Sort(samples, TimeKey), MergeStored(buckets, edges);
            && c.count == |samples| && c.sum == SumValues(ss)
            && c.covered == HeldMicros(ss, maxGap) && c.integral == HeldEnergy(ss, maxGap)
  {
    hide Combine, Sort, RangeContent, Shaped, Partition;
    var ss := Sort(samples, TimeKey);
    OrderedSamples(samples);
    MergedFine(ss, maxGap, g, buckets, edges);
    Conservation(ss, maxGap, edges);
  }

  // The edges of k buckets of duration r.
  function Steps(lo: int, r: int, k: nat): seq<int> {
    seq(k + 1, (j: nat) => lo + j * r)
  }

  // Fixed grids: a bucket of k times the duration is divided by the k buckets in it.
  lemma MultipleDivides(lo: int, r: int, k: nat)
    requires r > 0 && k > 0 && k * r > 0 && lo % (k * r) == 0 && lo + k * r <= I64_MAX
    ensures Divides(Steps(lo, r, k), FixedGrid(r), FixedGrid(k * r))
  {
    hide FixedGrid;
    var edges := Steps(lo, r, k);
    FixedCell(k * r, lo);
    assert edges[0] == lo && edges[k] == lo + k * r;
    forall i | 0 < i < |edges| ensures Cell(FixedGrid(r), edges[i - 1], edges[i]) {
      AlignedSteps(lo, r, k, i - 1);
      SumTimes(i - 1, 1, r);
      SumTimes(i, k - i, r);
      MultipleSize(k - i, r);
      assert edges[i] == lo + i * r == edges[i - 1] + r;
      FixedCell(r, edges[i - 1]);
    }
  }

  lemma AlignedSteps(lo: int, r: int, k: nat, j: nat)
    requires r > 0 && k > 0 && lo % (k * r) == 0
    ensures (lo + j * r) % r == 0
  {
    var q := lo / (k * r);
    assert lo == q * (k * r);
    assert q * (k * r) == (q * k) * r by { Regroup(q, k, r); }
    assert lo + j * r == (q * k + j) * r by { SumTimes(q * k, j, r); }
    MultipleRemainder(q * k + j, r);
  }

  lemma Regroup(q: int, k: int, r: int)
    ensures q * (k * r) == (q * k) * r
  {
  }

  lemma SumTimes(p: int, q: int, r: int)
    ensures (p + q) * r == p * r + q * r
  {
  }

  // ---- Range queries ----

  predicate Touches(b: Bucket, start: int, end: int) {
    b.end > start && b.start < end
  }

  // Keys from the bucket of `start` up to `end`: exactly the buckets that overlap the range.
  lemma RangeIsOverlap(buckets: Buckets, r: int, start: int, end: int)
    requires r > 0 && Shaped(buckets, FixedGrid(r)) && BucketStart(start, r) <= end
    ensures (set s | s in buckets && BucketStart(start, r) <= s < end) == (set s | s in buckets && Touches(buckets[s], start, end))
  {
    hide BucketStart;
    forall s <- buckets ensures BucketStart(start, r) <= s < end <==> Touches(buckets[s], start, end) {
      assert Cell(FixedGrid(r), s, buckets[s].end);
      BucketHolds(s, r);
      BucketHolds(start, r);
      AlignedApart(s, BucketStart(start, r), r);
    }
  }

  // ---- Stored rollups ----

  predicate SampleOk(s: Sample, b: Bucket) {
    && b.start <= s.timestamp < b.end
    && b.content.min.Some? && b.content.max.Some?
    && b.content.min.value <= s.value <= b.content.max.value
  }

  // Everything the reader checks about one bucket, apart from finiteness.
  predicate BucketOk(b: Bucket) {
    var c := b.content;
    var hasSamples := c.count > 0;
    var hasValues := hasSamples || c.covered > 0;
    && b.start < b.end && IsI64(b.end - b.start)
    && 0 <= c.covered <= b.end - b.start
    && c.first.Some? == c.last.Some? == hasSamples
    && c.min.Some? == c.max.Some? == hasValues
    && (hasValues ==> c.min.value <= c.max.value)
    && (hasSamples ==>
          && SampleOk(c.first.value, b) && SampleOk(c.last.value, b)
          && c.first.value.timestamp <= c.last.value.timestamp
          && (c.count == 1 ==> c.first == c.last))
  }

  predicate BucketsOk(bs: seq<Bucket>) {
    && (forall b <- bs :: BucketOk(b))
    && (forall i :: 0 < i < |bs| ==> bs[i - 1].end <= bs[i].start)
  }

  // What a content built from samples and covers satisfies.
  ghost predicate Sane(c: Content, lo: int, hi: int) {
    && (c.first.Some? <==> c.count > 0) && (c.last.Some? <==> c.count > 0)
    && (c.min.Some? <==> c.max.Some?)
    && (c.min.Some? <==> c.count > 0 || c.covered > 0)
    && c.covered >= 0
    && (c.min.Some? ==> c.min.value <= c.max.value)
    && (c.count > 0 ==>
          && lo <= c.first.value.timestamp <= c.last.value.timestamp < hi
          && c.min.value <= c.first.value.value <= c.max.value
          && c.min.value <= c.last.value.value <= c.max.value
          && (c.count == 1 ==> c.first == c.last))
  }

  lemma SaneOne(c: Content, s: Sample, lo: int, hi: int)
    requires Sane(c, lo, hi) && Within(s, lo, hi) && (c.count > 0 ==> c.last.value.timestamp <= s.timestamp)
    ensures Sane(Combine(c, One(s)), lo, hi)
  {
  }

  lemma SaneCover(c: Content, value: real, micros: int, lo: int, hi: int)
    requires Sane(c, lo, hi) && micros >= 0
    ensures Sane(Combine(c, Cover(value, micros)), lo, hi)
  {
    hide Held;
  }

  lemma {:induction false} SaneSamples(ss: seq<Sample>, lo: int, hi: int)
    requires Ascending(ss)
    ensures Sane(SamplePart(ss, lo, hi), lo, hi)
    ensures SamplePart(ss, lo, hi).count > 0 ==>
              ss != [] && SamplePart(ss, lo, hi).last.value.timestamp <= ss[|ss| - 1].timestamp
  {
    hide Combine, One;
    if ss != [] {
      var front, last := ss[..|ss| - 1], ss[|ss| - 1];
      SaneSamples(front, lo, hi);
      if front != [] {
        assert front[|front| - 1].timestamp <= last.timestamp;
      }
      if Within(last, lo, hi) {
        SaneOne(SamplePart(front, lo, hi), last, lo, hi);
        LastOfProduct(SamplePart(front, lo, hi), last);
      }
    } else {
      assert Sane(EMPTY, lo, hi);
    }
  }

  lemma LastOfProduct(c: Content, s: Sample)
    ensures Combine(c, One(s)).last == Some(s)
  {
  }

  lemma {:induction false} SaneRange(ss: seq<Sample>, done: seq<Sample>, maxGap: int, lo: int, hi: int)
    requires Ascending(ss) && Ascending(done) && lo <= hi
    ensures Sane(Combine(SamplePart(ss, lo, hi), CoverPart(done, maxGap, lo, hi)), lo, hi)
  {
    hide Combine, Cover, Sane;
    if |done| < 2 {
      SaneSamples(ss, lo, hi);
      CombineEmpty(SamplePart(ss, lo, hi));
    } else {
      var front := done[..|done| - 1];
      SaneRange(ss, front, maxGap, lo, hi);
      var previous, next := done[|done| - 2], done[|done| - 1];
      if Holds(previous, next, maxGap) {
        var d := Overlap(previous.timestamp, next.timestamp, lo, hi);
        assert previous.timestamp <= next.timestamp && d >= 0;
        SaneCover(Combine(SamplePart(ss, lo, hi), CoverPart(front, maxGap, lo, hi)), previous.value, d, lo, hi);
        CombineAssociative(SamplePart(ss, lo, hi), CoverPart(front, maxGap, lo, hi), Cover(previous.value, d));
      }
    }
  }

  // A bucket the builder stored passes the reader's checks.
  lemma BuiltBucketOk(buckets: Buckets, ss: seq<Sample>, g: Grid, maxGap: int, s: int)
    requires Partition(g) && Ascending(ss) && Built(buckets, ss, g, maxGap) && s in buckets
    requires IsI64(buckets[s].end - s)
    ensures BucketOk(buckets[s])
  {
    hide Combine, SamplePart, CoverPart, Partition;
    var e := buckets[s].end;
    CellsApart(g, s, e, s, e);
    assert ContentAt(buckets, s) == RangeContent(ss, maxGap, s, e);
    SaneRange(ss, ss, maxGap, s, e);
    CoverageWithinBucket(ss, maxGap, s, e);
  }

  // The buckets of a map in key order.
  ghost predicate Listing(buckets: Buckets, bs: seq<Bucket>) {
    && (forall b <- bs :: b.start in buckets && buckets[b.start] == b)
    && (forall s <- buckets :: buckets[s] in bs)
    && (forall i, j :: 0 <= i < j < |bs| ==> bs[i].start < bs[j].start)
  }

  /**
  Whatever the builder produces, written out in order, is accepted by the validation a stored
  rollup goes through, provided its buckets have a representable duration.
  */
  lemma BuiltBucketsValid(buckets: Buckets, ss: seq<Sample>, g: Grid, maxGap: int, bs: seq<Bucket>)
    requires Partition(g) && Ascending(ss) && Built(buckets, ss, g, maxGap) && Listing(buckets, bs)
    requires forall b <- bs :: IsI64(b.end - b.start)
    ensures BucketsOk(bs)
  {
    hide BucketOk, Partition;
    forall b <- bs ensures BucketOk(b) {
      BuiltBucketOk(buckets, ss, g, maxGap, b.start);
    }
    forall i | 0 < i < |bs| ensures bs[i - 1].end <= bs[i].start {
      assert bs[i - 1] in bs && bs[i] in bs && bs[i - 1].start < bs[i].start;
      CellsApart(g, bs[i - 1].start, bs[i - 1].end, bs[i].start, bs[i].end);
    }
  }

  method ValidateBuckets(bs: seq<Bucket>) returns (ok: bool)
    ensures ok <==> BucketsOk(bs)
  {
    hide BucketOk;
    for i := 0 to |bs|
      invariant forall b <- bs[..i] :: BucketOk(b)
      invariant forall j :: 0 < j < i ==> bs[j - 1].end <= bs[j].start
    {
      if !BucketOk(bs[i]) {
        assert bs[i] in bs;
        return false;
      }
      if i > 0 && bs[i - 1].end > bs[i].start {
        return false;
      }
      assert bs[..i + 1] == bs[..i] + [bs[i]];
    }
    assert bs[..|bs|] == bs;
    ok := true;
  }

  lemma {:induction false} StoredApart(bs: seq<Bucket>, i: nat, j: nat)
    requires BucketsOk(bs) && i < j < |bs|
    ensures bs[i].end <= bs[j].start && bs[i].start < bs[j].start && bs[i].end < bs[j].end
    decreases j
  {
    hide BucketOk;
    assert bs[i] in bs && bs[j] in bs && bs[j - 1] in bs;
    assert bs[j - 1].end <= bs[j].start;
    PositiveLength(bs[i]);
    PositiveLength(bs[j]);
    PositiveLength(bs[j - 1]);
    if i < j - 1 {
      StoredApart(bs, i, j - 1);
    }
  }

  lemma PositiveLength(b: Bucket)
    requires BucketOk(b)
    ensures b.start < b.end
  {
  }

  // The first index from `begin` whose bucket fails a test that holds on a prefix (`partition_point`).
  method PartitionPoint(bs: seq<Bucket>, begin: nat, test: Bucket -> bool) returns (at: nat)
    requires begin <= |bs|
    requires forall i, j :: begin <= i < j < |bs| && test(bs[j]) ==> test(bs[i])
    ensures begin <= at <= |bs|
    ensures forall i :: begin <= i < at ==> test(bs[i])
    ensures forall i :: at <= i < |bs| ==> !test(bs[i])
  {
    var lo, hi := begin, |bs|;
    while lo < hi
      invariant begin <= lo <= hi <= |bs|
      invariant forall i :: begin <= i < lo ==> test(bs[i])
      invariant forall i :: hi <= i < |bs| ==> !test(bs[i])
    {
      var mid := (lo + hi) / 2;
      if test(bs[mid]) {
        lo := mid + 1;
      } else {
        hi := mid;
      }
    }
    at := lo;
  }

  // Two bisections over stored buckets return exactly the overlapping ones.
  method QueryStored(bs: seq<Bucket>, start: int, end: int) returns (r: seq<Bucket>)
    requires BucketsOk(bs)
    ensures r == Filter(bs, (b: Bucket) => Touches(b, start, end))
  {
    hide BucketOk, Filter;
    forall i, j | 0 <= i < j < |bs| ensures bs[i].end < bs[j].end && bs[i].start < bs[j].start {
      StoredApart(bs, i, j);
    }
    var lo := PartitionPoint(bs, 0, (b: Bucket) => b.end <= start);
    var hi := PartitionPoint(bs, lo, (b: Bucket) => b.start < end);
    r := bs[lo..hi];
    FilterRun(bs, (b: Bucket) => Touches(b, start, end), lo, hi);
  }

  // ---- What acceptance means ----

  predicate Between(t: int, lo: int, hi: int) {
    lo <= t < hi
  }

  // A bucket touches a range exactly when they share an instant.
  lemma TouchesMeaning(b: Bucket, start: int, end: int)
    requires b.start < b.end && start < end
    ensures Touches(b, start, end) <==> exists t: int :: Between(t, b.start, b.end) && Between(t, start, end)
  {
    if Touches(b, start, end) {
      assert Between(if b.start < start then start else b.start, start, end);
    }
  }

  // Every reason a stored bucket is refused.
  lemma BucketRefused(b: Bucket)
    ensures var c := b.content;
            var outside := (s: Sample) => || s.timestamp < b.start || s.timestamp >= b.end
                                          || c.min.None? || c.max.None?
                                          || s.value < c.min.value || s.value > c.max.value;
            !BucketOk(b) <==>
              || b.end <= b.start || b.end - b.start > I64_MAX
              || c.covered < 0 || c.covered > b.end - b.start
              || c.first.Some? != (c.count > 0) || c.last.Some? != (c.count > 0)
              || c.min.Some? != (c.count > 0 || c.covered > 0) || c.max.Some? != (c.count > 0 || c.covered > 0)
              || (c.min.Some? && c.max.Some? && c.min.value > c.max.value)
              || (c.count > 0 && c.first.Some? && c.last.Some?
                  && (|| outside(c.first.value) || outside(c.last.value)
                      || c.first.value.timestamp > c.last.value.timestamp
                      || (c.count == 1 && c.first != c.last)))
  {
  }
}

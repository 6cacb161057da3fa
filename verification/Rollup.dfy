/**
Rollups of a gauge.

The content of a bucket is a product of contributions: one per sample in the bucket, in
time order, and one per held interval that overlaps it. `Combine` is the product, and the
content of a range is the product of the contents of adjacent ranges that make it up
(`AdjacentRanges`). Conservation, exact merging and the coarser levels of the pyramid
follow. Values are real numbers; times are microseconds.
*/
module Rollup {
  import opened ByteCodec
  import opened StableSorting
  import opened Aggregate

  datatype Content = Content(
    count: nat,
    sum: real,
    min: Option<real>,
    max: Option<real>,
    first: Option<Sample>,
    last: Option<Sample>,
    integral: real,
    covered: int)

  const EMPTY := Content(0, 0.0, None, None, None, None, 0.0, 0)

  function OptionMin(a: Option<real>, b: Option<real>): Option<real> {
    if a.Some? && b.Some? then Some(Min(a.value, b.value)) else if a.Some? then a else b
  }

  function OptionMax(a: Option<real>, b: Option<real>): Option<real> {
    if a.Some? && b.Some? then Some(Max(a.value, b.value)) else if a.Some? then a else b
  }

  // What `merge_exact` makes of the contents of two adjacent buckets.
  function Combine(a: Content, b: Content): Content {
    Content(
      a.count + b.count,
      a.sum + b.sum,
      OptionMin(a.min, b.min),
      OptionMax(a.max, b.max),
      if a.first.Some? then a.first else b.first,
      if b.last.Some? then b.last else a.last,
      a.integral + b.integral,
      a.covered + b.covered)
  }

  // The contribution of one sample.
  function One(s: Sample): Content {
    Content(1, s.value, Some(s.value), Some(s.value), Some(s), Some(s), 0.0, 0)
  }

  // The contribution of a value held for a time; no time, no contribution.
  function Cover(value: real, micros: int): Content {
    if micros == 0 then EMPTY else Content(0, 0.0, Some(value), Some(value), None, None, Held(value, micros), micros)
  }

  // ---- The product ----

  lemma CombineEmpty(a: Content)
    ensures Combine(a, EMPTY) == a && Combine(EMPTY, a) == a
  {
  }

  lemma CombineAssociative(a: Content, b: Content, c: Content)
    ensures Combine(Combine(a, b), c) == Combine(a, Combine(b, c))
  {
    assert OptionMin(OptionMin(a.min, b.min), c.min) == OptionMin(a.min, OptionMin(b.min, c.min));
    assert OptionMax(OptionMax(a.max, b.max), c.max) == OptionMax(a.max, OptionMax(b.max, c.max));
  }

  // Contributions without samples can be moved past anything.
  predicate NoSamples(a: Content) {
    a.first.None? && a.last.None?
  }

  lemma CombineCommutes(a: Content, b: Content)
    requires NoSamples(b)
    ensures Combine(a, b) == Combine(b, a)
  {
  }

  // Two pairs combine crosswise when the inner ones commute.
  lemma CombineFour(a: Content, b: Content, c: Content, d: Content)
    requires NoSamples(b) || NoSamples(c)
    ensures Combine(Combine(a, b), Combine(c, d)) == Combine(Combine(a, c), Combine(b, d))
  {
    hide Combine;
    assert Combine(b, c) == Combine(c, b) by {
      if NoSamples(c) {
        CombineCommutes(b, c);
      } else {
        CombineCommutes(c, b);
      }
    }
    CombineAssociative(a, b, Combine(c, d));
    CombineAssociative(b, c, d);
    CombineAssociative(c, b, d);
    CombineAssociative(a, c, Combine(b, d));
  }

  lemma CoverAdds(value: real, x: nat, y: nat)
    ensures Combine(Cover(value, x), Cover(value, y)) == Cover(value, x + y)
  {
    hide Held;
    HeldAdds(value, x, y);
  }

  lemma HeldAdds(value: real, x: int, y: int)
    ensures Held(value, x) + Held(value, y) == Held(value, x + y)
  {
    assert (x + y) as real == x as real + y as real;
    Distribute(value, x as real, y as real);
  }

  lemma Distribute(a: real, b: real, c: real)
    ensures a * b + a * c == a * (b + c)
  {
  }

  lemma HeldZero(value: real)
    ensures Held(value, 0) == 0.0
  {
  }

  // ---- Ranges ----

  predicate Within(s: Sample, lo: int, hi: int) {
    lo <= s.timestamp < hi
  }

  // The contribution of the samples in a range, in order.
  function SamplePart(ss: seq<Sample>, lo: int, hi: int): Content {
    if ss == [] then EMPTY
    else
      var front, last := SamplePart(ss[..|ss| - 1], lo, hi), ss[|ss| - 1];
      if Within(last, lo, hi) then Combine(front, One(last)) else front
  }

  function Clip(t: int, lo: int, hi: int): int {
    if t < lo then lo else if t > hi then hi else t
  }

  // How much of [from, until) lies in [lo, hi).
  function Overlap(from: int, until: int, lo: int, hi: int): int {
    Clip(until, lo, hi) - Clip(from, lo, hi)
  }

  // Whether the value of one sample is held until the next.
  predicate Holds(previous: Sample, next: Sample, maxGap: int) {
    next.timestamp - previous.timestamp <= maxGap
  }

  // The contribution of held intervals to a range.
  function CoverPart(ss: seq<Sample>, maxGap: int, lo: int, hi: int): Content {
    if |ss| < 2 then EMPTY
    else
      var front := CoverPart(ss[..|ss| - 1], maxGap, lo, hi);
      var previous, next := ss[|ss| - 2], ss[|ss| - 1];
      if Holds(previous, next, maxGap)
      then Combine(front, Cover(previous.value, Overlap(previous.timestamp, next.timestamp, lo, hi)))
      else front
  }

  // The content of a bucket covering [lo, hi).
  function RangeContent(ss: seq<Sample>, maxGap: int, lo: int, hi: int): Content {
    Combine(SamplePart(ss, lo, hi), CoverPart(ss, maxGap, lo, hi))
  }

  ghost predicate Ascending(ss: seq<Sample>) {
    forall i, j :: 0 <= i < j < |ss| ==> ss[i].timestamp <= ss[j].timestamp
  }

  lemma {:induction false} NothingAfter(ss: seq<Sample>, lo: int, hi: int)
    requires forall s <- ss :: s.timestamp < lo
    ensures SamplePart(ss, lo, hi) == EMPTY
  {
    if ss != [] {
      assert ss[|ss| - 1] in ss;
      NothingAfter(ss[..|ss| - 1], lo, hi);
    }
  }

  lemma {:induction false} SamplesSplit(ss: seq<Sample>, lo: int, mid: int, hi: int)
    requires Ascending(ss) && lo <= mid <= hi
    ensures SamplePart(ss, lo, hi) == Combine(SamplePart(ss, lo, mid), SamplePart(ss, mid, hi))
  {
    hide Combine;
    if ss == [] {
      CombineEmpty(EMPTY);
    } else {
      var front, last := ss[..|ss| - 1], ss[|ss| - 1];
      SamplesSplit(front, lo, mid, hi);
      var left, right := SamplePart(front, lo, mid), SamplePart(front, mid, hi);
      if Within(last, mid, hi) {
        CombineAssociative(left, right, One(last));
      } else if Within(last, lo, mid) {
        forall s <- front ensures s.timestamp < mid {
          var i :| 0 <= i < |front| && front[i] == s;
          assert ss[i].timestamp <= ss[|ss| - 1].timestamp;
        }
        NothingAfter(front, mid, hi);
        CombineEmpty(left);
        CombineEmpty(Combine(left, One(last)));
      }
    }
  }

  lemma {:induction false} CoverPartNoSamples(ss: seq<Sample>, maxGap: int, lo: int, hi: int)
    ensures NoSamples(CoverPart(ss, maxGap, lo, hi))
  {
    if |ss| >= 2 {
      CoverPartNoSamples(ss[..|ss| - 1], maxGap, lo, hi);
    }
  }

  lemma {:induction false} CoversSplit(ss: seq<Sample>, maxGap: int, lo: int, mid: int, hi: int)
    requires Ascending(ss) && lo <= mid <= hi
    ensures CoverPart(ss, maxGap, lo, hi) == Combine(CoverPart(ss, maxGap, lo, mid), CoverPart(ss, maxGap, mid, hi))
  {
    hide Combine, Cover, NoSamples;
    if |ss| < 2 {
      CombineEmpty(EMPTY);
    } else {
      var front := ss[..|ss| - 1];
      CoversSplit(front, maxGap, lo, mid, hi);
      var previous, next := ss[|ss| - 2], ss[|ss| - 1];
      if Holds(previous, next, maxGap) {
        var left, right := CoverPart(front, maxGap, lo, mid), CoverPart(front, maxGap, mid, hi);
        var a := Overlap(previous.timestamp, next.timestamp, lo, mid);
        var b := Overlap(previous.timestamp, next.timestamp, mid, hi);
        assert previous.timestamp <= next.timestamp;
        assert a >= 0 && b >= 0 && Overlap(previous.timestamp, next.timestamp, lo, hi) == a + b;
        CoverAdds(previous.value, a, b);
        CoverPartNoSamples(front, maxGap, mid, hi);
        CombineFour(left, right, Cover(previous.value, a), Cover(previous.value, b));
      }
    }
  }

  /**
  Adjacent ranges: the content of a range is the exact merge of the contents of two ranges
  that make it up, for every list of samples in time order and every cut.
  */
  lemma AdjacentRanges(ss: seq<Sample>, maxGap: int, lo: int, mid: int, hi: int)
    requires Ascending(ss) && lo <= mid <= hi
    ensures RangeContent(ss, maxGap, lo, hi)
         == Combine(RangeContent(ss, maxGap, lo, mid), RangeContent(ss, maxGap, mid, hi))
  {
    hide Combine, SamplePart, CoverPart, NoSamples;
    SamplesSplit(ss, lo, mid, hi);
    CoversSplit(ss, maxGap, lo, mid, hi);
    CoverPartNoSamples(ss, maxGap, lo, mid);
    CombineFour(SamplePart(ss, lo, mid), SamplePart(ss, mid, hi), CoverPart(ss, maxGap, lo, mid), CoverPart(ss, maxGap, mid, hi));
  }

  // ---- The pyramid ----

  ghost predicate Increasing(edges: seq<int>) {
    forall i :: 0 < i < |edges| ==> edges[i - 1] <= edges[i]
  }

  // The exact merge of the buckets between consecutive edges.
  function MergeBuckets(ss: seq<Sample>, maxGap: int, edges: seq<int>): Content {
    var n := |edges|;
    if n < 2 then EMPTY
    else Combine(MergeBuckets(ss, maxGap, edges[..n - 1]), RangeContent(ss, maxGap, edges[n - 2], edges[n - 1]))
  }

  lemma EmptyRange(ss: seq<Sample>, maxGap: int, lo: int)
    ensures RangeContent(ss, maxGap, lo, lo) == EMPTY
  {
    hide SamplePart, CoverPart, Combine;
    EmptySamples(ss, lo);
    EmptyCovers(ss, maxGap, lo);
    CombineEmpty(EMPTY);
  }

  lemma {:induction false} EmptySamples(ss: seq<Sample>, lo: int)
    ensures SamplePart(ss, lo, lo) == EMPTY
  {
    if ss != [] {
      EmptySamples(ss[..|ss| - 1], lo);
    }
  }

  lemma {:induction false} EmptyCovers(ss: seq<Sample>, maxGap: int, lo: int)
    ensures CoverPart(ss, maxGap, lo, lo) == EMPTY
  {
    if |ss| >= 2 {
      EmptyCovers(ss[..|ss| - 1], maxGap, lo);
    }
  }

  lemma {:induction false} FirstIsLeast(edges: seq<int>)
    requires Increasing(edges) && edges != []
    ensures edges[0] <= edges[|edges| - 1]
  {
    if |edges| > 1 {
      FirstIsLeast(edges[..|edges| - 1]);
    }
  }

  /**
  The pyramid is exact: a bucket holds what merging the finer buckets that make it up gives,
  however it is divided.
  */
  lemma {:induction false} PyramidExact(ss: seq<Sample>, maxGap: int, edges: seq<int>)
    requires Ascending(ss) && edges != [] && Increasing(edges)
    ensures MergeBuckets(ss, maxGap, edges) == RangeContent(ss, maxGap, edges[0], edges[|edges| - 1])
  {
    hide RangeContent, Combine;
    var n := |edges|;
    if n == 1 {
      EmptyRange(ss, maxGap, edges[0]);
    } else {
      PyramidExact(ss, maxGap, edges[..n - 1]);
      FirstIsLeast(edges[..n - 1]);
      AdjacentRanges(ss, maxGap, edges[0], edges[n - 2], edges[n - 1]);
    }
  }

  // ---- Conservation ----

  lemma {:induction false} WholeSamples(ss: seq<Sample>, lo: int, hi: int)
    requires forall s <- ss :: Within(s, lo, hi)
    ensures var c := SamplePart(ss, lo, hi);
            c.count == |ss| && c.sum == SumValues(ss) && c.integral == 0.0 && c.covered == 0
  {
    if ss != [] {
      assert ss[|ss| - 1] in ss;
      WholeSamples(ss[..|ss| - 1], lo, hi);
    }
  }

  lemma CoverFields(value: real, micros: int)
    ensures var c := Cover(value, micros);
            c.count == 0 && c.sum == 0.0 && c.integral == value * (micros as real) && c.covered == micros
  {
    if micros == 0 {
      assert value * 0.0 == 0.0;
    }
  }

  lemma {:induction false} WholeCovers(ss: seq<Sample>, maxGap: int, lo: int, hi: int)
    requires forall s <- ss :: Within(s, lo, hi)
    ensures var c := CoverPart(ss, maxGap, lo, hi);
            c.count == 0 && c.sum == 0.0 && c.integral == HeldEnergy(ss, maxGap) && c.covered == HeldMicros(ss, maxGap)
  {
    hide Overlap, Cover;
    if |ss| >= 2 {
      var front := ss[..|ss| - 1];
      assert ss[|ss| - 1] in ss && ss[|ss| - 2] in ss;
      WholeCovers(front, maxGap, lo, hi);
      var previous, next := ss[|ss| - 2], ss[|ss| - 1];
      OverlapInside(previous.timestamp, next.timestamp, lo, hi);
      CoverFields(previous.value, next.timestamp - previous.timestamp);
    }
  }

  lemma OverlapInside(from: int, until: int, lo: int, hi: int)
    requires lo <= from < hi && lo <= until < hi
    ensures Overlap(from, until, lo, hi) == until - from
  {
  }

  /**
  Conservation: over any run of consecutive buckets that spans the samples, counts add up to
  the number of samples, sums to the sum of values, coverage to the time values were held,
  and integrals to the energy they carried.
  */
  lemma Conservation(ss: seq<Sample>, maxGap: int, edges: seq<int>)
    requires Ascending(ss) && edges != [] && Increasing(edges)
    requires forall s <- ss :: Within(s, edges[0], edges[|edges| - 1])
    ensures var c := MergeBuckets(ss, maxGap, edges);
            && c.count == |ss| && c.sum == SumValues(ss)
            && c.covered == HeldMicros(ss, maxGap) && c.integral == HeldEnergy(ss, maxGap)
  {
    hide SamplePart, CoverPart;
    PyramidExact(ss, maxGap, edges);
    WholeSamples(ss, edges[0], edges[|edges| - 1]);
    WholeCovers(ss, maxGap, edges[0], edges[|edges| - 1]);
  }

  // ---- Coverage ----

  lemma {:induction false} CoverageBound(ss: seq<Sample>, maxGap: int, lo: int, hi: int)
    requires Ascending(ss) && lo <= hi && ss != []
    ensures 0 <= CoverPart(ss, maxGap, lo, hi).covered <= Overlap(ss[0].timestamp, ss[|ss| - 1].timestamp, lo, hi)
  {
    hide Held;
    if |ss| >= 2 {
      var front := ss[..|ss| - 1];
      assert ss[|ss| - 2].timestamp <= ss[|ss| - 1].timestamp;
      CoverageBound(front, maxGap, lo, hi);
    }
  }

  lemma {:induction false} SamplesCoverNothing(ss: seq<Sample>, lo: int, hi: int)
    ensures SamplePart(ss, lo, hi).covered == 0
  {
    if ss != [] {
      SamplesCoverNothing(ss[..|ss| - 1], lo, hi);
    }
  }

  // A bucket's coverage never exceeds its duration.
  lemma CoverageWithinBucket(ss: seq<Sample>, maxGap: int, lo: int, hi: int)
    requires Ascending(ss) && lo <= hi
    ensures 0 <= RangeContent(ss, maxGap, lo, hi).covered <= hi - lo
  {
    SamplesCoverNothing(ss, lo, hi);
    if ss != [] {
      hide SamplePart, CoverPart;
      CoverageBound(ss, maxGap, lo, hi);
    }
  }

  // ---- The content of a bucket, read off the samples ----

  // How much of [from, until) lies in [lo, hi), as a difference of the later start and the earlier end.
  function Shared(from: int, until: int, lo: int, hi: int): int {
    var a, b := if from > lo then from else lo, if until < hi then until else hi;
    if a < b then b - a else 0
  }

  lemma OverlapIsShared(from: int, until: int, lo: int, hi: int)
    requires from <= until && lo <= hi
    ensures Overlap(from, until, lo, hi) == Shared(from, until, lo, hi)
  {
  }

  // Each held value times the part of its gap in the range, over the gaps no longer than the limit.
  function EnergyIn(ss: seq<Sample>, maxGap: int, lo: int, hi: int): real {
    if |ss| < 2 then 0.0
    else
      var p, q := ss[|ss| - 2], ss[|ss| - 1];
      EnergyIn(ss[..|ss| - 1], maxGap, lo, hi)
      + (if q.timestamp - p.timestamp <= maxGap
         then p.value * (Shared(p.timestamp, q.timestamp, lo, hi) as real) else 0.0)
  }

  function MicrosIn(ss: seq<Sample>, maxGap: int, lo: int, hi: int): int {
    if |ss| < 2 then 0
    else
      var p, q := ss[|ss| - 2], ss[|ss| - 1];
      MicrosIn(ss[..|ss| - 1], maxGap, lo, hi)
      + (if q.timestamp - p.timestamp <= maxGap then Shared(p.timestamp, q.timestamp, lo, hi) else 0)
  }

  function SumIn(ss: seq<Sample>, lo: int, hi: int): real {
    if ss == [] then 0.0
    else SumIn(ss[..|ss| - 1], lo, hi)
         + (if lo <= ss[|ss| - 1].timestamp < hi then ss[|ss| - 1].value else 0.0)
  }

  function CountIn(ss: seq<Sample>, lo: int, hi: int): nat {
    if ss == [] then 0
    else CountIn(ss[..|ss| - 1], lo, hi) + (if lo <= ss[|ss| - 1].timestamp < hi then 1 else 0)
  }

  lemma {:induction false} CoverPartSums(ss: seq<Sample>, maxGap: int, lo: int, hi: int)
    requires Ascending(ss) && lo <= hi
    ensures var c := CoverPart(ss, maxGap, lo, hi);
            && c.integral == EnergyIn(ss, maxGap, lo, hi) && c.covered == MicrosIn(ss, maxGap, lo, hi)
            && c.count == 0 && c.sum == 0.0
  {
    hide Overlap, Cover, Shared;
    if |ss| >= 2 {
      var front, p, q := ss[..|ss| - 1], ss[|ss| - 2], ss[|ss| - 1];
      CoverPartSums(front, maxGap, lo, hi);
      OverlapIsShared(p.timestamp, q.timestamp, lo, hi);
      var shared := Shared(p.timestamp, q.timestamp, lo, hi);
      CoverFields(p.value, shared);
    }
  }

  lemma {:induction false} SamplePartSums(ss: seq<Sample>, lo: int, hi: int)
    ensures var c := SamplePart(ss, lo, hi);
            c.sum == SumIn(ss, lo, hi) && c.count == CountIn(ss, lo, hi) && c.integral == 0.0 && c.covered == 0
  {
    if ss != [] {
      SamplePartSums(ss[..|ss| - 1], lo, hi);
    }
  }

  // Sample i has a value in the bucket: it lies there, or its value is held into it.
  ghost predicate Shows(ss: seq<Sample>, maxGap: int, lo: int, hi: int, i: nat)
    requires i < |ss|
  {
    || lo <= ss[i].timestamp < hi
    || (i + 1 < |ss| && ss[i + 1].timestamp - ss[i].timestamp <= maxGap
        && Shared(ss[i].timestamp, ss[i + 1].timestamp, lo, hi) > 0)
  }

  // The extremes over the samples a predicate picks.
  ghost predicate Extremes(ss: seq<Sample>, picks: int -> bool, min: Option<real>, max: Option<real>) {
    && (min.None? <==> max.None?)
    && (min.None? <==> forall i :: 0 <= i < |ss| ==> !picks(i))
    && (min.Some? ==>
          && (forall i | 0 <= i < |ss| && picks(i) :: min.value <= ss[i].value <= max.value)
          && (exists i :: 0 <= i < |ss| && picks(i) && ss[i].value == min.value)
          && (exists i :: 0 <= i < |ss| && picks(i) && ss[i].value == max.value))
  }

  function Lying(ss: seq<Sample>, lo: int, hi: int): int -> bool {
    i => 0 <= i < |ss| && lo <= ss[i].timestamp < hi
  }

  function HeldInto(ss: seq<Sample>, maxGap: int, lo: int, hi: int): int -> bool {
    i => 0 <= i < |ss| - 1 && ss[i + 1].timestamp - ss[i].timestamp <= maxGap
         && Shared(ss[i].timestamp, ss[i + 1].timestamp, lo, hi) > 0
  }

  // Both kinds of contribution together.
  lemma ExtremesCombine(ss: seq<Sample>, a: int -> bool, b: int -> bool, both: int -> bool, x: Content, y: Content)
    requires Extremes(ss, a, x.min, x.max) && Extremes(ss, b, y.min, y.max)
    requires forall i :: 0 <= i < |ss| ==> (both(i) <==> a(i) || b(i))
    ensures Extremes(ss, both, OptionMin(x.min, y.min), OptionMax(x.max, y.max))
  {
  }

  // One more sample that contributes at place k, or does not.
  lemma ExtremesMore(front: seq<Sample>, ss: seq<Sample>, a: int -> bool, b: int -> bool, k: nat, c: Content)
    requires front <= ss && k < |ss| && Extremes(front, a, c.min, c.max)
    requires forall i :: 0 <= i < |front| && i != k ==> (a(i) <==> b(i))
    requires forall i :: |front| <= i < |ss| && i != k ==> !b(i)
    requires k < |front| ==> !a(k)
    ensures b(k) ==> Extremes(ss, b, OptionMin(c.min, Some(ss[k].value)), OptionMax(c.max, Some(ss[k].value)))
    ensures !b(k) ==> Extremes(ss, b, c.min, c.max)
  {
    if c.min.Some? {
      var i :| 0 <= i < |front| && a(i) && front[i].value == c.min.value;
      var j :| 0 <= j < |front| && a(j) && front[j].value == c.max.value;
      assert ss[i] == front[i] && ss[j] == front[j] && b(i) && b(j);
    }
  }

  lemma {:induction false} SampleExtremes(ss: seq<Sample>, lo: int, hi: int)
    ensures var c := SamplePart(ss, lo, hi); Extremes(ss, Lying(ss, lo, hi), c.min, c.max)
  {
    hide Extremes;
    if ss == [] {
      NoExtremes([], Lying([], lo, hi));
    } else {
      var n := |ss| - 1;
      var front := ss[..n];
      SampleExtremes(front, lo, hi);
      ExtremesMore(front, ss, Lying(front, lo, hi), Lying(ss, lo, hi), n, SamplePart(front, lo, hi));
    }
  }

  lemma NoExtremes(ss: seq<Sample>, picks: int -> bool)
    requires forall i :: 0 <= i < |ss| ==> !picks(i)
    ensures Extremes(ss, picks, None, None)
  {
  }

  lemma {:induction false} CoverExtremes(ss: seq<Sample>, maxGap: int, lo: int, hi: int)
    requires Ascending(ss) && lo <= hi
    ensures var c := CoverPart(ss, maxGap, lo, hi); Extremes(ss, HeldInto(ss, maxGap, lo, hi), c.min, c.max)
  {
    hide Extremes, Shared, Overlap;
    if |ss| < 2 {
      NoExtremes(ss, HeldInto(ss, maxGap, lo, hi));
    } else {
      var n := |ss| - 1;
      var front := ss[..n];
      CoverExtremes(front, maxGap, lo, hi);
      OverlapIsShared(ss[n - 1].timestamp, ss[n].timestamp, lo, hi);
      SharedPositive(ss[n - 1].timestamp, ss[n].timestamp, lo, hi);
      ExtremesMore(front, ss, HeldInto(front, maxGap, lo, hi), HeldInto(ss, maxGap, lo, hi), n - 1,
                   CoverPart(front, maxGap, lo, hi));
    }
  }

  lemma SharedPositive(from: int, until: int, lo: int, hi: int)
    ensures Shared(from, until, lo, hi) >= 0
  {
  }

  // The first and the last sample in a range.
  ghost predicate FirstIn(ss: seq<Sample>, lo: int, hi: int, s: Sample) {
    exists i :: 0 <= i < |ss| && ss[i] == s && lo <= s.timestamp < hi
                && forall j :: 0 <= j < i ==> !(lo <= ss[j].timestamp < hi)
  }

  ghost predicate LastIn(ss: seq<Sample>, lo: int, hi: int, s: Sample) {
    exists i :: 0 <= i < |ss| && ss[i] == s && lo <= s.timestamp < hi
                && forall j :: i < j < |ss| ==> !(lo <= ss[j].timestamp < hi)
  }

  lemma {:induction false} SampleEnds(ss: seq<Sample>, lo: int, hi: int)
    ensures var c := SamplePart(ss, lo, hi);
            && (c.first.None? <==> c.last.None?)
            && (c.first.None? <==> forall i :: 0 <= i < |ss| ==> !(lo <= ss[i].timestamp < hi))
            && (c.first.Some? ==> FirstIn(ss, lo, hi, c.first.value) && LastIn(ss, lo, hi, c.last.value))
  {
    hide FirstIn, LastIn;
    if ss != [] {
      var n := |ss| - 1;
      var front, last := ss[..n], ss[n];
      SampleEnds(front, lo, hi);
      var before := SamplePart(front, lo, hi);
      assert forall i :: 0 <= i < n ==> front[i] == ss[i];
      if before.first.Some? {
        FirstStays(front, last, lo, hi, before.first.value);
        LastMoves(front, last, lo, hi, before.last.value);
        assert ss == front + [last];
      }
      if Within(last, lo, hi) {
        NewLast(ss, lo, hi);
        if before.first.None? {
          NewFirst(ss, lo, hi);
        }
      }
    }
  }

  lemma FirstStays(front: seq<Sample>, x: Sample, lo: int, hi: int, s: Sample)
    requires FirstIn(front, lo, hi, s)
    ensures FirstIn(front + [x], lo, hi, s)
  {
    var i :| 0 <= i < |front| && front[i] == s && forall j :: 0 <= j < i ==> !(lo <= front[j].timestamp < hi);
    assert (front + [x])[i] == s;
  }

  lemma LastMoves(front: seq<Sample>, x: Sample, lo: int, hi: int, s: Sample)
    requires LastIn(front, lo, hi, s)
    ensures !Within(x, lo, hi) ==> LastIn(front + [x], lo, hi, s)
  {
    var i :| 0 <= i < |front| && front[i] == s && forall j :: i < j < |front| ==> !(lo <= front[j].timestamp < hi);
    assert (front + [x])[i] == s;
  }

  lemma NewLast(ss: seq<Sample>, lo: int, hi: int)
    requires ss != [] && Within(ss[|ss| - 1], lo, hi)
    ensures LastIn(ss, lo, hi, ss[|ss| - 1])
  {
  }

  lemma NewFirst(ss: seq<Sample>, lo: int, hi: int)
    requires ss != [] && Within(ss[|ss| - 1], lo, hi)
    requires forall i :: 0 <= i < |ss| - 1 ==> !(lo <= ss[i].timestamp < hi)
    ensures FirstIn(ss, lo, hi, ss[|ss| - 1])
  {
  }

  lemma {:induction false} CountsSamples(ss: seq<Sample>, lo: int, hi: int)
    ensures SamplePart(ss, lo, hi).count == 0 <==> SamplePart(ss, lo, hi).first.None?
  {
    if ss != [] {
      CountsSamples(ss[..|ss| - 1], lo, hi);
    }
  }

  /**
  What a bucket says of the samples: their count and sum, the energy and the time of the values
  held into it, the extremes over the values that show in it, and its first and last sample.
  */
  lemma BucketMeaning(ss: seq<Sample>, maxGap: int, lo: int, hi: int)
    requires Ascending(ss) && lo <= hi
    ensures var c := RangeContent(ss, maxGap, lo, hi);
            && c.integral == EnergyIn(ss, maxGap, lo, hi) && c.covered == MicrosIn(ss, maxGap, lo, hi)
            && c.sum == SumIn(ss, lo, hi) && c.count == CountIn(ss, lo, hi)
            && Extremes(ss, i => 0 <= i < |ss| && Shows(ss, maxGap, lo, hi, i), c.min, c.max)
            && (c.first.None? <==> c.count == 0) && (c.last.None? <==> c.count == 0)
            && (c.count > 0 ==> FirstIn(ss, lo, hi, c.first.value) && LastIn(ss, lo, hi, c.last.value))
  {
    hide Extremes, SamplePart, CoverPart, Ascending, Shared, FirstIn, LastIn;
    SampleEnds(ss, lo, hi);
    CountsSamples(ss, lo, hi);
    var a, b := SamplePart(ss, lo, hi), CoverPart(ss, maxGap, lo, hi);
    SamplePartSums(ss, lo, hi);
    CoverPartSums(ss, maxGap, lo, hi);
    SampleExtremes(ss, lo, hi);
    CoverExtremes(ss, maxGap, lo, hi);
    CoverPartNoSamples(ss, maxGap, lo, hi);
    ExtremesCombine(ss, Lying(ss, lo, hi), HeldInto(ss, maxGap, lo, hi),
                    i => 0 <= i < |ss| && Shows(ss, maxGap, lo, hi, i), a, b);
  }
}

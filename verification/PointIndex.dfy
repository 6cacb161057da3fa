/**
The in-memory query index: per series, the live points ordered by valid time.

The writer keeps it ordered point by point; recovery groups the points first and
sorts each series once. `IndexOfSnoc` and `InsertAllIndexes` show that the two
give the same index.
*/
module PointIndex {
  import opened ByteCodec
  import opened StableSorting
  import opened Model

  type Index = map<u64, seq<Point>>

  function SeriesKey(p: Point): Key { [p.seriesId] }

  function ValidKey(p: Point): Key { [p.validTime] }

  // The points of one series in append order.
  function SeriesPoints(live: seq<Point>, s: u64): seq<Point> {
    Select(live, SeriesKey, [s])
  }

  function SeriesIds(live: seq<Point>): set<u64> {
    set p <- live :: p.seriesId
  }

  // Group, then sort each series: what recovery builds.
  function IndexOf(live: seq<Point>): Index {
    map s | s in SeriesIds(live) :: Sort(SeriesPoints(live, s), ValidKey)
  }

  function SeriesOf(index: Index, s: u64): seq<Point> {
    if s in index then index[s] else []
  }

  // Insert one point after every point that is not later: what the writer does.
  function InsertIndexed(index: Index, p: Point): Index {
    index[p.seriesId := Insert(SeriesOf(index, p.seriesId), p, ValidKey)]
  }

  function InsertAll(index: Index, points: seq<Point>): Index {
    if points == [] then index
    else InsertIndexed(InsertAll(index, points[..|points| - 1]), points[|points| - 1])
  }

  lemma SeriesPointsSnoc(live: seq<Point>, p: Point, s: u64)
    ensures SeriesPoints(live + [p], s) == SeriesPoints(live, s) + (if p.seriesId == s then [p] else [])
  {
    assert (live + [p])[..|live|] == live;
    assert SeriesKey(p) == [s] <==> p.seriesId == s;
  }

  lemma SeriesPointsAbsent(live: seq<Point>, s: u64)
    requires s !in SeriesIds(live)
    ensures SeriesPoints(live, s) == []
  {
    SelectElements(live, SeriesKey, [s]);
    var points := SeriesPoints(live, s);
    assert forall p <- points :: p in live && SeriesKey(p)[0] == s;
    assert points != [] ==> points[0] in points && points[0].seriesId in SeriesIds(live);
  }

  lemma SeriesOfIndexOf(live: seq<Point>, s: u64)
    ensures SeriesOf(IndexOf(live), s) == Sort(SeriesPoints(live, s), ValidKey)
  {
    if s !in SeriesIds(live) {
      SeriesPointsAbsent(live, s);
    }
  }

  lemma IndexOfSnoc(live: seq<Point>, p: Point)
    ensures IndexOf(live + [p]) == InsertIndexed(IndexOf(live), p)
  {
    hide Insert, Sort, SeriesPoints, SeriesOf;
    var before, after := IndexOf(live), IndexOf(live + [p]);
    assert SeriesIds(live + [p]) == SeriesIds(live) + {p.seriesId};
    forall s | s in after ensures after[s] == InsertIndexed(before, p)[s] {
      SortedSeriesSnoc(live, p, s);
      SeriesOfIndexOf(live, s);
    }
  }

  lemma SortedSeriesSnoc(live: seq<Point>, p: Point, s: u64)
    ensures Sort(SeriesPoints(live + [p], s), ValidKey) ==
            var before := Sort(SeriesPoints(live, s), ValidKey);
            if s == p.seriesId then Insert(before, p, ValidKey) else before
  {
    hide Insert, Sort, SeriesPoints;
    SeriesPointsSnoc(live, p, s);
    SortSnoc(SeriesPoints(live, s), p, ValidKey);
    assert SeriesPoints(live, s) + [] == SeriesPoints(live, s);
  }

  // Point-by-point insertion builds the index that grouping and sorting builds.
  lemma {:induction false} InsertAllIndexes(live: seq<Point>, points: seq<Point>)
    ensures InsertAll(IndexOf(live), points) == IndexOf(live + points)
  {
    if points == [] {
      assert live + points == live;
    } else {
      var front, last := points[..|points| - 1], points[|points| - 1];
      InsertAllIndexes(live, front);
      IndexOfSnoc(live + front, last);
      assert live + front + [last] == live + points;
    }
  }

  // ---- The writer's insertion, as it searches for the place ----

  // The number of leading points with valid time at most t (`partition_point`, by bisection).
  method UpperBound(series: seq<Point>, t: i64) returns (at: nat)
    requires SortedBy(series, ValidKey)
    ensures at <= |series|
    ensures forall i :: 0 <= i < at ==> series[i].validTime <= t
    ensures forall i :: at <= i < |series| ==> series[i].validTime > t
  {
    var lo, hi := 0, |series|;
    while lo < hi
      invariant 0 <= lo <= hi <= |series|
      invariant forall i :: 0 <= i < lo ==> series[i].validTime <= t
      invariant forall i :: hi <= i < |series| ==> series[i].validTime > t
    {
      var mid := (lo + hi) / 2;
      forall i, j | 0 <= i < j < |series| ensures series[i].validTime <= series[j].validTime {
        assert KeyLe(ValidKey(series[i]), ValidKey(series[j]));
      }
      if series[mid].validTime <= t {
        lo := mid + 1;
      } else {
        hi := mid;
      }
    }
    at := lo;
  }

  lemma {:induction false} InsertAtUpperBound(series: seq<Point>, p: Point, at: nat)
    requires at <= |series|
    requires forall i :: 0 <= i < at ==> series[i].validTime <= p.validTime
    requires forall i :: at <= i < |series| ==> series[i].validTime > p.validTime
    ensures Insert(series, p, ValidKey) == series[..at] + [p] + series[at..]
  {
    if at == |series| {
      assert series[..at] == series && series[at..] == [];
      if series != [] {
        assert KeyLe(ValidKey(series[|series| - 1]), ValidKey(p));
      }
    } else {
      var front, last := series[..|series| - 1], series[|series| - 1];
      assert !KeyLe(ValidKey(last), ValidKey(p));
      InsertAtUpperBound(front, p, at);
      assert series[..at] + [p] + series[at..] == front[..at] + [p] + front[at..] + [last];
    }
  }

  // `insert_indexed_point`: append when in order, otherwise search and insert.
  method InsertIndexedPoint(index: Index, p: Point) returns (r: Index)
    requires SortedBy(SeriesOf(index, p.seriesId), ValidKey)
    ensures r == InsertIndexed(index, p)
  {
    var series := SeriesOf(index, p.seriesId);
    if series != [] && series[|series| - 1].validTime > p.validTime {
      var at := UpperBound(series, p.validTime);
      InsertAtUpperBound(series, p, at);
      r := index[p.seriesId := series[..at] + [p] + series[at..]];
    } else {
      assert series != [] ==> KeyLe(ValidKey(series[|series| - 1]), ValidKey(p));
      r := index[p.seriesId := series + [p]];
    }
  }

  ghost predicate IndexSorted(index: Index) {
    forall s | s in index :: SortedBy(index[s], ValidKey)
  }

  lemma IndexOfSorted(live: seq<Point>)
    ensures IndexSorted(IndexOf(live))
  {
    forall s | s in IndexOf(live) ensures SortedBy(IndexOf(live)[s], ValidKey) {
      SortIsStable(SeriesPoints(live, s), ValidKey);
    }
  }

  // The loop both commit paths run over a batch.
  method IndexPoints(index: Index, points: seq<Point>) returns (r: Index)
    requires IndexSorted(index)
    ensures r == InsertAll(index, points)
    ensures IndexSorted(r)
  {
    r := index;
    for i := 0 to |points|
      invariant r == InsertAll(index, points[..i])
      invariant IndexSorted(r)
    {
      assert points[..i + 1][..i] == points[..i];
      var p := points[i];
      InsertSorted(SeriesOf(r, p.seriesId), p, ValidKey);
      r := InsertIndexedPoint(r, p);
    }
    assert points[..|points|] == points;
  }
}

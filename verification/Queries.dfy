/**
Queries over sealed segments and the live tail.

History is the list of points in append order. A query collects matching points from
every sealed segment and from the live index and sorts them; `SealingInvisible` says
the result is the stable sort of the matching history, however much of it is sealed.
`WinningRevisions` keeps, per valid time, the winner among the revisions kept.
*/
module Queries {
  import opened ByteCodec
  import opened StableSorting
  import opened Model
  import opened PointIndex

  function RevisionKey(p: Point): Key { [p.validTime, p.knowledgeTime, p.changeTime] }

  // The order of a segment file.
  function SegmentKey(p: Point): Key { [p.seriesId, p.validTime, p.knowledgeTime, p.changeTime] }

  predicate InRange(p: Point, start: i64, end: i64) {
    start <= p.validTime < end
  }

  function Ranged(start: i64, end: i64): Point -> bool {
    (p: Point) => InRange(p, start, end)
  }

  function Matching(s: u64, start: i64, end: i64): Point -> bool {
    (p: Point) => p.seriesId == s && InRange(p, start, end)
  }

  // ---- The slice of a sorted series in a time range ----

  // The number of leading points before t (`partition_point`, by bisection).
  method LowerBound(series: seq<Point>, t: i64) returns (at: nat)
    requires SortedBy(series, ValidKey)
    ensures at <= |series|
    ensures forall i :: 0 <= i < at ==> series[i].validTime < t
    ensures forall i :: at <= i < |series| ==> series[i].validTime >= t
  {
    var lo, hi := 0, |series|;
    while lo < hi
      invariant 0 <= lo <= hi <= |series|
      invariant forall i :: 0 <= i < lo ==> series[i].validTime < t
      invariant forall i :: hi <= i < |series| ==> series[i].validTime >= t
    {
      var mid := (lo + hi) / 2;
      forall i, j | 0 <= i < j < |series| ensures series[i].validTime <= series[j].validTime {
        assert KeyLe(ValidKey(series[i]), ValidKey(series[j]));
      }
      if series[mid].validTime < t {
        lo := mid + 1;
      } else {
        hi := mid;
      }
    }
    at := lo;
  }

  // Both ends found by bisection: the points of a sorted series in [start, end).
  method TimeSlice(series: seq<Point>, start: i64, end: i64) returns (r: seq<Point>)
    requires SortedBy(series, ValidKey)
    ensures r == Filter(series, Ranged(start, end))
  {
    var lo := LowerBound(series, start);
    var tail := series[lo..];
    forall i, j | 0 <= i < j < |tail| ensures KeyLe(ValidKey(tail[i]), ValidKey(tail[j])) {
      assert KeyLe(ValidKey(series[lo + i]), ValidKey(series[lo + j]));
    }
    var n := LowerBound(tail, end);
    var hi := lo + n;
    forall i | 0 <= i < |series| ensures Ranged(start, end)(series[i]) <==> lo <= i < hi {
      if lo <= i {
        assert series[i] == tail[i - lo];
      }
    }
    FilterRun(series, Ranged(start, end), lo, hi);
    r := series[lo..hi];
  }

  // ---- Order by fields ----

  // By valid time, knowledge time, change time and then append order.
  predicate RevisionBefore(history: seq<Point>, i: nat, j: nat)
    requires i < |history| && j < |history|
  {
    var p, q := history[i], history[j];
    || p.validTime < q.validTime
    || (p.validTime == q.validTime
        && (|| p.knowledgeTime < q.knowledgeTime
            || (p.knowledgeTime == q.knowledgeTime
                && (p.changeTime < q.changeTime || (p.changeTime == q.changeTime && i < j)))))
  }

  lemma RevisionOrder(p: Point, q: Point)
    requires KeyLe(RevisionKey(p), RevisionKey(q))
    ensures || p.validTime < q.validTime
            || (p.validTime == q.validTime && p.knowledgeTime < q.knowledgeTime)
            || (p.validTime == q.validTime && p.knowledgeTime == q.knowledgeTime && p.changeTime < q.changeTime)
            || RevisionKey(p) == RevisionKey(q)
    ensures RevisionKey(p) == RevisionKey(q) <==>
            p.validTime == q.validTime && p.knowledgeTime == q.knowledgeTime && p.changeTime == q.changeTime
  {
    var a, b := RevisionKey(p), RevisionKey(q);
    assert a[1..] == [p.knowledgeTime, p.changeTime] && b[1..] == [q.knowledgeTime, q.changeTime];
    assert a[1..][1..] == [p.changeTime] && b[1..][1..] == [q.changeTime];
    assert KeyLe([p.changeTime], [q.changeTime]) ==> p.changeTime <= q.changeTime;
  }

  // ---- One segment ----

  // By series, valid time, knowledge time, change time and then append order.
  predicate SegmentBefore(points: seq<Point>, i: nat, j: nat)
    requires i < |points| && j < |points|
  {
    var p, q := points[i], points[j];
    p.seriesId < q.seriesId || (p.seriesId == q.seriesId && RevisionBefore(points, i, j))
  }

  // A segment file by place in the sealed list: every place once, in segment order.
  lemma SegmentOrder(points: seq<Point>) returns (places: seq<nat>)
    ensures var r := Sort(points, SegmentKey);
            && |places| == |r| == |points|
            && (forall i :: 0 <= i < |r| ==> places[i] < |points| && r[i] == points[places[i]])
            && (forall k :: 0 <= k < |points| ==> k in places)
            && (forall i, j :: 0 <= i < j < |r| ==> SegmentBefore(points, places[i], places[j]))
  {
    hide Sort, Filter, KeyLe;
    places := SortLists(points, AnyPoint, SegmentKey);
    FilterAll(points, AnyPoint);
    var r := Sort(points, SegmentKey);
    forall i, j | 0 <= i < j < |r| ensures SegmentBefore(points, places[i], places[j]) {
      SegmentKeyOrder(r[i], r[j]);
    }
  }

  predicate AnyPoint(p: Point) {
    true
  }

  lemma SegmentKeyOrder(p: Point, q: Point)
    requires KeyLe(SegmentKey(p), SegmentKey(q))
    ensures p.seriesId < q.seriesId || (p.seriesId == q.seriesId && KeyLe(RevisionKey(p), RevisionKey(q)))
    ensures || p.seriesId < q.seriesId
            || p.validTime < q.validTime
            || (p.validTime == q.validTime && p.knowledgeTime < q.knowledgeTime)
            || (p.validTime == q.validTime && p.knowledgeTime == q.knowledgeTime && p.changeTime < q.changeTime)
            || SegmentKey(p) == SegmentKey(q)
  {
    assert SegmentKey(p)[1..] == RevisionKey(p) && SegmentKey(q)[1..] == RevisionKey(q);
    if p.seriesId == q.seriesId {
      RevisionOrder(p, q);
    }
  }

  // However the live index was laid out, the segment file holds the sealed points in stable order.
  lemma SegmentOfIndex(part: seq<Point>, snapshot: seq<Point>)
    requires forall s: u64 :: SeriesPoints(snapshot, s) == SeriesOf(IndexOf(part), s)
    ensures Sort(snapshot, SegmentKey) == Sort(part, SegmentKey)
  {
    hide Sort, Select, SeriesPoints;
    forall k: Key ensures Select(Sort(snapshot, SegmentKey), SegmentKey, k) == Select(part, SegmentKey, k) {
      SortIsStable(snapshot, SegmentKey);
      assert Select(Sort(snapshot, SegmentKey), SegmentKey, k) == Select(snapshot, SegmentKey, k);
      SameRevisions(part, snapshot, k);
    }
    SortIsStable(snapshot, SegmentKey);
    SortDeterminedBySelect(part, Sort(snapshot, SegmentKey), SegmentKey);
  }

  lemma SameRevisions(part: seq<Point>, snapshot: seq<Point>, k: Key)
    requires forall s: u64 :: SeriesPoints(snapshot, s) == SeriesOf(IndexOf(part), s)
    ensures Select(snapshot, SegmentKey, k) == Select(part, SegmentKey, k)
  {
    hide Sort, Select;
    if |k| == 4 && 0 <= k[0] < 0x1_0000_0000_0000_0000 {
      var s: u64 := k[0];
      SelectNested(snapshot, SeriesKey, SegmentKey, [s], k);
      SelectNested(part, SeriesKey, SegmentKey, [s], k);
      SeriesOfIndexOf(part, s);
      SortKeepsFiner(SeriesPoints(part, s), ValidKey, SegmentKey, [k[1]], k);
    } else {
      SelectNone(snapshot, SegmentKey, k);
      SelectNone(part, SegmentKey, k);
    }
  }

  // A segment answers a query with the matching sealed points, in an order the final sort keeps.
  lemma SegmentAnswer(part: seq<Point>, s: u64, start: i64, end: i64, k: Key)
    ensures Select(Filter(Sort(part, SegmentKey), Matching(s, start, end)), RevisionKey, k)
         == Select(Filter(part, Matching(s, start, end)), RevisionKey, k)
  {
    hide Sort, Select, Filter;
    var q := Matching(s, start, end);
    var hits := Filter(part, q);
    forall x: Point, y: Point | SegmentKey(x) == SegmentKey(y) ensures q(x) == q(y) {
      assert x.seriesId == SegmentKey(x)[0] && x.validTime == SegmentKey(x)[1];
      assert y.seriesId == SegmentKey(y)[0] && y.validTime == SegmentKey(y)[1];
    }
    SortFilter(part, q, SegmentKey);
    FilterElements(part, q);
    SortElements(hits, SegmentKey);
    SortIsStable(hits, SegmentKey);
    SameOrder(hits, s, k);
    SameOrder(Sort(hits, SegmentKey), s, k);
    assert Select(Sort(hits, SegmentKey), SegmentKey, [s] + k) == Select(hits, SegmentKey, [s] + k);
  }

  lemma SameOrder(points: seq<Point>, s: u64, k: Key)
    requires forall p <- points :: p.seriesId == s
    ensures Select(points, RevisionKey, k) == Select(points, SegmentKey, [s] + k)
  {
    forall p <- points ensures RevisionKey(p) == k <==> SegmentKey(p) == [s] + k {
      assert SegmentKey(p) == [s] + RevisionKey(p);
      assert ([s] + k)[1..] == k && SegmentKey(p)[1..] == RevisionKey(p);
    }
    SelectSame(points, RevisionKey, k, SegmentKey, [s] + k);
  }

  // The live index answers the same way.
  lemma LiveAnswer(live: seq<Point>, s: u64, start: i64, end: i64, k: Key)
    ensures Select(Filter(SeriesOf(IndexOf(live), s), Ranged(start, end)), RevisionKey, k)
         == Select(Filter(live, Matching(s, start, end)), RevisionKey, k)
  {
    hide Sort, Select, Filter;
    var series := SeriesPoints(live, s);
    SeriesOfIndexOf(live, s);
    SortFilter(series, Ranged(start, end), ValidKey);
    FilterSeries(live, s, start, end);
    var hits := Filter(series, Ranged(start, end));
    if |k| == 3 {
      SortKeepsFiner(hits, ValidKey, RevisionKey, [k[0]], k);
    } else {
      SelectNone(Sort(hits, ValidKey), RevisionKey, k);
      SelectNone(hits, RevisionKey, k);
    }
  }

  lemma {:induction false} FilterSeries(live: seq<Point>, s: u64, start: i64, end: i64)
    ensures Filter(SeriesPoints(live, s), Ranged(start, end)) == Filter(live, Matching(s, start, end))
  {
    if live != [] {
      var front, last := live[..|live| - 1], live[|live| - 1];
      assert live == front + [last];
      FilterSeries(front, s, start, end);
      SeriesPointsSnoc(front, last, s);
      FilterConcat(SeriesPoints(front, s), if last.seriesId == s then [last] else [], Ranged(start, end));
      FilterOne(last, Ranged(start, end));
    }
  }

  lemma FilterOne(p: Point, keep: Point -> bool)
    ensures Filter([p], keep) == if keep(p) then [p] else []
  {
    assert [p][..0] == [];
  }

  // ---- All segments and the live tail ----

  function Concat(parts: seq<seq<Point>>): seq<Point> {
    if parts == [] then [] else Concat(parts[..|parts| - 1]) + parts[|parts| - 1]
  }

  // What the segments answer, oldest first.
  function FromSegments(segments: seq<seq<Point>>, s: u64, start: i64, end: i64): seq<Point> {
    if segments == [] then []
    else FromSegments(segments[..|segments| - 1], s, start, end)
         + Filter(segments[|segments| - 1], Matching(s, start, end))
  }

  // Segment i is the file written when parts[i] was sealed.
  ghost predicate Sealed(parts: seq<seq<Point>>, segments: seq<seq<Point>>) {
    |segments| == |parts| && forall i :: 0 <= i < |parts| ==> segments[i] == Sort(parts[i], SegmentKey)
  }

  lemma {:induction false} SegmentsAnswer(parts: seq<seq<Point>>, segments: seq<seq<Point>>, s: u64, start: i64, end: i64, k: Key)
    requires Sealed(parts, segments)
    ensures Select(FromSegments(segments, s, start, end), RevisionKey, k)
         == Select(Filter(Concat(parts), Matching(s, start, end)), RevisionKey, k)
  {
    hide Sort, Select, Filter;
    var q := Matching(s, start, end);
    if parts == [] {
      assert Filter([], q) == [] by { FilterEmpty(q); }
    } else {
      var n := |parts| - 1;
      SegmentsAnswer(parts[..n], segments[..n], s, start, end, k);
      SegmentAnswer(parts[n], s, start, end, k);
      FilterConcat(Concat(parts[..n]), parts[n], q);
      SelectConcat(Filter(Concat(parts[..n]), q), Filter(parts[n], q), RevisionKey, k);
      SelectConcat(FromSegments(segments[..n], s, start, end), Filter(segments[n], q), RevisionKey, k);
    }
  }

  lemma FilterEmpty(keep: Point -> bool)
    ensures Filter([], keep) == []
  {
  }

  /**
  Sealing is invisible. For every history and every split of it into sealed parts and a live
  tail, collecting from segments and index and sorting gives the stable sort of the matching
  history by valid time, knowledge time and change time.
  */
  lemma SealingInvisible(parts: seq<seq<Point>>, segments: seq<seq<Point>>, live: seq<Point>, s: u64, start: i64, end: i64)
    requires Sealed(parts, segments)
    ensures Sort(FromSegments(segments, s, start, end)
                 + Filter(SeriesOf(IndexOf(live), s), Ranged(start, end)), RevisionKey)
         == Sort(Filter(Concat(parts) + live, Matching(s, start, end)), RevisionKey)
  {
    hide Sort, Select, Filter, Sealed, IndexOf;
    var q := Matching(s, start, end);
    var sealed, tail := FromSegments(segments, s, start, end), Filter(SeriesOf(IndexOf(live), s), Ranged(start, end));
    var history := Filter(Concat(parts) + live, q);
    SortIsStable(sealed + tail, RevisionKey);
    forall k: Key ensures Select(Sort(sealed + tail, RevisionKey), RevisionKey, k) == Select(history, RevisionKey, k) {
      assert Select(Sort(sealed + tail, RevisionKey), RevisionKey, k) == Select(sealed + tail, RevisionKey, k);
      SelectConcat(sealed, tail, RevisionKey, k);
      SegmentsAnswer(parts, segments, s, start, end, k);
      LiveAnswer(live, s, start, end, k);
      FilterConcat(Concat(parts), live, q);
      SelectConcat(Filter(Concat(parts), q), Filter(live, q), RevisionKey, k);
    }
    SortDeterminedBySelect(history, Sort(sealed + tail, RevisionKey), RevisionKey);
  }

  /**
  The answer by place in the append history: every place whose point is in the series and the
  range, each once, by valid time, knowledge time, change time and append order.
  */
  lemma RawAnswer(history: seq<Point>, s: u64, start: i64, end: i64) returns (places: seq<nat>)
    ensures var r := Sort(Filter(history, Matching(s, start, end)), RevisionKey);
            && |places| == |r|
            && (forall i :: 0 <= i < |r| ==> places[i] < |history| && r[i] == history[places[i]])
            && (forall k :: 0 <= k < |history| ==>
                  (k in places <==> history[k].seriesId == s && start <= history[k].validTime < end))
            && (forall i, j :: 0 <= i < j < |r| ==> RevisionBefore(history, places[i], places[j]))
  {
    hide Sort, Filter, KeyLe;
    places := SortLists(history, Matching(s, start, end), RevisionKey);
    var r := Sort(Filter(history, Matching(s, start, end)), RevisionKey);
    forall i, j | 0 <= i < j < |r| ensures RevisionBefore(history, places[i], places[j]) {
      RevisionOrder(r[i], r[j]);
    }
  }

  // The collection as it runs: segments in seal order, then the live slice, then one stable sort.
  method CollectRawPoints(segments: seq<seq<Point>>, index: Index, s: u64, start: i64, end: i64,
                          ghost parts: seq<seq<Point>>, ghost live: seq<Point>)
    returns (r: seq<Point>)
    requires Sealed(parts, segments) && index == IndexOf(live)
    ensures r == Sort(Filter(Concat(parts) + live, Matching(s, start, end)), RevisionKey)
  {
    hide Sort, Filter, Sealed, IndexOf, SortedBy;
    var points: seq<Point> := [];
    for i := 0 to |segments|
      invariant points == FromSegments(segments[..i], s, start, end)
    {
      assert segments[..i + 1][..i] == segments[..i];
      points := points + Filter(segments[i], Matching(s, start, end));
    }
    assert segments[..|segments|] == segments;
    assert SortedBy(SeriesOf(index, s), ValidKey) by {
      SeriesOfIndexOf(live, s);
      SortedSeries(SeriesPoints(live, s));
    }
    var slice := TimeSlice(SeriesOf(index, s), start, end);
    SealingInvisible(parts, segments, live, s, start, end);
    r := Sort(points + slice, RevisionKey);
  }

  lemma SortedSeries(series: seq<Point>)
    ensures SortedBy(Sort(series, ValidKey), ValidKey)
  {
    SortIsStable(series, ValidKey);
  }

  // ---- One winner per valid time ----

  // The revisions of one valid time.
  function At(points: seq<Point>, t: int): seq<Point> {
    Select(points, ValidKey, [t])
  }

  // Among the revisions of its valid time none ranks higher, and it is the last of its rank.
  ghost predicate IsWinner(points: seq<Point>, rank: Point -> Key, w: Point) {
    && (forall p <- At(points, w.validTime) :: KeyLe(rank(p), rank(w)))
    && var best := Select(At(points, w.validTime), rank, rank(w));
       best != [] && best[|best| - 1] == w
  }

  // One winner for every valid time that has a revision, in time order.
  ghost predicate AreWinners(points: seq<Point>, rank: Point -> Key, winners: seq<Point>) {
    && (forall i, j :: 0 <= i < j < |winners| ==> winners[i].validTime < winners[j].validTime)
    && (forall w <- winners :: IsWinner(points, rank, w))
    && (forall p <- points :: exists w <- winners :: w.validTime == p.validTime)
  }

  function AddRevision(winners: seq<Point>, p: Point, rank: Point -> Key): seq<Point> {
    var n := |winners|;
    if n > 0 && winners[n - 1].validTime == p.validTime then
      if KeyLe(rank(winners[n - 1]), rank(p)) then winners[..n - 1] + [p] else winners
    else winners + [p]
  }

  lemma AtSnoc(points: seq<Point>, p: Point, t: int)
    ensures At(points + [p], t) == At(points, t) + (if p.validTime == t then [p] else [])
  {
    assert (points + [p])[..|points|] == points;
    assert ValidKey(p) == [t] <==> p.validTime == t;
  }

  lemma OtherTimesKeep(points: seq<Point>, p: Point, rank: Point -> Key, w: Point)
    requires IsWinner(points, rank, w) && w.validTime != p.validTime
    ensures IsWinner(points + [p], rank, w)
  {
    AtSnoc(points, p, w.validTime);
    assert At(points, w.validTime) + [] == At(points, w.validTime);
  }

  lemma SameTimeKeeps(points: seq<Point>, p: Point, rank: Point -> Key, w: Point)
    requires IsWinner(points, rank, w) && w.validTime == p.validTime
    ensures IsWinner(points + [p], rank, if KeyLe(rank(w), rank(p)) then p else w)
  {
    hide KeyLe, At;
    var t := p.validTime;
    var group := At(points, t);
    AtSnoc(points, p, t);
    KeyLeTotal(rank(w), rank(p));
    KeyLeReflexive(rank(p));
    if KeyLe(rank(w), rank(p)) {
      forall q <- group ensures KeyLe(rank(q), rank(p)) {
        KeyLeTransitive(rank(q), rank(w), rank(p));
      }
      SelectConcat(group, [p], rank, rank(p));
      SelectOne(p, rank, rank(p));
    } else {
      SelectConcat(group, [p], rank, rank(w));
      SelectOne(p, rank, rank(w));
      assert rank(p) != rank(w);
    }
  }

  lemma FirstAtItsTime(points: seq<Point>, p: Point, rank: Point -> Key)
    requires forall q <- points :: q.validTime != p.validTime
    ensures IsWinner(points + [p], rank, p)
  {
    AtSnoc(points, p, p.validTime);
    SelectNone(points, ValidKey, [p.validTime]);
    assert At(points, p.validTime) == [];
    assert At(points + [p], p.validTime) == [p];
    KeyLeReflexive(rank(p));
    SelectOne(p, rank, rank(p));
  }

  // Earlier winners are at other times, so a new point does not touch them.
  lemma EarlierKeep(points: seq<Point>, p: Point, rank: Point -> Key, winners: seq<Point>)
    requires forall w <- winners :: IsWinner(points, rank, w) && w.validTime != p.validTime
    ensures forall w <- winners :: IsWinner(points + [p], rank, w)
  {
    hide IsWinner;
    forall w <- winners ensures IsWinner(points + [p], rank, w) {
      OtherTimesKeep(points, p, rank, w);
    }
  }

  // The last winner is at the time of the new point.
  lemma RevisionAtLast(points: seq<Point>, p: Point, rank: Point -> Key, front: seq<Point>, w: Point)
    requires AreWinners(points, rank, front + [w]) && w.validTime == p.validTime
    ensures AreWinners(points + [p], rank, front + [if KeyLe(rank(w), rank(p)) then p else w])
  {
    hide IsWinner, KeyLe;
    var winners := front + [w];
    var x := if KeyLe(rank(w), rank(p)) then p else w;
    var after := front + [x];
    assert winners[|front|] == w && w in winners;
    forall v <- front ensures v in winners && v.validTime < p.validTime {
      var i :| 0 <= i < |front| && front[i] == v;
      assert winners[i] == v;
    }
    SameTimeKeeps(points, p, rank, w);
    EarlierKeep(points, p, rank, front);
    forall i, j | 0 <= i < j < |after| ensures after[i].validTime < after[j].validTime {
      assert winners[i].validTime < winners[j].validTime;
    }
    assert after[|front|] == x && x in after;
    forall q <- points + [p] ensures exists v <- after :: v.validTime == q.validTime {
      if q in points {
        var v :| v in winners && v.validTime == q.validTime;
        assert v in front ==> v in after;
      }
    }
  }

  // The new point is later than every winner.
  lemma RevisionAfter(points: seq<Point>, p: Point, rank: Point -> Key, winners: seq<Point>)
    requires AreWinners(points, rank, winners)
    requires forall w <- winners :: w.validTime < p.validTime
    ensures AreWinners(points + [p], rank, winners + [p])
  {
    hide IsWinner, KeyLe;
    var after := winners + [p];
    EarlierKeep(points, p, rank, winners);
    FirstAtItsTime(points, p, rank);
    forall q <- points + [p] ensures exists v <- after :: v.validTime == q.validTime {
      if q in points {
        var v :| v in winners && v.validTime == q.validTime;
        assert v in after;
      } else {
        assert p in after;
      }
    }
  }

  lemma AddRevisionKeeps(points: seq<Point>, p: Point, rank: Point -> Key, winners: seq<Point>)
    requires AreWinners(points, rank, winners)
    requires forall q <- points :: q.validTime <= p.validTime
    requires forall w <- winners :: w in points
    ensures AreWinners(points + [p], rank, AddRevision(winners, p, rank))
    ensures forall w <- AddRevision(winners, p, rank) :: w in points + [p]
  {
    hide AreWinners, KeyLe;
    var n := |winners|;
    if n > 0 {
      assert winners[n - 1] in winners;
      assert winners == winners[..n - 1] + [winners[n - 1]];
    }
    if n > 0 && winners[n - 1].validTime == p.validTime {
      RevisionAtLast(points, p, rank, winners[..n - 1], winners[n - 1]);
    } else {
      WinnersBefore(points, rank, winners, p.validTime);
      RevisionAfter(points, p, rank, winners);
    }
  }

  lemma WinnersBefore(points: seq<Point>, rank: Point -> Key, winners: seq<Point>, t: int)
    requires AreWinners(points, rank, winners) && (winners != [] ==> winners[|winners| - 1].validTime < t)
    ensures forall w <- winners :: w.validTime < t
  {
    hide IsWinner;
    forall w <- winners ensures w.validTime < t {
      var i :| 0 <= i < |winners| && winners[i] == w;
      assert i < |winners| - 1 ==> winners[i].validTime < winners[|winners| - 1].validTime;
    }
  }

  function Kept(start: i64, end: i64, keep: Point -> bool): Point -> bool {
    (p: Point) => InRange(p, start, end) && keep(p)
  }

  /**
  The fold over a time-ordered list keeps exactly one winner for each valid time that has a
  kept revision in range: the last of those ranked highest.
  */
  method WinningRevisions(points: seq<Point>, start: i64, end: i64, keep: Point -> bool, rank: Point -> Key)
    returns (winners: seq<Point>)
    requires SortedBy(points, ValidKey)
    ensures AreWinners(Filter(points, Kept(start, end, keep)), rank, winners)
  {
    hide AreWinners, KeyLe;
    var slice := TimeSlice(points, start, end);
    ghost var ranged := Filter(points, Ranged(start, end));
    FilterElements(points, Ranged(start, end));
    FilterSorted(points, Ranged(start, end), ValidKey);
    winners := [];
    assert AreWinners([], rank, []) by { NoWinners(rank); }
    for i := 0 to |slice|
      invariant AreWinners(Filter(slice[..i], keep), rank, winners)
      invariant forall w <- winners :: w in Filter(slice[..i], keep)
    {
      var p := slice[i];
      assert slice[..i + 1][..i] == slice[..i];
      FilterElements(slice[..i], keep);
      if keep(p) {
        ghost var before := Filter(slice[..i], keep);
        forall q <- before ensures q.validTime <= p.validTime {
          EarlierInTime(slice, i, q);
        }
        AddRevisionKeeps(before, p, rank, winners);
        winners := AddRevision(winners, p, rank);
        assert Filter(slice[..i + 1], keep) == before + [p];
      } else {
        assert Filter(slice[..i], keep) + [] == Filter(slice[..i], keep);
      }
    }
    assert slice[..|slice|] == slice;
    FilterTwice(points, start, end, keep);
  }

  lemma NoWinners(rank: Point -> Key)
    ensures AreWinners([], rank, [])
  {
  }

  lemma EarlierInTime(slice: seq<Point>, i: nat, q: Point)
    requires SortedBy(slice, ValidKey) && i < |slice| && q in slice[..i]
    ensures q.validTime <= slice[i].validTime
  {
    var j :| 0 <= j < i && slice[..i][j] == q;
    assert KeyLe(ValidKey(slice[j]), ValidKey(slice[i]));
  }

  lemma {:induction false} FilterTwice(points: seq<Point>, start: i64, end: i64, keep: Point -> bool)
    ensures Filter(Filter(points, Ranged(start, end)), keep) == Filter(points, Kept(start, end, keep))
  {
    if points != [] {
      var front, last := points[..|points| - 1], points[|points| - 1];
      FilterTwice(front, start, end, keep);
      FilterConcat(Filter(front, Ranged(start, end)), if Ranged(start, end)(last) then [last] else [], keep);
      FilterOne(last, keep);
      assert Filter([], keep) == [];
    }
  }

  // ---- Queries with cutoffs ----

  function AsKnown(p: Point): Key { [p.knowledgeTime, p.changeTime] }

  function Cutoffs(maxKnowledge: Option<i64>, maxChange: Option<i64>): Point -> bool {
    (p: Point) =>
      && (maxKnowledge.Some? ==> p.knowledgeTime <= maxKnowledge.value)
      && (maxChange.Some? ==> p.changeTime <= maxChange.value)
  }

  // Revisions of a history that a query with cutoffs may return.
  function Visible(s: u64, start: i64, end: i64, keep: Point -> bool): Point -> bool {
    (p: Point) => p.seriesId == s && InRange(p, start, end) && keep(p)
  }

  // Greatest by knowledge time, then change time, then append order, among the visible revisions of its valid time.
  ghost predicate Prevails(history: seq<Point>, visible: Point -> bool, w: Point) {
    && visible(w)
    && (forall p <- history | visible(p) && p.validTime == w.validTime :: KeyLe(AsKnown(p), AsKnown(w)))
    && var same := Select(Filter(history, visible), RevisionKey, RevisionKey(w));
       same != [] && same[|same| - 1] == w
  }

  /**
  Point-in-time queries. Whatever is sealed, the answer holds one point for each valid time
  with a visible revision, and that point prevails over all of history.
  */
  lemma CutoffWinners(history: seq<Point>, s: u64, start: i64, end: i64, keep: Point -> bool, winners: seq<Point>)
    requires forall x: Point, y: Point :: RevisionKey(x) == RevisionKey(y) ==> keep(x) == keep(y)
    requires AreWinners(Filter(Sort(Filter(history, Matching(s, start, end)), RevisionKey), Kept(start, end, keep)),
                        AsKnown, winners)
    ensures forall i, j :: 0 <= i < j < |winners| ==> winners[i].validTime < winners[j].validTime
    ensures forall w <- winners :: Prevails(history, Visible(s, start, end, keep), w)
    ensures forall p <- history | Visible(s, start, end, keep)(p) :: exists w <- winners :: w.validTime == p.validTime
  {
    hide Sort, Select, Filter, KeyLe, IsWinner, IsStableSort, Prevails, RevisionKey;
    var v := Visible(s, start, end, keep);
    var all := Filter(history, v);
    var sorted := Sort(all, RevisionKey);
    VisibleSorted(history, s, start, end, keep);
    FilterElements(history, v);
    SortElements(all, RevisionKey);
    SortIsStable(all, RevisionKey);
    forall w <- winners ensures Prevails(history, v, w) {
      WinnerPrevails(history, v, sorted, w);
    }
    forall p <- history | v(p) ensures exists w <- winners :: w.validTime == p.validTime {
      assert p in sorted;
    }
  }

  // Sorting the series and then keeping what is visible sorts what is visible.
  lemma VisibleSorted(history: seq<Point>, s: u64, start: i64, end: i64, keep: Point -> bool)
    requires forall x: Point, y: Point :: RevisionKey(x) == RevisionKey(y) ==> keep(x) == keep(y)
    ensures Filter(Sort(Filter(history, Matching(s, start, end)), RevisionKey), Kept(start, end, keep))
         == Sort(Filter(history, Visible(s, start, end, keep)), RevisionKey)
  {
    hide Sort, Filter;
    var kept := Kept(start, end, keep);
    forall x: Point, y: Point | RevisionKey(x) == RevisionKey(y) ensures kept(x) == kept(y) {
      assert x.validTime == RevisionKey(x)[0] && y.validTime == RevisionKey(y)[0];
    }
    SortFilter(Filter(history, Matching(s, start, end)), kept, RevisionKey);
    MatchThenKeep(history, s, start, end, keep);
  }

  lemma {:induction false} MatchThenKeep(history: seq<Point>, s: u64, start: i64, end: i64, keep: Point -> bool)
    ensures Filter(Filter(history, Matching(s, start, end)), Kept(start, end, keep)) == Filter(history, Visible(s, start, end, keep))
  {
    if history != [] {
      var front, last := history[..|history| - 1], history[|history| - 1];
      var q := Matching(s, start, end);
      MatchThenKeep(front, s, start, end, keep);
      FilterConcat(Filter(front, q), if q(last) then [last] else [], Kept(start, end, keep));
      FilterOne(last, Kept(start, end, keep));
      FilterEmpty(Kept(start, end, keep));
    }
  }

  lemma WinnerPrevails(history: seq<Point>, v: Point -> bool, sorted: seq<Point>, w: Point)
    requires IsStableSort(Filter(history, v), sorted, RevisionKey) && IsWinner(sorted, AsKnown, w)
    requires forall p :: p in sorted <==> p in Filter(history, v)
    ensures Prevails(history, v, w)
  {
    hide Filter, KeyLe, Select, SortedBy;
    FilterElements(history, v);
    SelectElements(sorted, ValidKey, [w.validTime]);
    forall p <- history | v(p) && p.validTime == w.validTime ensures KeyLe(AsKnown(p), AsKnown(w)) {
      assert p in sorted && ValidKey(p) == [w.validTime];
      assert p in At(sorted, w.validTime);
    }
    SameRank(sorted, w);
    var best := Select(At(sorted, w.validTime), AsKnown, AsKnown(w));
    SelectElements(At(sorted, w.validTime), AsKnown, AsKnown(w));
    assert best[|best| - 1] in best;
  }

  // Within one valid time, equal rank means equal revision key.
  lemma SameRank(sorted: seq<Point>, w: Point)
    ensures Select(At(sorted, w.validTime), AsKnown, AsKnown(w)) == Select(sorted, RevisionKey, RevisionKey(w))
  {
    hide Select;
    var group := At(sorted, w.validTime);
    SelectNested(sorted, ValidKey, RevisionKey, [w.validTime], RevisionKey(w));
    SelectElements(sorted, ValidKey, [w.validTime]);
    forall p <- group ensures RevisionKey(p) == RevisionKey(w) <==> AsKnown(p) == AsKnown(w) {
      assert ValidKey(p)[0] == w.validTime;
      assert RevisionKey(p)[1..] == AsKnown(p) && RevisionKey(w)[1..] == AsKnown(w);
      assert RevisionKey(p) == [p.validTime] + AsKnown(p) && RevisionKey(w) == [w.validTime] + AsKnown(w);
    }
    SelectSame(group, RevisionKey, RevisionKey(w), AsKnown, AsKnown(w));
  }

  lemma SortedByTime(points: seq<Point>)
    ensures SortedBy(Sort(points, RevisionKey), ValidKey)
  {
    hide Sort, Select;
    SortIsStable(points, RevisionKey);
    var r := Sort(points, RevisionKey);
    forall i, j | 0 <= i < j < |r| ensures KeyLe(ValidKey(r[i]), ValidKey(r[j])) {
      assert KeyLe(RevisionKey(r[i]), RevisionKey(r[j]));
    }
  }

  // The place of the last element a selection from a filtered list yields.
  lemma {:induction false} LastSelected(history: seq<Point>, v: Point -> bool, k: Key) returns (at: nat)
    requires Select(Filter(history, v), RevisionKey, k) != []
    ensures var same := Select(Filter(history, v), RevisionKey, k);
            at < |history| && history[at] == same[|same| - 1] && v(history[at]) && RevisionKey(history[at]) == k
    ensures forall i :: at < i < |history| && v(history[i]) ==> RevisionKey(history[i]) != k
  {
    var n := |history| - 1;
    var front, last := Filter(history[..n], v), history[n];
    if v(last) {
      SelectConcat(front, [last], RevisionKey, k);
      SelectOne(last, RevisionKey, k);
    }
    if v(last) && RevisionKey(last) == k {
      at := n;
    } else {
      assert Filter(history, v) == if v(last) then front + [last] else front;
      assert Select(Filter(history, v), RevisionKey, k) == Select(front, RevisionKey, k);
      at := LastSelected(history[..n], v, k);
    }
  }

  /**
  The place that wins its valid time: among the places of the series whose point is at that
  time and within both cutoffs, the greatest by knowledge time, change time and append order.
  */
  ghost predicate Wins(history: seq<Point>, seen: Point -> bool, k: nat)
    requires k < |history|
  {
    && seen(history[k])
    && forall i | 0 <= i < |history| && seen(history[i]) && history[i].validTime == history[k].validTime ::
         || history[i].knowledgeTime < history[k].knowledgeTime
         || (history[i].knowledgeTime == history[k].knowledgeTime
             && (history[i].changeTime < history[k].changeTime
                 || (history[i].changeTime == history[k].changeTime && i <= k)))
  }

  lemma PrevailingWins(history: seq<Point>, visible: Point -> bool, seen: Point -> bool, w: Point) returns (k: nat)
    requires Prevails(history, visible, w) && forall p: Point :: visible(p) == seen(p)
    ensures k < |history| && history[k] == w && Wins(history, seen, k)
  {
    hide Filter, Select, KeyLe;
    k := LastSelected(history, visible, RevisionKey(w));
    forall i | 0 <= i < |history| && seen(history[i]) && history[i].validTime == w.validTime
      ensures || history[i].knowledgeTime < w.knowledgeTime
              || (history[i].knowledgeTime == w.knowledgeTime
                  && (history[i].changeTime < w.changeTime || (history[i].changeTime == w.changeTime && i <= k)))
    {
      assert history[i] in history && visible(history[i]);
      KnownOrder(history[i], w);
      if i > k {
        assert RevisionKey(history[i]) != RevisionKey(w);
      }
    }
  }

  lemma KnownOrder(p: Point, w: Point)
    requires KeyLe(AsKnown(p), AsKnown(w))
    ensures p.knowledgeTime < w.knowledgeTime || (p.knowledgeTime == w.knowledgeTime && p.changeTime <= w.changeTime)
  {
    assert AsKnown(p)[1..] == [p.changeTime] && AsKnown(w)[1..] == [w.changeTime];
  }

  /**
  Point-in-time queries, by place in the append history: the answer is in time order, each of
  its points stands at a place that wins its valid time, and every valid time with a point of
  the series in range and within the cutoffs is answered.
  */
  method QueryWithCutoffs(segments: seq<seq<Point>>, index: Index, s: u64, start: i64, end: i64,
                          maxKnowledge: Option<i64>, maxChange: Option<i64>,
                          ghost parts: seq<seq<Point>>, ghost live: seq<Point>)
    returns (winners: seq<Point>)
    requires Sealed(parts, segments) && index == IndexOf(live)
    ensures forall i, j :: 0 <= i < j < |winners| ==> winners[i].validTime < winners[j].validTime
    ensures var history := Concat(parts) + live;
            var seen := (p: Point) => && p.seriesId == s && start <= p.validTime < end
                                      && (maxKnowledge.Some? ==> p.knowledgeTime <= maxKnowledge.value)
                                      && (maxChange.Some? ==> p.changeTime <= maxChange.value);
            && (forall w <- winners :: exists k :: 0 <= k < |history| && history[k] == w && Wins(history, seen, k))
            && (forall p <- history | seen(p) :: exists w <- winners :: w.validTime == p.validTime)
  {
    hide Sort, Filter, Sealed, IndexOf, SortedBy, AreWinners, Prevails, Wins;
    var points := CollectRawPoints(segments, index, s, start, end, parts, live);
    ghost var history := Concat(parts) + live;
    SortedByTime(Filter(history, Matching(s, start, end)));
    var keep := Cutoffs(maxKnowledge, maxChange);
    winners := WinningRevisions(points, start, end, keep, AsKnown);
    forall x: Point, y: Point | RevisionKey(x) == RevisionKey(y) ensures keep(x) == keep(y) {
      assert x.knowledgeTime == RevisionKey(x)[1] && x.changeTime == RevisionKey(x)[2];
      assert y.knowledgeTime == RevisionKey(y)[1] && y.changeTime == RevisionKey(y)[2];
    }
    CutoffWinners(history, s, start, end, keep, winners);
    ghost var visible := Visible(s, start, end, keep);
    ghost var seen := (p: Point) => && p.seriesId == s && start <= p.validTime < end
                                    && (maxKnowledge.Some? ==> p.knowledgeTime <= maxKnowledge.value)
                                    && (maxChange.Some? ==> p.changeTime <= maxChange.value);
    forall w <- winners ensures exists k :: 0 <= k < |history| && history[k] == w && Wins(history, seen, k) {
      var k := PrevailingWins(history, visible, seen, w);
    }
  }
}

/**
Histories of points that no query can tell apart.

Two histories agree when, for every series and every revision key, they hold the same
points in the same order. Agreement is what a reclaim keeps (`SameIndexSameHistory`),
and it decides every query (`SameHistoryAnswers`) and every count (`SameHistoryCounts`).
*/
module Histories {
  import opened ByteCodec
  import opened StableSorting
  import opened Model
  import opened PointIndex
  import opened Queries

  ghost predicate SameHistory(a: seq<Point>, b: seq<Point>) {
    forall k: Key :: Select(a, SegmentKey, k) == Select(b, SegmentKey, k)
  }

  lemma SameHistoryConcat(a: seq<Point>, b: seq<Point>, c: seq<Point>, d: seq<Point>)
    requires SameHistory(a, b) && SameHistory(c, d)
    ensures SameHistory(a + c, b + d)
  {
    hide Select;
    forall k: Key ensures Select(a + c, SegmentKey, k) == Select(b + d, SegmentKey, k) {
      SelectConcat(a, c, SegmentKey, k);
      SelectConcat(b, d, SegmentKey, k);
    }
  }

  // The points of one revision key, found through the index.
  lemma RevisionsInIndex(live: seq<Point>, k: Key, s: u64)
    requires |k| == 4 && k[0] == s
    ensures Select(live, SegmentKey, k) == Select(SeriesOf(IndexOf(live), s), SegmentKey, k)
  {
    hide Sort, Select;
    SelectNested(live, SeriesKey, SegmentKey, [s], k);
    SeriesOfIndexOf(live, s);
    SortKeepsFiner(SeriesPoints(live, s), ValidKey, SegmentKey, [k[1]], k);
  }

  lemma SameIndexSameHistory(a: seq<Point>, b: seq<Point>)
    requires IndexOf(a) == IndexOf(b)
    ensures SameHistory(a, b)
  {
    hide Select, IndexOf;
    forall k: Key ensures Select(a, SegmentKey, k) == Select(b, SegmentKey, k) {
      if |k| == 4 && 0 <= k[0] < 0x1_0000_0000_0000_0000 {
        RevisionsInIndex(a, k, k[0]);
        RevisionsInIndex(b, k, k[0]);
      } else {
        SelectNone(a, SegmentKey, k);
        SelectNone(b, SegmentKey, k);
      }
    }
  }

  // A range query sees a history only through its revision keys.
  lemma RangeThroughKeys(h: seq<Point>, s: u64, start: i64, end: i64, k: Key)
    ensures Select(Filter(h, Matching(s, start, end)), RevisionKey, k)
         == if |k| == 3 && start <= k[0] < end then Select(h, SegmentKey, [s] + k) else []
  {
    hide Select, Filter;
    var q := Matching(s, start, end);
    var kept := |k| == 3 && start <= k[0] < end;
    forall p <- h | SegmentKey(p) == [s] + k ensures q(p) == kept {
      assert SegmentKey(p)[0] == s && SegmentKey(p)[1..] == k;
      assert k[0] == p.validTime;
    }
    FilterElements(h, q);
    SameOrder(Filter(h, q), s, k);
    SelectOfFilter(h, q, SegmentKey, [s] + k, kept);
  }

  lemma SameHistoryAnswers(a: seq<Point>, b: seq<Point>, s: u64, start: i64, end: i64)
    requires SameHistory(a, b)
    ensures Sort(Filter(a, Matching(s, start, end)), RevisionKey) == Sort(Filter(b, Matching(s, start, end)), RevisionKey)
  {
    hide Select, Filter, Sort;
    var x, y := Filter(a, Matching(s, start, end)), Filter(b, Matching(s, start, end));
    SortIsStable(x, RevisionKey);
    forall k: Key ensures Select(Sort(x, RevisionKey), RevisionKey, k) == Select(y, RevisionKey, k) {
      RangeThroughKeys(a, s, start, end, k);
      RangeThroughKeys(b, s, start, end, k);
      assert Select(Sort(x, RevisionKey), RevisionKey, k) == Select(x, RevisionKey, k);
    }
    SortDeterminedBySelect(y, Sort(x, RevisionKey), RevisionKey);
  }

  lemma {:induction false} SelectCounts(h: seq<Point>, p: Point)
    ensures multiset(h)[p] == multiset(Select(h, SegmentKey, SegmentKey(p)))[p]
  {
    if h != [] {
      var front, last := h[..|h| - 1], h[|h| - 1];
      assert h == front + [last];
      SelectCounts(front, p);
    }
  }

  lemma SameHistoryCounts(a: seq<Point>, b: seq<Point>)
    requires SameHistory(a, b)
    ensures multiset(a) == multiset(b)
  {
    hide Select;
    forall p: Point ensures multiset(a)[p] == multiset(b)[p] {
      SelectCounts(a, p);
      SelectCounts(b, p);
    }
  }
}

/**
Stable sorting by an integer-tuple key, as `slice::sort_by_key` does it.

`IsStableSort` says what a stable sort is without naming an algorithm: the
result is ordered by key, and for every key the elements carrying that key
appear in their original order. That determines the result (`StableSortUnique`),
so any two routes to a stably sorted sequence meet.
*/
module StableSorting {

  // Keys are tuples compared lexicographically.
  type Key = seq<int>

  predicate KeyLe(a: Key, b: Key) {
    if a == [] then true
    else if b == [] then false
    else a[0] < b[0] || (a[0] == b[0] && KeyLe(a[1..], b[1..]))
  }

  lemma {:induction false} KeyLeTotal(a: Key, b: Key)
    ensures KeyLe(a, b) || KeyLe(b, a)
  {
    if a != [] && b != [] {
      KeyLeTotal(a[1..], b[1..]);
    }
  }

  lemma {:induction false} KeyLeAntisymmetric(a: Key, b: Key)
    requires KeyLe(a, b) && KeyLe(b, a)
    ensures a == b
  {
    if a != [] && b != [] {
      KeyLeAntisymmetric(a[1..], b[1..]);
      assert a == [a[0]] + a[1..] && b == [b[0]] + b[1..];
    }
  }

  lemma {:induction false} KeyLeTransitive(a: Key, b: Key, c: Key)
    requires KeyLe(a, b) && KeyLe(b, c)
    ensures KeyLe(a, c)
  {
    if a != [] && b != [] && c != [] && a[0] == b[0] == c[0] {
      KeyLeTransitive(a[1..], b[1..], c[1..]);
    }
  }

  lemma {:induction false} KeyLeReflexive(a: Key)
    ensures KeyLe(a, a)
  {
    if a != [] {
      KeyLeReflexive(a[1..]);
    }
  }

  // ---- Selecting ----

  function Filter<T>(s: seq<T>, keep: T -> bool): seq<T> {
    if s == [] then []
    else Filter(s[..|s| - 1], keep) + (if keep(s[|s| - 1]) then [s[|s| - 1]] else [])
  }

  // The elements carrying key k, in order.
  function Select<T>(s: seq<T>, key: T -> Key, k: Key): seq<T> {
    if s == [] then []
    else Select(s[..|s| - 1], key, k) + (if key(s[|s| - 1]) == k then [s[|s| - 1]] else [])
  }

  lemma {:induction false} FilterConcat<T>(a: seq<T>, b: seq<T>, keep: T -> bool)
    ensures Filter(a + b, keep) == Filter(a, keep) + Filter(b, keep)
  {
    if b == [] {
      assert a + b == a;
    } else {
      FilterConcat(a, b[..|b| - 1], keep);
      assert (a + b)[..|a + b| - 1] == a + b[..|b| - 1];
    }
  }

  lemma {:induction false} SelectConcat<T>(a: seq<T>, b: seq<T>, key: T -> Key, k: Key)
    ensures Select(a + b, key, k) == Select(a, key, k) + Select(b, key, k)
  {
    if b == [] {
      assert a + b == a;
    } else {
      SelectConcat(a, b[..|b| - 1], key, k);
      assert (a + b)[..|a + b| - 1] == a + b[..|b| - 1];
    }
  }

  lemma {:induction false} FilterElements<T>(s: seq<T>, keep: T -> bool)
    ensures forall x <- Filter(s, keep) :: x in s && keep(x)
    ensures forall x <- s :: keep(x) ==> x in Filter(s, keep)
    ensures |Filter(s, keep)| <= |s|
  {
    if s != [] {
      FilterElements(s[..|s| - 1], keep);
      assert s == s[..|s| - 1] + [s[|s| - 1]];
    }
  }

  lemma {:induction false} SelectElements<T>(s: seq<T>, key: T -> Key, k: Key)
    ensures forall x <- Select(s, key, k) :: x in s && key(x) == k
    ensures forall x <- s :: key(x) == k ==> x in Select(s, key, k)
  {
    if s != [] {
      SelectElements(s[..|s| - 1], key, k);
      assert s == s[..|s| - 1] + [s[|s| - 1]];
    }
  }

  lemma {:induction false} FilterAll<T>(s: seq<T>, keep: T -> bool)
    requires forall x <- s :: keep(x)
    ensures Filter(s, keep) == s
  {
    if s != [] {
      FilterAll(s[..|s| - 1], keep);
      assert s == s[..|s| - 1] + [s[|s| - 1]];
    }
  }

  lemma {:induction false} FilterNone<T>(s: seq<T>, keep: T -> bool)
    requires forall x <- s :: !keep(x)
    ensures Filter(s, keep) == []
  {
    if s != [] {
      FilterNone(s[..|s| - 1], keep);
    }
  }

  // A filter that keeps exactly a run of elements returns it.
  lemma FilterRun<T>(s: seq<T>, keep: T -> bool, lo: nat, hi: nat)
    requires lo <= hi <= |s|
    requires forall i :: 0 <= i < |s| ==> (keep(s[i]) <==> lo <= i < hi)
    ensures Filter(s, keep) == s[lo..hi]
  {
    hide Filter;
    FilterNone(s[..lo], keep);
    KeptRun(s, keep, lo, hi);
    DroppedRest(s, keep, hi);
    TakeSplits(s, lo, hi);
    FilterBoth(s[..lo], s[lo..hi], [], s[lo..hi], keep);
    FilterBoth(s[..hi], s[hi..], s[lo..hi], [], keep);
  }

  lemma TakeSplits<T>(s: seq<T>, lo: nat, hi: nat)
    requires lo <= hi <= |s|
    ensures s[..lo] + s[lo..hi] == s[..hi] && s[..hi] + s[hi..] == s
  {
  }

  lemma FilterBoth<T>(a: seq<T>, b: seq<T>, x: seq<T>, y: seq<T>, keep: T -> bool)
    requires Filter(a, keep) == x && Filter(b, keep) == y && (x == [] || y == [])
    ensures Filter(a + b, keep) == if x == [] then y else x
  {
    hide Filter;
    FilterConcat(a, b, keep);
    assert x == [] ==> x + y == y;
    assert y == [] ==> x + y == x;
  }

  lemma KeptRun<T>(s: seq<T>, keep: T -> bool, lo: nat, hi: nat)
    requires lo <= hi <= |s| && forall i :: lo <= i < hi ==> keep(s[i])
    ensures Filter(s[lo..hi], keep) == s[lo..hi]
  {
    hide Filter;
    forall x <- s[lo..hi] ensures keep(x) {
      var i :| lo <= i < hi && s[i] == x;
    }
    FilterAll(s[lo..hi], keep);
  }

  lemma DroppedRest<T>(s: seq<T>, keep: T -> bool, hi: nat)
    requires hi <= |s| && forall i :: hi <= i < |s| ==> !keep(s[i])
    ensures Filter(s[hi..], keep) == []
  {
    hide Filter;
    forall x <- s[hi..] ensures !keep(x) {
      var i :| hi <= i < |s| && s[i] == x;
    }
    FilterNone(s[hi..], keep);
  }

  // A filter that depends on the key alone keeps or drops a whole key class.
  lemma {:induction false} SelectOfFilter<T>(s: seq<T>, keep: T -> bool, key: T -> Key, k: Key, kept: bool)
    requires forall x <- s :: key(x) == k ==> keep(x) == kept
    ensures Select(Filter(s, keep), key, k) == if kept then Select(s, key, k) else []
  {
    if s != [] {
      var last := s[|s| - 1];
      SelectOfFilter(s[..|s| - 1], keep, key, k, kept);
      if keep(last) {
        SelectConcat(Filter(s[..|s| - 1], keep), [last], key, k);
        assert [last][..0] == [];
        assert Select([last], key, k) == if key(last) == k then [last] else [];
      } else {
        assert Filter(s, keep) == Filter(s[..|s| - 1], keep);
      }
    }
  }

  // ---- Sorting ----

  ghost predicate SortedBy<T>(s: seq<T>, key: T -> Key) {
    forall i, j :: 0 <= i < j < |s| ==> KeyLe(key(s[i]), key(s[j]))
  }

  ghost predicate IsStableSort<T(!new)>(s: seq<T>, r: seq<T>, key: T -> Key) {
    && SortedBy(r, key)
    && forall k: Key :: Select(r, key, k) == Select(s, key, k)
  }

  // Places x after every element whose key is not greater.
  function Insert<T>(s: seq<T>, x: T, key: T -> Key): (r: seq<T>)
    ensures |r| == |s| + 1
  {
    if s == [] || KeyLe(key(s[|s| - 1]), key(x)) then s + [x]
    else Insert(s[..|s| - 1], x, key) + [s[|s| - 1]]
  }

  function Sort<T>(s: seq<T>, key: T -> Key): (r: seq<T>)
    ensures |r| == |s|
  {
    if s == [] then [] else Insert(Sort(s[..|s| - 1], key), s[|s| - 1], key)
  }

  lemma SortSnoc<T>(s: seq<T>, x: T, key: T -> Key)
    ensures Sort(s + [x], key) == Insert(Sort(s, key), x, key)
  {
    assert (s + [x])[..|s|] == s;
  }

  lemma {:induction false} InsertElements<T(!new)>(s: seq<T>, x: T, key: T -> Key)
    ensures forall y :: y in Insert(s, x, key) <==> y in s || y == x
  {
    if s == [] || KeyLe(key(s[|s| - 1]), key(x)) {
    } else {
      InsertElements(s[..|s| - 1], x, key);
      assert s == s[..|s| - 1] + [s[|s| - 1]];
    }
  }

  lemma {:induction false} InsertSorted<T(!new)>(s: seq<T>, x: T, key: T -> Key)
    requires SortedBy(s, key)
    ensures SortedBy(Insert(s, x, key), key)
  {
    if s == [] {
    } else if KeyLe(key(s[|s| - 1]), key(x)) {
      forall i | 0 <= i < |s| ensures KeyLe(key(s[i]), key(x)) {
        if i < |s| - 1 {
          KeyLeTransitive(key(s[i]), key(s[|s| - 1]), key(x));
        }
      }
    } else {
      var front, last := s[..|s| - 1], s[|s| - 1];
      InsertSorted(front, x, key);
      InsertElements(front, x, key);
      KeyLeTotal(key(x), key(last));
      var r := Insert(front, x, key);
      forall i | 0 <= i < |r| ensures KeyLe(key(r[i]), key(last)) {
        assert r[i] in r;
        if r[i] != x {
          assert r[i] in front;
          var j :| 0 <= j < |front| && front[j] == r[i];
          assert s[j] == r[i];
        }
      }
    }
  }

  lemma {:induction false} InsertSelect<T>(s: seq<T>, x: T, key: T -> Key, k: Key)
    requires SortedBy(s, key)
    ensures Select(Insert(s, x, key), key, k) == Select(s + [x], key, k)
  {
    assert (s + [x])[..|s|] == s;
    if s == [] || KeyLe(key(s[|s| - 1]), key(x)) {
    } else {
      var front, last := s[..|s| - 1], s[|s| - 1];
      InsertSelect(front, x, key, k);
      assert (front + [x])[..|front|] == front;
      var r := Insert(front, x, key);
      assert (r + [last])[..|r|] == r;
      if key(x) == key(last) {
        KeyLeReflexive(key(x));
      }
    }
  }

  lemma {:induction false} SortIsStable<T(!new)>(s: seq<T>, key: T -> Key)
    ensures IsStableSort(s, Sort(s, key), key)
  {
    if s != [] {
      var front, last := s[..|s| - 1], s[|s| - 1];
      SortIsStable(front, key);
      var sorted := Sort(front, key);
      InsertSorted(sorted, last, key);
      forall k: Key ensures Select(Sort(s, key), key, k) == Select(s, key, k) {
        InsertSelect(sorted, last, key, k);
        assert (sorted + [last])[..|sorted|] == sorted;
      }
    }
  }

  lemma SelectAgreesElements<T(!new)>(a: seq<T>, b: seq<T>, key: T -> Key)
    requires forall k: Key :: Select(a, key, k) == Select(b, key, k)
    ensures forall x :: x in a <==> x in b
  {
    forall x ensures x in a <==> x in b {
      SelectElements(a, key, key(x));
      SelectElements(b, key, key(x));
    }
  }

  // Two ordered sequences with the same key classes are the same sequence.
  lemma {:induction false} StableSortUnique<T(!new)>(a: seq<T>, b: seq<T>, key: T -> Key)
    requires SortedBy(a, key) && SortedBy(b, key)
    requires forall k: Key :: Select(a, key, k) == Select(b, key, k)
    ensures a == b
  {
    SelectAgreesElements(a, b, key);
    assert b != [] ==> b[0] in b;
    if a != [] {
      assert a[0] in b;
      var x, y := a[|a| - 1], b[|b| - 1];
      assert x in b && y in a;
      assert KeyLe(key(x), key(y)) by { KeyLeReflexive(key(x)); }
      assert KeyLe(key(y), key(x)) by { KeyLeReflexive(key(y)); }
      KeyLeAntisymmetric(key(x), key(y));
      assert Select(a, key, key(x)) == Select(b, key, key(x));
      assert Select(a, key, key(x))[|Select(a, key, key(x))| - 1] == x;
      assert x == y;
      var a', b' := a[..|a| - 1], b[..|b| - 1];
      forall k: Key ensures Select(a', key, k) == Select(b', key, k) {
        assert Select(a, key, k) == Select(b, key, k);
        if k == key(x) {
          assert Select(a', key, k) == Select(a, key, k)[..|Select(a, key, k)| - 1];
          assert Select(b', key, k) == Select(b, key, k)[..|Select(b, key, k)| - 1];
        } else {
          assert Select(a', key, k) == Select(a, key, k) && Select(b', key, k) == Select(b, key, k);
        }
      }
      StableSortUnique(a', b', key);
      assert a == a' + [x] && b == b' + [y];
    }
  }

  // Sorting depends only on the order within each key.
  lemma SortDeterminedBySelect<T(!new)>(s: seq<T>, r: seq<T>, key: T -> Key)
    requires IsStableSort(s, r, key)
    ensures r == Sort(s, key)
  {
    SortIsStable(s, key);
    forall k: Key ensures Select(r, key, k) == Select(Sort(s, key), key, k) {
      assert Select(r, key, k) == Select(s, key, k);
    }
    StableSortUnique(r, Sort(s, key), key);
  }

  lemma SortElements<T(!new)>(s: seq<T>, key: T -> Key)
    ensures forall x :: x in Sort(s, key) <==> x in s
  {
    SortIsStable(s, key);
    SelectAgreesElements(Sort(s, key), s, key);
  }

  // Filtering by a predicate of the key commutes with sorting.
  lemma SortFilter<T(!new)>(s: seq<T>, keep: T -> bool, key: T -> Key)
    requires forall x, y :: key(x) == key(y) ==> keep(x) == keep(y)
    ensures Filter(Sort(s, key), keep) == Sort(Filter(s, keep), key)
  {
    var sorted := Sort(s, key);
    SortIsStable(s, key);
    FilterSorted(sorted, keep, key);
    forall k: Key ensures Select(Filter(sorted, keep), key, k) == Select(Filter(s, keep), key, k) {
      assert Select(sorted, key, k) == Select(s, key, k);
      var kept := exists x :: x in s && key(x) == k && keep(x);
      SortElements(s, key);
      SelectOfFilter(sorted, keep, key, k, kept);
      SelectOfFilter(s, keep, key, k, kept);
    }
    SortDeterminedBySelect(Filter(s, keep), Filter(sorted, keep), key);
  }

  lemma {:induction false} FilterSorted<T>(s: seq<T>, keep: T -> bool, key: T -> Key)
    requires SortedBy(s, key)
    ensures SortedBy(Filter(s, keep), key)
  {
    if s != [] {
      var front, last := s[..|s| - 1], s[|s| - 1];
      FilterSorted(front, keep, key);
      FilterElements(front, keep);
      var f := Filter(front, keep);
      forall i | 0 <= i < |f| ensures KeyLe(key(f[i]), key(last)) {
        assert f[i] in f;
      }
    }
  }

  // Selecting by a finer key inside a selection by a coarser one.
  lemma {:induction false} SelectNested<T>(s: seq<T>, coarse: T -> Key, fine: T -> Key, c: Key, k: Key)
    requires forall x <- s :: fine(x) == k ==> coarse(x) == c
    ensures Select(Select(s, coarse, c), fine, k) == Select(s, fine, k)
  {
    if s != [] {
      var front, last := s[..|s| - 1], s[|s| - 1];
      assert last in s;
      SelectNested(front, coarse, fine, c, k);
      SelectConcat(Select(front, coarse, c), if coarse(last) == c then [last] else [], fine, k);
      SelectOne(last, fine, k);
    }
  }

  lemma SelectOne<T>(x: T, key: T -> Key, k: Key)
    ensures Select([x], key, k) == if key(x) == k then [x] else []
  {
    assert [x][..0] == [];
  }

  // Two keys that pick out the same elements.
  lemma {:induction false} SelectSame<T>(s: seq<T>, f: T -> Key, k: Key, g: T -> Key, m: Key)
    requires forall x <- s :: f(x) == k <==> g(x) == m
    ensures Select(s, f, k) == Select(s, g, m)
  {
    if s != [] {
      assert s[|s| - 1] in s;
      SelectSame(s[..|s| - 1], f, k, g, m);
    }
  }

  lemma {:induction false} SelectNone<T>(s: seq<T>, key: T -> Key, k: Key)
    requires forall x <- s :: key(x) != k
    ensures Select(s, key, k) == []
  {
    if s != [] {
      assert s[|s| - 1] in s;
      SelectNone(s[..|s| - 1], key, k);
    }
  }

  // Sorting by a coarser key does not disturb elements that agree on a finer one.
  lemma SortKeepsFiner<T(!new)>(s: seq<T>, coarse: T -> Key, fine: T -> Key, c: Key, k: Key)
    requires forall x <- s :: fine(x) == k ==> coarse(x) == c
    ensures Select(Sort(s, coarse), fine, k) == Select(s, fine, k)
  {
    hide Sort, Select;
    SortElements(s, coarse);
    SortIsStable(s, coarse);
    SelectNested(s, coarse, fine, c, k);
    SelectNested(Sort(s, coarse), coarse, fine, c, k);
    assert Select(Sort(s, coarse), coarse, c) == Select(s, coarse, c);
  }

  // ---- Distinct keys ----

  ghost predicate DistinctKeys<T>(s: seq<T>, key: T -> Key) {
    forall i, j :: 0 <= i < j < |s| ==> key(s[i]) != key(s[j])
  }

  lemma {:induction false} DistinctSelect<T>(s: seq<T>, key: T -> Key, k: Key)
    requires DistinctKeys(s, key)
    ensures |Select(s, key, k)| <= 1
  {
    if s != [] {
      var front, last := s[..|s| - 1], s[|s| - 1];
      if key(last) == k {
        forall x <- front ensures key(x) != k {
          var i :| 0 <= i < |front| && front[i] == x;
          assert s[i] == x;
        }
        SelectNone(front, key, k);
      } else {
        DistinctSelect(front, key, k);
      }
    }
  }

  lemma RepeatedSelect<T>(s: seq<T>, key: T -> Key, i: nat, j: nat)
    requires i < j < |s| && key(s[i]) == key(s[j])
    ensures |Select(s, key, key(s[i]))| >= 2
  {
    var k := key(s[i]);
    SelectElements(s[..j], key, k);
    SelectElements(s[j..], key, k);
    assert s[i] in s[..j] && s[j] in s[j..];
    SelectConcat(s[..j], s[j..], key, k);
    assert s == s[..j] + s[j..];
  }

  // Sorting neither repeats nor merges elements with distinct keys.
  lemma SortDistinct<T(!new)>(s: seq<T>, key: T -> Key)
    requires DistinctKeys(s, key)
    ensures DistinctKeys(Sort(s, key), key)
  {
    hide Sort, Select;
    SortIsStable(s, key);
    var sorted := Sort(s, key);
    forall i, j | 0 <= i < j < |sorted| ensures key(sorted[i]) != key(sorted[j]) {
      if key(sorted[i]) == key(sorted[j]) {
        RepeatedSelect(sorted, key, i, j);
        DistinctSelect(s, key, key(sorted[i]));
      }
    }
  }

  // ---- Results by place ----

  // Ordered by key and, for equal keys, by place.
  ghost predicate OrderedPlaces<T>(key: T -> Key, places: seq<nat>, r: seq<T>)
    requires |places| == |r|
  {
    forall i, j :: 0 <= i < j < |r| ==>
      KeyLe(key(r[i]), key(r[j])) && (key(r[i]) == key(r[j]) ==> places[i] < places[j])
  }

  ghost predicate NamesPlaces<T>(s: seq<T>, keep: T -> bool, places: seq<nat>, r: seq<T>)
    requires |places| == |r|
  {
    && (forall i :: 0 <= i < |r| ==> places[i] < |s| && keep(s[places[i]]) && r[i] == s[places[i]])
    && (forall k :: 0 <= k < |s| && keep(s[k]) ==> k in places)
  }

  // The result names every kept place of s once, in order.
  ghost predicate Lists<T>(s: seq<T>, keep: T -> bool, key: T -> Key, places: seq<nat>, r: seq<T>) {
    |places| == |r| && NamesPlaces(s, keep, places, r) && OrderedPlaces(key, places, r)
  }

  // Where an insertion puts the new element.
  lemma {:induction false} InsertPlace<T>(s: seq<T>, x: T, key: T -> Key) returns (at: nat)
    ensures at <= |s| && Insert(s, x, key) == s[..at] + [x] + s[at..]
    ensures at > 0 ==> KeyLe(key(s[at - 1]), key(x))
    ensures forall i :: at <= i < |s| ==> !KeyLe(key(s[i]), key(x))
  {
    if s == [] || KeyLe(key(s[|s| - 1]), key(x)) {
      at := |s|;
      assert s[..at] + [x] + s[at..] == s + [x];
    } else {
      var front, last := s[..|s| - 1], s[|s| - 1];
      at := InsertPlace(front, x, key);
      assert s[..at] + [x] + s[at..] == front[..at] + [x] + front[at..] + [last];
    }
  }

  lemma InsertNames<T(!new)>(s: seq<T>, x: T, keep: T -> bool, places: seq<nat>, r: seq<T>, at: nat)
    requires |places| == |r| && at <= |r| && NamesPlaces(s, keep, places, r) && keep(x)
    ensures NamesPlaces(s + [x], keep, places[..at] + [|s|] + places[at..], r[..at] + [x] + r[at..])
  {
    var after, now, all := places[..at] + [|s|] + places[at..], r[..at] + [x] + r[at..], s + [x];
    forall k | 0 <= k < |all| && keep(all[k]) ensures k in after {
      if k == |s| {
        assert after[at] == k;
      } else {
        var i :| 0 <= i < |places| && places[i] == k;
        assert after[if i < at then i else i + 1] == k;
      }
    }
    forall i | 0 <= i < |now| ensures after[i] < |all| && keep(all[after[i]]) && now[i] == all[after[i]] {
      if i != at {
        var i' := if i < at then i else i - 1;
        assert now[i] == r[i'] && after[i] == places[i'];
      }
    }
  }

  lemma InsertOrder<T(!new)>(x: T, n: nat, key: T -> Key, places: seq<nat>, r: seq<T>, at: nat)
    requires |places| == |r| && at <= |r| && OrderedPlaces(key, places, r) && forall k <- places :: k < n
    requires forall i :: 0 <= i < at ==> KeyLe(key(r[i]), key(x))
    requires forall i :: at <= i < |r| ==> KeyLe(key(x), key(r[i])) && key(x) != key(r[i])
    ensures OrderedPlaces(key, places[..at] + [n] + places[at..], r[..at] + [x] + r[at..])
  {
    hide KeyLe;
    var after, now := places[..at] + [n] + places[at..], r[..at] + [x] + r[at..];
    forall i, j | 0 <= i < j < |now|
      ensures KeyLe(key(now[i]), key(now[j])) && (key(now[i]) == key(now[j]) ==> after[i] < after[j])
    {
      if i != at && j != at {
        var i', j' := if i < at then i else i - 1, if j < at then j else j - 1;
        assert now[i] == r[i'] && now[j] == r[j'] && after[i] == places[i'] && after[j] == places[j'];
      } else if j == at {
        assert after[i] == places[i] && places[i] in places;
      }
    }
  }

  lemma InsertLists<T(!new)>(s: seq<T>, x: T, keep: T -> bool, key: T -> Key, places: seq<nat>, r: seq<T>)
    returns (after: seq<nat>)
    requires Lists(s, keep, key, places, r) && keep(x)
    ensures Lists(s + [x], keep, key, after, Insert(r, x, key))
  {
    hide KeyLe, Insert;
    var at := InsertPlace(r, x, key);
    after := places[..at] + [|s|] + places[at..];
    forall i | 0 <= i < at ensures KeyLe(key(r[i]), key(x)) {
      if i < at - 1 {
        KeyLeTransitive(key(r[i]), key(r[at - 1]), key(x));
      }
    }
    forall i | at <= i < |r| ensures KeyLe(key(x), key(r[i])) && key(x) != key(r[i]) {
      KeyLeTotal(key(x), key(r[i]));
      KeyLeReflexive(key(x));
    }
    forall k <- places ensures k < |s| {
      var i :| 0 <= i < |places| && places[i] == k;
    }
    InsertNames(s, x, keep, places, r, at);
    InsertOrder(x, |s|, key, places, r, at);
  }

  // The stable sort of the kept elements, by place.
  lemma {:induction false} SortLists<T(!new)>(s: seq<T>, keep: T -> bool, key: T -> Key) returns (places: seq<nat>)
    ensures Lists(s, keep, key, places, Sort(Filter(s, keep), key))
  {
    hide KeyLe, Insert;
    if s == [] {
      places := [];
    } else {
      var front, last := s[..|s| - 1], s[|s| - 1];
      var before := SortLists(front, keep, key);
      assert s == front + [last];
      if keep(last) {
        SortSnoc(Filter(front, keep), last, key);
        places := InsertLists(front, last, keep, key, before, Sort(Filter(front, keep), key));
      } else {
        places := before;
        assert Filter(s, keep) == Filter(front, keep);
      }
    }
  }
}

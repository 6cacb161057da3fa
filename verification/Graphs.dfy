/**
Reference graphs of the catalog: entity parents, run provenance, plan supersession.

A graph maps an object to the objects it refers to. `Topo` is an order in which every
object comes after everything it refers to; `IsCycle` a walk back to its start. The
searches answer exactly: no cycle found means there is such an order, and a refusal
comes with a cycle.
*/
module Graphs {
  import opened ByteCodec

  type Graph = map<u128, seq<u128>>

  // Every reference resolves.
  ghost predicate Closed(g: Graph) {
    forall x <- g :: forall y <- g[x] :: y in g
  }

  predicate Edge(g: Graph, x: u128, y: u128) {
    x in g && y in g[x]
  }

  ghost predicate Walk(g: Graph, p: seq<u128>) {
    forall i :: 0 <= i < |p| - 1 ==> Edge(g, p[i], p[i + 1])
  }

  ghost predicate IsCycle(g: Graph, p: seq<u128>) {
    |p| >= 2 && p[0] == p[|p| - 1] && Walk(g, p)
  }

  ghost predicate HasCycle(g: Graph) {
    exists p :: IsCycle(g, p)
  }

  // No object twice, and every object after what it refers to.
  ghost predicate Sorted(g: Graph, order: seq<u128>) {
    && (forall i, j :: 0 <= i < j < |order| ==> order[i] != order[j])
    && (forall i :: 0 <= i < |order| ==> order[i] in g && forall y <- g[order[i]] :: y in order[..i])
  }

  ghost predicate Topo(g: Graph, order: seq<u128>) {
    Sorted(g, order) && forall x <- g :: x in order
  }

  ghost predicate Ordered(g: Graph) {
    exists order :: Topo(g, order)
  }

  // ---- An order excludes cycles ----

  lemma SortedEdge(g: Graph, order: seq<u128>, i: nat, y: u128)
    requires Sorted(g, order) && i < |order| && Edge(g, order[i], y)
    ensures exists j :: 0 <= j < i && order[j] == y
  {
    assert y in order[..i];
  }

  lemma {:induction false} WalkGoesDown(g: Graph, order: seq<u128>, p: seq<u128>, k: nat, i: nat) returns (j: nat)
    requires Sorted(g, order) && Walk(g, p) && k < |p| && i < |order| && order[i] == p[0]
    ensures j < |order| && order[j] == p[k] && (if k == 0 then j == i else j < i)
    decreases k
  {
    if k == 0 {
      j := i;
    } else {
      j := WalkGoesDown(g, order, p, k - 1, i);
      assert Edge(g, p[k - 1], p[k - 1 + 1]);
      SortedEdge(g, order, j, p[k]);
      j :| 0 <= j < (if k == 1 then i else i) && order[j] == p[k];
    }
  }

  lemma OrderedHasNoCycle(g: Graph)
    requires Ordered(g)
    ensures !HasCycle(g)
  {
    var order :| Topo(g, order);
    forall p ensures !IsCycle(g, p) {
      if IsCycle(g, p) {
        assert Edge(g, p[0], p[0 + 1]);
        assert p[0] in order;
        var i :| 0 <= i < |order| && order[i] == p[0];
        var j := WalkGoesDown(g, order, p, |p| - 1, i);
      }
    }
  }

  // ---- The parent chain ----

  // What `n` steps along single references lead to.
  function Climb(g: Graph, x: u128, n: nat): Option<u128> {
    if n == 0 then Some(x)
    else match Climb(g, x, n - 1)
      case None => None
      case Some(y) => if y in g && g[y] != [] then Some(g[y][0]) else None
  }

  ghost predicate SingleReferences(g: Graph) {
    forall x <- g :: |g[x]| <= 1
  }

  // Follows parents until they end or one repeats. A missing parent ends the chain.
  method ParentChainEnds(g: Graph, start: u128) returns (ends: bool)
    ensures ends ==> exists n: nat :: Climb(g, start, n) == None
    ensures !ends ==> HasCycle(g)
  {
    var seen := {};
    var current := Some(start);
    ghost var path: seq<u128> := [];
    while current.Some?
      invariant Walk(g, path)
      invariant current == Climb(g, start, |path|)
      invariant forall x :: x in seen <==> x in path
      invariant current.Some? && path != [] ==> Edge(g, path[|path| - 1], current.value)
      decreases |g.Keys - seen|, current.Some?
    {
      var x := current.value;
      if x in seen {
        ghost var i :| 0 <= i < |path| && path[i] == x;
        ghost var p := path[i..] + [x];
        assert IsCycle(g, p) by { WalkSuffix(g, path, i, x); }
        return false;
      }
      assert x in g ==> g.Keys - (seen + {x}) < g.Keys - seen;
      if x in g {
        SmallerSet(g.Keys - (seen + {x}), g.Keys - seen);
      } else {
        assert g.Keys - (seen + {x}) == g.Keys - seen;
      }
      WalkSnoc(g, path, x);
      seen := seen + {x};
      path := path + [x];
      current := if x in g && g[x] != [] then Some(g[x][0]) else None;
      assert current.Some? ==> g[x][0] in g[x];
    }
    ends := true;
  }

  lemma SmallerSet(a: set<u128>, b: set<u128>)
    requires a < b
    ensures |a| < |b|
  {
    var x :| x in b && x !in a;
    assert a <= b - {x};
    SubsetSize(a, b - {x});
  }

  lemma {:induction false} SubsetSize(a: set<u128>, b: set<u128>)
    requires a <= b
    ensures |a| <= |b|
    decreases a
  {
    if a != {} {
      var x :| x in a;
      SubsetSize(a - {x}, b - {x});
    }
  }

  lemma WalkSnoc(g: Graph, p: seq<u128>, x: u128)
    requires Walk(g, p) && (p != [] ==> Edge(g, p[|p| - 1], x))
    ensures Walk(g, p + [x])
  {
    var q := p + [x];
    forall i | 0 <= i < |q| - 1 ensures Edge(g, q[i], q[i + 1]) {
      if i < |p| - 1 {
        assert Edge(g, p[i], p[i + 1]);
      }
    }
  }

  lemma WalkSuffix(g: Graph, p: seq<u128>, i: nat, x: u128)
    requires Walk(g, p) && i < |p| && Edge(g, p[|p| - 1], x)
    ensures Walk(g, p[i..] + [x])
  {
    var q := p[i..];
    forall k | 0 <= k < |q| - 1 ensures Edge(g, q[k], q[k + 1]) {
      assert Edge(g, p[i + k], p[i + k + 1]);
    }
    WalkSnoc(g, q, x);
  }

  // A chain that starts on a cycle never ends.
  lemma {:induction false} CycleNeverEnds(g: Graph, p: seq<u128>, n: nat) returns (i: nat)
    requires SingleReferences(g) && IsCycle(g, p)
    ensures i < |p| - 1 && Climb(g, p[0], n) == Some(p[i])
  {
    if n == 0 {
      i := 0;
    } else {
      var k := CycleNeverEnds(g, p, n - 1);
      assert Edge(g, p[k], p[k + 1]);
      assert g[p[k]][0] == p[k + 1];
      i := if k + 1 == |p| - 1 then 0 else k + 1;
    }
  }

  lemma ChainsEndMeansNoCycle(g: Graph)
    requires SingleReferences(g)
    requires forall x <- g :: exists n: nat :: Climb(g, x, n) == None
    ensures !HasCycle(g)
  {
    forall p ensures !IsCycle(g, p) {
      if IsCycle(g, p) {
        assert Edge(g, p[0], p[0 + 1]);
        var n: nat :| Climb(g, p[0], n) == None;
        var i := CycleNeverEnds(g, p, n);
      }
    }
  }

  // ---- Without cycles there is an order ----

  ghost predicate IsSource(g: Graph, rest: set<u128>, x: u128) {
    x in g && x in rest && forall y <- g[x] :: y !in rest
  }

  // If everything in `rest` refers into `rest`, walks inside it go on forever.
  lemma {:induction false} WalkInside(g: Graph, rest: set<u128>, n: nat) returns (p: seq<u128>)
    requires rest <= g.Keys && rest != {}
    requires forall x <- rest :: !IsSource(g, rest, x)
    ensures |p| == n + 1 && Walk(g, p) && forall x <- p :: x in rest
    decreases n
  {
    if n == 0 {
      var x :| x in rest;
      p := [x];
    } else {
      p := WalkInside(g, rest, n - 1);
      var last := p[|p| - 1];
      assert last in p;
      var y :| y in g[last] && y in rest;
      WalkSnoc(g, p, y);
      p := p + [y];
    }
  }

  lemma {:induction false} DistinctFits(p: seq<u128>, rest: set<u128>)
    requires forall i, j :: 0 <= i < j < |p| ==> p[i] != p[j]
    requires forall x <- p :: x in rest
    ensures |p| <= |rest|
  {
    if p != [] {
      var last := p[|p| - 1];
      assert last in p;
      DistinctFits(p[..|p| - 1], rest - {last});
    }
  }

  lemma SourceOrCycle(g: Graph, rest: set<u128>)
    requires rest <= g.Keys && rest != {}
    ensures HasCycle(g) || exists x :: IsSource(g, rest, x)
  {
    if forall x <- rest :: !IsSource(g, rest, x) {
      var p := WalkInside(g, rest, |rest|);
      if forall i, j :: 0 <= i < j < |p| ==> p[i] != p[j] {
        DistinctFits(p, rest);
      }
      var i, j :| 0 <= i < j < |p| && p[i] == p[j];
      var q := p[i..j + 1];
      forall k | 0 <= k < |q| - 1 ensures Edge(g, q[k], q[k + 1]) {
        assert Edge(g, p[i + k], p[i + k + 1]);
      }
      assert IsCycle(g, q);
    }
  }

  lemma SortedSnoc(g: Graph, done: seq<u128>, x: u128)
    requires Sorted(g, done) && x in g && x !in done
    requires forall y <- g[x] :: y in done
    ensures Sorted(g, done + [x])
  {
    var more := done + [x];
    forall i | 0 <= i < |more| ensures more[i] in g && forall y <- g[more[i]] :: y in more[..i] {
      if i < |done| {
        assert more[..i] == done[..i];
      } else {
        assert more[..i] == done;
      }
    }
  }

  lemma {:induction false} CompleteOrder(g: Graph, done: seq<u128>, rest: set<u128>)
    requires Closed(g) && !HasCycle(g) && Sorted(g, done)
    requires rest == g.Keys - (set x <- done)
    ensures Ordered(g)
    decreases |rest|
  {
    if rest == {} {
      assert Topo(g, done);
    } else {
      SourceOrCycle(g, rest);
      var x :| IsSource(g, rest, x);
      forall y <- g[x] ensures y in done {
        assert y in g;
      }
      SortedSnoc(g, done, x);
      assert (set y <- done + [x]) == (set y <- done) + {x};
      CompleteOrder(g, done + [x], rest - {x});
    }
  }

  // Objects can be listed after everything they refer to exactly when there is no cycle.
  lemma OrderedIffNoCycle(g: Graph)
    requires Closed(g)
    ensures Ordered(g) <==> !HasCycle(g)
  {
    if Ordered(g) {
      OrderedHasNoCycle(g);
    } else if !HasCycle(g) {
      CompleteOrder(g, [], g.Keys);
    }
  }

  // ---- Depth-first search with an explicit stack ----

  datatype Visit = Active | Complete
  datatype Entry = Entry(id: u128, finish: bool)

  // The objects being visited: finish entries from the bottom of the stack up.
  ghost function Path(stack: seq<Entry>): seq<u128> {
    if stack == [] then []
    else
      var last := stack[|stack| - 1];
      Path(stack[..|stack| - 1]) + (if last.finish then [last.id] else [])
  }

  // Entry m of the stack was pushed for the object of the nearest finish entry below it.
  ghost predicate LinkAt(g: Graph, stack: seq<Entry>, m: nat)
    requires m < |stack|
  {
    var below := Path(stack[..m]);
    below != [] && Edge(g, below[|below| - 1], stack[m].id)
  }

  ghost predicate Linked(g: Graph, stack: seq<Entry>) {
    forall m :: 0 < m < |stack| ==> LinkAt(g, stack, m)
  }

  // Whatever an open object refers to is complete or still above it on the stack.
  ghost predicate Covered(g: Graph, stack: seq<Entry>, done: seq<u128>) {
    forall k :: 0 <= k < |stack| && stack[k].finish ==>
      forall y | Edge(g, stack[k].id, y) :: y in done || exists m :: k < m < |stack| && stack[m].id == y
  }

  ghost predicate SearchInv(g: Graph, states: map<u128, Visit>, stack: seq<Entry>, done: seq<u128>) {
    && (forall t <- stack :: t.id in g)
    && Sorted(g, done)
    && Linked(g, stack)
    && Covered(g, stack, done)
    && states.Keys <= g.Keys
    && (forall x <- states :: (states[x] == Complete <==> x in done) && (states[x] == Active <==> x in Path(stack)))
    && (forall x <- done :: x in states)
    && (forall x <- Path(stack) :: x in states)
  }

  lemma PathSnoc(stack: seq<Entry>, t: Entry)
    ensures Path(stack + [t]) == if t.finish then Path(stack) + [t.id] else Path(stack)
  {
    assert (stack + [t])[..|stack|] == stack;
  }

  lemma LinkedPrefix(g: Graph, stack: seq<Entry>, n: nat)
    requires Linked(g, stack) && n <= |stack|
    ensures Linked(g, stack[..n])
  {
    forall m | 0 < m < n ensures LinkAt(g, stack[..n], m) {
      assert LinkAt(g, stack, m);
      assert stack[..n][..m] == stack[..m];
    }
  }

  lemma {:induction false} PathIsWalk(g: Graph, stack: seq<Entry>)
    requires Linked(g, stack)
    ensures Walk(g, Path(stack))
  {
    if stack != [] {
      var front, last := stack[..|stack| - 1], stack[|stack| - 1];
      LinkedPrefix(g, stack, |front|);
      PathIsWalk(g, front);
      if last.finish && |front| > 0 {
        assert LinkAt(g, stack, |front|);
        WalkSnoc(g, Path(front), last.id);
      }
    }
  }

  lemma TopLink(g: Graph, stack: seq<Entry>)
    requires Linked(g, stack) && |stack| > 1
    ensures LinkAt(g, stack, |stack| - 1)
  {
  }

  // Meeting an object that is still open closes a cycle.
  lemma OpenMeansCycle(g: Graph, front: seq<Entry>, x: u128)
    requires Linked(g, front + [Entry(x, false)]) && front != [] && x in Path(front)
    ensures HasCycle(g)
  {
    hide Edge, Linked, Path;
    var stack := front + [Entry(x, false)];
    assert stack[..|front|] == front;
    LinkedPrefix(g, stack, |front|);
    PathIsWalk(g, front);
    var p := Path(front);
    TopLink(g, stack);
    var i :| 0 <= i < |p| && p[i] == x;
    WalkSuffix(g, p, i, x);
    assert IsCycle(g, p[i..] + [x]);
  }

  // ---- What each turn of the search keeps ----

  lemma LinkAtSame(g: Graph, a: seq<Entry>, b: seq<Entry>, m: nat)
    requires m < |a| && m < |b| && a[..m] == b[..m] && a[m] == b[m] && LinkAt(g, a, m)
    ensures LinkAt(g, b, m)
  {
    hide Path, Edge;
  }

  lemma LinkedSnoc(g: Graph, stack: seq<Entry>, t: Entry)
    requires Linked(g, stack)
    requires stack != [] ==> Path(stack) != [] && Edge(g, Path(stack)[|Path(stack)| - 1], t.id)
    ensures Linked(g, stack + [t])
  {
    hide Edge, Path;
    var more := stack + [t];
    assert more[..|stack|] == stack;
    forall m | 0 < m < |more| ensures LinkAt(g, more, m) {
      if m < |stack| {
        assert more[..m] == stack[..m];
        LinkAtSame(g, stack, more, m);
      }
    }
  }

  // Popping a finish entry completes its object.
  lemma FinishKeeps(g: Graph, states: map<u128, Visit>, stack: seq<Entry>, x: u128, done: seq<u128>)
    requires SearchInv(g, states, stack + [Entry(x, true)], done)
    requires x !in Path(stack)
    ensures SearchInv(g, states[x := Complete], stack, done + [x])
  {
    var before := stack + [Entry(x, true)];
    PathSnoc(stack, Entry(x, true));
    assert before[|stack|] == Entry(x, true);
    assert x in Path(before);
    assert x !in done;
    forall y <- g[x] ensures y in done {
      assert Edge(g, before[|stack|].id, y);
    }
    SortedSnoc(g, done, x);
    LinkedPrefix(g, before, |stack|);
    assert before[..|stack|] == stack;
    CoveredPop(g, before, done, done + [x]);
  }

  // A popped entry only matters to open objects below it through its own object.
  lemma CoveredPop(g: Graph, before: seq<Entry>, done: seq<u128>, more: seq<u128>)
    requires before != [] && Covered(g, before, done)
    requires before[|before| - 1].id in more && forall x <- done :: x in more
    ensures Covered(g, before[..|before| - 1], more)
  {
    var n := |before| - 1;
    var stack := before[..n];
    forall k, y | 0 <= k < |stack| && stack[k].finish && Edge(g, stack[k].id, y)
      ensures y in more || exists m :: k < m < |stack| && stack[m].id == y
    {
      assert before[k].finish && Edge(g, before[k].id, y);
      if y !in done {
        var m :| k < m < |before| && before[m].id == y;
        if m < n {
          assert stack[m].id == y;
        }
      }
    }
  }

  // An entry for a completed object is dropped.
  lemma SkipKeeps(g: Graph, states: map<u128, Visit>, stack: seq<Entry>, x: u128, done: seq<u128>)
    requires SearchInv(g, states, stack + [Entry(x, false)], done) && x in done
    ensures SearchInv(g, states, stack, done)
  {
    var before := stack + [Entry(x, false)];
    PathSnoc(stack, Entry(x, false));
    LinkedPrefix(g, before, |stack|);
    assert before[..|stack|] == stack;
    CoveredPop(g, before, done, done);
  }

  function Visits(ys: seq<u128>): seq<Entry> {
    if ys == [] then [] else Visits(ys[..|ys| - 1]) + [Entry(ys[|ys| - 1], false)]
  }

  // Opening an object replaces its entry by a finish entry with its references above it.
  lemma OpenKeeps(g: Graph, states: map<u128, Visit>, stack: seq<Entry>, x: u128, done: seq<u128>)
    requires Closed(g) && SearchInv(g, states, stack + [Entry(x, false)], done) && x !in states
    ensures SearchInv(g, states[x := Active], stack + [Entry(x, true)] + Visits(g[x]), done)
    ensures x !in Path(stack)
  {
    hide Linked, Covered, Sorted, Path, Closed, Visits;
    var before := stack + [Entry(x, false)];
    assert before[|stack|] in before;
    assert forall t <- stack :: t in before;
    PathSnoc(stack, Entry(x, false));
    OpenPath(g, stack, x);
    OpenLinked(g, stack, x);
    OpenCovered(g, stack, x, done);
    OpenKnown(g, stack, x);
  }

  // References of a closed graph are in it.
  lemma OpenKnown(g: Graph, stack: seq<Entry>, x: u128)
    requires Closed(g) && x in g && forall t <- stack :: t.id in g
    ensures forall t <- stack + [Entry(x, true)] + Visits(g[x]) :: t.id in g
  {
    VisitsIds(g[x]);
    forall t <- stack + [Entry(x, true)] + Visits(g[x]) ensures t.id in g {
      if t in Visits(g[x]) {
        assert t.id in g[x];
      }
    }
  }

  lemma OpenLinked(g: Graph, stack: seq<Entry>, x: u128)
    requires x in g && Linked(g, stack + [Entry(x, false)])
    ensures Linked(g, stack + [Entry(x, true)] + Visits(g[x]))
  {
    hide Linked;
    var before := stack + [Entry(x, false)];
    assert before[..|stack|] == stack;
    LinkedPrefix(g, before, |stack|);
    if stack != [] {
      TopLink(g, before);
    }
    LinkedSnoc(g, stack, Entry(x, true));
    PathSnoc(stack, Entry(x, true));
    VisitsLinked(g, stack + [Entry(x, true)], x, g[x]);
  }

  lemma {:induction false} VisitsIds(ys: seq<u128>)
    ensures |Visits(ys)| == |ys|
    ensures forall i :: 0 <= i < |ys| ==> Visits(ys)[i] == Entry(ys[i], false)
  {
    if ys != [] {
      VisitsIds(ys[..|ys| - 1]);
    }
  }

  lemma {:induction false} VisitsLinked(g: Graph, base: seq<Entry>, x: u128, ys: seq<u128>)
    requires Linked(g, base) && x in g && Path(base) != [] && Path(base)[|Path(base)| - 1] == x
    requires forall y <- ys :: y in g[x]
    ensures Linked(g, base + Visits(ys))
  {
    if ys == [] {
      assert base + Visits(ys) == base;
    } else {
      var front, y := ys[..|ys| - 1], ys[|ys| - 1];
      VisitsLinked(g, base, x, front);
      VisitsPath(base, front);
      LinkedSnoc(g, base + Visits(front), Entry(y, false));
      assert base + Visits(ys) == base + Visits(front) + [Entry(y, false)];
    }
  }

  lemma OpenCovered(g: Graph, stack: seq<Entry>, x: u128, done: seq<u128>)
    requires x in g && Covered(g, stack + [Entry(x, false)], done)
    ensures Covered(g, stack + [Entry(x, true)] + Visits(g[x]), done)
  {
    var before := stack + [Entry(x, false)];
    var after := stack + [Entry(x, true)] + Visits(g[x]);
    VisitsIds(g[x]);
    forall k, y | 0 <= k < |after| && after[k].finish && Edge(g, after[k].id, y)
      ensures y in done || exists m :: k < m < |after| && after[m].id == y
    {
      if k < |stack| {
        assert before[k] == after[k];
        if y !in done {
          var m :| k < m < |before| && before[m].id == y;
          assert after[m].id == y;
        }
      } else if k == |stack| {
        var i :| 0 <= i < |g[x]| && g[x][i] == y;
        assert after[|stack| + 1 + i].id == y;
      }
    }
  }

  ghost predicate Distinct(p: seq<u128>) {
    forall i, j :: 0 <= i < j < |p| ==> p[i] != p[j]
  }

  lemma DistinctSplit(p: seq<u128>, x: u128)
    ensures Distinct(p + [x]) <==> Distinct(p) && x !in p
  {
    var q := p + [x];
    if Distinct(q) {
      forall i, j | 0 <= i < j < |p| ensures p[i] != p[j] {
        assert q[i] != q[j];
      }
      forall i | 0 <= i < |p| ensures p[i] != x {
        assert q[i] != q[|p|];
      }
    }
  }

  lemma OneEntry(g: Graph, root: u128, done: seq<u128>)
    ensures Linked(g, [Entry(root, false)]) && Covered(g, [Entry(root, false)], done) && Path([Entry(root, false)]) == []
  {
    assert [Entry(root, false)][..0] == [];
  }

  // An entry met while its object is open is not the root's.
  lemma OpenHasFinish(stack: seq<Entry>, x: u128)
    requires x in Path(stack)
    ensures stack != []
  {
  }

  lemma OpenPath(g: Graph, stack: seq<Entry>, x: u128)
    requires x in g
    ensures Path(stack + [Entry(x, true)] + Visits(g[x])) == Path(stack) + [x]
  {
    PathSnoc(stack, Entry(x, true));
    VisitsPath(stack + [Entry(x, true)], g[x]);
  }

  lemma {:induction false} VisitsPath(stack: seq<Entry>, ys: seq<u128>)
    ensures Path(stack + Visits(ys)) == Path(stack)
  {
    hide Path;
    if ys == [] {
      assert stack + Visits(ys) == stack;
    } else {
      var front, last := ys[..|ys| - 1], Entry(ys[|ys| - 1], false);
      VisitsPath(stack, front);
      PathSnoc(stack + Visits(front), last);
      OneVisitMore(stack, Visits(front), last);
    }
  }

  lemma OneVisitMore(stack: seq<Entry>, visits: seq<Entry>, last: Entry)
    ensures stack + (visits + [last]) == stack + visits + [last]
  {
  }

  // The state of a search from one root that started with `earlier` complete.
  ghost predicate Searching(g: Graph, states: map<u128, Visit>, stack: seq<Entry>, done: seq<u128>,
                            root: u128, earlier: seq<u128>)
  {
    && SearchInv(g, states, stack, done)
    && Distinct(Path(stack))
    && (forall x <- earlier :: x in done)
    && (root in done || exists t <- stack :: t.id == root)
  }

  ghost function Unvisited(g: Graph, states: map<u128, Visit>): nat {
    |g.Keys - states.Keys|
  }

  lemma StartSearch(g: Graph, states: map<u128, Visit>, done: seq<u128>, root: u128)
    requires root in g && SearchInv(g, states, [], done)
    ensures Searching(g, states, [Entry(root, false)], done, root, done)
  {
    hide Linked, Covered, Sorted;
    OneEntry(g, root, done);
    assert Entry(root, false) in [Entry(root, false)];
  }

  lemma FinishStep(g: Graph, states: map<u128, Visit>, rest: seq<Entry>, x: u128, done: seq<u128>, root: u128, earlier: seq<u128>)
    requires Searching(g, states, rest + [Entry(x, true)], done, root, earlier)
    ensures Searching(g, states[x := Complete], rest, done + [x], root, earlier)
  {
    hide SearchInv;
    PathSnoc(rest, Entry(x, true));
    DistinctSplit(Path(rest), x);
    FinishKeeps(g, states, rest, x, done);
    RootStays(rest, Entry(x, true), done + [x], root);
  }

  lemma SkipStep(g: Graph, states: map<u128, Visit>, rest: seq<Entry>, x: u128, done: seq<u128>, root: u128, earlier: seq<u128>)
    requires Searching(g, states, rest + [Entry(x, false)], done, root, earlier) && x in states && states[x] == Complete
    ensures Searching(g, states, rest, done, root, earlier)
  {
    assert x in done by { hide Linked, Covered, Sorted; }
    hide SearchInv;
    PathSnoc(rest, Entry(x, false));
    SkipKeeps(g, states, rest, x, done);
    RootStays(rest, Entry(x, false), done, root);
  }

  lemma RootStays(rest: seq<Entry>, t: Entry, done: seq<u128>, root: u128)
    requires root in done || exists u <- rest + [t] :: u.id == root
    requires t.id in done
    ensures root in done || exists u <- rest :: u.id == root
  {
  }

  lemma OpenStep(g: Graph, states: map<u128, Visit>, rest: seq<Entry>, x: u128, done: seq<u128>, root: u128, earlier: seq<u128>)
    requires Closed(g) && Searching(g, states, rest + [Entry(x, false)], done, root, earlier) && x !in states
    ensures x in g && Unvisited(g, states[x := Active]) < Unvisited(g, states)
    ensures Searching(g, states[x := Active], rest + [Entry(x, true)] + Visits(g[x]), done, root, earlier)
  {
    EntryKnown(g, states, rest, x, done);
    hide SearchInv, Path;
    OpenKeeps(g, states, rest, x, done);
    PathSnoc(rest, Entry(x, false));
    OpenPath(g, rest, x);
    DistinctSplit(Path(rest), x);
    assert states[x := Active].Keys == states.Keys + {x};
    SmallerSet(g.Keys - (states.Keys + {x}), g.Keys - states.Keys);
    RootMoves(rest, x, Visits(g[x]), root);
  }

  lemma EntryKnown(g: Graph, states: map<u128, Visit>, rest: seq<Entry>, x: u128, done: seq<u128>)
    requires SearchInv(g, states, rest + [Entry(x, false)], done)
    ensures x in g
  {
    hide Linked, Covered, Sorted;
    var before := rest + [Entry(x, false)];
    assert before[|rest|] in before;
  }

  lemma RootMoves(rest: seq<Entry>, x: u128, more: seq<Entry>, root: u128)
    ensures (exists t <- rest + [Entry(x, false)] :: t.id == root)
        ==> exists t <- rest + [Entry(x, true)] + more :: t.id == root
  {
    var before, after := rest + [Entry(x, false)], rest + [Entry(x, true)] + more;
    if t :| t in before && t.id == root {
      assert after[|rest|] == Entry(x, true) && after[|rest|] in after;
      assert t in rest ==> t in after;
    }
  }

  lemma CycleStep(g: Graph, states: map<u128, Visit>, rest: seq<Entry>, x: u128, done: seq<u128>, root: u128, earlier: seq<u128>)
    requires Searching(g, states, rest + [Entry(x, false)], done, root, earlier) && x in states && states[x] == Active
    ensures HasCycle(g)
  {
    hide Linked, Covered, Sorted;
    PathSnoc(rest, Entry(x, false));
    OpenHasFinish(rest, x);
    OpenMeansCycle(g, rest, x);
  }

  // Visits everything reachable from one root.
  method SearchFrom(g: Graph, root: u128, states0: map<u128, Visit>, ghost done0: seq<u128>)
    returns (ok: bool, states: map<u128, Visit>, ghost done: seq<u128>)
    requires Closed(g) && root in g && SearchInv(g, states0, [], done0)
    ensures !ok ==> HasCycle(g)
    ensures ok ==> SearchInv(g, states, [], done) && root in done && forall x <- done0 :: x in done
  {
    hide SearchInv, Searching, HasCycle, Closed, Path, Unvisited, Visits;
    states, done := states0, done0;
    var stack := [Entry(root, false)];
    StartSearch(g, states, done, root);
    while stack != []
      invariant Searching(g, states, stack, done, root, done0)
      decreases Unvisited(g, states), |stack|
    {
      var entry := stack[|stack| - 1];
      var rest := stack[..|stack| - 1];
      var id := entry.id;
      assert stack == rest + [entry];
      if entry.finish {
        FinishStep(g, states, rest, id, done, root, done0);
        FinishedKnown(g, states, rest, id, done, root, done0);
        states, stack, done := states[id := Complete], rest, done + [id];
      } else if id in states && states[id] == Complete {
        SkipStep(g, states, rest, id, done, root, done0);
        stack := rest;
      } else if id in states {
        CycleStep(g, states, rest, id, done, root, done0);
        return false, states, done;
      } else {
        OpenStep(g, states, rest, id, done, root, done0);
        states := states[id := Active];
        stack := rest + [Entry(id, true)] + Visits(g[id]);
      }
    }
    SearchEnds(g, states, done, root, done0);
    ok := true;
  }

  lemma FinishedKnown(g: Graph, states: map<u128, Visit>, rest: seq<Entry>, x: u128, done: seq<u128>, root: u128, earlier: seq<u128>)
    requires Searching(g, states, rest + [Entry(x, true)], done, root, earlier)
    ensures Unvisited(g, states[x := Complete]) == Unvisited(g, states)
  {
    hide Linked, Covered, Sorted;
    PathSnoc(rest, Entry(x, true));
    assert x in Path(rest + [Entry(x, true)]);
    assert states[x := Complete].Keys == states.Keys;
  }

  lemma SearchEnds(g: Graph, states: map<u128, Visit>, done: seq<u128>, root: u128, earlier: seq<u128>)
    requires Searching(g, states, [], done, root, earlier)
    ensures SearchInv(g, states, [], done) && root in done && forall x <- earlier :: x in done
  {
  }

  // The search over all objects: it refuses exactly the graphs with a cycle.
  method SearchCycles(g: Graph) returns (ok: bool)
    requires Closed(g)
    ensures ok <==> !HasCycle(g)
    ensures ok <==> Ordered(g)
  {
    hide Linked, Covered, Sorted, HasCycle;
    OrderedIffNoCycle(g);
    var states: map<u128, Visit> := map[];
    ghost var done: seq<u128> := [];
    var roots := g.Keys;
    assert SearchInv(g, states, [], done) by { EmptySearch(g); }
    while roots != {}
      invariant roots <= g.Keys
      invariant SearchInv(g, states, [], done)
      invariant forall x <- g :: x in roots || x in done
      decreases |roots|
    {
      var root :| root in roots;
      roots := roots - {root};
      if root !in states || states[root] != Complete {
        var found;
        found, states, done := SearchFrom(g, root, states, done);
        if !found {
          return false;
        }
      }
    }
    assert Topo(g, done);
    ok := true;
  }

  lemma EmptySearch(g: Graph)
    ensures SearchInv(g, map[], [], [])
  {
  }

  // ---- Layer by layer ----

  // Repeatedly lists everything whose references are all listed already.
  method LayeredOrder(g: Graph) returns (order: Option<seq<u128>>)
    requires Closed(g)
    ensures order.Some? <==> !HasCycle(g)
    ensures order.Some? ==> Topo(g, order.value)
  {
    hide Sorted, HasCycle;
    var remaining := g.Keys;
    var listed: seq<u128> := [];
    assert Sorted(g, []) by { EmptySorted(g); }
    while remaining != {}
      invariant remaining <= g.Keys
      invariant forall x <- g :: x in remaining <==> x !in listed
      invariant Sorted(g, listed)
      decreases |remaining|
    {
      var ready := set x | x in remaining && forall y <- g[x] :: y !in remaining;
      if ready == {} {
        SourceOrCycle(g, remaining);
        assert forall x :: IsSource(g, remaining, x) ==> x in ready;
        return None;
      }
      listed := ListReady(g, listed, ready);
      SmallerSet(remaining - ready, remaining);
      remaining := remaining - ready;
    }
    assert Topo(g, listed);
    OrderedHasNoCycle(g);
    order := Some(listed);
  }

  lemma EmptySorted(g: Graph)
    ensures Sorted(g, [])
  {
  }

  method ListReady(g: Graph, listed: seq<u128>, ready: set<u128>) returns (r: seq<u128>)
    requires Sorted(g, listed) && ready <= g.Keys
    requires forall x <- ready :: x !in listed && forall y <- g[x] :: y in listed
    ensures Sorted(g, r)
    ensures forall x :: x in r <==> x in listed || x in ready
  {
    hide Sorted;
    r := listed;
    var pending := ready;
    while pending != {}
      invariant pending <= ready
      invariant Sorted(g, r)
      invariant forall x :: x in r <==> x in listed || (x in ready && x !in pending)
      decreases |pending|
    {
      var x :| x in pending;
      SortedSnoc(g, r, x);
      r := r + [x];
      pending := pending - {x};
    }
  }
}

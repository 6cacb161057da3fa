/**
Streaming aggregates that merge.

A gauge holds its previous value until the next sample unless the gap is too long; a
counter adds what it grew by and recognises resets. Merging the aggregates of two
adjacent runs of samples gives the aggregate of the whole run, and fails exactly when
aggregating the whole run fails. Values are real numbers.
*/
module Aggregate {
  import opened ByteCodec

  datatype Sample = Sample(timestamp: i64, value: real)

  function Min(a: real, b: real): real { if a <= b then a else b }

  function Max(a: real, b: real): real { if a >= b then a else b }

  // The integral of a value held for a duration in microseconds.
  function Held(value: real, micros: int): real { value * micros as real }

  // ---- Gauges ----

  datatype Gauge = Gauge(
    count: nat, sum: real, min: real, max: real, first: Sample, last: Sample, integral: real, covered: i64)

  function FromSample(s: Sample): Gauge {
    Gauge(1, s.value, s.value, s.value, s, s, 0.0, 0)
  }

  // None is the error; the source leaves the state unchanged then.
  function PushGauge(g: Gauge, s: Sample, maxGap: i64): Option<Gauge> {
    var gap := s.timestamp - g.last.timestamp;
    if gap < 0 || !IsI64(gap) then None
    else if gap <= maxGap then
      if !IsI64(g.covered + gap) then None
      else Some(Gauge(g.count + 1, g.sum + s.value, Min(g.min, s.value), Max(g.max, s.value), g.first, s,
                      g.integral + Held(g.last.value, gap), g.covered + gap))
    else Some(Gauge(g.count + 1, g.sum + s.value, Min(g.min, s.value), Max(g.max, s.value), g.first, s,
                    g.integral, g.covered))
  }

  function MergeGauge(a: Gauge, b: Gauge, maxGap: i64): Option<Gauge> {
    var gap := b.first.timestamp - a.last.timestamp;
    if gap < 0 || !IsI64(gap) then None
    else
      var bridge := if gap <= maxGap then gap else 0;
      if !IsI64(a.covered + bridge) || !IsI64(a.covered + bridge + b.covered) then None
      else Some(Gauge(a.count + b.count, a.sum + b.sum, Min(a.min, b.min), Max(a.max, b.max), a.first, b.last,
                      a.integral + (if gap <= maxGap then Held(a.last.value, gap) else 0.0) + b.integral,
                      a.covered + bridge + b.covered))
  }

  // Aggregating a non-empty run of samples one by one.
  function DirectGauge(ss: seq<Sample>, maxGap: i64): Option<Gauge>
    requires ss != []
  {
    if |ss| == 1 then Some(FromSample(ss[0]))
    else match DirectGauge(ss[..|ss| - 1], maxGap)
      case None => None
      case Some(g) => PushGauge(g, ss[|ss| - 1], maxGap)
  }

  lemma {:induction false} DirectGaugeShape(ss: seq<Sample>, maxGap: i64)
    requires ss != [] && DirectGauge(ss, maxGap).Some?
    ensures var g := DirectGauge(ss, maxGap).value;
            g.covered >= 0 && g.first == ss[0] && g.last == ss[|ss| - 1] && g.count == |ss|
  {
    if |ss| > 1 {
      DirectGaugeShape(ss[..|ss| - 1], maxGap);
    }
  }

  // ---- What a run of samples adds up to ----

  function SumValues(ss: seq<Sample>): real {
    if ss == [] then 0.0 else SumValues(ss[..|ss| - 1]) + ss[|ss| - 1].value
  }

  // The time during which some value is held: the gaps no longer than the limit.
  function HeldMicros(ss: seq<Sample>, maxGap: int): int {
    if |ss| < 2 then 0
    else
      var gap := ss[|ss| - 1].timestamp - ss[|ss| - 2].timestamp;
      HeldMicros(ss[..|ss| - 1], maxGap) + (if gap <= maxGap then gap else 0)
  }

  // The energy the held values carry: each times the gap after it.
  function HeldEnergy(ss: seq<Sample>, maxGap: int): real {
    if |ss| < 2 then 0.0
    else
      var previous, next := ss[|ss| - 2], ss[|ss| - 1];
      var gap := next.timestamp - previous.timestamp;
      HeldEnergy(ss[..|ss| - 1], maxGap) + (if gap <= maxGap then previous.value * (gap as real) else 0.0)
  }

  // What one more sample adds to the sums.
  lemma PushSums(g: Gauge, s: Sample, maxGap: i64)
    requires PushGauge(g, s, maxGap).Some?
    ensures var after, gap := PushGauge(g, s, maxGap).value, s.timestamp - g.last.timestamp;
            && after.count == g.count + 1 && after.sum == g.sum + s.value && after.first == g.first && after.last == s
            && after.covered == g.covered + (if gap <= maxGap then gap else 0)
            && after.integral == g.integral + (if gap <= maxGap then g.last.value * (gap as real) else 0.0)
            && after.min == (if s.value < g.min then s.value else g.min)
            && after.max == (if s.value > g.max then s.value else g.max)
  {
  }

  // The sums of the aggregate, in terms of the samples.
  lemma {:induction false} GaugeSums(ss: seq<Sample>, maxGap: i64)
    requires ss != [] && DirectGauge(ss, maxGap).Some?
    ensures var g := DirectGauge(ss, maxGap).value;
            && g.count == |ss| && g.sum == SumValues(ss) && g.first == ss[0] && g.last == ss[|ss| - 1]
            && g.covered == HeldMicros(ss, maxGap) && g.integral == HeldEnergy(ss, maxGap)
  {
    hide PushGauge;
    if |ss| == 1 {
      assert SumValues(ss) == SumValues(ss[..0]) + ss[0].value && SumValues(ss[..0]) == 0.0;
    } else {
      var front := ss[..|ss| - 1];
      GaugeSums(front, maxGap);
      PushSums(DirectGauge(front, maxGap).value, ss[|ss| - 1], maxGap);
    }
  }

  lemma {:induction false} GaugeExtremes(ss: seq<Sample>, maxGap: i64)
    requires ss != [] && DirectGauge(ss, maxGap).Some?
    ensures var g := DirectGauge(ss, maxGap).value;
            && (forall s <- ss :: g.min <= s.value <= g.max)
            && (exists s <- ss :: s.value == g.min) && (exists s <- ss :: s.value == g.max)
  {
    hide PushGauge;
    if |ss| == 1 {
      assert ss == [ss[0]];
    } else {
      var front, last := ss[..|ss| - 1], ss[|ss| - 1];
      GaugeExtremes(front, maxGap);
      var before := DirectGauge(front, maxGap).value;
      PushSums(before, last, maxGap);
      assert ss == front + [last];
      var low :| low in front && low.value == before.min;
      var high :| high in front && high.value == before.max;
      assert low in ss && high in ss && last in ss;
    }
  }

  // Every field of the aggregate, in terms of the samples.
  lemma GaugeMeaning(ss: seq<Sample>, maxGap: i64)
    requires ss != [] && DirectGauge(ss, maxGap).Some?
    ensures var g := DirectGauge(ss, maxGap).value;
            && g.count == |ss| && g.sum == SumValues(ss) && g.first == ss[0] && g.last == ss[|ss| - 1]
            && g.covered == HeldMicros(ss, maxGap) && g.integral == HeldEnergy(ss, maxGap)
            && (forall s <- ss :: g.min <= s.value <= g.max)
            && (exists s <- ss :: s.value == g.min) && (exists s <- ss :: s.value == g.max)
  {
    hide DirectGauge, SumValues, HeldMicros, HeldEnergy;
    GaugeSums(ss, maxGap);
    GaugeExtremes(ss, maxGap);
  }

  // A sample out of order, an overflowing gap, or coverage that overflows.
  predicate FailsAt(ss: seq<Sample>, maxGap: i64, i: nat)
    requires 0 < i < |ss|
  {
    || ss[i].timestamp < ss[i - 1].timestamp
    || ss[i].timestamp - ss[i - 1].timestamp > I64_MAX
    || HeldMicros(ss[..i + 1], maxGap) > I64_MAX
  }

  // Aggregating fails exactly when some sample does.
  lemma {:induction false} GaugeFailsIff(ss: seq<Sample>, maxGap: i64)
    requires ss != []
    ensures DirectGauge(ss, maxGap).None? <==> exists i :: 0 < i < |ss| && FailsAt(ss, maxGap, i)
  {
    if |ss| > 1 {
      var n := |ss| - 1;
      var front := ss[..n];
      GaugeFailsIff(front, maxGap);
      forall i | 0 < i < n ensures FailsAt(front, maxGap, i) <==> FailsAt(ss, maxGap, i) {
        assert front[..i + 1] == ss[..i + 1];
      }
      assert ss[..n + 1] == ss;
      if DirectGauge(front, maxGap).Some? {
        GaugeMeaning(front, maxGap);
        DirectGaugeShape(front, maxGap);
        assert DirectGauge(ss, maxGap).None? <==> FailsAt(ss, maxGap, n);
      }
    }
  }

  function PushOnto(g: Option<Gauge>, s: Sample, maxGap: i64): Option<Gauge> {
    match g case None => None case Some(m) => PushGauge(m, s, maxGap)
  }

  function MergeOnto(a: Gauge, g: Option<Gauge>, maxGap: i64): Option<Gauge> {
    match g case None => None case Some(b) => MergeGauge(a, b, maxGap)
  }

  // Pushing and then merging is merging and then pushing, failures included.
  lemma PushThenMerge(a: Gauge, b: Gauge, s: Sample, maxGap: i64)
    requires a.covered >= 0 && b.covered >= 0
    ensures MergeOnto(a, PushGauge(b, s, maxGap), maxGap) == PushOnto(MergeGauge(a, b, maxGap), s, maxGap)
  {
    hide Held;
  }

  /**
  Gauge merge is exact: for every split of every run of samples and every gap limit, merging
  the two aggregates equals aggregating the run, and one fails exactly when the other does.
  */
  lemma {:induction false} GaugeMergeIsDirect(xs: seq<Sample>, ys: seq<Sample>, maxGap: i64)
    requires xs != [] && ys != []
    ensures DirectGauge(xs + ys, maxGap) ==
            match DirectGauge(xs, maxGap)
            case None => None
            case Some(a) =>
              match DirectGauge(ys, maxGap)
              case None => None
              case Some(b) => MergeGauge(a, b, maxGap)
    decreases |ys|
  {
    hide PushGauge, MergeGauge;
    var n := |ys| - 1;
    assert (xs + ys)[..|xs| + n] == xs + ys[..n];
    if n == 0 {
      assert xs + ys[..n] == xs;
      if DirectGauge(xs, maxGap).Some? {
        DirectGaugeShape(xs, maxGap);
        MergeOne(DirectGauge(xs, maxGap).value, ys[0], maxGap);
      }
    } else {
      GaugeMergeIsDirect(xs, ys[..n], maxGap);
      if DirectGauge(xs, maxGap).Some? && DirectGauge(ys[..n], maxGap).Some? {
        var a, b := DirectGauge(xs, maxGap).value, DirectGauge(ys[..n], maxGap).value;
        DirectGaugeShape(xs, maxGap);
        DirectGaugeShape(ys[..n], maxGap);
        PushThenMerge(a, b, ys[n], maxGap);
      }
    }
  }

  lemma MergeOne(a: Gauge, s: Sample, maxGap: i64)
    requires a.covered >= 0
    ensures MergeGauge(a, FromSample(s), maxGap) == PushGauge(a, s, maxGap)
  {
    hide Held;
  }

  // The state the source updates in place.
  class GaugeAggregate {
    var count: nat
    var sum: real
    var min: real
    var max: real
    var first: Sample
    var last: Sample
    var integral: real
    var covered: i64

    constructor (s: Sample)
      ensures Value() == FromSample(s)
    {
      count, sum, min, max, first, last, integral, covered := 1, s.value, s.value, s.value, s, s, 0.0, 0;
    }

    function Value(): Gauge
      reads this
    {
      Gauge(count, sum, min, max, first, last, integral, covered)
    }

    // A refused sample leaves the state as it was.
    method Push(s: Sample, maxGap: i64) returns (ok: bool)
      modifies this
      ensures match PushGauge(old(Value()), s, maxGap)
              case None => !ok && Value() == old(Value())
              case Some(g) => ok && Value() == g
      ensures var gap := s.timestamp - old(last).timestamp;
              && (ok <==> 0 <= gap <= I64_MAX && (gap <= maxGap ==> IsI64(old(covered) + gap)))
              && (ok ==>
                    && count == old(count) + 1 && sum == old(sum) + s.value && first == old(first) && last == s
                    && min == (if s.value < old(min) then s.value else old(min))
                    && max == (if s.value > old(max) then s.value else old(max))
                    && integral == old(integral) + (if gap <= maxGap then old(last).value * (gap as real) else 0.0)
                    && covered == old(covered) + (if gap <= maxGap then gap else 0))
    {
      if s.timestamp < last.timestamp {
        return false;
      }
      var gap := s.timestamp - last.timestamp;
      if !IsI64(gap) {
        return false;
      }
      if gap <= maxGap {
        if !IsI64(covered + gap) {
          return false;
        }
        integral := integral + Held(last.value, gap);
        covered := covered + gap;
      }
      count := count + 1;
      sum := sum + s.value;
      min := Min(min, s.value);
      max := Max(max, s.value);
      last := s;
      ok := true;
    }
  }

  // ---- Counters ----

  datatype Counter = Counter(count: nat, first: Sample, last: Sample, positiveDelta: real, resets: nat)

  function CounterFromSample(s: Sample): Counter {
    Counter(1, s, s, 0.0, 0)
  }

  // How much a counter grew between two readings; a fall means it restarted from zero.
  function Grown(previous: real, next: real): real {
    if next >= previous then next - previous else Max(next, 0.0)
  }

  function Resets(previous: real, next: real): nat {
    if next >= previous then 0 else 1
  }

  function PushCounter(c: Counter, s: Sample): Option<Counter> {
    if s.timestamp < c.last.timestamp then None
    else Some(Counter(c.count + 1, c.first, s, c.positiveDelta + Grown(c.last.value, s.value),
                      c.resets + Resets(c.last.value, s.value)))
  }

  function MergeCounter(a: Counter, b: Counter): Option<Counter> {
    if b.first.timestamp < a.last.timestamp then None
    else Some(Counter(a.count + b.count, a.first, b.last,
                      a.positiveDelta + Grown(a.last.value, b.first.value) + b.positiveDelta,
                      a.resets + Resets(a.last.value, b.first.value) + b.resets))
  }

  function DirectCounter(ss: seq<Sample>): Option<Counter>
    requires ss != []
  {
    if |ss| == 1 then Some(CounterFromSample(ss[0]))
    else match DirectCounter(ss[..|ss| - 1])
      case None => None
      case Some(c) => PushCounter(c, ss[|ss| - 1])
  }

  // Counter merge is exact as well, resets across the seam included.
  lemma {:induction false} CounterMergeIsDirect(xs: seq<Sample>, ys: seq<Sample>)
    requires xs != [] && ys != []
    ensures DirectCounter(xs + ys) ==
            match DirectCounter(xs)
            case None => None
            case Some(a) =>
              match DirectCounter(ys)
              case None => None
              case Some(b) => MergeCounter(a, b)
    decreases |ys|
  {
    var n := |ys| - 1;
    assert (xs + ys)[..|xs| + n] == xs + ys[..n];
    if n == 0 {
      assert xs + ys[..n] == xs;
    } else {
      CounterMergeIsDirect(xs, ys[..n]);
    }
  }

  // What each reading adds: its rise, or after a fall the new reading counted from zero.
  function Growth(ss: seq<Sample>): real {
    if |ss| < 2 then 0.0
    else
      var previous, next := ss[|ss| - 2].value, ss[|ss| - 1].value;
      Growth(ss[..|ss| - 1]) + (if next < previous then if next > 0.0 then next else 0.0 else next - previous)
  }

  function Falls(ss: seq<Sample>): nat {
    if |ss| < 2 then 0 else Falls(ss[..|ss| - 1]) + (if ss[|ss| - 1].value < ss[|ss| - 2].value then 1 else 0)
  }

  // Every field, in terms of the samples; it fails exactly on samples out of order.
  lemma {:induction false} CounterMeaning(ss: seq<Sample>)
    requires ss != []
    ensures DirectCounter(ss).None? <==> exists i :: 0 < i < |ss| && ss[i].timestamp < ss[i - 1].timestamp
    ensures DirectCounter(ss).Some? ==>
              DirectCounter(ss).value == Counter(|ss|, ss[0], ss[|ss| - 1], Growth(ss), Falls(ss))
  {
    if |ss| > 1 {
      CounterMeaning(ss[..|ss| - 1]);
    }
  }

  // Growth is never negative, and without resets it is the difference of the last and first reading.
  lemma {:induction false} CounterGrowth(ss: seq<Sample>)
    requires ss != [] && DirectCounter(ss).Some?
    ensures var c := DirectCounter(ss).value;
            && c.positiveDelta >= 0.0 && c.first == ss[0] && c.last == ss[|ss| - 1]
            && (c.resets == 0 ==> c.positiveDelta == c.last.value - c.first.value)
  {
    if |ss| > 1 {
      CounterGrowth(ss[..|ss| - 1]);
    }
  }
}

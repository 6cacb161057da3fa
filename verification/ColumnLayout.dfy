/**
The column encoding of a segment block, read off the points.

`VarintShape` and `XorBit` say what the number forms are; `ColumnContents` lists what each of the
seven columns holds, point by point; `EncodableIff` which blocks can be written; and
`NothingLeftOver` that the reader accepts no byte it does not use.
*/
module ColumnLayout {
  import opened ByteCodec
  import opened Model
  import opened IdentityFrames
  import opened ColumnCodec

  // ---- Number forms ----

  // The value of groups of seven bits, lowest first.
  function GroupValue(bytes: Bytes): nat {
    if bytes == [] then 0 else bytes[0] % 128 + 128 * GroupValue(bytes[1..])
  }

  // Seven bits a byte, lowest first, the high bit set on all but the last byte, and no superfluous byte.
  lemma {:induction false} VarintShape(n: nat)
    ensures var v := Varint(n);
            && v != [] && GroupValue(v) == n
            && (forall i :: 0 <= i < |v| - 1 ==> v[i] >= 128) && v[|v| - 1] < 128
            && (|v| > 1 ==> v[|v| - 1] > 0)
    decreases n
  {
    if n >= 128 {
      VarintShape(n / 128);
      assert Varint(n)[1..] == Varint(n / 128);
    } else {
      assert Varint(n)[1..] == [];
    }
  }

  // Signed numbers alternate: 0, -1, 1, -2, 2 and so on.
  lemma ZigzagOrder(v: i64)
    ensures Zigzag(v) % 2 == (if v < 0 then 1 else 0)
    ensures (Zigzag(v) + 1) / 2 == (if v < 0 then 0 - v else v as int)
  {
  }

  function Bit(n: nat, i: nat): nat {
    if i == 0 then n % 2 else Bit(n / 2, i - 1)
  }

  lemma {:induction false} XorBit(a: nat, b: nat, width: nat, i: nat)
    requires i < width
    ensures Bit(XorBits(a, b, width), i) == if Bit(a, i) == Bit(b, i) then 0 else 1
  {
    var x := XorBits(a, b, width);
    assert x / 2 == XorBits(a / 2, b / 2, width - 1);
    if i > 0 {
      XorBit(a / 2, b / 2, width - 1, i - 1);
    }
  }

  // ---- Which blocks can be written ----

  // The step to point i, and its change from the step before.
  predicate StepFits(points: seq<Point>, i: nat)
    requires 0 < i < |points|
  {
    && IsI64(points[i].validTime - points[i - 1].validTime)
    && (i > 1 ==> IsI64(points[i].validTime - 2 * points[i - 1].validTime + points[i - 2].validTime))
  }

  ghost predicate StepsFit(points: seq<Point>, from: nat) {
    from > 0 && forall i :: from <= i < |points| ==> StepFits(points, i)
  }

  function Step(points: seq<Point>, k: nat): int
    requires k < |points|
  {
    if k == 0 then 0 else points[k].validTime - points[k - 1].validTime
  }

  lemma StepFitsIff(points: seq<Point>, k: nat)
    requires k + 1 < |points|
    ensures StepFits(points, k + 1) <==>
            IsI64(Step(points, k + 1)) && (k > 0 ==> IsI64(Step(points, k + 1) - Step(points, k)))
  {
  }

  lemma {:induction false} TimesFitIff(points: seq<Point>, k: nat)
    requires k < |points| && IsI64(Step(points, k))
    ensures TimesFit(points[k + 1..], points[k].validTime, Step(points, k)) <==> StepsFit(points, k + 1)
    decreases |points| - k
  {
    hide StepFits;
    var rest := points[k + 1..];
    if rest != [] {
      assert rest[0] == points[k + 1] && rest[1..] == points[k + 2..];
      StepFitsIff(points, k);
      if IsI64(Step(points, k + 1)) {
        TimesFitIff(points, k + 1);
        assert StepsFit(points, k + 1) <==> StepFits(points, k + 1) && StepsFit(points, k + 2);
      }
    }
  }

  // A block can be written exactly when it is not empty and every difference it stores fits in 64 bits.
  lemma EncodableIff(points: seq<Point>)
    ensures Encodable(points) <==>
            && points != []
            && (forall i :: 0 < i < |points| ==> StepFits(points, i))
            && forall p <- points ::
                 && IsI64(p.validEnd - p.validTime) && IsI64(p.knowledgeTime - p.validTime)
                 && IsI64(p.changeTime - p.knowledgeTime)
  {
    hide TimesFit, StepFits;
    if points != [] {
      TimesFitIff(points, 0);
    }
  }

  // ---- What the columns hold ----

  // One point's row: three differences of times, the run, the value bits, quality and flags.
  lemma RowOne(p: Point, previous: Option<u64>)
    requires RowFits(p)
    ensures EncodeRows([p], previous) ==
            Rows(Varint(Zigzag(p.validEnd - p.validTime)), Varint(Zigzag(p.knowledgeTime - p.validTime)),
                 Varint(Zigzag(p.changeTime - p.knowledgeTime)), Varint(p.runId),
                 if previous.None? then LE(p.value, 8) else Varint(XorBits(p.value, previous.value, 64)),
                 Varint(p.quality) + Varint(p.flags))
  {
    hide Varint, Zigzag, LE, XorBits;
    assert [p][1..] == [];
    Nothing(Some(p.value));
  }

  lemma Nothing(previous: Option<u64>)
    ensures EncodeRows([], previous) == Rows([], [], [], [], [], [])
  {
  }

  function JoinRows(a: Rows, b: Rows): Rows {
    Rows(a.ends + b.ends, a.knowledge + b.knowledge, a.changes + b.changes, a.runs + b.runs, a.values + b.values,
         a.marks + b.marks)
  }

  lemma JoinRowsAssociative(a: Rows, b: Rows, c: Rows)
    ensures JoinRows(JoinRows(a, b), c) == JoinRows(a, JoinRows(b, c))
  {
    Regroup(a.ends, b.ends, c.ends);
    Regroup(a.knowledge, b.knowledge, c.knowledge);
    Regroup(a.changes, b.changes, c.changes);
    Regroup(a.runs, b.runs, c.runs);
    Regroup(a.values, b.values, c.values);
    Regroup(a.marks, b.marks, c.marks);
  }

  lemma RowsFirst(points: seq<Point>, previous: Option<u64>)
    requires RowsFit(points) && points != []
    ensures RowsFit(points[1..]) && RowFits(points[0])
    ensures EncodeRows(points, previous)
         == JoinRows(EncodeRows([points[0]], previous), EncodeRows(points[1..], Some(points[0].value)))
  {
    hide Varint, Zigzag, LE, XorBits, RowFits;
    assert points[0] in points && forall p <- points[1..] :: p in points;
    RowOne(points[0], previous);
  }

  // Longer blocks are the rows one after another; only the value column looks back at the value before.
  lemma {:induction false} RowsJoin(a: seq<Point>, b: seq<Point>, previous: Option<u64>)
    requires RowsFit(a) && RowsFit(b) && RowsFit(a + b) && a != []
    ensures EncodeRows(a + b, previous) == JoinRows(EncodeRows(a, previous), EncodeRows(b, Some(a[|a| - 1].value)))
  {
    hide EncodeRows, JoinRows, RowFits;
    RowsFirst(a + b, previous);
    RowsFirst(a, previous);
    assert (a + b)[1..] == a[1..] + b;
    if |a| == 1 {
      assert a[1..] + b == b && [a[0]] == a;
    } else {
      RowsJoin(a[1..], b, Some(a[0].value));
      JoinRowsAssociative(EncodeRows([a[0]], previous), EncodeRows(a[1..], Some(a[0].value)),
                          EncodeRows(b, Some(a[|a| - 1].value)));
    }
  }

  // The time column after the first time: each step, less the step before, which starts at zero.
  lemma TimesStep(points: seq<Point>, k: nat)
    requires 0 < k < |points| && IsI64(Step(points, k - 1))
    requires TimesFit(points[k..], points[k - 1].validTime, Step(points, k - 1))
    ensures IsI64(Step(points, k)) && IsI64(Step(points, k) - Step(points, k - 1))
    ensures TimesFit(points[k + 1..], points[k].validTime, Step(points, k))
    ensures EncodeTimes(points[k..], points[k - 1].validTime, Step(points, k - 1))
         == Varint(Zigzag(Step(points, k) - Step(points, k - 1)))
            + EncodeTimes(points[k + 1..], points[k].validTime, Step(points, k))
  {
    hide Varint, Zigzag;
    assert points[k..][0] == points[k] && points[k..][1..] == points[k + 1..];
  }

  // The block: seven columns, each behind its length.
  lemma BlockLayout(points: seq<Point>)
    requires EncodeColumns(points).Some?
    ensures Encodable(points)
    ensures var r := EncodeRows(points, None);
            var times := LE(points[0].validTime % 0x1_0000_0000_0000_0000, 8)
                         + EncodeTimes(points[1..], points[0].validTime, 0);
            EncodeColumns(points).value
            == Flat([times, r.ends, r.knowledge, r.changes, r.runs, r.values, r.marks])
  {
    hide LE, EncodeRows, EncodeTimes;
    ToUnsignedIsModular(points[0].validTime);
    var r := EncodeRows(points, None);
    var times := TimeColumn(points);
    FlatSeven(times, r.ends, r.knowledge, r.changes, r.runs, r.values, r.marks);
  }

  // Columns one after another, each behind four bytes of length.
  function Flat(columns: seq<Bytes>): Bytes {
    if columns == [] then [] else LE(|columns[0]|, 4) + columns[0] + Flat(columns[1..])
  }

  lemma FlatCons(c: Bytes, cs: seq<Bytes>)
    ensures Flat([c] + cs) == LE(|c|, 4) + c + Flat(cs)
  {
    assert ([c] + cs)[1..] == cs;
  }

  lemma FlatSeven(a: Bytes, b: Bytes, c: Bytes, d: Bytes, e: Bytes, f: Bytes, g: Bytes)
    requires |a| <= U32_MAX && |b| <= U32_MAX && |c| <= U32_MAX && |d| <= U32_MAX && |e| <= U32_MAX && |f| <= U32_MAX
    requires |g| <= U32_MAX
    ensures Flat([a, b, c, d, e, f, g])
         == Prefixed(a) + Prefixed(b) + Prefixed(c) + Prefixed(d) + Prefixed(e) + Prefixed(f) + Prefixed(g)
  {
    hide LE, Flat;
    assert [a, b, c, d, e, f, g] == [a] + [b, c, d, e, f, g] && [b, c, d, e, f, g] == [b] + [c, d, e, f, g];
    assert [c, d, e, f, g] == [c] + [d, e, f, g] && [d, e, f, g] == [d] + [e, f, g] && [e, f, g] == [e] + [f, g];
    assert [f, g] == [f] + [g] && [g] == [g] + [];
    FlatCons(a, [b, c, d, e, f, g]);
    FlatCons(b, [c, d, e, f, g]);
    FlatCons(c, [d, e, f, g]);
    FlatCons(d, [e, f, g]);
    FlatCons(e, [f, g]);
    FlatCons(f, [g]);
    FlatCons(g, []);
    FlatNone();
    var r6 := Prefixed(g);
    var r5 := Prefixed(f) + r6;
    var r4 := Prefixed(e) + r5;
    var r3 := Prefixed(d) + r4;
    var r2 := Prefixed(c) + r3;
    var r1 := Prefixed(b) + r2;
    assert Flat([g]) == r6;
    assert Flat([a, b, c, d, e, f, g]) == Prefixed(a) + r1;
    hide Prefixed;
    Regroup(Prefixed(a), Prefixed(b), r2);
    Regroup(Prefixed(a) + Prefixed(b), Prefixed(c), r3);
    var p3 := Prefixed(a) + Prefixed(b) + Prefixed(c);
    Regroup(p3, Prefixed(d), r4);
    Regroup(p3 + Prefixed(d), Prefixed(e), r5);
    Regroup(p3 + Prefixed(d) + Prefixed(e), Prefixed(f), r6);
  }

  lemma FlatNone()
    ensures Flat([]) == []
  {
  }

  lemma Regroup(a: Bytes, b: Bytes, c: Bytes)
    ensures a + (b + c) == (a + b) + c
  {
  }

  // ---- What the reader accepts ----

  // The reader splits a block into columns exactly where their lengths say, with nothing left over.
  lemma {:induction false} SplitIsFlat(source: Bytes, count: nat)
    requires SplitColumns(source, count).Some?
    ensures Flat(SplitColumns(source, count).value) == source
    decreases count
  {
    hide LE, FromLE;
    if count == 0 {
      FlatNone();
    } else {
      var (column, rest) := TakeColumn(source).value;
      SplitIsFlat(rest, count - 1);
      LEOfFromLE(source[0..4]);
      assert source == source[0..4] + column + rest;
      FlatCons(column, SplitColumns(rest, count - 1).value);
    }
  }

  // A number is read from its own bytes alone.
  lemma {:induction false} GroupsLocal(source: Bytes, extra: Bytes, index: nat, max: nat)
    requires ReadGroups(source, index, max).Some?
    ensures var (value, rest) := ReadGroups(source, index, max).value;
            ReadGroups(source + extra, index, max) == Some((value, rest + extra))
    decreases |source|
  {
    assert (source + extra)[1..] == source[1..] + extra;
    if source[0] >= 128 {
      GroupsLocal(source[1..], extra, index + 1, max);
    }
  }

  lemma SignedLocal(source: Bytes, extra: Bytes)
    requires ReadSigned(source).Some?
    ensures var (v, rest) := ReadSigned(source).value; ReadSigned(source + extra) == Some((v, rest + extra))
  {
    hide ReadGroups, Unzigzag;
    GroupsLocal(source, extra, 0, 10);
  }

  // Bytes after the last time are refused.
  lemma {:induction false} TimesWhole(source: Bytes, extra: Bytes, count: nat, time: i64, delta: i64)
    requires DecodeTimes(source, count, time, delta).Some? && extra != []
    ensures DecodeTimes(source + extra, count, time, delta).None?
    decreases count
  {
    hide ReadSigned;
    if count > 0 {
      var (change, rest) := ReadSigned(source).value;
      SignedLocal(source, extra);
      TimesWhole(rest, extra, count - 1, time + (delta + change), delta + change);
    }
  }

  // One row off longer columns: the same row, with the additions left behind.
  lemma RowLocal(rows: Rows, extra: Rows, previous: Option<u64>)
    requires ReadRow(rows, previous).Some?
    ensures var (row, rest) := ReadRow(rows, previous).value;
            ReadRow(JoinRows(rows, extra), previous) == Some((row, JoinRows(rest, extra)))
  {
    hide ReadGroups, Unzigzag, Xor64, FromLE, ReadSigned;
    SignedLocal(rows.ends, extra.ends);
    SignedLocal(rows.knowledge, extra.knowledge);
    SignedLocal(rows.changes, extra.changes);
    GroupsLocal(rows.runs, extra.runs, 0, 19);
    ValueLocal(rows.values, extra.values, previous);
    MarksLocal(rows.marks, extra.marks);
    hide ReadValue, ReadMarks;
  }

  lemma ValueLocal(source: Bytes, extra: Bytes, previous: Option<u64>)
    requires ReadValue(source, previous).Some?
    ensures var (v, rest) := ReadValue(source, previous).value;
            ReadValue(source + extra, previous) == Some((v, rest + extra))
  {
    hide ReadGroups, Xor64, FromLE;
    if previous.None? {
      assert (source + extra)[0..8] == source[0..8] && (source + extra)[8..] == source[8..] + extra;
    } else {
      GroupsLocal(source, extra, 0, 10);
    }
  }

  lemma MarksLocal(source: Bytes, extra: Bytes)
    requires ReadMarks(source).Some?
    ensures var (q, f, rest) := ReadMarks(source).value; ReadMarks(source + extra) == Some((q, f, rest + extra))
  {
    hide ReadGroups;
    GroupsLocal(source, extra, 0, 10);
    var (_, rest) := ReadU64Varint(source).value;
    GroupsLocal(rest, extra, 0, 10);
  }

  // Bytes after the last row, in any column, are refused.
  lemma {:induction false} RowsWhole(rows: Rows, extra: Rows, times: seq<i64>, series: u64, previous: Option<u64>)
    requires DecodeRows(rows, times, series, previous).Some? && extra != Rows([], [], [], [], [], [])
    ensures DecodeRows(JoinRows(rows, extra), times, series, previous).None?
    decreases |times|
  {
    hide ReadRow, PointOf;
    if times != [] {
      var (row, rest) := ReadRow(rows, previous).value;
      RowLocal(rows, extra, previous);
      RowsWhole(rest, extra, times[1..], series, Some(PointOf(series, times[0], row).value.value));
    }
  }
}

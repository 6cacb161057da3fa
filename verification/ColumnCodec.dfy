/**
The column encoding of a segment block.

Seven length-prefixed columns hold timestamps as deltas of deltas, other times as deltas,
run ids, value bits xored with the previous value, and quality with flags, all as
variable-length integers. `ColumnsRoundTrip` says decoding gives the points back and
`EncodedSize` bounds the size the reader checks against.
*/
module ColumnCodec {
  import opened ByteCodec
  import opened Model
  import opened IdentityFrames

  const COLUMN_COUNT: nat := 7
  const U128_LIMIT: nat := 0x1_0000_0000_0000_0000_0000_0000_0000_0000

  // ---- Variable-length integers ----

  function Varint(n: nat): (r: Bytes)
    ensures |r| == VarintSize(n)
  {
    if n < 128 then [n] else [n % 128 + 128] + Varint(n / 128)
  }

  // Reads groups from position `index` of an integer on, at most up to `max` groups in all.
  function ReadGroups(source: Bytes, index: nat, max: nat): (r: Option<(nat, Bytes)>)
    decreases |source|
  {
    if index >= max || source == [] then None
    else
      var bits := source[0] % 128;
      if index * 7 >= 128 || (index * 7 == 126 && bits > 3) then None
      else if source[0] < 128 then Some((bits, source[1..]))
      else match ReadGroups(source[1..], index + 1, max)
        case None => None
        case Some((value, rest)) => Some((bits + 128 * value, rest))
  }

  // What is left of 128 bits from group `index` on.
  function Room(index: nat): nat
    requires index <= 18
    decreases 18 - index
  {
    if index == 18 then 4 else 128 * Room(index + 1)
  }

  lemma RoomValues()
    ensures Room(0) == U128_LIMIT
  {
    assert Room(18) == 4;
    assert Room(14) == 128 * 128 * 128 * 128 * Room(18) by {
      assert Room(14) == 128 * Room(15) == 128 * 128 * Room(16) == 128 * 128 * 128 * Room(17);
    }
    assert Room(10) == 128 * 128 * 128 * 128 * Room(14) by {
      assert Room(10) == 128 * Room(11) == 128 * 128 * Room(12) == 128 * 128 * 128 * Room(13);
    }
    assert Room(5) == 128 * 128 * 128 * 128 * 128 * Room(10) by {
      assert Room(5) == 128 * Room(6) == 128 * 128 * Room(7) == 128 * 128 * 128 * Room(8);
      assert Room(8) == 128 * Room(9) == 128 * 128 * Room(10);
    }
    assert Room(0) == 128 * 128 * 128 * 128 * 128 * Room(5) by {
      assert Room(0) == 128 * Room(1) == 128 * 128 * Room(2) == 128 * 128 * 128 * Room(3);
      assert Room(3) == 128 * Room(4) == 128 * 128 * Room(5);
    }
  }

  lemma {:induction false} VarintRoundTrip(n: nat, rest: Bytes, index: nat, max: nat)
    requires index + VarintSize(n) <= max <= 19 && index <= 18 && n < Room(index)
    ensures ReadGroups(Varint(n) + rest, index, max) == Some((n, rest))
    decreases n
  {
    var bytes := Varint(n) + rest;
    if n < 128 {
      assert bytes[1..] == rest;
    } else {
      assert bytes[1..] == Varint(n / 128) + rest;
      VarintRoundTrip(n / 128, rest, index + 1, max);
      assert bytes[0] % 128 == n % 128;
    }
  }

  // Groups never add up to more than 128 bits.
  lemma {:induction false} GroupsBounded(source: Bytes, index: nat, max: nat)
    requires index < max <= 19 && ReadGroups(source, index, max).Some?
    ensures ReadGroups(source, index, max).value.0 < Room(index)
    decreases |source|
  {
    if source[0] >= 128 {
      assert ReadGroups(source[1..], index + 1, max).Some?;
      GroupsBounded(source[1..], index + 1, max);
    } else if index < 18 {
      assert Room(index) >= 128 by { RoomLarge(index); }
    }
  }

  lemma {:induction false} RoomLarge(index: nat)
    requires index < 18
    ensures Room(index) >= 512
    decreases 18 - index
  {
    if index < 17 {
      RoomLarge(index + 1);
    } else {
      assert Room(18) == 4;
    }
  }

  function ReadU64Varint(source: Bytes): (r: Option<(u64, Bytes)>)
  {
    match ReadGroups(source, 0, 10)
    case None => None
    case Some((value, rest)) => if value <= U64_MAX then Some((value, rest)) else None
  }

  function ReadU128Varint(source: Bytes): (r: Option<(u128, Bytes)>)
  {
    match ReadGroups(source, 0, 19)
    case None => None
    case Some((value, rest)) =>
      RoomValues();
      GroupsBounded(source, 0, 19);
      Some((value, rest))
  }

  lemma U64RoundTrip(n: u64, rest: Bytes)
    ensures ReadU64Varint(Varint(n) + rest) == Some((n, rest))
  {
    Pow128Values();
    VarintAtMost(n, 10);
    RoomValues();
    VarintRoundTrip(n, rest, 0, 10);
  }

  lemma U128RoundTrip(n: u128, rest: Bytes)
    ensures ReadU128Varint(Varint(n) + rest) == Some((n, rest))
  {
    Pow128Values();
    VarintAtMost(n, 19);
    RoomValues();
    VarintRoundTrip(n, rest, 0, 19);
  }

  // ---- The loops ----

  method WriteVarint(value: nat, destination: Bytes) returns (r: Bytes)
    ensures r == destination + Varint(value)
  {
    var n := value;
    r := destination;
    while n >= 0x80
      invariant r + Varint(n) == destination + Varint(value)
      decreases n
    {
      r := r + [n % 0x80 + 0x80];
      n := n / 0x80;
    }
    r := r + [n];
  }

  // Positions are cursors into the source, values accumulate from the low groups up.
  method ReadVarint(source: Bytes, start: nat, max: nat) returns (r: Option<(nat, nat)>)
    requires start <= |source| && max <= 19
    ensures match ReadGroups(source[start..], 0, max)
            case None => r.None?
            case Some((value, rest)) =>
              r.Some? && r.value.0 == value && r.value.1 <= |source| && source[r.value.1..] == rest
  {
    var value: nat, weight: nat, cursor := 0, 1, start;
    ghost var whole := ReadGroups(source[start..], 0, max);
    for i := 0 to max
      invariant start <= cursor <= |source|
      invariant whole == match ReadGroups(source[cursor..], i, max)
                         case None => None
                         case Some((v, rest)) => Some((value + weight * v, rest))
    {
      if cursor >= |source| {
        return None;
      }
      var b := source[cursor];
      ghost var remaining := source[cursor..];
      cursor := cursor + 1;
      assert remaining[1..] == source[cursor..];
      var bits := b % 0x80;
      if i * 7 >= 128 || (i * 7 == 126 && bits > 3) {
        return None;
      }
      if b < 0x80 {
        return Some((value + weight * bits, cursor));
      }
      ghost var later := ReadGroups(source[cursor..], i + 1, max);
      if later.Some? {
        Distribute(weight, bits, later.value.0);
      }
      value := value + weight * bits;
      weight := weight * 0x80;
    }
    r := None;
  }

  lemma Distribute(weight: nat, bits: nat, v: nat)
    ensures weight * (bits + 128 * v) == weight * bits + (weight * 128) * v
  {
  }

  // ---- Zigzag ----

  function Zigzag(v: i64): u64 {
    if v >= 0 then 2 * v else -2 * v - 1
  }

  function Unzigzag(z: u64): i64 {
    if z % 2 == 0 then z / 2 else -((z + 1) / 2)
  }

  lemma ZigzagRoundTrip(v: i64)
    ensures Unzigzag(Zigzag(v)) == v
  {
  }

  function Signed(v: i64): Bytes { Varint(Zigzag(v)) }

  function ReadSigned(source: Bytes): Option<(i64, Bytes)> {
    match ReadU64Varint(source)
    case None => None
    case Some((z, rest)) => Some((Unzigzag(z), rest))
  }

  lemma SignedRoundTrip(v: i64, rest: Bytes)
    ensures ReadSigned(Signed(v) + rest) == Some((v, rest))
  {
    U64RoundTrip(Zigzag(v), rest);
    ZigzagRoundTrip(v);
  }

  // ---- Exclusive or ----

  function XorBits(a: nat, b: nat, width: nat): (r: nat)
    ensures r < Pow2(width)
  {
    if width == 0 then 0
    else 2 * XorBits(a / 2, b / 2, width - 1) + (if a % 2 != b % 2 then 1 else 0)
  }

  function Pow2(n: nat): nat {
    if n == 0 then 1 else 2 * Pow2(n - 1)
  }

  lemma {:induction false} XorUndo(a: nat, b: nat, width: nat)
    requires b < Pow2(width)
    ensures XorBits(a, XorBits(b, a, width), width) == b
  {
    if width > 0 {
      XorUndo(a / 2, b / 2, width - 1);
      var x := XorBits(b, a, width);
      assert x / 2 == XorBits(b / 2, a / 2, width - 1);
    }
  }

  lemma Pow2Of64()
    ensures Pow2(64) == 0x1_0000_0000_0000_0000
  {
    assert Pow2(8) == 256;
    assert Pow2(16) == 256 * Pow2(8);
    assert Pow2(24) == 256 * Pow2(16);
    assert Pow2(32) == 256 * Pow2(24);
    assert Pow2(40) == 256 * Pow2(32);
    assert Pow2(48) == 256 * Pow2(40);
    assert Pow2(56) == 256 * Pow2(48);
    assert Pow2(64) == 256 * Pow2(56);
  }

  function Xor64(a: u64, b: u64): u64 {
    Pow2Of64();
    XorBits(a, b, 64)
  }

  lemma Xor64Undo(a: u64, b: u64)
    ensures Xor64(a, Xor64(b, a)) == b
  {
    Pow2Of64();
    XorUndo(a, b, 64);
  }

  // ---- Timestamps ----

  // Whether every delta, and every change of delta, of the later points fits.
  predicate TimesFit(points: seq<Point>, time: i64, delta: i64) {
    points == [] ||
    (var d := points[0].validTime - time;
     IsI64(d) && IsI64(d - delta) && TimesFit(points[1..], points[0].validTime, d))
  }

  function EncodeTimes(points: seq<Point>, time: i64, delta: i64): Bytes
    requires TimesFit(points, time, delta)
  {
    if points == [] then []
    else
      var d := points[0].validTime - time;
      Signed(d - delta) + EncodeTimes(points[1..], points[0].validTime, d)
  }

  function DecodeTimes(source: Bytes, count: nat, time: i64, delta: i64): Option<seq<i64>>
    decreases count
  {
    if count == 0 then if source == [] then Some([]) else None
    else match ReadSigned(source)
      case None => None
      case Some((change, rest)) =>
        var d := delta + change;
        if !IsI64(d) || !IsI64(time + d) then None
        else match DecodeTimes(rest, count - 1, time + d, d)
          case None => None
          case Some(times) => Some([time + d] + times)
  }

  function Times(points: seq<Point>): seq<i64> {
    seq(|points|, i requires 0 <= i < |points| => points[i].validTime)
  }

  lemma {:induction false} TimesRoundTrip(points: seq<Point>, time: i64, delta: i64)
    requires TimesFit(points, time, delta)
    ensures DecodeTimes(EncodeTimes(points, time, delta), |points|, time, delta) == Some(Times(points))
  {
    hide Signed, ReadSigned;
    if points != [] {
      var d := points[0].validTime - time;
      var rest := EncodeTimes(points[1..], points[0].validTime, d);
      SignedRoundTrip(d - delta, rest);
      TimesRoundTrip(points[1..], points[0].validTime, d);
      assert Times(points) == [points[0].validTime] + Times(points[1..]);
    } else {
      assert Times(points) == [];
    }
  }

  lemma {:induction false} TimesSize(points: seq<Point>, time: i64, delta: i64)
    requires TimesFit(points, time, delta)
    ensures |points| <= |EncodeTimes(points, time, delta)| <= 10 * |points|
  {
    if points != [] {
      var d := points[0].validTime - time;
      SignedSize(d - delta);
      TimesSize(points[1..], points[0].validTime, d);
    }
  }

  lemma SignedSize(v: i64)
    ensures 1 <= |Signed(v)| <= 10
  {
    Pow128Values();
    VarintAtMost(Zigzag(v), 10);
  }

  // ---- The other columns, row by row ----

  datatype Rows = Rows(ends: Bytes, knowledge: Bytes, changes: Bytes, runs: Bytes, values: Bytes, marks: Bytes)

  predicate RowFits(p: Point) {
    IsI64(p.validEnd - p.validTime) && IsI64(p.knowledgeTime - p.validTime) && IsI64(p.changeTime - p.knowledgeTime)
  }

  predicate RowsFit(points: seq<Point>) {
    forall p <- points :: RowFits(p)
  }

  // The first value is stored whole, later ones as the difference to the one before.
  function EncodeValue(p: Point, previous: Option<u64>): Bytes {
    if previous.None? then LE(p.value, 8) else Varint(Xor64(p.value, previous.value))
  }

  function EncodeRows(points: seq<Point>, previous: Option<u64>): Rows
    requires RowsFit(points)
  {
    if points == [] then Rows([], [], [], [], [], [])
    else
      var p := points[0];
      assert p in points;
      var rest := EncodeRows(points[1..], Some(p.value));
      Rows(
        Signed(p.validEnd - p.validTime) + rest.ends,
        Signed(p.knowledgeTime - p.validTime) + rest.knowledge,
        Signed(p.changeTime - p.knowledgeTime) + rest.changes,
        Varint(p.runId) + rest.runs,
        EncodeValue(p, previous) + rest.values,
        Varint(p.quality) + Varint(p.flags) + rest.marks)
  }

  function ReadValue(source: Bytes, previous: Option<u64>): Option<(u64, Bytes)> {
    match previous
    case None => if |source| < 8 then None else Some((ReadU64(source, 0), source[8..]))
    case Some(before) =>
      match ReadU64Varint(source)
      case None => None
      case Some((bits, rest)) => Some((Xor64(before, bits), rest))
  }

  // Quality and flags, both of which must fit in 32 bits.
  function ReadMarks(source: Bytes): Option<(u32, u32, Bytes)> {
    match ReadU64Varint(source)
    case None => None
    case Some((quality, rest)) =>
      if quality > U32_MAX then None
      else match ReadU64Varint(rest)
        case None => None
        case Some((flags, tail)) => if flags > U32_MAX then None else Some((quality, flags, tail))
  }

  datatype Row = Row(end: i64, knowledge: i64, change: i64, run: u128, value: u64, quality: u32, flags: u32)

  // One row off the front of every column.
  function ReadRow(rows: Rows, previous: Option<u64>): Option<(Row, Rows)> {
    match (ReadSigned(rows.ends), ReadSigned(rows.knowledge), ReadSigned(rows.changes), ReadU128Varint(rows.runs))
    case (Some((end, ends)), Some((knowledge, knowledges)), Some((change, changes)), Some((run, runs))) => (
      match (ReadValue(rows.values, previous), ReadMarks(rows.marks))
      case (Some((value, values)), Some((quality, flags, marks))) =>
        Some((Row(end, knowledge, change, run, value, quality, flags), Rows(ends, knowledges, changes, runs, values, marks)))
      case _ => None)
    case _ => None
  }

  function PointOf(series: u64, time: i64, row: Row): Option<Point> {
    if !IsI64(time + row.end) || !IsI64(time + row.knowledge) || !IsI64(time + row.knowledge + row.change) then None
    else Some(Point(series, time, time + row.end, time + row.knowledge, time + row.knowledge + row.change,
                    row.run, row.value, row.quality, row.flags))
  }

  function DecodeRows(rows: Rows, times: seq<i64>, series: u64, previous: Option<u64>): Option<seq<Point>>
    decreases |times|
  {
    if times == [] then if rows == Rows([], [], [], [], [], []) then Some([]) else None
    else match ReadRow(rows, previous)
      case None => None
      case Some((row, rest)) =>
        match PointOf(series, times[0], row)
        case None => None
        case Some(p) =>
          match DecodeRows(rest, times[1..], series, Some(p.value))
          case None => None
          case Some(points) => Some([p] + points)
  }

  lemma RowRoundTrip(p: Point, previous: Option<u64>, rest: Rows)
    requires RowFits(p)
    ensures ReadRow(
              Rows(Signed(p.validEnd - p.validTime) + rest.ends,
                   Signed(p.knowledgeTime - p.validTime) + rest.knowledge,
                   Signed(p.changeTime - p.knowledgeTime) + rest.changes,
                   Varint(p.runId) + rest.runs,
                   EncodeValue(p, previous) + rest.values,
                   Varint(p.quality) + Varint(p.flags) + rest.marks), previous)
         == Some((Row(p.validEnd - p.validTime, p.knowledgeTime - p.validTime, p.changeTime - p.knowledgeTime,
                      p.runId, p.value, p.quality, p.flags), rest))
  {
    hide Signed, Varint, ReadSigned, ReadU64Varint, ReadU128Varint, EncodeValue, ReadValue, ReadMarks;
    SignedRoundTrip(p.validEnd - p.validTime, rest.ends);
    SignedRoundTrip(p.knowledgeTime - p.validTime, rest.knowledge);
    SignedRoundTrip(p.changeTime - p.knowledgeTime, rest.changes);
    U128RoundTrip(p.runId, rest.runs);
    ValueRoundTrip(p, previous, rest.values);
    MarksRoundTrip(p.quality, p.flags, rest.marks);
  }

  lemma ValueRoundTrip(p: Point, previous: Option<u64>, rest: Bytes)
    ensures ReadValue(EncodeValue(p, previous) + rest, previous) == Some((p.value, rest))
  {
    hide Varint, ReadU64Varint, LE, FromLE, Xor64;
    if previous.None? {
      Pow256Values();
      FromLEOfLE(p.value, 8);
      var bytes := LE(p.value, 8) + rest;
      assert bytes[0..8] == LE(p.value, 8) && bytes[8..] == rest;
    } else {
      U64RoundTrip(Xor64(p.value, previous.value), rest);
      Xor64Undo(previous.value, p.value);
    }
  }

  lemma MarksRoundTrip(quality: u32, flags: u32, rest: Bytes)
    ensures ReadMarks(Varint(quality) + Varint(flags) + rest) == Some((quality, flags, rest))
  {
    hide Varint, ReadU64Varint;
    assert Varint(quality) + Varint(flags) + rest == Varint(quality) + (Varint(flags) + rest);
    U64RoundTrip(quality, Varint(flags) + rest);
    U64RoundTrip(flags, rest);
  }

  lemma NoTimes(points: seq<Point>)
    requires points == []
    ensures Times(points) == []
  {
  }

  lemma PointOfRow(p: Point)
    requires RowFits(p)
    ensures PointOf(p.seriesId, p.validTime,
                    Row(p.validEnd - p.validTime, p.knowledgeTime - p.validTime, p.changeTime - p.knowledgeTime,
                        p.runId, p.value, p.quality, p.flags)) == Some(p)
  {
  }

  lemma DecodeRowsStep(rows: Rows, times: seq<i64>, series: u64, previous: Option<u64>, rest: Rows, row: Row, p: Point,
                       points: seq<Point>)
    requires times != [] && ReadRow(rows, previous) == Some((row, rest)) && PointOf(series, times[0], row) == Some(p)
    requires DecodeRows(rest, times[1..], series, Some(p.value)) == Some(points)
    ensures DecodeRows(rows, times, series, previous) == Some([p] + points)
  {
    hide ReadRow, PointOf;
  }

  lemma TimesTail(points: seq<Point>)
    requires points != []
    ensures |Times(points)| == |points| && Times(points)[0] == points[0].validTime
    ensures Times(points)[1..] == Times(points[1..])
  {
  }

  lemma {:induction false} RowsRoundTrip(points: seq<Point>, series: u64, previous: Option<u64>)
    requires RowsFit(points) && forall p <- points :: p.seriesId == series
    ensures DecodeRows(EncodeRows(points, previous), Times(points), series, previous) == Some(points)
  {
    hide Signed, Varint, EncodeValue, ReadRow, PointOf, Times;
    if points == [] {
      assert Times(points) == [] by { NoTimes(points); }
    } else {
      var p := points[0];
      assert p in points;
      var rest := EncodeRows(points[1..], Some(p.value));
      var rows := EncodeRows(points, previous);
      RowRoundTrip(p, previous, rest);
      RowsRoundTrip(points[1..], series, Some(p.value));
      TimesTail(points);
      PointOfRow(p);
      hide EncodeRows, DecodeRows;
      DecodeRowsStep(rows, Times(points), series, previous, rest,
                     Row(p.validEnd - p.validTime, p.knowledgeTime - p.validTime, p.changeTime - p.knowledgeTime,
                         p.runId, p.value, p.quality, p.flags), p, points[1..]);
      assert points == [p] + points[1..];
    }
  }

  // ---- The block ----

  function Prefixed(column: Bytes): Bytes
    requires |column| <= U32_MAX
  {
    LE(|column|, 4) + column
  }

  predicate ColumnsFit(rows: Rows, times: Bytes) {
    |times| <= U32_MAX && |rows.ends| <= U32_MAX && |rows.knowledge| <= U32_MAX && |rows.changes| <= U32_MAX
    && |rows.runs| <= U32_MAX && |rows.values| <= U32_MAX && |rows.marks| <= U32_MAX
  }

  // Every delta a block stores fits in 64 bits.
  predicate Encodable(points: seq<Point>) {
    points != [] && TimesFit(points[1..], points[0].validTime, 0) && RowsFit(points)
  }

  function TimeColumn(points: seq<Point>): Bytes
    requires Encodable(points)
  {
    LE(ToUnsigned(points[0].validTime), 8) + EncodeTimes(points[1..], points[0].validTime, 0)
  }

  function JoinColumns(times: Bytes, rows: Rows): Bytes
    requires ColumnsFit(rows, times)
  {
    Prefixed(times) + Prefixed(rows.ends) + Prefixed(rows.knowledge) + Prefixed(rows.changes) + Prefixed(rows.runs)
    + Prefixed(rows.values) + Prefixed(rows.marks)
  }

  function EncodeColumns(points: seq<Point>): Option<Bytes> {
    if !Encodable(points) then None
    else
      var times, rows := TimeColumn(points), EncodeRows(points, None);
      if ColumnsFit(rows, times) then Some(JoinColumns(times, rows)) else None
  }

  // Takes one length-prefixed column off the front.
  function TakeColumn(source: Bytes): Option<(Bytes, Bytes)> {
    if |source| < 4 then None
    else
      var end := 4 + ReadU32(source, 0);
      if end > |source| then None else Some((source[4..end], source[end..]))
  }

  function SplitColumns(source: Bytes, count: nat): Option<seq<Bytes>>
    decreases count
  {
    if count == 0 then if source == [] then Some([]) else None
    else match TakeColumn(source)
      case None => None
      case Some((column, rest)) =>
        match SplitColumns(rest, count - 1)
        case None => None
        case Some(columns) => Some([column] + columns)
  }

  lemma {:induction false} SplitCount(source: Bytes, count: nat)
    ensures SplitColumns(source, count).Some? ==> |SplitColumns(source, count).value| == count
    decreases count
  {
    if count > 0 && TakeColumn(source).Some? {
      SplitCount(TakeColumn(source).value.1, count - 1);
    }
  }

  function MinimumEncodedBytes(points: nat): nat { 42 + 8 * points }

  function MaximumEncodedBytes(points: nat): nat { 28 + 89 * points }

  function DecodeColumns(encoded: Bytes, series: u64, count: nat): Option<seq<Point>> {
    if count == 0 || MinimumEncodedBytes(count) > |encoded| then None
    else
      SplitCount(encoded, COLUMN_COUNT);
      match SplitColumns(encoded, COLUMN_COUNT)
      case None => None
      case Some(columns) =>
        if |columns[0]| < 8 then None
        else
          var first := ToSigned(ReadU64(columns[0], 0));
          match DecodeTimes(columns[0][8..], count - 1, first, 0)
          case None => None
          case Some(times) =>
            DecodeRows(Rows(columns[1], columns[2], columns[3], columns[4], columns[5], columns[6]),
                       [first] + times, series, None)
  }

  lemma PrefixedRoundTrip(column: Bytes, rest: Bytes)
    requires |column| <= U32_MAX
    ensures TakeColumn(Prefixed(column) + rest) == Some((column, rest))
  {
    hide LE, FromLE;
    Pow256Values();
    FromLEOfLE(|column|, 4);
    var source := Prefixed(column) + rest;
    assert source[0..4] == LE(|column|, 4);
    assert source[4..4 + |column|] == column && source[4 + |column|..] == rest;
  }

  lemma SplitStep(column: Bytes, rest: Bytes, n: nat, columns: seq<Bytes>)
    requires |column| <= U32_MAX && SplitColumns(rest, n) == Some(columns)
    ensures SplitColumns(Prefixed(column) + rest, n + 1) == Some([column] + columns)
  {
    hide Prefixed, TakeColumn;
    PrefixedRoundTrip(column, rest);
  }

  lemma JoinRoundTrip(times: Bytes, rows: Rows)
    requires ColumnsFit(rows, times)
    ensures SplitColumns(JoinColumns(times, rows), COLUMN_COUNT)
         == Some([times, rows.ends, rows.knowledge, rows.changes, rows.runs, rows.values, rows.marks])
  {
    hide Prefixed, SplitColumns;
    assert SplitColumns([], 0) == Some([]) by { NoColumns(); }
    var r6 := Prefixed(rows.marks) + [];
    SplitStep(rows.marks, [], 0, []);
    var r5 := Prefixed(rows.values) + r6;
    SplitStep(rows.values, r6, 1, [rows.marks] + []);
    var r4 := Prefixed(rows.runs) + r5;
    SplitStep(rows.runs, r5, 2, [rows.values] + ([rows.marks] + []));
    var c4 := [rows.runs] + ([rows.values] + ([rows.marks] + []));
    var r3 := Prefixed(rows.changes) + r4;
    SplitStep(rows.changes, r4, 3, c4);
    var r2 := Prefixed(rows.knowledge) + r3;
    SplitStep(rows.knowledge, r3, 4, [rows.changes] + c4);
    var r1 := Prefixed(rows.ends) + r2;
    SplitStep(rows.ends, r2, 5, [rows.knowledge] + ([rows.changes] + c4));
    var c1 := [rows.ends] + ([rows.knowledge] + ([rows.changes] + c4));
    SplitStep(times, r1, 6, c1);
    assert Prefixed(times) + r1 == JoinColumns(times, rows);
    assert [times] + c1 == [times, rows.ends, rows.knowledge, rows.changes, rows.runs, rows.values, rows.marks];
  }

  lemma NoColumns()
    ensures SplitColumns([], 0) == Some([])
  {
  }

  // ---- Size ----

  lemma {:induction false} RowsSize(points: seq<Point>, previous: Option<u64>)
    requires RowsFit(points)
    ensures var r := EncodeRows(points, previous);
            var n := |points|;
            && n <= |r.ends| <= 10 * n && n <= |r.knowledge| <= 10 * n && n <= |r.changes| <= 10 * n
            && n <= |r.runs| <= 19 * n && 2 * n <= |r.marks| <= 10 * n
            && (previous.Some? ==> n <= |r.values| <= 10 * n)
            && (previous.None? && n > 0 ==> 8 + (n - 1) <= |r.values| <= 8 + 10 * (n - 1))
  {
    hide Signed, Varint, Xor64, VarintSize, EncodeValue;
    if points != [] {
      var p := points[0];
      assert p in points;
      RowsSize(points[1..], Some(p.value));
      RowSize(p, previous);
    }
  }

  lemma RowSize(p: Point, previous: Option<u64>)
    requires RowFits(p)
    ensures 1 <= |Signed(p.validEnd - p.validTime)| <= 10 && 1 <= |Signed(p.knowledgeTime - p.validTime)| <= 10
    ensures 1 <= |Signed(p.changeTime - p.knowledgeTime)| <= 10 && 1 <= |Varint(p.runId)| <= 19
    ensures 2 <= |Varint(p.quality) + Varint(p.flags)| <= 10
    ensures if previous.None? then |EncodeValue(p, previous)| == 8 else 1 <= |EncodeValue(p, previous)| <= 10
  {
    SignedSize(p.validEnd - p.validTime);
    SignedSize(p.knowledgeTime - p.validTime);
    SignedSize(p.changeTime - p.knowledgeTime);
    Pow128Values();
    VarintAtMost(p.runId, 19);
    VarintAtMost(p.quality, 5);
    VarintAtMost(p.flags, 5);
    if previous.Some? {
      VarintAtMost(Xor64(p.value, previous.value), 10);
    }
    hide Signed, Varint, Xor64;
  }

  // The writer's output always lies within the bounds the reader enforces.
  lemma EncodedSize(points: seq<Point>)
    requires EncodeColumns(points).Some?
    ensures MinimumEncodedBytes(|points|) <= |EncodeColumns(points).value| <= MaximumEncodedBytes(|points|)
  {
    hide EncodeRows, EncodeTimes, LE, RowsFit, TimesFit;
    TimesSize(points[1..], points[0].validTime, 0);
    RowsSize(points, None);
  }

  /**
  Every block that encodes decodes to the same points: deltas of deltas, zigzag integers,
  xored values and column lengths all undo one another.
  */
  lemma ColumnsRoundTrip(points: seq<Point>, series: u64)
    requires EncodeColumns(points).Some? && forall p <- points :: p.seriesId == series
    ensures DecodeColumns(EncodeColumns(points).value, series, |points|) == Some(points)
  {
    hide EncodeRows, EncodeTimes, DecodeTimes, DecodeRows, LE, FromLE, RowsFit, TimesFit, JoinColumns, SplitColumns;
    var times, rows := TimeColumn(points), EncodeRows(points, None);
    EncodedSize(points);
    JoinRoundTrip(times, rows);
    var first := points[0].validTime;
    Pow256Values();
    FromLEOfLE(ToUnsigned(first), 8);
    assert times[0..8] == LE(ToUnsigned(first), 8);
    assert times[8..] == EncodeTimes(points[1..], first, 0);
    TimesRoundTrip(points[1..], first, 0);
    assert [first] + Times(points[1..]) == Times(points);
    RowsRoundTrip(points, series, None);
  }

  // A block the writer's deltas cannot express is refused, and only such a block.
  lemma EncodesIff(points: seq<Point>)
    requires |points| <= 262_144
    ensures EncodeColumns(points).Some? <==> Encodable(points)
  {
    hide EncodeRows, EncodeTimes, LE, RowsFit, TimesFit;
    if Encodable(points) {
      TimesSize(points[1..], points[0].validTime, 0);
      RowsSize(points, None);
    }
  }

  // ---- Encoding and decoding as they run ----

  method EncodeTimeColumn(points: seq<Point>) returns (r: Option<Bytes>)
    requires points != []
    ensures r.Some? <==> TimesFit(points[1..], points[0].validTime, 0)
    ensures r.Some? ==>
              r.value == LE(ToUnsigned(points[0].validTime), 8) + EncodeTimes(points[1..], points[0].validTime, 0)
  {
    hide Signed, LE;
    var column := LE(ToUnsigned(points[0].validTime), 8);
    var previousDelta: i64 := 0;
    ghost var fits := TimesFit(points[1..], points[0].validTime, 0);
    for i := 1 to |points|
      invariant fits <==> TimesFit(points[i..], points[i - 1].validTime, previousDelta)
      invariant fits ==>
                  column + EncodeTimes(points[i..], points[i - 1].validTime, previousDelta)
                  == LE(ToUnsigned(points[0].validTime), 8) + EncodeTimes(points[1..], points[0].validTime, 0)
    {
      var delta := points[i].validTime - points[i - 1].validTime;
      assert points[i..][1..] == points[i + 1..];
      if !IsI64(delta) || !IsI64(delta - previousDelta) {
        return None;
      }
      column := column + Signed(delta - previousDelta);
      previousDelta := delta;
    }
    r := Some(column);
  }

  function AppendRows(a: Rows, b: Rows): Rows {
    Rows(a.ends + b.ends, a.knowledge + b.knowledge, a.changes + b.changes, a.runs + b.runs, a.values + b.values,
         a.marks + b.marks)
  }

  method EncodeRowColumns(points: seq<Point>) returns (r: Option<Rows>)
    ensures r.Some? <==> RowsFit(points)
    ensures r.Some? ==> r.value == EncodeRows(points, None)
  {
    hide Signed, Varint, EncodeValue, RowFits;
    var rows := Rows([], [], [], [], [], []);
    var previous: Option<u64> := None;
    for i := 0 to |points|
      invariant RowsFit(points[..i])
      invariant RowsFit(points) ==> RowsFit(points[i..])
                                    && AppendRows(rows, EncodeRows(points[i..], previous)) == EncodeRows(points, None)
    {
      var p := points[i];
      assert p in points && points[i..][1..] == points[i + 1..] && points[i..][0] == p;
      if !RowFits(p) {
        return None;
      }
      var row := EncodeRow(p, previous);
      if RowsFit(points) {
        RowAppends(rows, points[i..], previous);
      }
      rows := AppendRows(rows, row);
      previous := Some(p.value);
    }
    assert points[..|points|] == points;
    assert points[|points|..] == [];
    r := Some(rows);
  }

  function EncodeRow(p: Point, previous: Option<u64>): Rows
    requires RowFits(p)
  {
    Rows(Signed(p.validEnd - p.validTime), Signed(p.knowledgeTime - p.validTime), Signed(p.changeTime - p.knowledgeTime),
         Varint(p.runId), EncodeValue(p, previous), Varint(p.quality) + Varint(p.flags))
  }

  lemma RowAppends(rows: Rows, points: seq<Point>, previous: Option<u64>)
    requires points != [] && RowsFit(points)
    ensures points[0] in points
    ensures AppendRows(rows, EncodeRows(points, previous))
         == AppendRows(AppendRows(rows, EncodeRow(points[0], previous)), EncodeRows(points[1..], Some(points[0].value)))
  {
    hide Signed, Varint, EncodeValue, RowFits;
    var p := points[0];
    assert p in points;
    var rest := EncodeRows(points[1..], Some(p.value));
    assert EncodeRows(points, previous) == AppendRows(EncodeRow(p, previous), rest);
    AppendAssociates(rows, EncodeRow(p, previous), rest);
  }

  lemma AppendAssociates(a: Rows, b: Rows, c: Rows)
    ensures AppendRows(a, AppendRows(b, c)) == AppendRows(AppendRows(a, b), c)
  {
    assert a.ends + (b.ends + c.ends) == a.ends + b.ends + c.ends;
    assert a.knowledge + (b.knowledge + c.knowledge) == a.knowledge + b.knowledge + c.knowledge;
    assert a.changes + (b.changes + c.changes) == a.changes + b.changes + c.changes;
    assert a.runs + (b.runs + c.runs) == a.runs + b.runs + c.runs;
    assert a.values + (b.values + c.values) == a.values + b.values + c.values;
    assert a.marks + (b.marks + c.marks) == a.marks + b.marks + c.marks;
  }

  method EncodeBlock(points: seq<Point>) returns (r: Option<Bytes>)
    requires points != []
    ensures r == EncodeColumns(points)
  {
    hide EncodeRows, EncodeTimes, LE, RowsFit, TimesFit, JoinColumns;
    var times := EncodeTimeColumn(points);
    if times.None? {
      return None;
    }
    var rows := EncodeRowColumns(points);
    if rows.None? || !ColumnsFit(rows.value, times.value) {
      return None;
    }
    r := Some(JoinColumns(times.value, rows.value));
  }

  method DecodeTimeColumn(column: Bytes, first: i64, count: nat) returns (r: Option<seq<i64>>)
    ensures r == match DecodeTimes(column, count, first, 0)
                 case None => None
                 case Some(times) => Some([first] + times)
  {
    hide ReadSigned;
    ghost var whole := DecodeTimes(column, count, first, 0);
    var rest := column;
    var times, delta: i64 := [first], 0;
    for i := 0 to count
      invariant times != []
      invariant (match whole case None => None case Some(all) => Some([first] + all))
             == (match DecodeTimes(rest, count - i, times[|times| - 1], delta)
                 case None => None
                 case Some(more) => Some(times + more))
    {
      var change := ReadSigned(rest);
      if change.None? {
        return None;
      }
      var next := delta + change.value.0;
      var last := times[|times| - 1];
      if !IsI64(next) || !IsI64(last + next) {
        return None;
      }
      ghost var later := DecodeTimes(change.value.1, count - i - 1, last + next, next);
      if later.Some? {
        assert times + ([last + next] + later.value) == times + [last + next] + later.value;
      }
      delta := next;
      times := times + [last + next];
      rest := change.value.1;
    }
    r := if rest == [] then Some(times) else None;
    assert times + [] == times;
  }

  method DecodeRowColumns(rows: Rows, times: seq<i64>, series: u64) returns (r: Option<seq<Point>>)
    ensures r == DecodeRows(rows, times, series, None)
  {
    hide ReadRow, PointOf;
    var rest, previous := rows, None;
    var points: seq<Point> := [];
    ghost var whole := DecodeRows(rows, times, series, None);
    assert times[0..] == times;
    assert whole.Some? ==> points + whole.value == whole.value;
    for i := 0 to |times|
      invariant whole == match DecodeRows(rest, times[i..], series, previous)
                         case None => None
                         case Some(more) => Some(points + more)
    {
      var row := ReadRow(rest, previous);
      if row.None? {
        return None;
      }
      var p := PointOf(series, times[i], row.value.0);
      if p.None? {
        return None;
      }
      assert times[i..][1..] == times[i + 1..];
      ghost var later := DecodeRows(row.value.1, times[i + 1..], series, Some(p.value.value));
      if later.Some? {
        assert points + ([p.value] + later.value) == points + [p.value] + later.value;
      }
      rest, previous := row.value.1, Some(p.value.value);
      points := points + [p.value];
    }
    assert points + [] == points;
    r := if rest == Rows([], [], [], [], [], []) then Some(points) else None;
  }

  method DecodeBlock(encoded: Bytes, series: u64, count: nat) returns (r: Option<seq<Point>>)
    ensures r == DecodeColumns(encoded, series, count)
  {
    hide DecodeTimes, DecodeRows, FromLE, SplitColumns;
    if count == 0 || MinimumEncodedBytes(count) > |encoded| {
      return None;
    }
    SplitCount(encoded, COLUMN_COUNT);
    var columns := SplitColumns(encoded, COLUMN_COUNT);
    if columns.None? || |columns.value[0]| < 8 {
      return None;
    }
    var c := columns.value;
    var first := ToSigned(ReadU64(c[0], 0));
    var times := DecodeTimeColumn(c[0][8..], first, count - 1);
    if times.None? {
      return None;
    }
    r := DecodeRowColumns(Rows(c[1], c[2], c[3], c[4], c[5], c[6]), times.value, series);
  }
}

/**
The sparse index of a segment file.

A segment holds its points in blocks of one series each, and one index entry per block.
`CreateSegment` sorts, cuts, encodes and stores any points; the file passes the reader's validation,
its blocks read back, and the two queries, a linear filter and a bisection, answer exactly the
matching points.
*/
module SegmentIndex {
  import opened ByteCodec
  import opened StableSorting
  import opened Model
  import opened PointIndex
  import opened ColumnCodec
  import opened Queries

  const SEGMENT_HEADER_BYTES: nat := 40
  const BLOCK_HEADER_BYTES: nat := 56
  const MAX_BLOCK_POINTS: nat := 262_144
  const MAX_LZ4_RATIO: nat := 255

  datatype Entry = Entry(seriesId: u64, minTime: i64, maxTime: i64, offset: nat, length: nat, points: nat)

  type Block = seq<Point>

  // ---- Cutting sorted points into blocks ----

  predicate OneSeries(b: Block) {
    b != [] && forall p <- b :: p.seriesId == b[0].seriesId
  }

  ghost predicate BlocksOk(blocks: seq<Block>, limit: nat) {
    forall b <- blocks :: OneSeries(b) && |b| <= limit
  }

  // No block could have taken the first point of the next one.
  ghost predicate BlocksFull(blocks: seq<Block>, limit: nat) {
    forall i :: 0 < i < |blocks| && blocks[i - 1] != [] && blocks[i] != [] ==>
      |blocks[i - 1]| == limit || blocks[i - 1][0].seriesId != blocks[i][0].seriesId
  }

  // The last block is of this series.
  predicate EndsIn(blocks: seq<Block>, s: u64) {
    blocks != [] && blocks[|blocks| - 1] != [] && blocks[|blocks| - 1][0].seriesId == s
  }

  lemma ConcatSnoc(blocks: seq<Block>, b: Block)
    ensures Concat(blocks + [b]) == Concat(blocks) + b
  {
    assert (blocks + [b])[..|blocks|] == blocks;
  }

  lemma AddBlock(blocks: seq<Block>, b: Block, limit: nat)
    requires BlocksOk(blocks, limit) && BlocksFull(blocks, limit) && OneSeries(b) && |b| <= limit
    requires EndsIn(blocks, b[0].seriesId) ==> |blocks[|blocks| - 1]| == limit
    ensures BlocksOk(blocks + [b], limit) && BlocksFull(blocks + [b], limit) && EndsIn(blocks + [b], b[0].seriesId)
  {
  }

  // Chunks of one series' run.
  method CutRun(ordered: seq<Point>, start: nat, end: nat, limit: nat, before: seq<Block>) returns (blocks: seq<Block>)
    requires start <= end <= |ordered| && limit > 0
    requires forall i :: start <= i < end ==> ordered[i].seriesId == ordered[start].seriesId
    requires BlocksOk(before, limit) && BlocksFull(before, limit) && Concat(before) == ordered[..start]
    requires start < end ==> !EndsIn(before, ordered[start].seriesId)
    ensures BlocksOk(blocks, limit) && BlocksFull(blocks, limit) && Concat(blocks) == ordered[..end]
    ensures start < end ==> EndsIn(blocks, ordered[start].seriesId)
  {
    hide BlocksOk, BlocksFull, Concat;
    blocks := before;
    var at := start;
    while at < end
      invariant start <= at <= end
      invariant BlocksOk(blocks, limit) && BlocksFull(blocks, limit) && Concat(blocks) == ordered[..at]
      invariant at > start ==> EndsIn(blocks, ordered[start].seriesId)
      invariant start < at < end ==> |blocks[|blocks| - 1]| == limit
      invariant at == start ==> blocks == before
    {
      var next := if end - at < limit then end else at + limit;
      var b := ordered[at..next];
      assert forall p <- b :: p.seriesId == ordered[start].seriesId;
      ConcatSnoc(blocks, b);
      assert ordered[..next] == ordered[..at] + b;
      assert b[0] == ordered[at] && OneSeries(b);
      AddBlock(blocks, b, limit);
      blocks := blocks + [b];
      at := next;
    }
  }

  lemma NothingEnds(s: u64)
    ensures !EndsIn([], s)
  {
  }

  lemma OneEnd(blocks: seq<Block>, s: u64, t: u64)
    requires EndsIn(blocks, s) && s != t
    ensures !EndsIn(blocks, t)
  {
  }

  method CutBlocks(ordered: seq<Point>, limit: nat) returns (blocks: seq<Block>)
    requires limit > 0
    ensures BlocksOk(blocks, limit) && BlocksFull(blocks, limit) && Concat(blocks) == ordered
  {
    hide EndsIn;
    blocks := [];
    forall s: u64 ensures !EndsIn([], s) {
      NothingEnds(s);
    }
    var seriesStart := 0;
    while seriesStart < |ordered|
      invariant seriesStart <= |ordered|
      invariant BlocksOk(blocks, limit) && BlocksFull(blocks, limit) && Concat(blocks) == ordered[..seriesStart]
      invariant seriesStart < |ordered| ==> !EndsIn(blocks, ordered[seriesStart].seriesId)
    {
      var seriesEnd := seriesStart + 1;
      while seriesEnd < |ordered| && ordered[seriesEnd].seriesId == ordered[seriesStart].seriesId
        invariant seriesStart < seriesEnd <= |ordered|
        invariant forall i :: seriesStart <= i < seriesEnd ==> ordered[i].seriesId == ordered[seriesStart].seriesId
      {
        seriesEnd := seriesEnd + 1;
      }
      blocks := CutRun(ordered, seriesStart, seriesEnd, limit, blocks);
      if seriesEnd < |ordered| {
        OneEnd(blocks, ordered[seriesStart].seriesId, ordered[seriesEnd].seriesId);
      }
      seriesStart := seriesEnd;
    }
    assert ordered[..seriesStart] == ordered;
  }

  // ---- The index ----

  // What the index records of a block stored at an offset with a payload of some length.
  function EntryOf(b: Block, offset: nat, payload: nat): Entry
    requires OneSeries(b)
  {
    Entry(b[0].seriesId, b[0].validTime, b[|b| - 1].validTime, offset, BLOCK_HEADER_BYTES + payload, |b|)
  }

  function EndOf(payloads: seq<nat>): nat {
    if payloads == [] then SEGMENT_HEADER_BYTES
    else EndOf(payloads[..|payloads| - 1]) + BLOCK_HEADER_BYTES + payloads[|payloads| - 1]
  }

  // Entry i describes block i, and blocks follow one another without gaps.
  ghost predicate Indexes(index: seq<Entry>, blocks: seq<Block>, payloads: seq<nat>) {
    && |index| == |blocks| == |payloads|
    && forall i :: 0 <= i < |blocks| ==>
         OneSeries(blocks[i]) && index[i] == EntryOf(blocks[i], EndOf(payloads[..i]), payloads[i])
  }

  // Stored blocks, whether raw or compressed, are large enough for the points they hold.
  ghost predicate Holdable(blocks: seq<Block>, payloads: seq<nat>) {
    |blocks| == |payloads| &&
    forall i :: 0 <= i < |blocks| ==> MinimumEncodedBytes(|blocks[i]|) <= payloads[i] * MAX_LZ4_RATIO
  }

  // ---- Validation ----

  predicate EntryOk(e: Entry, expectedOffset: nat, indexOffset: nat) {
    && 0 < e.points <= MAX_BLOCK_POINTS
    && e.minTime <= e.maxTime
    && e.offset == expectedOffset
    && e.offset + e.length <= indexOffset
    && MinimumEncodedBytes(e.points)
       <= (if e.length >= BLOCK_HEADER_BYTES then e.length - BLOCK_HEADER_BYTES else 0) * MAX_LZ4_RATIO
  }

  // Entries are in series and time order and blocks of a series do not overlap.
  predicate Follows(previous: Entry, e: Entry) {
    && (previous.seriesId < e.seriesId || (previous.seriesId == e.seriesId && previous.minTime <= e.minTime))
    && (e.seriesId == previous.seriesId ==> previous.maxTime <= e.minTime)
  }

  function OffsetAfter(index: seq<Entry>): nat {
    if index == [] then SEGMENT_HEADER_BYTES else index[|index| - 1].offset + index[|index| - 1].length
  }

  function PointsIn(index: seq<Entry>): nat {
    if index == [] then 0 else PointsIn(index[..|index| - 1]) + index[|index| - 1].points
  }

  ghost predicate IndexOk(index: seq<Entry>, indexOffset: nat, pointCount: nat) {
    && (forall i :: 0 <= i < |index| ==> EntryOk(index[i], OffsetAfter(index[..i]), indexOffset))
    && (forall i :: 0 < i < |index| ==> Follows(index[i - 1], index[i]))
    && PointsIn(index) == pointCount && OffsetAfter(index) == indexOffset
  }

  method ValidateIndex(index: seq<Entry>, indexOffset: nat, pointCount: nat) returns (ok: bool)
    ensures ok <==> IndexOk(index, indexOffset, pointCount)
  {
    hide EntryOk, Follows;
    var previous: Option<Entry> := None;
    var indexedPoints, expectedOffset := 0, SEGMENT_HEADER_BYTES;
    for i := 0 to |index|
      invariant previous == if i == 0 then None else Some(index[i - 1])
      invariant indexedPoints == PointsIn(index[..i]) && expectedOffset == OffsetAfter(index[..i])
      invariant forall j :: 0 <= j < i ==> EntryOk(index[j], OffsetAfter(index[..j]), indexOffset)
      invariant forall j :: 0 < j < i ==> Follows(index[j - 1], index[j])
    {
      var e := index[i];
      assert index[..i + 1][..i] == index[..i];
      if !EntryOk(e, expectedOffset, indexOffset) {
        return false;
      }
      if previous.Some? && !Follows(previous.value, e) {
        return false;
      }
      indexedPoints := indexedPoints + e.points;
      expectedOffset := e.offset + e.length;
      previous := Some(e);
    }
    assert index[..|index|] == index;
    ok := indexedPoints == pointCount && expectedOffset == indexOffset;
  }

  // ---- Order of blocks ----

  lemma {:induction false} BlockInConcat(blocks: seq<Block>, i: nat, k: nat) returns (at: nat)
    requires i < |blocks| && k < |blocks[i]|
    ensures at == |Concat(blocks[..i])| + k < |Concat(blocks)| && Concat(blocks)[at] == blocks[i][k]
    decreases |blocks|
  {
    var n := |blocks| - 1;
    if i == n {
      at := |Concat(blocks[..i])| + k;
    } else {
      assert blocks[..n][..i] == blocks[..i];
      at := BlockInConcat(blocks[..n], i, k);
    }
  }

  lemma {:induction false} ConcatPrefixLength(blocks: seq<Block>, i: nat)
    requires i <= |blocks|
    ensures |Concat(blocks[..i])| <= |Concat(blocks)|
    decreases |blocks|
  {
    if i < |blocks| {
      assert blocks[..|blocks| - 1][..i] == blocks[..i];
      ConcatPrefixLength(blocks[..|blocks| - 1], i);
    } else {
      assert blocks[..i] == blocks;
    }
  }

  // Points of earlier blocks come first.
  lemma BlocksInOrder(blocks: seq<Block>, i: nat, k: nat, j: nat, l: nat)
    requires SortedBy(Concat(blocks), SegmentKey)
    requires i < |blocks| && k < |blocks[i]| && j < |blocks| && l < |blocks[j]|
    requires i < j || (i == j && k < l)
    ensures KeyLe(SegmentKey(blocks[i][k]), SegmentKey(blocks[j][l]))
  {
    hide Concat, KeyLe, SegmentKey;
    var a := BlockInConcat(blocks, i, k);
    var b := BlockInConcat(blocks, j, l);
    if i < j {
      BlockEnds(blocks, i, j);
    }
    assert a < b;
  }

  // A block ends before a later one starts.
  lemma BlockEnds(blocks: seq<Block>, i: nat, j: nat)
    requires i < j < |blocks|
    ensures |Concat(blocks[..i])| + |blocks[i]| <= |Concat(blocks[..j])|
  {
    hide Concat;
    ConcatPrefixLength(blocks[..j], i + 1);
    assert blocks[..j][..i + 1] == blocks[..i + 1] == blocks[..i] + [blocks[i]];
    ConcatSnoc(blocks[..i], blocks[i]);
  }

  lemma KeyOrder(p: Point, q: Point)
    requires KeyLe(SegmentKey(p), SegmentKey(q))
    ensures p.seriesId <= q.seriesId && (p.seriesId == q.seriesId ==> p.validTime <= q.validTime)
  {
    var a, b := SegmentKey(p), SegmentKey(q);
    assert a[1..][0] == p.validTime && b[1..][0] == q.validTime;
  }

  // Entries of an ordered segment: series ascend, and within a series later blocks start no earlier than earlier ones end.
  lemma EntriesInOrder(blocks: seq<Block>, i: nat, j: nat)
    requires SortedBy(Concat(blocks), SegmentKey) && i < j < |blocks| && OneSeries(blocks[i]) && OneSeries(blocks[j])
    ensures blocks[i][0].seriesId <= blocks[j][0].seriesId
    ensures blocks[i][0].seriesId == blocks[j][0].seriesId ==>
              blocks[i][|blocks[i]| - 1].validTime <= blocks[j][0].validTime
  {
    hide SortedBy, KeyLe, SegmentKey;
    var last := |blocks[i]| - 1;
    BlocksInOrder(blocks, i, last, j, 0);
    KeyOrder(blocks[i][last], blocks[j][0]);
    assert blocks[i][last] in blocks[i];
  }

  // Within a block, times run from the entry's minimum to its maximum.
  lemma TimesWithin(blocks: seq<Block>, i: nat, k: nat)
    requires SortedBy(Concat(blocks), SegmentKey) && i < |blocks| && OneSeries(blocks[i]) && k < |blocks[i]|
    ensures blocks[i][0].validTime <= blocks[i][k].validTime <= blocks[i][|blocks[i]| - 1].validTime
  {
    hide SortedBy, KeyLe, SegmentKey;
    var b, last := blocks[i], |blocks[i]| - 1;
    assert b[k] in b && b[last] in b && b[0] in b;
    if 0 < k {
      BlocksInOrder(blocks, i, 0, i, k);
      KeyOrder(b[0], b[k]);
    }
    if k < last {
      BlocksInOrder(blocks, i, k, i, last);
      KeyOrder(b[k], b[last]);
    }
  }

  lemma WrittenEntryOk(index: seq<Entry>, blocks: seq<Block>, payloads: seq<nat>, i: nat)
    requires Indexes(index, blocks, payloads) && Holdable(blocks, payloads) && i < |index|
    requires BlocksOk(blocks, MAX_BLOCK_POINTS) && SortedBy(Concat(blocks), SegmentKey)
    ensures EntryOk(index[i], OffsetAfter(index[..i]), EndOf(payloads))
  {
    hide SortedBy, OffsetAfter, EndOf;
    assert blocks[i] in blocks;
    TimesWithin(blocks, i, 0);
    OffsetsChain(index, blocks, payloads, i);
    EndsGrow(payloads, i);
  }

  lemma WrittenFollows(index: seq<Entry>, blocks: seq<Block>, payloads: seq<nat>, i: nat)
    requires Indexes(index, blocks, payloads) && 0 < i < |index| && SortedBy(Concat(blocks), SegmentKey)
    ensures Follows(index[i - 1], index[i])
  {
    hide SortedBy, EndOf;
    EntriesInOrder(blocks, i - 1, i);
    TimesWithin(blocks, i - 1, 0);
  }

  /**
  The writer's index is valid: its entries pass every check the reader makes, and cover
  exactly the points and bytes of the file.
  */
  lemma WrittenIndexValid(index: seq<Entry>, blocks: seq<Block>, payloads: seq<nat>)
    requires Indexes(index, blocks, payloads) && Holdable(blocks, payloads)
    requires BlocksOk(blocks, MAX_BLOCK_POINTS) && SortedBy(Concat(blocks), SegmentKey)
    ensures IndexOk(index, EndOf(payloads), |Concat(blocks)|)
  {
    hide SortedBy, Indexes, Holdable, BlocksOk, EntryOk, Follows, EndOf;
    forall i | 0 <= i < |index| ensures EntryOk(index[i], OffsetAfter(index[..i]), EndOf(payloads)) {
      WrittenEntryOk(index, blocks, payloads, i);
    }
    forall i | 0 < i < |index| ensures Follows(index[i - 1], index[i]) {
      WrittenFollows(index, blocks, payloads, i);
    }
    PointsCounted(index, blocks, payloads);
    OffsetsChain(index, blocks, payloads, |index|);
    assert |payloads| == |index| by { SameLengths(index, blocks, payloads); }
    assert index[..|index|] == index && payloads[..|payloads|] == payloads;
  }

  lemma SameLengths(index: seq<Entry>, blocks: seq<Block>, payloads: seq<nat>)
    requires Indexes(index, blocks, payloads)
    ensures |index| == |blocks| == |payloads|
  {
  }

  lemma OffsetsChain(index: seq<Entry>, blocks: seq<Block>, payloads: seq<nat>, i: nat)
    requires Indexes(index, blocks, payloads) && i <= |index|
    ensures OffsetAfter(index[..i]) == EndOf(payloads[..i])
  {
    if i > 0 {
      assert payloads[..i][..i - 1] == payloads[..i - 1];
      assert index[..i][i - 1] == index[i - 1];
    }
  }

  lemma {:induction false} EndsGrow(payloads: seq<nat>, i: nat)
    requires i < |payloads|
    ensures EndOf(payloads[..i]) + BLOCK_HEADER_BYTES + payloads[i] <= EndOf(payloads)
    decreases |payloads|
  {
    var n := |payloads| - 1;
    if i < n {
      assert payloads[..n][..i] == payloads[..i];
      EndsGrow(payloads[..n], i);
    }
  }

  lemma {:induction false} PointsCounted(index: seq<Entry>, blocks: seq<Block>, payloads: seq<nat>)
    requires Indexes(index, blocks, payloads)
    ensures PointsIn(index) == |Concat(blocks)|
  {
    if index != [] {
      var n := |index| - 1;
      forall i | 0 <= i < n
        ensures OneSeries(blocks[..n][i]) && index[..n][i] == EntryOf(blocks[..n][i], EndOf(payloads[..n][..i]), payloads[..n][i])
      {
        assert payloads[..n][..i] == payloads[..i];
      }
      PointsCounted(index[..n], blocks[..n], payloads[..n]);
    }
  }

  // ---- Reading a block back ----

  // How a block's bytes are stored: as they are, or compressed by a codec that undoes itself.
  datatype Codec = Codec(compress: Bytes -> Bytes, decompress: (Bytes, nat) -> Option<Bytes>)

  ghost predicate CodecOk(c: Codec) {
    forall x: Bytes ::
      c.decompress(c.compress(x), |x|) == Some(x) && |x| <= |c.compress(x)| * MAX_LZ4_RATIO
  }

  datatype Stored = Raw(payload: Bytes) | Compressed(size: nat, stream: Bytes)

  // Compression is used when it is smaller, its four-byte size prefix included.
  function Store(c: Codec, encoded: Bytes): Stored {
    if 4 + |c.compress(encoded)| < |encoded| then Compressed(|encoded|, c.compress(encoded)) else Raw(encoded)
  }

  function PayloadBytes(s: Stored): nat {
    match s
    case Raw(payload) => |payload|
    case Compressed(_, stream) => 4 + |stream|
  }

  predicate TimesAscend(points: seq<Point>) {
    forall i :: 0 < i < |points| ==> points[i - 1].validTime <= points[i].validTime
  }

  // The reader's checks on a stored block, in order, and the points it returns.
  function ReadBlock(c: Codec, e: Entry, uncompressed: nat, s: Stored): Option<seq<Point>> {
    if uncompressed < MinimumEncodedBytes(e.points) || uncompressed > MaximumEncodedBytes(e.points) then None
    else
      var decoded := match s
        case Raw(payload) => Some(payload)
        case Compressed(size, stream) =>
          if size != uncompressed || uncompressed > |stream| * MAX_LZ4_RATIO then None
          else c.decompress(stream, uncompressed);
      match decoded
      case None => None
      case Some(bytes) =>
        if |bytes| != uncompressed then None
        else match DecodeColumns(bytes, e.seriesId, e.points)
          case None => None
          case Some(points) =>
            if points == [] || points[0].validTime != e.minTime || points[|points| - 1].validTime != e.maxTime
               || !TimesAscend(points) || !PointsOk(points) then None
            else Some(points)
  }

  // Every block the writer stores passes every check of the reader and is read back exactly.
  lemma WrittenBlockReads(c: Codec, blocks: seq<Block>, i: nat, offset: nat)
    requires CodecOk(c) && SortedBy(Concat(blocks), SegmentKey)
    requires i < |blocks| && OneSeries(blocks[i]) && PointsOk(blocks[i]) && EncodeColumns(blocks[i]).Some?
    ensures var b := blocks[i];
            var encoded := EncodeColumns(b).value;
            var s := Store(c, encoded);
            && ReadBlock(c, EntryOf(b, offset, PayloadBytes(s)), |encoded|, s) == Some(b)
            && MinimumEncodedBytes(|b|) <= PayloadBytes(s) * MAX_LZ4_RATIO
  {
    hide SortedBy, EncodeColumns, DecodeColumns, CodecOk, PointsOk;
    var b := blocks[i];
    var encoded := EncodeColumns(b).value;
    CodecUndoes(c, encoded);
    EncodedSize(b);
    ColumnsRoundTrip(b, b[0].seriesId);
    assert TimesAscend(b) by { BlockAscends(blocks, i); }
  }

  lemma CodecUndoes(c: Codec, x: Bytes)
    requires CodecOk(c)
    ensures c.decompress(c.compress(x), |x|) == Some(x) && |x| <= |c.compress(x)| * MAX_LZ4_RATIO
  {
  }

  lemma NextAscends(blocks: seq<Block>, i: nat, k: nat)
    requires SortedBy(Concat(blocks), SegmentKey) && i < |blocks| && OneSeries(blocks[i]) && 0 < k < |blocks[i]|
    ensures blocks[i][k - 1].validTime <= blocks[i][k].validTime
  {
    hide SortedBy, KeyLe, SegmentKey, Concat;
    var a, b := blocks[i][k - 1], blocks[i][k];
    assert a in blocks[i] && b in blocks[i];
    BlocksInOrder(blocks, i, k - 1, i, k);
    KeyOrder(a, b);
  }

  lemma BlockAscends(blocks: seq<Block>, i: nat)
    requires SortedBy(Concat(blocks), SegmentKey) && i < |blocks| && OneSeries(blocks[i])
    ensures TimesAscend(blocks[i])
  {
    hide SortedBy, Concat, OneSeries;
    forall k | 0 < k < |blocks[i]| ensures blocks[i][k - 1].validTime <= blocks[i][k].validTime {
      NextAscends(blocks, i, k);
    }
  }

  // ---- Segment files ----

  // A block as its header and payload say: the length before compression, and the bytes.
  datatype StoredBlock = StoredBlock(uncompressed: nat, stored: Stored)

  datatype SegmentFile = SegmentFile(index: seq<Entry>, blocks: seq<StoredBlock>, indexOffset: nat, points: nat)

  function StoredAs(c: Codec, encoded: Bytes): StoredBlock {
    StoredBlock(|encoded|, Store(c, encoded))
  }

  function Payloads(blocks: seq<StoredBlock>): (payloads: seq<nat>)
    ensures |payloads| == |blocks|
    ensures forall i :: 0 <= i < |blocks| ==> payloads[i] == PayloadBytes(blocks[i].stored)
  {
    seq(|blocks|, i requires 0 <= i < |blocks| => PayloadBytes(blocks[i].stored))
  }

  // Every stored block, read through its index entry, gives these points.
  ghost predicate ReadsBack(c: Codec, file: SegmentFile, blocks: seq<Block>) {
    && |file.index| == |file.blocks| == |blocks|
    && forall i :: 0 <= i < |blocks| ==>
         ReadBlock(c, file.index[i], file.blocks[i].uncompressed, file.blocks[i].stored) == Some(blocks[i])
  }

  ghost predicate HoldsBlocks(c: Codec, file: SegmentFile, points: seq<Point>, blocks: seq<Block>) {
    && Concat(blocks) == Sort(points, SegmentKey) && SortedBy(Concat(blocks), SegmentKey)
    && Indexes(file.index, blocks, Payloads(file.blocks))
    && ReadsBack(c, file, blocks)
  }

  // A file that opens, whose blocks read back to exactly these points in segment order.
  ghost predicate IsSegmentOf(c: Codec, file: SegmentFile, points: seq<Point>) {
    && IndexOk(file.index, file.indexOffset, file.points) && file.points == |points|
    && exists blocks :: HoldsBlocks(c, file, points, blocks)
  }

  datatype CreateResult = Created(file: SegmentFile) | InvalidBlockSize | InvalidPoints | Unencodable | TooManyBlocks

  const INDEX_HEADER_BYTES: nat := 16
  const INDEX_ENTRY_BYTES: nat := 40

  // Encodes and stores block by block.
  method StoreBlocks(c: Codec, blocks: seq<Block>) returns (r: Option<SegmentFile>)
    requires forall b <- blocks :: OneSeries(b)
    ensures r.Some? <==> forall b <- blocks :: EncodeColumns(b).Some?
    ensures r.Some? ==>
              && |r.value.blocks| == |blocks|
              && (forall i :: 0 <= i < |blocks| ==> r.value.blocks[i] == StoredAs(c, EncodeColumns(blocks[i]).value))
              && Indexes(r.value.index, blocks, Payloads(r.value.blocks))
              && r.value.indexOffset == EndOf(Payloads(r.value.blocks))
  {
    hide EncodeColumns, EntryOf, OneSeries, EndOf;
    var index: seq<Entry>, stored: seq<StoredBlock>, offset := [], [], SEGMENT_HEADER_BYTES;
    assert EndOf(Payloads(stored)) == SEGMENT_HEADER_BYTES by { NoBlocksEnd(Payloads(stored)); }
    for i := 0 to |blocks|
      invariant |index| == |stored| == i && offset == EndOf(Payloads(stored))
      invariant forall j :: 0 <= j < i ==>
                  EncodeColumns(blocks[j]).Some? && stored[j] == StoredAs(c, EncodeColumns(blocks[j]).value)
      invariant forall j :: 0 <= j < i ==>
                  OneSeries(blocks[j]) && index[j] == EntryOf(blocks[j], EndOf(Payloads(stored)[..j]), Payloads(stored)[j])
    {
      var b := blocks[i];
      assert b in blocks;
      var encoded := EncodeColumns(b);
      if encoded.None? {
        return None;
      }
      var one := StoredAs(c, encoded.value);
      ghost var before := Payloads(stored);
      PayloadsSnoc(stored, one);
      index := index + [EntryOf(b, offset, PayloadBytes(one.stored))];
      stored := stored + [one];
      ghost var now := Payloads(stored);
      assert now == before + [PayloadBytes(one.stored)];
      assert forall j :: 0 <= j <= i ==> now[..j] == before[..j];
      assert before[..i] == before;
      EndSnoc(before, PayloadBytes(one.stored));
      offset := offset + BLOCK_HEADER_BYTES + PayloadBytes(one.stored);
    }
    r := Some(SegmentFile(index, stored, offset, 0));
  }

  lemma NoBlocksEnd(payloads: seq<nat>)
    requires payloads == []
    ensures EndOf(payloads) == SEGMENT_HEADER_BYTES
  {
  }

  lemma EndSnoc(payloads: seq<nat>, more: nat)
    ensures EndOf(payloads + [more]) == EndOf(payloads) + BLOCK_HEADER_BYTES + more
  {
    assert (payloads + [more])[..|payloads|] == payloads;
  }

  lemma PayloadsSnoc(blocks: seq<StoredBlock>, b: StoredBlock)
    ensures Payloads(blocks + [b]) == Payloads(blocks) + [PayloadBytes(b.stored)]
  {
  }

  // The blocks of a segment: the points in segment order, cut as full as the block size allows.
  ghost predicate IsCut(points: seq<Point>, limit: nat, blocks: seq<Block>) {
    BlocksOk(blocks, limit) && BlocksFull(blocks, limit) && Concat(blocks) == Sort(points, SegmentKey)
  }

  // How creating a segment ends once its points are cut.
  ghost predicate Ends(c: Codec, points: seq<Point>, blocks: seq<Block>, r: CreateResult) {
    if exists b <- blocks :: EncodeColumns(b).None? then r == Unencodable
    else if INDEX_HEADER_BYTES + INDEX_ENTRY_BYTES * |blocks| > U32_MAX then r == TooManyBlocks
    else r.Created? && HoldsBlocks(c, r.file, points, blocks)
  }

  /**
  Creating a segment. Unless it is refused for its block size, for a point that is not valid, for a
  block its columns cannot hold or for too many blocks, the file opens and holds exactly the points.
  */
  method CreateSegment(c: Codec, points: seq<Point>, blockPoints: nat) returns (r: CreateResult)
    requires CodecOk(c)
    ensures r.InvalidBlockSize? <==> blockPoints == 0 || blockPoints > MAX_BLOCK_POINTS
    ensures r.InvalidPoints? <==> !r.InvalidBlockSize? && !PointsOk(points)
    ensures r.Unencodable? ==>
              exists b: Block :: OneSeries(b) && |b| <= blockPoints && (forall p <- b :: p in points) && EncodeColumns(b).None?
    ensures r.TooManyBlocks? ==> INDEX_HEADER_BYTES + INDEX_ENTRY_BYTES * |points| > U32_MAX
    ensures r.Created? ==> IsSegmentOf(c, r.file, points)
    ensures r.InvalidBlockSize? || r.InvalidPoints?
            || exists blocks :: IsCut(points, blockPoints, blocks) && Ends(c, points, blocks, r)
  {
    hide EncodeColumns, CodecOk, Sort, SortedBy, Concat, IsSegmentOf, PointOk, OneSeries, HoldsBlocks, BlocksFull;
    if blockPoints == 0 || blockPoints > MAX_BLOCK_POINTS {
      return InvalidBlockSize;
    }
    if !PointsOk(points) {
      return InvalidPoints;
    }
    var ordered := Sort(points, SegmentKey);
    var blocks := CutBlocks(ordered, blockPoints);
    assert IsCut(points, blockPoints, blocks);
    SortElements(points, SegmentKey);
    BlocksFrom(blocks);
    var stored := StoreBlocks(c, blocks);
    if stored.None? {
      return Unencodable;
    }
    if INDEX_HEADER_BYTES + INDEX_ENTRY_BYTES * |blocks| > U32_MAX {
      return TooManyBlocks;
    }
    var file := stored.value.(points := |points|);
    CreatedHolds(c, points, blocks, file);
    r := Created(file);
  }

  // Blocks hold nothing but the points they were cut from, and at least one each.
  lemma {:induction false} BlocksFrom(blocks: seq<Block>)
    requires forall b <- blocks :: OneSeries(b)
    ensures forall b <- blocks :: forall p <- b :: p in Concat(blocks)
    ensures |blocks| <= |Concat(blocks)|
  {
    if blocks != [] {
      var front, last := blocks[..|blocks| - 1], blocks[|blocks| - 1];
      assert last in blocks;
      BlocksFrom(front);
      forall b <- blocks, p <- b ensures p in Concat(blocks) {
        if b != last {
          assert b in front;
        }
      }
    }
  }

  lemma CreatedHolds(c: Codec, points: seq<Point>, blocks: seq<Block>, file: SegmentFile)
    requires CodecOk(c) && PointsOk(points) && BlocksOk(blocks, MAX_BLOCK_POINTS) && Concat(blocks) == Sort(points, SegmentKey)
    requires forall b <- blocks :: EncodeColumns(b).Some?
    requires |file.blocks| == |blocks| && file.points == |points| && file.indexOffset == EndOf(Payloads(file.blocks))
    requires forall i :: 0 <= i < |blocks| ==> file.blocks[i] == StoredAs(c, EncodeColumns(blocks[i]).value)
    requires Indexes(file.index, blocks, Payloads(file.blocks))
    ensures IsSegmentOf(c, file, points) && HoldsBlocks(c, file, points, blocks)
  {
    hide EncodeColumns, CodecOk, Sort, SortedBy, Concat, EndOf, IndexOk, PointOk, OneSeries, ReadBlock, EntryOf,
      MinimumEncodedBytes, Store;
    assert forall b <- blocks :: OneSeries(b);
    SortIsStable(points, SegmentKey);
    SortElements(points, SegmentKey);
    BlocksFrom(blocks);
    var payloads := Payloads(file.blocks);
    forall i | 0 <= i < |blocks|
      ensures ReadBlock(c, file.index[i], file.blocks[i].uncompressed, file.blocks[i].stored) == Some(blocks[i])
      ensures MinimumEncodedBytes(|blocks[i]|) <= payloads[i] * MAX_LZ4_RATIO
    {
      assert blocks[i] in blocks;
      WrittenBlockReads(c, blocks, i, EndOf(payloads[..i]));
    }
    WrittenIndexValid(file.index, blocks, payloads);
    assert HoldsBlocks(c, file, points, blocks);
  }

  // ---- Queries ----

  predicate Overlaps(e: Entry, s: u64, start: i64, end: i64) {
    e.seriesId == s && e.maxTime >= start && e.minTime < end
  }

  // A block whose entry does not overlap the range holds nothing that matches.
  lemma SkippedBlock(blocks: seq<Block>, i: nat, e: Entry, offset: nat, payload: nat, s: u64, start: i64, end: i64)
    requires SortedBy(Concat(blocks), SegmentKey) && i < |blocks| && OneSeries(blocks[i])
    requires e == EntryOf(blocks[i], offset, payload) && !Overlaps(e, s, start, end)
    ensures Filter(blocks[i], Matching(s, start, end)) == []
  {
    hide SortedBy, Filter;
    forall p <- blocks[i] ensures !Matching(s, start, end)(p) {
      var k :| 0 <= k < |blocks[i]| && blocks[i][k] == p;
      TimesWithin(blocks, i, k);
    }
    FilterNone(blocks[i], Matching(s, start, end));
  }

  // Inside a block of the right series, matching is a matter of time alone.
  lemma {:induction false} BlockMatches(b: Block, s: u64, start: i64, end: i64)
    requires forall p <- b :: p.seriesId == s
    ensures Filter(b, Ranged(start, end)) == Filter(b, Matching(s, start, end))
  {
    if b != [] {
      assert b[|b| - 1] in b;
      BlockMatches(b[..|b| - 1], s, start, end);
    }
  }

  // Reading every overlapping block in turn.
  method Query(c: Codec, file: SegmentFile, s: u64, start: i64, end: i64, ghost points: seq<Point>)
    returns (r: Option<seq<Point>>)
    requires IsSegmentOf(c, file, points)
    ensures r == Some(Filter(Sort(points, SegmentKey), Matching(s, start, end)))
  {
    hide SortedBy, Filter, EntryOf, IndexOk, Sort, Indexes, ReadBlock;
    ghost var blocks :| HoldsBlocks(c, file, points, blocks);
    r := QueryBlocks(c, file, s, start, end, blocks);
  }

  method QueryBlocks(c: Codec, file: SegmentFile, s: u64, start: i64, end: i64, ghost blocks: seq<Block>)
    returns (answer: Option<seq<Point>>)
    requires Indexes(file.index, blocks, Payloads(file.blocks)) && SortedBy(Concat(blocks), SegmentKey)
    requires ReadsBack(c, file, blocks)
    ensures answer == Some(Filter(Concat(blocks), Matching(s, start, end)))
  {
    hide SortedBy, Filter, EntryOf, ReadBlock, EndOf;
    var index := file.index;
    ghost var payloads := Payloads(file.blocks);
    var r: seq<Point> := [];
    assert Filter([], Matching(s, start, end)) == [] by { FilterEmpty(Matching(s, start, end)); }
    for i := 0 to |index|
      invariant r == Filter(Concat(blocks[..i]), Matching(s, start, end))
    {
      assert blocks[..i + 1] == blocks[..i] + [blocks[i]];
      ConcatSnoc(blocks[..i], blocks[i]);
      FilterConcat(Concat(blocks[..i]), blocks[i], Matching(s, start, end));
      if Overlaps(index[i], s, start, end) {
        var b := ReadBlock(c, index[i], file.blocks[i].uncompressed, file.blocks[i].stored);
        if b.None? {
          return None;
        }
        SeriesOfEntry(blocks[i], EndOf(payloads[..i]), payloads[i]);
        BlockMatches(blocks[i], s, start, end);
        r := r + Filter(b.value, Ranged(start, end));
      } else {
        SkippedBlock(blocks, i, index[i], EndOf(payloads[..i]), payloads[i], s, start, end);
        assert r + [] == r;
      }
    }
    assert blocks[..|blocks|] == blocks;
    answer := Some(r);
  }

  lemma SeriesOfEntry(b: Block, offset: nat, payload: nat)
    requires OneSeries(b)
    ensures forall p <- b :: p.seriesId == EntryOf(b, offset, payload).seriesId
  {
  }

  // Entries the bisection passes over.
  predicate Before(e: Entry, s: u64, start: i64) {
    e.seriesId < s || (e.seriesId == s && e.maxTime < start)
  }

  lemma BeforeIsPrefix(index: seq<Entry>, blocks: seq<Block>, payloads: seq<nat>, i: nat, j: nat, s: u64, start: i64)
    requires Indexes(index, blocks, payloads) && SortedBy(Concat(blocks), SegmentKey)
    requires i < j < |index| && Before(index[j], s, start)
    ensures Before(index[i], s, start)
  {
    hide SortedBy;
    EntriesInOrder(blocks, i, j);
    TimesWithin(blocks, j, 0);
  }

  method FirstCandidate(index: seq<Entry>, s: u64, start: i64, ghost blocks: seq<Block>, ghost payloads: seq<nat>)
    returns (first: nat)
    requires Indexes(index, blocks, payloads) && SortedBy(Concat(blocks), SegmentKey)
    ensures first <= |index|
    ensures forall i :: 0 <= i < first ==> Before(index[i], s, start)
    ensures forall i :: first <= i < |index| ==> !Before(index[i], s, start)
  {
    hide SortedBy, Before, Indexes;
    var lo, hi := 0, |index|;
    while lo < hi
      invariant 0 <= lo <= hi <= |index|
      invariant forall i :: 0 <= i < lo ==> Before(index[i], s, start)
      invariant forall i :: hi <= i < |index| ==> !Before(index[i], s, start)
    {
      var mid := (lo + hi) / 2;
      BeforeSplits(index, blocks, payloads, mid, s, start);
      if Before(index[mid], s, start) {
        lo := mid + 1;
      } else {
        hi := mid;
      }
    }
    first := lo;
  }

  lemma BeforeSplits(index: seq<Entry>, blocks: seq<Block>, payloads: seq<nat>, mid: nat, s: u64, start: i64)
    requires Indexes(index, blocks, payloads) && SortedBy(Concat(blocks), SegmentKey) && mid < |index|
    ensures Before(index[mid], s, start) ==> forall i :: 0 <= i < mid ==> Before(index[i], s, start)
    ensures !Before(index[mid], s, start) ==> forall i :: mid < i < |index| ==> !Before(index[i], s, start)
  {
    hide SortedBy, Before, Indexes;
    forall i, j | 0 <= i < j < |index| && Before(index[j], s, start) ensures Before(index[i], s, start) {
      BeforeIsPrefix(index, blocks, payloads, i, j, s, start);
    }
  }

  // Once an entry is past the range, so is everything after it.
  lemma PastStaysPast(index: seq<Entry>, blocks: seq<Block>, payloads: seq<nat>, i: nat, j: nat, s: u64, start: i64, end: i64)
    requires Indexes(index, blocks, payloads) && SortedBy(Concat(blocks), SegmentKey)
    requires i <= j < |index| && !Before(index[i], s, start)
    requires !(index[i].seriesId == s && index[i].minTime < end)
    ensures !Overlaps(index[j], s, start, end)
  {
    hide SortedBy;
    if i < j {
      EntriesInOrder(blocks, i, j);
      TimesWithin(blocks, i, 0);
    }
  }

  // Points matched in a run of blocks that all fall outside the query.
  lemma {:induction false} NothingFrom(index: seq<Entry>, blocks: seq<Block>, payloads: seq<nat>, begin: nat, upTo: nat,
                                       s: u64, start: i64, end: i64)
    requires Indexes(index, blocks, payloads) && SortedBy(Concat(blocks), SegmentKey)
    requires begin <= upTo <= |index| && forall i :: begin <= i < upTo ==> !Overlaps(index[i], s, start, end)
    ensures Filter(Concat(blocks[..upTo]), Matching(s, start, end)) == Filter(Concat(blocks[..begin]), Matching(s, start, end))
    decreases upTo
  {
    hide SortedBy, Filter, EntryOf, Overlaps, Concat, EndOf, Matching;
    if begin < upTo {
      var n := upTo - 1;
      NothingFrom(index, blocks, payloads, begin, n, s, start, end);
      assert blocks[..upTo] == blocks[..n] + [blocks[n]];
      ConcatSnoc(blocks[..n], blocks[n]);
      FilterConcat(Concat(blocks[..n]), blocks[n], Matching(s, start, end));
      SkippedBlock(blocks, n, index[n], EndOf(payloads[..n]), payloads[n], s, start, end);
      assert Filter(Concat(blocks[..n]), Matching(s, start, end)) + [] == Filter(Concat(blocks[..n]), Matching(s, start, end));
    }
  }

  // The points of the blocks a query must decode.
  function Work(index: seq<Entry>, s: u64, start: i64, end: i64): nat {
    if index == [] then 0
    else Work(index[..|index| - 1], s, start, end)
         + (if Overlaps(index[|index| - 1], s, start, end) then index[|index| - 1].points else 0)
  }

  lemma WorkNext(index: seq<Entry>, n: nat, s: u64, start: i64, end: i64)
    requires n < |index|
    ensures Work(index[..n + 1], s, start, end)
         == Work(index[..n], s, start, end) + (if Overlaps(index[n], s, start, end) then index[n].points else 0)
  {
    assert index[..n + 1][..n] == index[..n];
  }

  lemma {:induction false} WorkGrows(index: seq<Entry>, n: nat, upTo: nat, s: u64, start: i64, end: i64)
    requires n <= upTo <= |index|
    ensures Work(index[..n], s, start, end) <= Work(index[..upTo], s, start, end)
    ensures (forall i :: n <= i < upTo ==> !Overlaps(index[i], s, start, end)) ==>
              Work(index[..n], s, start, end) == Work(index[..upTo], s, start, end)
    decreases upTo
  {
    hide Overlaps, Work;
    if n < upTo {
      WorkGrows(index, n, upTo - 1, s, start, end);
      WorkNext(index, upTo - 1, s, start, end);
    }
  }

  lemma {:induction false} MatchesPrefix(blocks: seq<Block>, n: nat, keep: Point -> bool)
    requires n <= |blocks|
    ensures Filter(Concat(blocks[..n]), keep) <= Filter(Concat(blocks), keep)
    decreases |blocks|
  {
    hide Filter, Concat;
    if n < |blocks| {
      var front, last := blocks[..|blocks| - 1], blocks[|blocks| - 1];
      assert front[..n] == blocks[..n] && blocks == front + [last];
      MatchesPrefix(front, n, keep);
      ConcatSnoc(front, last);
      FilterConcat(Concat(front), last, keep);
    } else {
      assert blocks[..n] == blocks;
    }
  }

  /**
  The bounded visit. It starts at the first block that can match, reserves each block's
  point count before reading it and stops at the first block past the range. It finishes
  exactly when the overlapping blocks fit the budget, and has then visited exactly the
  matching points in order; otherwise it has visited the first of them. What it reserves never
  exceeds the budget and always covers the points visited.
  */
  method VisitQuery(c: Codec, file: SegmentFile, s: u64, start: i64, end: i64, budget: nat, ghost points: seq<Point>)
    returns (visited: seq<Point>, reserved: nat, finished: bool)
    requires IsSegmentOf(c, file, points)
    ensures finished <==> Work(file.index, s, start, end) <= budget
    ensures finished ==>
              visited == Filter(Sort(points, SegmentKey), Matching(s, start, end)) && reserved == Work(file.index, s, start, end)
    ensures visited <= Filter(Sort(points, SegmentKey), Matching(s, start, end))
    ensures |visited| <= reserved <= budget
  {
    hide SortedBy, Filter, EntryOf, IndexOk, Sort, Indexes, ReadBlock, Work;
    ghost var blocks :| HoldsBlocks(c, file, points, blocks);
    visited, reserved, finished := VisitBlocks(c, file, s, start, end, budget, blocks);
  }

  method VisitBlocks(c: Codec, file: SegmentFile, s: u64, start: i64, end: i64, budget: nat, ghost blocks: seq<Block>)
    returns (visited: seq<Point>, reserved: nat, finished: bool)
    requires Indexes(file.index, blocks, Payloads(file.blocks)) && SortedBy(Concat(blocks), SegmentKey)
    requires ReadsBack(c, file, blocks)
    ensures finished <==> Work(file.index, s, start, end) <= budget
    ensures finished ==>
              visited == Filter(Concat(blocks), Matching(s, start, end)) && reserved == Work(file.index, s, start, end)
    ensures visited <= Filter(Concat(blocks), Matching(s, start, end))
    ensures |visited| <= reserved <= budget
  {
    hide SortedBy, Filter, EntryOf, Overlaps, Before, Work, Concat, ReadBlock;
    var index := file.index;
    ghost var payloads := Payloads(file.blocks);
    var at := FirstCandidate(index, s, start, blocks, payloads);
    forall i | 0 <= i < at ensures !Overlaps(index[i], s, start, end) {
      BeforeNeverOverlaps(index[i], s, start, end);
    }
    NothingFrom(index, blocks, payloads, 0, at, s, start, end);
    WorkGrows(index, 0, at, s, start, end);
    NoWork(index[..0], blocks[..0], s, start, end);
    visited, reserved := [], 0;
    while at < |index| && index[at].seriesId == s && index[at].minTime < end
      invariant at <= |index|
      invariant visited == Filter(Concat(blocks[..at]), Matching(s, start, end))
      invariant |visited| <= reserved <= budget && reserved == Work(index[..at], s, start, end)
      invariant forall i :: at <= i < |index| ==> !Before(index[i], s, start)
      decreases |index| - at
    {
      CandidateOverlaps(index[at], s, start, end);
      WorkNext(index, at, s, start, end);
      if reserved + index[at].points > budget {
        WorkGrows(index, at + 1, |index|, s, start, end);
        assert index[..|index|] == index;
        MatchesPrefix(blocks, at, Matching(s, start, end));
        return visited, reserved, false;
      }
      reserved := reserved + index[at].points;
      var b := ReadBlock(c, index[at], file.blocks[at].uncompressed, file.blocks[at].stored);
      BlockVisited(index, blocks, payloads, at, s, start, end);
      visited := visited + Filter(b.value, Ranged(start, end));
      at := at + 1;
    }
    forall j | at <= j < |index| ensures !Overlaps(index[j], s, start, end) {
      PastStaysPast(index, blocks, payloads, at, j, s, start, end);
    }
    NothingFrom(index, blocks, payloads, at, |index|, s, start, end);
    WorkGrows(index, at, |index|, s, start, end);
    assert blocks[..|blocks|] == blocks && index[..|index|] == index;
    finished := true;
  }

  lemma NoWork(index: seq<Entry>, blocks: seq<Block>, s: u64, start: i64, end: i64)
    requires index == [] && blocks == []
    ensures Work(index, s, start, end) == 0 && Filter(Concat(blocks), Matching(s, start, end)) == []
  {
  }

  lemma CandidateOverlaps(e: Entry, s: u64, start: i64, end: i64)
    requires e.seriesId == s && e.minTime < end && !Before(e, s, start)
    ensures Overlaps(e, s, start, end)
  {
  }

  // One block more.
  lemma BlockVisited(index: seq<Entry>, blocks: seq<Block>, payloads: seq<nat>, at: nat, s: u64, start: i64, end: i64)
    requires Indexes(index, blocks, payloads) && at < |index| && index[at].seriesId == s
    ensures Filter(Concat(blocks[..at + 1]), Matching(s, start, end))
         == Filter(Concat(blocks[..at]), Matching(s, start, end)) + Filter(blocks[at], Ranged(start, end))
    ensures |Filter(blocks[at], Ranged(start, end))| <= index[at].points
  {
    hide Filter, EntryOf, Concat;
    assert blocks[..at + 1] == blocks[..at] + [blocks[at]];
    ConcatSnoc(blocks[..at], blocks[at]);
    FilterConcat(Concat(blocks[..at]), blocks[at], Matching(s, start, end));
    SeriesOfEntry(blocks[at], EndOf(payloads[..at]), payloads[at]);
    BlockMatches(blocks[at], s, start, end);
    FilterElements(blocks[at], Matching(s, start, end));
    CountOfEntry(blocks[at], EndOf(payloads[..at]), payloads[at]);
  }

  lemma BeforeNeverOverlaps(e: Entry, s: u64, start: i64, end: i64)
    requires Before(e, s, start)
    ensures !Overlaps(e, s, start, end)
  {
  }

  lemma CountOfEntry(b: Block, offset: nat, payload: nat)
    requires OneSeries(b)
    ensures EntryOf(b, offset, payload).points == |b|
  {
  }

  // ---- What acceptance means ----

  // A stored block is compressed exactly when that is smaller, its size prefix of four bytes included.
  lemma StoredSmaller(c: Codec, encoded: Bytes)
    ensures var s := Store(c, encoded);
            && (s.Compressed? <==> 4 + |c.compress(encoded)| < |encoded|)
            && (s.Raw? ==> s.payload == encoded)
            && (s.Compressed? ==> s.size == |encoded| && s.stream == c.compress(encoded))
            && PayloadBytes(s) <= |encoded|
  {
  }

  // A block the reader accepts holds what its index entry announces: so many points, of one series, from the
  // minimum to the maximum in time order, each well formed; and its size is plausible.
  lemma BlockAccepted(c: Codec, e: Entry, uncompressed: nat, s: Stored)
    requires ReadBlock(c, e, uncompressed, s).Some?
    ensures var points := ReadBlock(c, e, uncompressed, s).value;
            && |points| == e.points > 0
            && (forall p <- points :: p.seriesId == e.seriesId && p.validTime <= p.validEnd && IsFinite(p.value))
            && points[0].validTime == e.minTime && points[|points| - 1].validTime == e.maxTime
            && (forall i :: 0 < i < |points| ==> points[i - 1].validTime <= points[i].validTime)
    ensures 42 + 8 * e.points <= uncompressed <= 28 + 89 * e.points
    ensures match s
            case Raw(payload) =>
              |payload| == uncompressed && DecodeColumns(payload, e.seriesId, e.points) == ReadBlock(c, e, uncompressed, s)
            case Compressed(size, stream) =>
              && size == uncompressed <= 255 * |stream|
              && c.decompress(stream, uncompressed).Some? && |c.decompress(stream, uncompressed).value| == uncompressed
              && DecodeColumns(c.decompress(stream, uncompressed).value, e.seriesId, e.points)
                 == ReadBlock(c, e, uncompressed, s)
  {
    hide DecodeColumns, IsFinite;
    var bytes := if s.Raw? then s.payload else c.decompress(s.stream, uncompressed).value;
    DecodedBlock(bytes, e.seriesId, e.points);
    var points := ReadBlock(c, e, uncompressed, s).value;
    forall p <- points ensures p.seriesId == e.seriesId {
      var i :| 0 <= i < |points| && points[i] == p;
    }
  }

  lemma DecodedBlock(bytes: Bytes, series: u64, count: nat)
    requires DecodeColumns(bytes, series, count).Some?
    ensures var points := DecodeColumns(bytes, series, count).value;
            |points| == count && forall i :: 0 <= i < |points| ==> points[i].seriesId == series
  {
    hide SplitColumns, DecodeTimes, DecodeRows, FromLE;
    SplitCount(bytes, COLUMN_COUNT);
    var columns := SplitColumns(bytes, COLUMN_COUNT).value;
    var first := ToSigned(ReadU64(columns[0], 0));
    TimesCount(columns[0][8..], count - 1, first, 0);
    var times := [first] + DecodeTimes(columns[0][8..], count - 1, first, 0).value;
    RowsCount(Rows(columns[1], columns[2], columns[3], columns[4], columns[5], columns[6]), times, series, None);
  }

  lemma {:induction false} TimesCount(source: Bytes, count: nat, time: i64, delta: i64)
    requires DecodeTimes(source, count, time, delta).Some?
    ensures |DecodeTimes(source, count, time, delta).value| == count
    decreases count
  {
    hide ReadSigned;
    if count > 0 {
      var (change, rest) := ReadSigned(source).value;
      TimesCount(rest, count - 1, time + (delta + change), delta + change);
    }
  }

  lemma {:induction false} RowsCount(rows: Rows, times: seq<i64>, series: u64, previous: Option<u64>)
    requires DecodeRows(rows, times, series, previous).Some?
    ensures var points := DecodeRows(rows, times, series, previous).value;
            |points| == |times| && forall i :: 0 <= i < |points| ==>
              points[i].seriesId == series && points[i].validTime == times[i]
    decreases |times|
  {
    hide ReadRow;
    if times != [] {
      var (row, rest) := ReadRow(rows, previous).value;
      RowsCount(rest, times[1..], series, Some(PointOf(series, times[0], row).value.value));
    }
  }

  /**
  An accepted index, by its numbers: blocks lie one after another from byte 40 to the index; any two
  entries are in series and time order and, within a series, do not overlap apart from a shared time;
  and each announces between 1 and 262,144 points that its bytes can hold.
  */
  lemma IndexMeaning(index: seq<Entry>, indexOffset: nat, pointCount: nat)
    requires IndexOk(index, indexOffset, pointCount)
    ensures forall i :: 0 <= i < |index| ==>
              && 0 < index[i].points <= 262_144 && index[i].minTime <= index[i].maxTime
              && index[i].offset == (if i == 0 then 40 else index[i - 1].offset + index[i - 1].length)
              && index[i].length > 56 && 42 + 8 * index[i].points <= 255 * (index[i].length - 56)
    ensures forall i, j :: 0 <= i < j < |index| ==>
              || index[i].seriesId < index[j].seriesId
              || (index[i].seriesId == index[j].seriesId && index[i].maxTime <= index[j].minTime)
    ensures index == [] ==> indexOffset == 40 && pointCount == 0
    ensures index != [] ==> indexOffset == index[|index| - 1].offset + index[|index| - 1].length
  {
    hide PointsIn, EntryOk, Follows;
    NoPointsIn();
    forall i | 0 <= i < |index|
      ensures && 0 < index[i].points <= 262_144 && index[i].minTime <= index[i].maxTime
              && index[i].offset == (if i == 0 then 40 else index[i - 1].offset + index[i - 1].length)
              && index[i].length > 56 && 42 + 8 * index[i].points <= 255 * (index[i].length - 56)
    {
      EntryMeaning(index, indexOffset, i);
    }
    forall i, j | 0 <= i < j < |index|
      ensures || index[i].seriesId < index[j].seriesId
              || (index[i].seriesId == index[j].seriesId && index[i].maxTime <= index[j].minTime)
    {
      EntriesApart(index, indexOffset, pointCount, i, j);
    }
  }

  lemma EntryMeaning(index: seq<Entry>, indexOffset: nat, i: nat)
    requires i < |index| && EntryOk(index[i], OffsetAfter(index[..i]), indexOffset)
    ensures 0 < index[i].points <= 262_144 && index[i].minTime <= index[i].maxTime
    ensures index[i].offset == (if i == 0 then 40 else index[i - 1].offset + index[i - 1].length)
    ensures index[i].length > 56 && 42 + 8 * index[i].points <= 255 * (index[i].length - 56)
  {
  }

  lemma NoPointsIn()
    ensures PointsIn([]) == 0
  {
  }

  lemma {:induction false} EntriesApart(index: seq<Entry>, indexOffset: nat, pointCount: nat, i: nat, j: nat)
    requires IndexOk(index, indexOffset, pointCount) && i < j < |index|
    ensures || index[i].seriesId < index[j].seriesId
            || (index[i].seriesId == index[j].seriesId && index[i].maxTime <= index[j].minTime)
    decreases j
  {
    hide PointsIn, OffsetAfter;
    assert Follows(index[j - 1], index[j]);
    assert EntryOk(index[j - 1], OffsetAfter(index[..j - 1]), indexOffset);
    if i < j - 1 {
      EntriesApart(index, indexOffset, pointCount, i, j - 1);
    }
  }

  // A block is read exactly when a point within the bounds of its entry could match.
  lemma OverlapsMeaning(e: Entry, s: u64, start: i64, end: i64)
    requires e.minTime <= e.maxTime && start < end
    ensures Overlaps(e, s, start, end) <==>
            exists p: Point :: Matching(s, start, end)(p) && p.seriesId == e.seriesId && e.minTime <= p.validTime <= e.maxTime
  {
    if Overlaps(e, s, start, end) {
      var t: i64 := if e.minTime < start then start else e.minTime;
      assert Matching(s, start, end)(Point(s, t, t, t, t, 0, 0, 0, 0));
    }
  }
}

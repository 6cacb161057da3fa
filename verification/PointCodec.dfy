/**
The 72-byte log form of a point and of a point batch.
*/
module PointCodec {
  import opened ByteCodec
  import opened Model

  const POINT_BYTES: nat := 72

  function EncodePoint(p: Point): (r: Bytes)
    ensures |r| == POINT_BYTES
  {
    LE(p.seriesId, 8) + LE(ToUnsigned(p.validTime), 8) + LE(ToUnsigned(p.validEnd), 8)
    + LE(ToUnsigned(p.knowledgeTime), 8) + LE(ToUnsigned(p.changeTime), 8) + LE(p.runId, 16)
    + LE(p.value, 8) + LE(p.quality, 4) + LE(p.flags, 4)
  }

  function DecodePoint(raw: Bytes): Point
    requires |raw| == POINT_BYTES
  {
    Point(
      ReadU64(raw, 0),
      ToSigned(ReadU64(raw, 8)),
      ToSigned(ReadU64(raw, 16)),
      ToSigned(ReadU64(raw, 24)),
      ToSigned(ReadU64(raw, 32)),
      ReadU128(raw, 40),
      ReadU64(raw, 56),
      ReadU32(raw, 64),
      ReadU32(raw, 68))
  }

  // The last field of a prefix, and the prefix before it.
  lemma LastField(e: Bytes, head: Bytes, field: Bytes)
    requires |head| + |field| <= |e| && e[..|head| + |field|] == head + field
    ensures e[..|head|] == head && e[|head|..|head| + |field|] == field
  {
    var m := |head| + |field|;
    assert e[..|head|] == e[..m][..|head|] && e[|head|..m] == e[..m][|head|..];
  }

  // Every field lands in its own slice of the 72 bytes.
  lemma PointSlices(p: Point)
    ensures var e := EncodePoint(p);
            && e[0..8] == LE(p.seriesId, 8)
            && e[8..16] == LE(ToUnsigned(p.validTime), 8)
            && e[16..24] == LE(ToUnsigned(p.validEnd), 8)
            && e[24..32] == LE(ToUnsigned(p.knowledgeTime), 8)
            && e[32..40] == LE(ToUnsigned(p.changeTime), 8)
            && e[40..56] == LE(p.runId, 16)
            && e[56..64] == LE(p.value, 8)
            && e[64..68] == LE(p.quality, 4)
            && e[68..72] == LE(p.flags, 4)
  {
    hide LE;
    var e := EncodePoint(p);
    var h1 := LE(p.seriesId, 8);
    var h2 := h1 + LE(ToUnsigned(p.validTime), 8);
    var h3 := h2 + LE(ToUnsigned(p.validEnd), 8);
    var h4 := h3 + LE(ToUnsigned(p.knowledgeTime), 8);
    var h5 := h4 + LE(ToUnsigned(p.changeTime), 8);
    var h6 := h5 + LE(p.runId, 16);
    var h7 := h6 + LE(p.value, 8);
    var h8 := h7 + LE(p.quality, 4);
    assert e[..72] == e;
    LastField(e, h8, LE(p.flags, 4));
    LastField(e, h7, LE(p.quality, 4));
    LastField(e, h6, LE(p.value, 8));
    LastField(e, h5, LE(p.runId, 16));
    LastField(e, h4, LE(ToUnsigned(p.changeTime), 8));
    LastField(e, h3, LE(ToUnsigned(p.knowledgeTime), 8));
    LastField(e, h2, LE(ToUnsigned(p.validEnd), 8));
    LastField(e, h1, LE(ToUnsigned(p.validTime), 8));
  }

  lemma PointRoundTrip(p: Point)
    ensures DecodePoint(EncodePoint(p)) == p
  {
    PointSlices(p);
    Pow256Values();
    FromLEOfLE(p.seriesId, 8);
    FromLEOfLE(ToUnsigned(p.validTime), 8);
    FromLEOfLE(ToUnsigned(p.validEnd), 8);
    FromLEOfLE(ToUnsigned(p.knowledgeTime), 8);
    FromLEOfLE(ToUnsigned(p.changeTime), 8);
    FromLEOfLE(p.runId, 16);
    FromLEOfLE(p.value, 8);
    FromLEOfLE(p.quality, 4);
    FromLEOfLE(p.flags, 4);
  }

  function EncodePoints(points: seq<Point>): (r: Bytes)
    ensures |r| == POINT_BYTES * |points|
  {
    if points == [] then []
    else EncodePoint(points[0]) + EncodePoints(points[1..])
  }

  // `chunks_exact(72).map(decode_point)`: a short remainder is ignored.
  function DecodePoints(raw: Bytes): (points: seq<Point>)
    ensures |points| == |raw| / POINT_BYTES
  {
    if |raw| < POINT_BYTES then []
    else [DecodePoint(raw[..POINT_BYTES])] + DecodePoints(raw[POINT_BYTES..])
  }

  lemma {:induction false} PointsRoundTrip(points: seq<Point>)
    ensures DecodePoints(EncodePoints(points)) == points
  {
    if points != [] {
      var e := EncodePoints(points);
      assert e[..POINT_BYTES] == EncodePoint(points[0]);
      assert e[POINT_BYTES..] == EncodePoints(points[1..]);
      PointRoundTrip(points[0]);
      PointsRoundTrip(points[1..]);
      assert points == [points[0]] + points[1..];
    }
  }

  // Every 72 bytes are the one encoding of the point they decode to.
  lemma PointCanonical(raw: Bytes)
    requires |raw| == POINT_BYTES
    ensures EncodePoint(DecodePoint(raw)) == raw
  {
    hide LE, FromLE;
    LEOfFromLE(raw[0..8]);
    LEOfFromLE(raw[8..16]);
    LEOfFromLE(raw[16..24]);
    LEOfFromLE(raw[24..32]);
    LEOfFromLE(raw[32..40]);
    LEOfFromLE(raw[40..56]);
    LEOfFromLE(raw[56..64]);
    LEOfFromLE(raw[64..68]);
    LEOfFromLE(raw[68..72]);
    var e := EncodePoint(DecodePoint(raw));
    PointSlices(DecodePoint(raw));
    Nine(raw);
    Nine(e);
  }

  lemma Nine(raw: Bytes)
    requires |raw| == 72
    ensures raw == raw[0..8] + raw[8..16] + raw[16..24] + raw[24..32] + raw[32..40] + raw[40..56] + raw[56..64]
                   + raw[64..68] + raw[68..72]
  {
    assert raw[..16] == raw[0..8] + raw[8..16];
    assert raw[..24] == raw[..16] + raw[16..24];
    assert raw[..32] == raw[..24] + raw[24..32];
    assert raw[..40] == raw[..32] + raw[32..40];
    assert raw[..56] == raw[..40] + raw[40..56];
    assert raw[..64] == raw[..56] + raw[56..64];
    assert raw[..68] == raw[..64] + raw[64..68];
    assert raw == raw[..68] + raw[68..72];
  }

  lemma {:induction false} PointsCanonical(raw: Bytes)
    requires |raw| % POINT_BYTES == 0
    ensures EncodePoints(DecodePoints(raw)) == raw
  {
    hide EncodePoint, DecodePoint;
    if raw != [] {
      var head, tail := raw[..POINT_BYTES], raw[POINT_BYTES..];
      PointCanonical(head);
      PointsCanonical(tail);
      assert DecodePoints(raw)[1..] == DecodePoints(tail);
      assert raw == head + tail;
    }
  }
}

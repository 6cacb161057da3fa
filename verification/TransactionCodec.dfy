/**
The canonical transaction payload: a header and length-prefixed records.

Metadata bodies are produced by a serialization library. They enter through
`Env` as a pair of functions; `Lawful` states the one law the log relies on,
that decoding an encoded body gives the value back.
*/
module TransactionCodec {
  import opened ByteCodec
  import opened Model
  import opened PointCodec

  const TRANSACTION_MAGIC: Bytes := [0x57, 0x54, 0x58, 0x4E]
  const TRANSACTION_HEADER_BYTES: nat := 12
  const RECORD_HEADER_BYTES: nat := 8
  const RECORD_POINTS: u8 := 6

  // What the log needs from code outside the storage engine.
  datatype Env = Env(
    // The checksum function.
    crc: Bytes -> u32,
    // Serialization of one metadata record body, and its decoder by record kind.
    ser: Record -> Bytes,
    de: (u8, Bytes) -> Option<Record>,
    // The compact identity index payload and its decoder.
    encodeIndex: IdentityIndex -> Bytes,
    decodeIndex: Bytes -> Option<IdentityIndex>,
    // `Catalog::apply_records`: the catalog after a transaction, or rejection.
    apply: (Catalog, seq<Record>) -> Option<Catalog>)

  function RecordKind(r: Record): u8 {
    match r
    case EntityRecord(_) => 1
    case RelationRecord(_) => 2
    case SeriesRecord(_) => 3
    case RunRecord(_) => 4
    case PlanRecord(_) => 5
    case PointsRecord(_) => RECORD_POINTS
  }

  ghost predicate Lawful(env: Env) {
    && (forall r: Record :: !r.PointsRecord? ==> env.de(RecordKind(r), env.ser(r)) == Some(r))
    && (forall i: IdentityIndex :: env.decodeIndex(env.encodeIndex(i)) == Some(i))
  }

  // ---- Encoding ----

  function EncodeBody(env: Env, r: Record): Option<Bytes> {
    if r.PointsRecord? then
      if |r.points| > U32_MAX then None
      else Some(LE(|r.points|, 4) + EncodePoints(r.points))
    else Some(env.ser(r))
  }

  function EncodeRecord(env: Env, r: Record): Option<Bytes> {
    match EncodeBody(env, r)
    case None => None
    case Some(body) =>
      if |body| > U32_MAX then None
      else Some([RecordKind(r), 1, 0, 0] + LE(|body|, 4) + body)
  }

  function EncodeRecords(env: Env, records: seq<Record>): Option<Bytes> {
    if records == [] then Some([])
    else match EncodeRecord(env, records[0])
      case None => None
      case Some(head) =>
        match EncodeRecords(env, records[1..])
        case None => None
        case Some(tail) => Some(head + tail)
  }

  function EncodeCanonical(env: Env, records: seq<Record>): Option<Bytes> {
    if |records| > U32_MAX then None
    else match EncodeRecords(env, records)
      case None => None
      case Some(body) => Some(TRANSACTION_MAGIC + LE(1, 2) + LE(0, 2) + LE(|records|, 4) + body)
  }

  // ---- Decoding ----

  function DecodePointRecord(body: Bytes): Option<seq<Point>> {
    if |body| < 4 then None
    else if |body| != 4 + ReadU32(body, 0) * POINT_BYTES then None
    else Some(DecodePoints(body[4..]))
  }

  function DecodeBody(env: Env, kind: u8, body: Bytes): Option<Record> {
    if 1 <= kind <= 5 then env.de(kind, body)
    else if kind == RECORD_POINTS then
      match DecodePointRecord(body)
      case None => None
      case Some(points) => Some(PointsRecord(points))
    else None
  }

  // Reads `count` records and then requires the input to be used up.
  function DecodeRecords(env: Env, raw: Bytes, count: nat): Option<seq<Record>>
    decreases count
  {
    if count == 0 then if raw == [] then Some([]) else None
    else if |raw| < RECORD_HEADER_BYTES || raw[1] != 1 || raw[2] != 0 || raw[3] != 0 then None
    else
      var bodyEnd := RECORD_HEADER_BYTES + ReadU32(raw, 4);
      if bodyEnd > |raw| then None
      else match DecodeBody(env, raw[0], raw[RECORD_HEADER_BYTES..bodyEnd])
        case None => None
        case Some(record) =>
          match DecodeRecords(env, raw[bodyEnd..], count - 1)
          case None => None
          case Some(rest) => Some([record] + rest)
  }

  function DecodeTransaction(env: Env, payload: Bytes, expected: nat): Option<seq<Record>> {
    if |payload| < TRANSACTION_HEADER_BYTES || payload[..4] != TRANSACTION_MAGIC then None
    else if FromLE(payload[4..6]) != 1 || payload[6..8] != [0, 0] then None
    else if ReadU32(payload, 8) != expected then None
    else if expected > (|payload| - TRANSACTION_HEADER_BYTES) / RECORD_HEADER_BYTES then None
    else DecodeRecords(env, payload[TRANSACTION_HEADER_BYTES..], expected)
  }

  // ---- Round trip ----

  lemma BodyRoundTrip(env: Env, r: Record)
    requires Lawful(env) && EncodeBody(env, r).Some?
    ensures DecodeBody(env, RecordKind(r), EncodeBody(env, r).value) == Some(r)
  {
    if r.PointsRecord? {
      var body := EncodeBody(env, r).value;
      Pow256Values();
      FromLEOfLE(|r.points|, 4);
      assert body[0..4] == LE(|r.points|, 4);
      assert body[4..] == EncodePoints(r.points);
      PointsRoundTrip(r.points);
    }
  }

  lemma RecordSlices(env: Env, r: Record, tail: Bytes)
    requires EncodeRecord(env, r).Some?
    ensures var body := EncodeBody(env, r).value;
            var head := EncodeRecord(env, r).value;
            var raw := head + tail;
            && |head| == RECORD_HEADER_BYTES + |body|
            && raw[0] == RecordKind(r) && raw[1] == 1 && raw[2] == 0 && raw[3] == 0
            && ReadU32(raw, 4) == |body|
            && raw[RECORD_HEADER_BYTES..|head|] == body
            && raw[|head|..] == tail
  {
    var body := EncodeBody(env, r).value;
    var raw := EncodeRecord(env, r).value + tail;
    Pow256Values();
    FromLEOfLE(|body|, 4);
    assert raw[4..8] == LE(|body|, 4);
  }

  lemma {:induction false} RecordsRoundTrip(env: Env, records: seq<Record>)
    requires Lawful(env) && EncodeRecords(env, records).Some?
    ensures var raw := EncodeRecords(env, records).value;
            && DecodeRecords(env, raw, |records|) == Some(records)
            && |raw| >= RECORD_HEADER_BYTES * |records|
  {
    hide EncodeBody, DecodeBody, Lawful, LE, FromLE;
    if records != [] {
      var tail := EncodeRecords(env, records[1..]).value;
      RecordsRoundTrip(env, records[1..]);
      BodyRoundTrip(env, records[0]);
      RecordSlices(env, records[0], tail);
      assert records == [records[0]] + records[1..];
    }
  }

  // Every transaction that encodes decodes to the same records.
  lemma TransactionRoundTrip(env: Env, records: seq<Record>)
    requires Lawful(env) && EncodeCanonical(env, records).Some?
    ensures DecodeTransaction(env, EncodeCanonical(env, records).value, |records|) == Some(records)
    ensures |EncodeCanonical(env, records).value| >= TRANSACTION_HEADER_BYTES
  {
    hide DecodeRecords, EncodeRecords, LE, FromLE;
    var body := EncodeRecords(env, records).value;
    var payload := EncodeCanonical(env, records).value;
    RecordsRoundTrip(env, records);
    Pow256Values();
    FromLEOfLE(|records|, 4);
    FromLEOfLE(1, 2);
    TwoZeroBytes();
    assert payload[..4] == TRANSACTION_MAGIC;
    assert payload[4..6] == LE(1, 2);
    assert payload[6..8] == LE(0, 2);
    assert payload[8..12] == LE(|records|, 4);
    assert payload[TRANSACTION_HEADER_BYTES..] == body;
  }
}

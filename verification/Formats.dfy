/**
The log format, byte by byte.

Field positions, magic numbers and limits as `docs/format.md` gives them, stated of what the
writer writes and of what the reader accepts.
*/
module Formats {
  import opened ByteCodec
  import opened Model
  import opened PointCodec
  import opened TransactionCodec
  import opened LogFrame
  import opened FramedLog
  import opened DurableLog
  import opened StorageLog
  import opened DatabaseModel

  // The 16-byte file header: `FTWDB001`, version 1, no flags, and their checksum.
  lemma FileHeaderLayout(format: Format)
    ensures var h := DatabaseHeader(format);
            && |h| == 16
            && h[..12] == [0x46, 0x54, 0x57, 0x44, 0x42, 0x30, 0x30, 0x31, 1, 0, 0, 0]
            && FromLE(h[12..16]) == format.crc(h[..12])
  {
    var prefix := DatabaseHeaderPrefix();
    ShortNumbers();
    assert prefix == [0x46, 0x54, 0x57, 0x44, 0x42, 0x30, 0x30, 0x31, 1, 0, 0, 0];
    hide LE, DatabaseHeaderPrefix;
    var h := DatabaseHeader(format);
    assert h[..12] == prefix && h[12..16] == LE(format.crc(prefix), 4);
    Pow256Values();
    FromLEOfLE(format.crc(prefix), 4);
  }

  lemma ShortNumbers()
    ensures LE(1, 2) == [1, 0] && LE(0, 2) == [0, 0]
  {
    assert LE(1, 2) == [1] + LE(0, 1);
    assert LE(0, 1) == [0] + LE(0, 0);
    TwoZeroBytes();
  }

  // The 24-byte frame header: `WBAT`, version 1, kind, items, length, payload checksum, header checksum.
  lemma FrameLayout(format: Format, f: Frame)
    requires FrameFits(f)
    ensures var e := EncodeFrame(format, f);
            && |e| == 24 + |f.payload|
            && e[..4] == [0x57, 0x42, 0x41, 0x54]
            && FromLE(e[4..6]) == 1 && FromLE(e[6..8]) == f.kind && FromLE(e[8..12]) == f.items
            && FromLE(e[12..16]) == |f.payload| && FromLE(e[16..20]) == format.crc(f.payload)
            && FromLE(e[20..24]) == format.crc(e[..20])
            && e[24..] == f.payload
  {
    hide EncodeHeader, FromLE, LE;
    HeaderSlices(format, f, f.payload);
  }

  // The checkpoint of a seal: generation, then the number of points sealed.
  lemma CheckpointLayout(generation: u64, points: u64)
    ensures var f := CheckpointFrame(generation, points);
            && f.kind == 4 && f.items == 0 && |f.payload| == 16
            && FromLE(f.payload[0..8]) == generation && FromLE(f.payload[8..16]) == points
  {
    hide LE, FromLE;
    var payload := CheckpointFrame(generation, points).payload;
    assert payload[0..8] == LE(generation, 8) && payload[8..16] == LE(points, 8);
    Pow256Values();
    FromLEOfLE(generation, 8);
    FromLEOfLE(points, 8);
  }

  // A transaction: `WTXN`, version 1, no flags, the number of records, and the records.
  lemma TransactionLayout(env: Env, records: seq<Record>)
    requires EncodeCanonical(env, records).Some?
    ensures EncodeRecords(env, records).Some?
    ensures var t := EncodeCanonical(env, records).value;
            && |t| >= 12
            && t[..8] == [0x57, 0x54, 0x58, 0x4E, 1, 0, 0, 0]
            && FromLE(t[8..12]) == |records|
            && t[12..] == EncodeRecords(env, records).value
  {
    ShortNumbers();
    hide LE, FromLE, EncodeRecords;
    var body := EncodeRecords(env, records).value;
    var t := EncodeCanonical(env, records).value;
    var head := TRANSACTION_MAGIC + LE(1, 2) + LE(0, 2);
    assert head == [0x57, 0x54, 0x58, 0x4E, 1, 0, 0, 0];
    assert t == head + LE(|records|, 4) + body;
    assert t[..8] == head && t[8..12] == LE(|records|, 4) && t[12..] == body;
    Pow256Values();
    FromLEOfLE(|records|, 4);
  }

  // A record: its kind, version 1, no flags, the length of its body, and the body.
  lemma RecordLayout(env: Env, r: Record)
    requires EncodeRecord(env, r).Some?
    ensures var e := EncodeRecord(env, r).value;
            && |e| >= 8
            && e[0] == (match r
                        case EntityRecord(_) => 1 case RelationRecord(_) => 2 case SeriesRecord(_) => 3
                        case RunRecord(_) => 4 case PlanRecord(_) => 5 case PointsRecord(_) => 6)
            && e[1..4] == [1, 0, 0] && FromLE(e[4..8]) == |e| - 8
            && (!r.PointsRecord? ==> e[8..] == env.ser(r))
            && (r.PointsRecord? ==>
                  |e| >= 12 && FromLE(e[8..12]) == |r.points| && e[12..] == EncodePoints(r.points))
  {
    hide LE, FromLE, EncodePoints;
    RecordSlices(env, r, []);
    var e := EncodeRecord(env, r).value;
    assert e + [] == e;
    if r.PointsRecord? {
      var count := LE(|r.points|, 4);
      var body := count + EncodePoints(r.points);
      assert e[8..] == body;
      assert e[8..12] == body[..4] == count && e[12..] == body[4..] == EncodePoints(r.points);
      Pow256Values();
      FromLEOfLE(|r.points|, 4);
    }
  }

  // Each point of a batch lies at its multiple of 72 bytes.
  lemma {:induction false} BatchLayout(points: seq<Point>, i: nat)
    requires i < |points|
    ensures 72 * i + 72 <= |EncodePoints(points)| == 72 * |points|
    ensures EncodePoints(points)[72 * i..72 * i + 72] == EncodePoint(points[i])
  {
    hide EncodePoint;
    if i > 0 {
      BatchLayout(points[1..], i - 1);
      var e, rest := EncodePoints(points), EncodePoints(points[1..]);
      assert e == EncodePoint(points[0]) + rest;
      assert e[72 * i..72 * i + 72] == rest[72 * (i - 1)..72 * (i - 1) + 72];
    }
  }

  // The 72 bytes of a point, field by field.
  lemma PointLayout(p: Point)
    ensures var e := EncodePoint(p);
            && FromLE(e[0..8]) == p.seriesId
            && FromLE(e[8..16]) == p.validTime % 0x1_0000_0000_0000_0000
            && FromLE(e[16..24]) == p.validEnd % 0x1_0000_0000_0000_0000
            && FromLE(e[24..32]) == p.knowledgeTime % 0x1_0000_0000_0000_0000
            && FromLE(e[32..40]) == p.changeTime % 0x1_0000_0000_0000_0000
            && FromLE(e[40..56]) == p.runId && FromLE(e[56..64]) == p.value
            && FromLE(e[64..68]) == p.quality && FromLE(e[68..72]) == p.flags
  {
    hide EncodePoint, LE, FromLE, ToUnsigned;
    PointSlices(p);
    Pow256Values();
    FromLEOfLE(p.seriesId, 8);
    SignedField(p.validTime);
    SignedField(p.validEnd);
    SignedField(p.knowledgeTime);
    SignedField(p.changeTime);
    FromLEOfLE(p.runId, 16);
    FromLEOfLE(p.value, 8);
    FromLEOfLE(p.quality, 4);
    FromLEOfLE(p.flags, 4);
  }

  lemma SignedField(i: i64)
    ensures FromLE(LE(ToUnsigned(i), 8)) == i % 0x1_0000_0000_0000_0000
  {
    hide LE, FromLE;
    Pow256Values();
    FromLEOfLE(ToUnsigned(i), 8);
    ToUnsignedIsModular(i);
  }

  // ---- What the reader accepts before it looks at a payload ----

  // The size rules of each frame kind; no other kind is known.
  lemma SizesAccepted(env: Env, cfg: Config, kind: u16, items: u32, length: nat)
    ensures LogFormat(env, cfg).refuse(kind, items, length).None? <==>
            || (kind == 0 && items <= cfg.maxBatchPoints && length == 72 * items)
            || (kind == 1 && length <= cfg.maxTransactionBytes)
            || (kind == 2 && 16 <= length <= cfg.maxTransactionBytes)
            || (kind == 3 && 40 <= length <= cfg.maxTransactionBytes)
            || (kind == 4 && items == 0 && length == 16)
            || (kind == 5 && items == 0 && length <= cfg.maxTransactionBytes + 1024 && length <= 0xFFFF_FFFF)
  {
  }

  // ---- What the frames of a log add up to ----

  // The points a frame carries.
  function CarriedPoints(env: Env, f: Frame): seq<Point> {
    if f.kind == 0 then DecodePoints(f.payload)
    else match CarriedRecords(env, f)
      case None => []
      case Some(records) => PointsOf(records)
  }

  function CarriedRecords(env: Env, f: Frame): Option<seq<Record>> {
    var from := if f.kind == 1 then 0 else if f.kind == 2 then 16 else 40;
    if 1 <= f.kind <= 3 && |f.payload| >= from then DecodeTransaction(env, f.payload[from..], f.items) else None
  }

  // A checkpoint of a published generation: the points before it are in a segment.
  predicate Publishes(seals: set<u64>, f: Frame) {
    f.kind == 4 && |f.payload| == 16 && ReadU64(f.payload, 0) in seals
  }

  function CarriedMetadata(env: Env, f: Frame): nat {
    match CarriedRecords(env, f)
    case None => 0
    case Some(records) => MetadataCount(records)
  }

  // What an accepted frame adds to every part of the state but the receipts.
  ghost predicate Adds(env: Env, cfg: Config, seals: set<u64>, st: LogState, f: Frame, next: LogState) {
    && next.commits == st.commits + 1
    && next.live == (if Publishes(seals, f) then [] else st.live + CarriedPoints(env, f))
    && (next.pendingReclaim <==> st.pendingReclaim || Publishes(seals, f))
    && next.catalogRecords == st.catalogRecords + CarriedMetadata(env, f)
    && (match CarriedRecords(env, f)
        case None => next.catalog == st.catalog
        case Some(records) => env.apply(st.catalog, records) == Some(next.catalog))
    && |CarriedPoints(env, f)| <= cfg.maxBatchPoints
  }

  lemma TransactionAdds(env: Env, cfg: Config, seals: set<u64>, st: LogState, f: Frame, offset: nat, next: LogState)
    requires 1 <= f.kind <= 3 && ApplyFrame(env, cfg, seals, st, f, offset) == Accept(next)
    ensures Adds(env, cfg, seals, st, f, next)
  {
    hide DecodeTransaction, RecordTag, PointsOf, MetadataCount, TagRefusal, ReadTag, TagBytes;
    assert HeaderRefusal(cfg, f.kind, f.items, |f.payload|).None?;
    PrefixLength(f);
  }

  lemma PrefixLength(f: Frame)
    requires 1 <= f.kind <= 3 && (f.kind == 2 ==> |f.payload| >= 16) && (f.kind == 3 ==> |f.payload| >= 40)
    ensures |TagBytes(ReadTag(f.kind, f.payload))| == if f.kind == 1 then 0 else if f.kind == 2 then 16 else 40
  {
    hide LE, FromLE;
  }

  // One accepted frame; a checkpoint must count the points before it, and points must be well formed.
  lemma FrameAdds(env: Env, cfg: Config, seals: set<u64>, st: LogState, f: Frame, offset: nat, next: LogState)
    requires ApplyFrame(env, cfg, seals, st, f, offset) == Accept(next)
    ensures Adds(env, cfg, seals, st, f, next)
    ensures f.kind == 4 ==> |f.payload| == 16 && FromLE(f.payload[0..8]) != 0 && FromLE(f.payload[8..16]) == |st.live|
    ensures f.kind == 0 ==> forall p <- DecodePoints(f.payload) :: p.validTime <= p.validEnd && IsFinite(p.value)
  {
    hide DecodeTransaction, ApplyIdentityIndex, DecodePoints, FromLE, PointsOf, MetadataCount, IsFinite,
         ApplyTransactionFrame;
    assert st.live + [] == st.live;
    if 1 <= f.kind <= 3 {
      hide Adds;
      TransactionAdds(env, cfg, seals, st, f, offset, next);
    }
  }

  // All the points of a list of frames, in order, and all its metadata records.
  function AllCarried(env: Env, log: seq<Frame>): seq<Point> {
    if log == [] then [] else AllCarried(env, log[..|log| - 1]) + CarriedPoints(env, log[|log| - 1])
  }

  function AllMetadata(env: Env, log: seq<Frame>): nat {
    if log == [] then 0 else AllMetadata(env, log[..|log| - 1]) + CarriedMetadata(env, log[|log| - 1])
  }

  ghost predicate LastPublishedAt(seals: set<u64>, log: seq<Frame>, k: nat) {
    && k <= |log| && (k > 0 ==> Publishes(seals, log[k - 1]))
    && forall i :: k <= i < |log| ==> !Publishes(seals, log[i])
  }

  ghost predicate AddsUp(env: Env, seals: set<u64>, log: seq<Frame>, st: LogState, k: nat) {
    && LastPublishedAt(seals, log, k)
    && st.live == AllCarried(env, log[k..]) && (st.pendingReclaim <==> k > 0)
    && st.commits == |log| && st.catalogRecords == AllMetadata(env, log)
  }

  lemma CarriedSnoc(env: Env, log: seq<Frame>, f: Frame)
    ensures AllCarried(env, log + [f]) == AllCarried(env, log) + CarriedPoints(env, f)
    ensures AllMetadata(env, log + [f]) == AllMetadata(env, log) + CarriedMetadata(env, f)
  {
    hide CarriedPoints, CarriedMetadata;
    assert (log + [f])[..|log|] == log;
  }

  lemma PublishedSnoc(seals: set<u64>, front: seq<Frame>, f: Frame, k: nat)
    requires LastPublishedAt(seals, front, k)
    ensures LastPublishedAt(seals, front + [f], if Publishes(seals, f) then |front| + 1 else k)
  {
    hide Publishes;
  }

  lemma OneMoreAddsUp(env: Env, cfg: Config, seals: set<u64>, front: seq<Frame>, f: Frame, st: LogState, next: LogState,
                      k: nat)
    requires AddsUp(env, seals, front, st, k) && Adds(env, cfg, seals, st, f, next)
    ensures AddsUp(env, seals, front + [f], next, if Publishes(seals, f) then |front| + 1 else k)
  {
    hide CarriedPoints, CarriedMetadata, CarriedRecords, Publishes, AllCarried, AllMetadata;
    var log := front + [f];
    PublishedSnoc(seals, front, f, k);
    CarriedSnoc(env, front, f);
    CarriedSnoc(env, front[k..], f);
    assert log[|front| + 1..] == [] && log[k..] == front[k..] + [f];
    NothingCarried(env);
  }

  lemma NothingCarried(env: Env)
    ensures AllCarried(env, []) == [] && AllMetadata(env, []) == 0
  {
  }

  lemma NothingAddsUp(env: Env, seals: set<u64>, st: LogState)
    requires st.live == [] && st.commits == 0 && st.catalogRecords == 0 && !st.pendingReclaim
    ensures AddsUp(env, seals, [], st, 0)
  {
    hide AllCarried, AllMetadata;
    NothingCarried(env);
    var log: seq<Frame> := [];
    assert log[0..] == [];
  }

  /**
  Recovery of a log adds up: every frame is one commit, the live points are those of the frames
  after the last checkpoint of a published generation, in order, and a reclaim is pending exactly
  when there is such a checkpoint.
  */
  lemma {:induction false} LogAddsUp(env: Env, cfg: Config, seals: set<u64>, log: seq<Frame>, st: LogState)
    returns (k: nat)
    requires Replay(LogSemantics(env, cfg, seals), log) == Some(st)
    ensures AddsUp(env, seals, log, st, k)
  {
    hide ApplyFrame, Adds, AddsUp, Publishes;
    if log == [] {
      k := 0;
      NothingAddsUp(env, seals, st);
    } else {
      var front, last := log[..|log| - 1], log[|log| - 1];
      var sem := LogSemantics(env, cfg, seals);
      var before := Replay(sem, front).value;
      assert sem.apply(before, last, EndOffset(front)) == ApplyFrame(env, cfg, seals, before, last, EndOffset(front));
      k := LogAddsUp(env, cfg, seals, front, before);
      FrameAdds(env, cfg, seals, before, last, EndOffset(front), st);
      OneMoreAddsUp(env, cfg, seals, front, last, before, st, k);
      assert log == front + [last];
      k := if Publishes(seals, last) then |log| else k;
    }
  }

  // ---- What the reader accepts and how it names what it refuses ----

  // The checks on a frame, in order: header size, magic, version, header checksum, size rules, payload size,
  // payload checksum.
  lemma FrameFaults(format: Format, rest: Bytes)
    requires rest != []
    ensures var r := ParseFrame(format, rest);
            if |rest| < 24 then r == Stopped(IncompleteFrameHeader)
            else if rest[..4] != [0x57, 0x42, 0x41, 0x54] then r == Stopped(Damaged(InvalidFrameMagic))
            else if FromLE(rest[4..6]) != 1 then r == Stopped(Damaged(UnsupportedFrameVersion))
            else if FromLE(rest[20..24]) != format.crc(rest[..20])
            then r == Stopped(Damaged(FrameHeaderChecksumMismatch))
            else
              var kind, items, length := FromLE(rest[6..8]), FromLE(rest[8..12]), FromLE(rest[12..16]);
              && kind <= 0xFFFF && items <= U32_MAX && length <= U32_MAX
              && match format.refuse(kind, items, length)
                 case Some(fault) => r == Stopped(Damaged(fault))
                 case None =>
                   if |rest| < 24 + length then r == Stopped(IncompleteFramePayload)
                   else if FromLE(rest[16..20]) != format.crc(rest[24..24 + length])
                   then r == Stopped(Damaged(PayloadChecksumMismatch))
                   else r == Whole(Frame(kind, items, rest[24..24 + length]))
  {
    hide FromLE;
    Pow256Values();
  }

  // Why a file is refused before its frames are read.
  lemma FileFaults(format: Format, file: Bytes)
    ensures var r := HeaderFaultOf(format, file);
            if |file| < 16 then r == Some(ShortFile)
            else if file[..8] != [0x46, 0x54, 0x57, 0x44, 0x42, 0x30, 0x30, 0x31] then r == Some(InvalidHeader)
            else if FromLE(file[8..10]) != 1 then r == Some(UnsupportedVersion(FromLE(file[8..10])))
            else if FromLE(file[12..16]) != format.crc(file[..12]) || file[10..12] != [0, 0] then r == Some(InvalidHeader)
            else r == None
  {
    hide FromLE;
  }

  // An accepted transaction has its magic, version, flags and count, and its records fill it exactly.
  lemma TransactionAccepted(env: Env, payload: Bytes, count: nat, records: seq<Record>)
    requires DecodeTransaction(env, payload, count) == Some(records)
    ensures |payload| >= 12 && payload[..8] == [0x57, 0x54, 0x58, 0x4E, 1, 0, 0, 0]
    ensures FromLE(payload[8..12]) == count == |records|
    ensures RecordsFill(env, payload[12..], records)
  {
    hide FromLE, LE, DecodeRecords;
    ShortNumbers();
    LEOfFromLE(payload[4..6]);
    assert payload[..8] == payload[..4] + payload[4..6] + payload[6..8];
    RecordsAccepted(env, payload[12..], count, records);
  }

  // Record after record: kind, version 1, no flags, length and a body that decodes, with nothing between or behind.
  ghost predicate RecordsFill(env: Env, raw: Bytes, records: seq<Record>)
    decreases |records|
  {
    if records == [] then raw == []
    else
      && |raw| >= 8 && raw[1..4] == [1, 0, 0]
      && var end := 8 + FromLE(raw[4..8]);
         end <= |raw| && BodyOf(env, raw[0], raw[8..end], records[0]) && RecordsFill(env, raw[end..], records[1..])
  }

  // Metadata by its decoder; a batch is its count and exactly that many points.
  ghost predicate BodyOf(env: Env, kind: byte, body: Bytes, r: Record) {
    || (1 <= kind <= 5 && env.de(kind, body) == Some(r))
    || (kind == 6 && r.PointsRecord? && |r.points| <= U32_MAX && body == LE(|r.points|, 4) + EncodePoints(r.points))
  }

  lemma {:induction false} RecordsAccepted(env: Env, raw: Bytes, count: nat, records: seq<Record>)
    requires DecodeRecords(env, raw, count) == Some(records)
    ensures |records| == count && RecordsFill(env, raw, records)
    decreases count
  {
    hide FromLE, LE, BodyOf, DecodeBody;
    if count > 0 {
      var end := 8 + FromLE(raw[4..8]);
      BodyAccepted(env, raw[0], raw[8..end], records[0]);
      RecordsAccepted(env, raw[end..], count - 1, records[1..]);
      assert raw[1..4] == [raw[1], raw[2], raw[3]];
    }
  }

  lemma BodyAccepted(env: Env, kind: byte, body: Bytes, r: Record)
    requires DecodeBody(env, kind, body) == Some(r)
    ensures BodyOf(env, kind, body, r)
  {
    hide FromLE, LE, EncodePoints, DecodePoints;
    if kind == 6 {
      LEOfFromLE(body[0..4]);
      PointsCanonical(body[4..]);
      assert body == body[0..4] + body[4..];
    }
  }

  // ---- Why a frame is refused ----

  // The identity of a transaction frame is refused for exactly one of three reasons.
  lemma IdentityFaults(cfg: Config, ids: Identities, f: Frame)
    requires 1 <= f.kind <= 3 && HeaderRefusal(cfg, f.kind, f.items, |f.payload|).None?
    ensures f.kind == 2 ==> |f.payload| >= 16
    ensures f.kind == 3 ==> |f.payload| >= 40
    ensures var r, p := TagRefusal(ids, ReadTag(f.kind, f.payload)), f.payload;
            var source, sequence := if f.kind == 3 then ReadU128(p, 0) else 0, if f.kind == 3 then ReadU64(p, 16) else 0;
            var c := if f.kind == 3 then ReadU128(p, 24) else if f.kind == 2 then ReadU128(p, 0) else 0;
            var cursor := f.kind == 3 && source != 0 && IngressKey(source, sequence) in ids.ingress;
            var commit := f.kind != 1 && (f.kind == 3 ==> source != 0) && !cursor && c in ids.commitIds;
            var order := f.kind == 3 && (source == 0 || (&& !cursor && !commit && source in ids.lastSequences
                                                         && sequence <= ids.lastSequences[source]));
            && (r == Some(DuplicateIngressSequence) <==> cursor)
            && (r == Some(DuplicateCommitId) <==> commit)
            && (r == Some(InvalidIngressSequence) <==> order)
            && (r.None? <==> !cursor && !commit && !order)
  {
    hide FromLE, LE;
  }

  // A transaction frame is refused for its identity first, then for its bytes, the catalog and its size.
  lemma TransactionFaults(env: Env, cfg: Config, seals: set<u64>, st: LogState, f: Frame, offset: nat)
    requires 1 <= f.kind <= 3 && HeaderRefusal(cfg, f.kind, f.items, |f.payload|).None?
    ensures f.kind == 2 ==> |f.payload| >= 16
    ensures f.kind == 3 ==> |f.payload| >= 40
    ensures var r, identity := ApplyFrame(env, cfg, seals, st, f, offset), TagRefusal(st.ids, ReadTag(f.kind, f.payload));
            match (identity, CarriedRecords(env, f))
            case (Some(fault), _) => r == Reject(fault)
            case (None, None) => r == Reject(InvalidTransaction)
            case (None, Some(records)) => ContentFaults(env, cfg, st, records, r)
  {
    hide DecodeTransaction, PointsOf, MetadataCount, RecordTag, TagRefusal, ReadTag, TagBytes;
    PrefixLength(f);
  }

  predicate ContentFaults(env: Env, cfg: Config, st: LogState, records: seq<Record>, r: Outcome<LogState>) {
    && (r == Reject(InvalidCatalogTransaction) <==> env.apply(st.catalog, records).None?)
    && (r == Reject(TransactionPointCountTooLarge) <==>
          env.apply(st.catalog, records).Some? && |PointsOf(records)| > cfg.maxBatchPoints)
    && (r.Accept? <==> env.apply(st.catalog, records).Some? && |PointsOf(records)| <= cfg.maxBatchPoints)
  }

  // The same for the other kinds.
  lemma OtherFaults(env: Env, cfg: Config, seals: set<u64>, st: LogState, f: Frame, offset: nat)
    requires f.kind in {0, 4, 5} && HeaderRefusal(cfg, f.kind, f.items, |f.payload|).None?
    ensures f.kind == 4 ==> |f.payload| == 16
    ensures var r := ApplyFrame(env, cfg, seals, st, f, offset);
            && (f.kind == 0 ==> r.Accept? || r == Reject(InvalidLegacyPoint))
            && (f.kind == 0 ==> (r.Accept? <==>
                  forall p <- DecodePoints(f.payload) :: p.validTime <= p.validEnd && IsFinite(p.value)))
            && (f.kind == 4 ==> r.Accept? || r == Reject(SealCheckpointInvalid))
            && (f.kind == 4 ==> (r.Accept? <==> ReadU64(f.payload, 0) != 0 && ReadU64(f.payload, 8) == |st.live|))
            && (f.kind == 5 ==> r.Accept? || r == Reject(IdentityIndexInvalid))
            && (f.kind == 5 ==> (r.Accept? <==> ApplyIdentityIndex(env, st.ids, f.payload, offset).Some?))
  {
    hide DecodePoints, FromLE, IsFinite, ApplyIdentityIndex, ApplyTransactionFrame;
  }

  // ---- What an identity index brings back ----

  function Kept(payload: Bytes): Option<Bytes> {
    if payload == [] then None else Some(payload)
  }

  // Identified receipts come back under their identifiers, with the offset of the index frame.
  lemma {:induction false} IdentifiedRestored(env: Env, ids: Identities, rs: seq<CompactIdentified>, offset: nat)
    requires ids.identified.Keys <= ids.commitIds && ApplyCompactIdentified(env, ids, rs, offset).Some?
    ensures var next := ApplyCompactIdentified(env, ids, rs, offset).value;
            && next.identified.Keys <= next.commitIds
            && (forall c :: c in next.commitIds <==> c in ids.commitIds || exists r :: r in rs && r.commitId == c)
            && (forall r <- rs ::
                  && r.commitId in next.identified
                  && next.identified[r.commitId]
                     == IdentifiedReceipt(0, r.payloadLen, r.payloadCrc, Kept(r.payload), offset, r.points, r.records, 0))
            && (forall c <- ids.identified :: c in next.identified && next.identified[c] == ids.identified[c])
            && (next.ingress, next.ingressIds, next.lastSequences) == (ids.ingress, ids.ingressIds, ids.lastSequences)
  {
    hide CompactIdentifiedOk;
    if rs != [] {
      IdentifiedRestored(env, ids, rs[..|rs| - 1], offset);
      assert rs == rs[..|rs| - 1] + [rs[|rs| - 1]];
    }
  }

  // Ordered receipts come back under their cursors with the offset and size they had, and move the watermarks.
  lemma {:induction false} IngressRestored(env: Env, ids: Identities, rs: seq<CompactIngress>)
    requires ApplyCompactIngress(env, ids, rs).Some?
    ensures var next := ApplyCompactIngress(env, ids, rs).value;
            && (forall c :: c in next.commitIds <==> c in ids.commitIds || exists r :: r in rs && r.identity.commitId == c)
            && (forall r <- rs ::
                  && var k := IngressKey(r.identity.sourceId, r.identity.sequence);
                  && k in next.ingress
                  && next.ingress[k] == IngressReceipt(r.identity, 0, r.payloadLen, r.payloadCrc, Kept(r.payload),
                                                       r.frameOffset, r.points, r.records, r.bytesWritten)
                  && k.sourceId in next.lastSequences && k.sequence <= next.lastSequences[k.sourceId])
            && (forall k <- ids.ingress :: k in next.ingress && next.ingress[k] == ids.ingress[k])
            && next.identified == ids.identified
  {
    hide CompactIngressOk;
    if rs != [] {
      IngressRestored(env, ids, rs[..|rs| - 1]);
      assert rs == rs[..|rs| - 1] + [rs[|rs| - 1]];
    }
  }
}

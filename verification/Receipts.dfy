/**
Retries against stored receipts.

A receipt points at the bytes of its frame, or holds them when the log was
compacted. `LogBacksReceipts` shows that every receipt of an accepted log points
at the frame it was made for, and the verdict lemmas say what comparing a retry
with those bytes answers, for every candidate.
*/
module Receipts {
  import opened ByteCodec
  import opened Model
  import opened TransactionCodec
  import opened LogFrame
  import opened FramedLog
  import opened StorageLog

  // `Corrupt` and a failed read poison the writer; `Overflow` does not.
  datatype Matching = Same | Different | Corrupt | Overflow

  const CHUNK_BYTES: nat := 8 * 1024

  // What a positioned read of n bytes returns, or None past the end of the file.
  function ReadAt(file: Bytes, at: nat, n: nat): (r: Option<Bytes>)
    ensures r.Some? ==> |r.value| == n
  {
    if at + n <= |file| then Some(file[at..at + n]) else None
  }

  // Checksums of equal-length strings that collide still collide behind a common prefix.
  ghost predicate PrefixLaw(crc: Bytes -> u32) {
    forall p: Bytes, a: Bytes, b: Bytes ::
      |a| == |b| && crc(a) == crc(b) ==> crc(p + a) == crc(p + b)
  }

  function IdentifiedMatches(env: Env, file: Bytes, r: IdentifiedReceipt, candidate: Bytes): Matching {
    if |candidate| != r.payloadLen || env.crc(candidate) != r.payloadCrc then Different
    else if r.payloadOffset == 0 then if r.compact == Some(candidate) then Same else Different
    else if r.payloadOffset != r.frameOffset + FRAME_HEADER_BYTES then Corrupt
    else if r.records > U32_MAX || r.payloadLen > U32_MAX then Overflow
    else if ReadAt(file, r.frameOffset, FRAME_HEADER_BYTES)
         != Some(RawHeader(env.crc, KIND_IDENTIFIED, r.records, r.payloadLen, r.payloadCrc)) then Corrupt
    else if ReadAt(file, r.payloadOffset, |candidate|) != Some(candidate) then Corrupt
    else Same
  }

  function IngressMatches(env: Env, file: Bytes, r: IngressReceipt, candidate: Bytes): Matching {
    var tag := TagBytes(Ingress(r.identity));
    if |candidate| != r.payloadLen || env.crc(candidate) != r.payloadCrc then Different
    else if r.payloadOffset == 0 then if r.compact == Some(candidate) then Same else Different
    else if r.payloadOffset != r.frameOffset + FRAME_HEADER_BYTES + INGRESS_IDENTITY_BYTES then Corrupt
    else if r.records > U32_MAX || INGRESS_IDENTITY_BYTES + |candidate| > U32_MAX then Overflow
    else if ReadAt(file, r.frameOffset, FRAME_HEADER_BYTES)
         != Some(RawHeader(env.crc, KIND_INGRESS, r.records, INGRESS_IDENTITY_BYTES + |candidate|,
                           env.crc(tag + candidate))) then Corrupt
    else if ReadAt(file, r.frameOffset + FRAME_HEADER_BYTES, INGRESS_IDENTITY_BYTES) != Some(tag) then Corrupt
    else match ReadAt(file, r.payloadOffset, |candidate|)
      case None => Corrupt
      case Some(stored) =>
        if env.crc(stored) != r.payloadCrc then Corrupt
        else if stored == candidate then Same
        else Different
  }

  // ---- The comparisons as they read the file, chunk by chunk ----

  lemma SliceOfSlice(s: Bytes, at: nat, length: nat, from: nat, n: nat)
    requires at + length <= |s| && from + n <= length
    ensures s[at..at + length][from..from + n] == s[at + from..at + from + n]
  {
    var outer := s[at..at + length];
    var inner, direct := outer[from..from + n], s[at + from..at + from + n];
    forall i | 0 <= i < n ensures inner[i] == direct[i] {
      assert inner[i] == outer[from + i] == s[at + from + i];
    }
  }

  method ComparePayload(file: Bytes, at: nat, candidate: Bytes) returns (matches: bool)
    ensures matches <==> ReadAt(file, at, |candidate|) == Some(candidate)
  {
    var done := 0;
    while done < |candidate|
      invariant 0 <= done <= |candidate|
      invariant done > 0 ==> at + done <= |file|
      invariant ReadAt(file, at, done) == Some(candidate[..done]) || (done == 0 && at > |file|)
    {
      var n := if CHUNK_BYTES < |candidate| - done then CHUNK_BYTES else |candidate| - done;
      var chunk := ReadAt(file, at + done, n);
      if chunk != Some(candidate[done..done + n]) {
        if at + |candidate| <= |file| {
          SliceOfSlice(file, at, |candidate|, done, n);
        }
        return false;
      }
      assert file[at..at + done + n] == file[at..at + done] + file[at + done..at + done + n];
      assert candidate[..done + n] == candidate[..done] + candidate[done..done + n];
      done := done + n;
    }
    matches := at + |candidate| <= |file|;
    assert candidate[..done] == candidate;
  }

  lemma JoinEqualIff(a: Bytes, b: Bytes, c: Bytes, d: Bytes)
    requires |a| == |c| && |b| == |d|
    ensures a + b == c + d <==> a == c && b == d
  {
    assert (a + b)[..|a|] == a && (a + b)[|a|..] == b;
    assert (c + d)[..|c|] == c && (c + d)[|c|..] == d;
  }

  // Reads the whole range even after a difference, because its checksum is wanted too.
  method ChecksumAndCompare(env: Env, file: Bytes, at: nat, candidate: Bytes)
    returns (stored: Option<u32>, equal: bool)
    requires |candidate| > 0
    ensures stored == match ReadAt(file, at, |candidate|)
                      case None => None
                      case Some(bytes) => Some(env.crc(bytes))
    ensures stored.Some? ==> (equal <==> ReadAt(file, at, |candidate|) == Some(candidate))
  {
    var hashed: Bytes := [];
    var done := 0;
    equal := true;
    while done < |candidate|
      invariant 0 <= done <= |candidate|
      invariant done > 0 ==> at + done <= |file|
      invariant |hashed| == done
      invariant done > 0 ==> hashed == file[at..at + done]
      invariant equal <==> hashed == candidate[..done]
    {
      var n := if CHUNK_BYTES < |candidate| - done then CHUNK_BYTES else |candidate| - done;
      var chunk := ReadAt(file, at + done, n);
      if chunk.None? {
        return None, false;
      }
      assert candidate[..done + n] == candidate[..done] + candidate[done..done + n];
      JoinEqualIff(hashed, chunk.value, candidate[..done], candidate[done..done + n]);
      if done > 0 {
        assert file[at..at + done + n] == file[at..at + done] + file[at + done..at + done + n];
      }
      if chunk.value != candidate[done..done + n] {
        equal := false;
      }
      hashed := hashed + chunk.value;
      done := done + n;
    }
    assert candidate[..done] == candidate;
    stored := Some(env.crc(hashed));
  }

  method MatchIdentified(env: Env, file: Bytes, r: IdentifiedReceipt, candidate: Bytes) returns (m: Matching)
    ensures m == IdentifiedMatches(env, file, r, candidate)
  {
    if |candidate| != r.payloadLen || env.crc(candidate) != r.payloadCrc {
      return Different;
    }
    if r.payloadOffset == 0 {
      return if r.compact == Some(candidate) then Same else Different;
    }
    if r.payloadOffset != r.frameOffset + FRAME_HEADER_BYTES {
      return Corrupt;
    }
    if r.records > U32_MAX || r.payloadLen > U32_MAX {
      return Overflow;
    }
    var expected := RawHeader(env.crc, KIND_IDENTIFIED, r.records, r.payloadLen, r.payloadCrc);
    if ReadAt(file, r.frameOffset, FRAME_HEADER_BYTES) != Some(expected) {
      return Corrupt;
    }
    var same := ComparePayload(file, r.payloadOffset, candidate);
    m := if same then Same else Corrupt;
  }

  method MatchIngress(env: Env, file: Bytes, r: IngressReceipt, candidate: Bytes) returns (m: Matching)
    requires |candidate| > 0
    ensures m == IngressMatches(env, file, r, candidate)
  {
    if |candidate| != r.payloadLen || env.crc(candidate) != r.payloadCrc {
      return Different;
    }
    if r.payloadOffset == 0 {
      return if r.compact == Some(candidate) then Same else Different;
    }
    if r.payloadOffset != r.frameOffset + FRAME_HEADER_BYTES + INGRESS_IDENTITY_BYTES {
      return Corrupt;
    }
    if r.records > U32_MAX || INGRESS_IDENTITY_BYTES + |candidate| > U32_MAX {
      return Overflow;
    }
    var tag := TagBytes(Ingress(r.identity));
    var expected := RawHeader(env.crc, KIND_INGRESS, r.records, INGRESS_IDENTITY_BYTES + |candidate|,
                              env.crc(tag + candidate));
    if ReadAt(file, r.frameOffset, FRAME_HEADER_BYTES) != Some(expected) {
      return Corrupt;
    }
    if ReadAt(file, r.frameOffset + FRAME_HEADER_BYTES, INGRESS_IDENTITY_BYTES) != Some(tag) {
      return Corrupt;
    }
    var stored, equal := ChecksumAndCompare(env, file, r.payloadOffset, candidate);
    if stored != Some(r.payloadCrc) {
      return Corrupt;
    }
    m := if equal then Same else Different;
  }

  // ---- Receipts point at their frames ----

  ghost predicate IdentifiedBacked(env: Env, log: seq<Frame>, i: nat, c: u128, r: IdentifiedReceipt) {
    && i < |log|
    && log[i].kind == KIND_IDENTIFIED
    && |log[i].payload| >= COMMIT_ID_BYTES + TRANSACTION_HEADER_BYTES
    && ReadU128(log[i].payload, 0) == c
    && r == IdentifiedReceipt(EndOffset(log[..i]) + FRAME_HEADER_BYTES, |log[i].payload|, env.crc(log[i].payload), None,
                              EndOffset(log[..i]), r.points, log[i].items, FrameBytes(log[i]))
  }

  ghost predicate IngressBacked(env: Env, log: seq<Frame>, i: nat, r: IngressReceipt) {
    && i < |log|
    && log[i].kind == KIND_INGRESS
    && |log[i].payload| >= INGRESS_IDENTITY_BYTES + TRANSACTION_HEADER_BYTES
    && ReadTag(log[i].kind, log[i].payload) == Ingress(r.identity)
    && r == IngressReceipt(r.identity, EndOffset(log[..i]) + FRAME_HEADER_BYTES + INGRESS_IDENTITY_BYTES,
                           |log[i].payload| - INGRESS_IDENTITY_BYTES, env.crc(log[i].payload[INGRESS_IDENTITY_BYTES..]),
                           None, EndOffset(log[..i]), r.points, log[i].items, FrameBytes(log[i]))
  }

  // A receipt kept by a compacted log carries its bytes, if it has any, and they are the right ones.
  predicate IdentifiedCompact(env: Env, r: IdentifiedReceipt) {
    && r.payloadOffset == 0
    && (r.compact.Some? ==>
          r.compact.value != [] && |r.compact.value| == r.payloadLen && env.crc(r.compact.value) == r.payloadCrc)
  }

  predicate IngressCompact(env: Env, r: IngressReceipt) {
    && r.payloadOffset == 0
    && (r.compact.Some? ==>
          r.compact.value != [] && |r.compact.value| == r.payloadLen && env.crc(r.compact.value) == r.payloadCrc)
  }

  ghost predicate IdentifiedHeld(env: Env, log: seq<Frame>, c: u128, r: IdentifiedReceipt) {
    IdentifiedCompact(env, r) || exists i: nat :: IdentifiedBacked(env, log, i, c, r)
  }

  ghost predicate IngressHeld(env: Env, log: seq<Frame>, r: IngressReceipt) {
    IngressCompact(env, r) || exists i: nat :: IngressBacked(env, log, i, r)
  }

  ghost predicate AllHeld(env: Env, log: seq<Frame>, ids: Identities) {
    && (forall c <- ids.identified :: IdentifiedHeld(env, log, c, ids.identified[c]))
    && (forall k <- ids.ingress :: IngressHeld(env, log, ids.ingress[k]))
  }

  lemma AllHeldGrows(env: Env, log: seq<Frame>, f: Frame, ids: Identities)
    requires AllHeld(env, log, ids)
    ensures AllHeld(env, log + [f], ids)
  {
    var more := log + [f];
    forall c <- ids.identified ensures IdentifiedHeld(env, more, c, ids.identified[c]) {
      var r := ids.identified[c];
      if !IdentifiedCompact(env, r) {
        var i: nat :| IdentifiedBacked(env, log, i, c, r);
        assert more[..i] == log[..i];
        assert IdentifiedBacked(env, more, i, c, r);
      }
    }
    forall k <- ids.ingress ensures IngressHeld(env, more, ids.ingress[k]) {
      var r := ids.ingress[k];
      if !IngressCompact(env, r) {
        var i: nat :| IngressBacked(env, log, i, r);
        assert more[..i] == log[..i];
        assert IngressBacked(env, more, i, r);
      }
    }
  }

  lemma {:induction false} CompactIdentifiedHeld(env: Env, log: seq<Frame>, ids: Identities,
                                                 rs: seq<CompactIdentified>, offset: nat)
    requires AllHeld(env, log, ids) && ApplyCompactIdentified(env, ids, rs, offset).Some?
    ensures AllHeld(env, log, ApplyCompactIdentified(env, ids, rs, offset).value)
  {
    if rs != [] {
      hide CompactTransactionOk;
      CompactIdentifiedHeld(env, log, ids, rs[..|rs| - 1], offset);
    }
  }

  lemma {:induction false} CompactIngressHeld(env: Env, log: seq<Frame>, ids: Identities, rs: seq<CompactIngress>)
    requires AllHeld(env, log, ids) && ApplyCompactIngress(env, ids, rs).Some?
    ensures AllHeld(env, log, ApplyCompactIngress(env, ids, rs).value)
  {
    if rs != [] {
      hide CompactTransactionOk;
      CompactIngressHeld(env, log, ids, rs[..|rs| - 1]);
    }
  }

  lemma {:induction false} DecodedCount(env: Env, raw: Bytes, count: nat)
    requires DecodeRecords(env, raw, count).Some?
    ensures |DecodeRecords(env, raw, count).value| == count
    decreases count
  {
    if count > 0 {
      DecodedCount(env, raw[RECORD_HEADER_BYTES + ReadU32(raw, 4)..], count - 1);
    }
  }

  lemma TagHeld(env: Env, log: seq<Frame>, ids: Identities, f: Frame, tag: Tag, records: seq<Record>)
    requires f.kind == KIND_IDENTIFIED ==> |f.payload| >= COMMIT_ID_BYTES
    requires f.kind == KIND_INGRESS ==> |f.payload| >= INGRESS_IDENTITY_BYTES
    requires tag == ReadTag(f.kind, f.payload) && f.items == |records|
    requires |f.payload| >= |TagBytes(tag)| + TRANSACTION_HEADER_BYTES
    requires AllHeld(env, log + [f], ids)
    ensures AllHeld(env, log + [f], RecordTag(env, ids, tag, f.payload, records, EndOffset(log)))
  {
    hide LogBytes, FromLE, LE, AllHeld, IdentifiedHeld, IngressHeld, EndOffset;
    var more := log + [f];
    assert more[|log|] == f && more[..|log|] == log;
    var after := RecordTag(env, ids, tag, f.payload, records, EndOffset(log));
    match tag
    case Untagged =>
    case Identified(c) =>
      BackedIsHeld(env, more, |log|, c, after.identified[c]);
      RecordIdentifiedHeld(env, more, ids, c, after.identified[c]);
    case Ingress(identity) =>
      assert |TagBytes(tag)| == INGRESS_IDENTITY_BYTES;
      IngressBackedIsHeld(env, more, |log|, after.ingress[KeyOf(identity)]);
      RecordIngressHeld(env, more, ids, after.ingress[KeyOf(identity)]);
  }

  lemma BackedIsHeld(env: Env, log: seq<Frame>, i: nat, c: u128, r: IdentifiedReceipt)
    requires IdentifiedBacked(env, log, i, c, r)
    ensures IdentifiedHeld(env, log, c, r)
  {
  }

  lemma IngressBackedIsHeld(env: Env, log: seq<Frame>, i: nat, r: IngressReceipt)
    requires IngressBacked(env, log, i, r)
    ensures IngressHeld(env, log, r)
  {
  }

  lemma RecordIdentifiedHeld(env: Env, log: seq<Frame>, ids: Identities, c: u128, r: IdentifiedReceipt)
    requires AllHeld(env, log, ids) && IdentifiedHeld(env, log, c, r)
    ensures AllHeld(env, log, RecordIdentified(ids, c, r))
  {
    hide IdentifiedHeld, IngressHeld;
  }

  lemma RecordIngressHeld(env: Env, log: seq<Frame>, ids: Identities, r: IngressReceipt)
    requires AllHeld(env, log, ids) && IngressHeld(env, log, r)
    ensures AllHeld(env, log, RecordIngress(ids, r))
  {
    hide IdentifiedHeld, IngressHeld;
  }

  lemma FrameHeld(env: Env, cfg: Config, seals: set<u64>, st: LogState, log: seq<Frame>, f: Frame)
    requires AllHeld(env, log, st.ids)
    requires ApplyFrame(env, cfg, seals, st, f, EndOffset(log)).Accept?
    ensures AllHeld(env, log + [f], ApplyFrame(env, cfg, seals, st, f, EndOffset(log)).value.ids)
  {
    hide AllHeld, RecordTag, ApplyCompactIdentified, ApplyCompactIngress, TagRefusal, ReadTag, TagBytes,
      DecodeRecords, LogBytes, FromLE;
    AllHeldGrows(env, log, f, st.ids);
    var more, offset := log + [f], EndOffset(log);
    if f.kind == KIND_IDENTITY_INDEX {
      var index := env.decodeIndex(f.payload).value;
      CompactIdentifiedHeld(env, more, st.ids, index.identified, offset);
      CompactIngressHeld(env, more, ApplyCompactIdentified(env, st.ids, index.identified, offset).value, index.ingress);
    } else if f.kind != KIND_LEGACY_POINTS && f.kind != KIND_SEAL_CHECKPOINT {
      var tag := ReadTag(f.kind, f.payload);
      var payload := f.payload[|TagBytes(tag)|..];
      DecodedCount(env, payload[TRANSACTION_HEADER_BYTES..], f.items);
      TagHeld(env, log, st.ids, f, tag, DecodeTransaction(env, payload, f.items).value);
    }
  }

  // In every accepted log, every receipt points at the frame that created it or carries its bytes.
  lemma {:induction false} LogBacksReceipts(env: Env, cfg: Config, seals: set<u64>, log: seq<Frame>)
    requires Replay(LogSemantics(env, cfg, seals), log).Some?
    ensures AllHeld(env, log, Replay(LogSemantics(env, cfg, seals), log).value.ids)
  {
    hide ApplyFrame, IdentifiedHeld, IngressHeld, LogBytes;
    if log != [] {
      var front, last := log[..|log| - 1], log[|log| - 1];
      LogBacksReceipts(env, cfg, seals, front);
      var st := Replay(LogSemantics(env, cfg, seals), front).value;
      assert LogSemantics(env, cfg, seals).apply(st, last, EndOffset(front))
          == ApplyFrame(env, cfg, seals, st, last, EndOffset(front));
      FrameHeld(env, cfg, seals, st, front, last);
      assert front + [last] == log;
    }
  }

  // ---- Verdicts ----

  // The bytes of frame i lie in the file at the frame's offset.
  lemma {:induction false} FrameInFile(format: Format, log: seq<Frame>, i: nat)
    requires AllAdmissible(format, log) && i < |log|
    ensures log[i] in log
    ensures |LogFile(format, log)| == EndOffset(log)
    ensures var at := EndOffset(log[..i]);
            && at + FrameBytes(log[i]) <= EndOffset(log)
            && LogFile(format, log)[at..at + FrameBytes(log[i])] == EncodeFrame(format, log[i])
  {
    hide EncodeFrame, DatabaseHeader;
    var front, last := log[..|log| - 1], log[|log| - 1];
    assert last in log;
    EncodeLogLength(format, log);
    EncodeLogLength(format, front);
    assert LogFile(format, log) == LogFile(format, front) + EncodeFrame(format, last);
    if i < |front| {
      FrameInFile(format, front, i);
      assert front[..i] == log[..i];
    } else {
      assert log[..i] == front;
    }
  }

  lemma FrameParts(format: Format, log: seq<Frame>, file: Bytes, i: nat)
    requires AllAdmissible(format, log) && i < |log|
    requires LogFile(format, log) <= file
    ensures log[i] in log && FrameFits(log[i])
    ensures var at := EndOffset(log[..i]);
            && ReadAt(file, at, FRAME_HEADER_BYTES)
            == Some(RawHeader(format.crc, log[i].kind, log[i].items, |log[i].payload|, format.crc(log[i].payload)))
            && ReadAt(file, at + FRAME_HEADER_BYTES, |log[i].payload|) == Some(log[i].payload)
  {
    hide RawHeader, LogFile, LogBytes;
    FrameInFile(format, log, i);
    var at, f := EndOffset(log[..i]), log[i];
    var bytes := file[at..at + FrameBytes(f)];
    assert bytes == LogFile(format, log)[at..at + FrameBytes(f)];
    assert file[at..at + FRAME_HEADER_BYTES] == bytes[..FRAME_HEADER_BYTES];
    assert file[at + FRAME_HEADER_BYTES..at + FrameBytes(f)] == bytes[FRAME_HEADER_BYTES..];
  }

  /**
  A retry under a commit identifier is recognised exactly when its bytes are the
  original ones. A checksum collision is reported as corruption, never as a retry.
  */
  lemma IdentifiedVerdict(env: Env, cfg: Config, log: seq<Frame>, file: Bytes, i: nat, c: u128,
                          r: IdentifiedReceipt, candidate: Bytes)
    requires AllAdmissible(LogFormat(env, cfg), log) && LogFile(LogFormat(env, cfg), log) <= file
    requires IdentifiedBacked(env, log, i, c, r)
    ensures IdentifiedMatches(env, file, r, candidate) ==
            var original := log[i].payload;
            if candidate == original then Same
            else if |candidate| == |original| && env.crc(candidate) == env.crc(original) then Corrupt
            else Different
  {
    hide RawHeader, LogFile, LogBytes, FromLE;
    assert log[i] in log;
    FrameParts(LogFormat(env, cfg), log, file, i);
  }

  /**
  An ingress retry is recognised exactly when its bytes are the original ones, and
  no retry is ever mistaken for corruption.
  */
  lemma IngressVerdict(env: Env, cfg: Config, log: seq<Frame>, file: Bytes, i: nat, r: IngressReceipt, candidate: Bytes)
    requires AllAdmissible(LogFormat(env, cfg), log) && LogFile(LogFormat(env, cfg), log) <= file
    requires IngressBacked(env, log, i, r)
    requires PrefixLaw(env.crc) || candidate == log[i].payload[INGRESS_IDENTITY_BYTES..]
    ensures IngressMatches(env, file, r, candidate) ==
            if candidate == log[i].payload[INGRESS_IDENTITY_BYTES..] then Same else Different
  {
    hide RawHeader, LogFile, LogBytes, FromLE, LE, TagBytes, ReadTag, IngressMatches, PrefixLaw, HeaderRefusal;
    var f := log[i];
    IngressPayloadSplits(f.payload, r.identity);
    FrameParts(LogFormat(env, cfg), log, file, i);
    var at := r.frameOffset + FRAME_HEADER_BYTES;
    assert file[at..at + |f.payload|] == f.payload;
    assert file[at..at + INGRESS_IDENTITY_BYTES] == f.payload[..INGRESS_IDENTITY_BYTES];
    assert file[at + INGRESS_IDENTITY_BYTES..at + |f.payload|] == f.payload[INGRESS_IDENTITY_BYTES..];
    IngressVerdictFromParts(env, file, r, f.payload[INGRESS_IDENTITY_BYTES..], candidate);
  }

  lemma IngressVerdictFromParts(env: Env, file: Bytes, r: IngressReceipt, original: Bytes, candidate: Bytes)
    requires PrefixLaw(env.crc) || candidate == original
    requires r.payloadLen == |original| <= U32_MAX - INGRESS_IDENTITY_BYTES && r.payloadCrc == env.crc(original)
    requires r.payloadOffset == r.frameOffset + FRAME_HEADER_BYTES + INGRESS_IDENTITY_BYTES && r.records <= U32_MAX
    requires ReadAt(file, r.frameOffset, FRAME_HEADER_BYTES)
          == Some(RawHeader(env.crc, KIND_INGRESS, r.records, INGRESS_IDENTITY_BYTES + |original|,
                            env.crc(TagBytes(Ingress(r.identity)) + original)))
    requires ReadAt(file, r.frameOffset + FRAME_HEADER_BYTES, INGRESS_IDENTITY_BYTES)
          == Some(TagBytes(Ingress(r.identity)))
    requires ReadAt(file, r.payloadOffset, |original|) == Some(original)
    ensures IngressMatches(env, file, r, candidate) == if candidate == original then Same else Different
  {
    hide RawHeader, TagBytes;
    var tag := TagBytes(Ingress(r.identity));
    if |candidate| == |original| && env.crc(candidate) == env.crc(original) {
      assert env.crc(tag + candidate) == env.crc(tag + original);
    }
  }

  lemma IngressPayloadSplits(payload: Bytes, identity: IngressIdentity)
    requires |payload| >= INGRESS_IDENTITY_BYTES
    requires ReadTag(KIND_INGRESS, payload) == Ingress(identity)
    ensures payload[..INGRESS_IDENTITY_BYTES] == TagBytes(Ingress(identity))
    ensures payload == TagBytes(Ingress(identity)) + payload[INGRESS_IDENTITY_BYTES..]
  {
    hide LE, FromLE;
    LEOfFromLE(payload[0..16]);
    LEOfFromLE(payload[16..24]);
    LEOfFromLE(payload[24..40]);
    assert payload[..40] == payload[0..16] + payload[16..24] + payload[24..40];
  }

  // ---- What a recognised retry proves about the file ----

  // The bytes of a frame as they lie in the file from an offset on.
  ghost predicate Stored(file: Bytes, at: nat, header: Bytes, payload: Bytes) {
    at + |header| + |payload| <= |file| && file[at..at + |header| + |payload|] == header + payload
  }

  // Recognised exactly when length, checksum and the bytes agree: those kept with the receipt, or the whole
  // frame, header included, where the receipt says it lies.
  lemma IdentifiedSameIff(env: Env, file: Bytes, r: IdentifiedReceipt, candidate: Bytes)
    ensures IdentifiedMatches(env, file, r, candidate) == Same <==>
            && |candidate| == r.payloadLen && env.crc(candidate) == r.payloadCrc
            && if r.payloadOffset == 0 then r.compact == Some(candidate)
               else && r.payloadOffset == r.frameOffset + 24 && r.records <= U32_MAX && r.payloadLen <= U32_MAX
                    && Stored(file, r.frameOffset, RawHeader(env.crc, 2, r.records, r.payloadLen, r.payloadCrc), candidate)
  {
    hide RawHeader;
    if r.payloadOffset != 0 && r.payloadOffset == r.frameOffset + 24 && r.records <= U32_MAX
       && |candidate| == r.payloadLen <= U32_MAX
    {
      StoredIff(file, r.frameOffset, RawHeader(env.crc, 2, r.records, r.payloadLen, r.payloadCrc), candidate);
    }
  }

  lemma StoredIff(file: Bytes, at: nat, header: Bytes, payload: Bytes)
    ensures Stored(file, at, header, payload) <==>
            ReadAt(file, at, |header|) == Some(header) && ReadAt(file, at + |header|, |payload|) == Some(payload)
  {
    var mid, end := at + |header|, at + |header| + |payload|;
    if end <= |file| {
      var all := file[at..end];
      assert file[at..mid] == all[..|header|] && file[mid..end] == all[|header|..];
      assert all == all[..|header|] + all[|header|..];
      assert (header + payload)[..|header|] == header && (header + payload)[|header|..] == payload;
    }
  }

  // The same for an ordered commit, whose frame carries the forty identity bytes before the transaction.
  lemma IngressSameIff(env: Env, file: Bytes, r: IngressReceipt, candidate: Bytes)
    ensures IngressMatches(env, file, r, candidate) == Same <==>
            && |candidate| == r.payloadLen && env.crc(candidate) == r.payloadCrc
            && if r.payloadOffset == 0 then r.compact == Some(candidate)
               else && r.payloadOffset == r.frameOffset + 64 && r.records <= U32_MAX && 40 + |candidate| <= U32_MAX
                    && var whole := TagBytes(Ingress(r.identity)) + candidate;
                       Stored(file, r.frameOffset, RawHeader(env.crc, 3, r.records, 40 + |candidate|, env.crc(whole)), whole)
  {
    hide RawHeader, TagBytes;
    if r.payloadOffset != 0 && r.payloadOffset == r.frameOffset + 64 && r.records <= U32_MAX && 40 + |candidate| <= U32_MAX {
      var tag := TagBytes(Ingress(r.identity));
      TagIsForty(r.identity);
      var header := RawHeader(env.crc, 3, r.records, 40 + |candidate|, env.crc(tag + candidate));
      StoredIff(file, r.frameOffset, header, tag + candidate);
      StoredIff(file, r.frameOffset + 24, tag, candidate);
    }
  }

  lemma TagIsForty(identity: IngressIdentity)
    ensures |TagBytes(Ingress(identity))| == 40
  {
    hide LE;
  }

  // Every other outcome for an identified commit, for any file: different bytes, a receipt that overflows
  // its frame header, and otherwise a stored frame that is not what the receipt says.
  lemma IdentifiedOutcomes(env: Env, file: Bytes, r: IdentifiedReceipt, candidate: Bytes)
    ensures var m := IdentifiedMatches(env, file, r, candidate);
            var agrees := |candidate| == r.payloadLen && env.crc(candidate) == r.payloadCrc;
            var placed := r.payloadOffset == r.frameOffset + 24;
            var fits := r.records <= U32_MAX && r.payloadLen <= U32_MAX;
            && (m == Different <==> !agrees || (r.payloadOffset == 0 && r.compact != Some(candidate)))
            && (m == Overflow <==> agrees && r.payloadOffset != 0 && placed && !fits)
  {
    hide RawHeader;
  }

  // The same for an ordered commit; here intact stored bytes that differ are a conflict, not damage.
  lemma IngressOutcomes(env: Env, file: Bytes, r: IngressReceipt, candidate: Bytes)
    ensures var m := IngressMatches(env, file, r, candidate);
            var agrees := |candidate| == r.payloadLen && env.crc(candidate) == r.payloadCrc;
            var placed := r.payloadOffset == r.frameOffset + 64;
            var fits := r.records <= U32_MAX && 40 + |candidate| <= U32_MAX;
            && (m == Overflow <==> agrees && r.payloadOffset != 0 && placed && !fits)
            && (m == Different <==>
                  || !agrees || (r.payloadOffset == 0 && r.compact != Some(candidate))
                  || (&& r.payloadOffset != 0 && placed && fits
                      && var tag := TagBytes(Ingress(r.identity));
                      && Stored(file, r.frameOffset,
                                RawHeader(env.crc, 3, r.records, 40 + |candidate|, env.crc(tag + candidate)), tag)
                      && exists x :: ReadAt(file, r.payloadOffset, |candidate|) == Some(x)
                                     && env.crc(x) == r.payloadCrc && x != candidate))
  {
    hide RawHeader, TagBytes;
    if r.payloadOffset != 0 && r.payloadOffset == r.frameOffset + 64 && r.records <= U32_MAX && 40 + |candidate| <= U32_MAX {
      var tag := TagBytes(Ingress(r.identity));
      TagIsForty(r.identity);
      StoredIff(file, r.frameOffset, RawHeader(env.crc, 3, r.records, 40 + |candidate|, env.crc(tag + candidate)), tag);
    }
  }
}

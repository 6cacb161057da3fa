/**
The reclaim of a live log as it runs: flush, collect the receipts with their bytes,
write the compact log, scan it, and carry on with what the scan loaded.

A reclaim that returns a handle returns one that preserves everything `Reclaim` names;
one that fails leaves the log and the memory of the handle as they were, and names its reason:
the disk, a size limit, or live points the catalog does not define.
*/
module ReclaimLog {
  import opened ByteCodec
  import opened StableSorting
  import opened Model
  import opened TransactionCodec
  import opened LogFrame
  import opened FramedLog
  import opened DurableLog
  import opened StorageLog
  import opened PointIndex
  import opened Receipts
  import opened IdentityFrames
  import opened CatalogRules
  import opened CatalogSnapshot
  import opened DatabaseModel
  import opened DatabaseRuns
  import opened Database
  import opened Reclaim
  import opened ReclaimScan
  import opened ReceiptSizes
  import opened ExactlyOnce
  import LogScan

  // ---- Collecting receipts ----

  // Counters that the receipt index can hold; machine integers always can.
  predicate CountsFit(points: nat, records: nat, payloadLen: nat) {
    points <= U64_MAX && records <= U64_MAX && payloadLen <= U32_MAX
  }

  predicate IngressFits(r: IngressReceipt) {
    CountsFit(r.points, r.records, r.payloadLen) && r.frameOffset <= U64_MAX && r.bytesWritten <= U64_MAX
  }

  predicate IdentifiedFits(r: IdentifiedReceipt) {
    CountsFit(r.points, r.records, r.payloadLen)
  }

  ghost predicate ReceiptsFit(ids: Identities) {
    && (forall c <- ids.identified :: IdentifiedFits(ids.identified[c]))
    && (forall k <- ids.ingress :: IngressFits(ids.ingress[k]))
  }

  lemma IngressReadsBack(env: Env, cfg: Config, log: seq<Frame>, file: Bytes, r: IngressReceipt)
    requires AllAdmissible(LogFormat(env, cfg), log) && LogFile(LogFormat(env, cfg), log) <= file
    requires IngressHeld(env, log, r)
    ensures r.payloadOffset == 0 && r.compact.Some? ==> StandsFor(env, log, r, r.compact.value) && r.compact.value != []
    ensures r.payloadOffset == 0 && r.compact.None? ==> Forgotten(env, r)
    ensures r.payloadOffset != 0 ==>
              && r.payloadLen > 0
              && ReadAt(file, r.payloadOffset, r.payloadLen).Some?
              && var p := ReadAt(file, r.payloadOffset, r.payloadLen).value;
              && IngressMatches(env, file, r, p) == Same && StandsFor(env, log, r, p)
  {
    hide LogFile, LogBytes, RawHeader, ReadTag, IngressMatches;
    if !IngressCompact(env, r) {
      var i: nat :| IngressBacked(env, log, i, r);
      FrameParts(LogFormat(env, cfg), log, file, i);
      var at, f := r.frameOffset + FRAME_HEADER_BYTES, log[i];
      assert file[at..at + |f.payload|][INGRESS_IDENTITY_BYTES..] == file[at + INGRESS_IDENTITY_BYTES..at + |f.payload|];
      var p := f.payload[INGRESS_IDENTITY_BYTES..];
      assert ReadAt(file, r.payloadOffset, r.payloadLen) == Some(p);
      IngressVerdict(env, cfg, log, file, i, r, p);
    }
  }

  lemma IdentifiedReadsBack(env: Env, cfg: Config, log: seq<Frame>, file: Bytes, c: u128, r: IdentifiedReceipt)
    requires AllAdmissible(LogFormat(env, cfg), log) && LogFile(LogFormat(env, cfg), log) <= file
    requires IdentifiedHeld(env, log, c, r)
    ensures r.payloadOffset == 0 && r.compact.Some? ==>
              IdentifiedStandsFor(env, log, c, r, r.compact.value) && r.compact.value != []
    ensures r.payloadOffset == 0 && r.compact.None? ==> IdentifiedCompact(env, r)
    ensures r.payloadOffset != 0 ==>
              && r.payloadLen > 0
              && ReadAt(file, r.payloadOffset, r.payloadLen).Some?
              && var p := ReadAt(file, r.payloadOffset, r.payloadLen).value;
              && IdentifiedMatches(env, file, r, p) == Same && IdentifiedStandsFor(env, log, c, r, p)
  {
    hide LogFile, LogBytes, RawHeader, FromLE, IdentifiedMatches;
    if !IdentifiedCompact(env, r) {
      var i: nat :| IdentifiedBacked(env, log, i, c, r);
      FrameParts(LogFormat(env, cfg), log, file, i);
      assert ReadAt(file, r.payloadOffset, r.payloadLen) == Some(log[i].payload);
      IdentifiedVerdict(env, cfg, log, file, i, c, r, log[i].payload);
    }
  }

  // The bytes a receipt stands for: kept with it, or read back and compared. The comparison never fails.
  method IngressPayload(env: Env, cfg: Config, file: Bytes, r: IngressReceipt, ghost log: seq<Frame>)
    returns (payload: Option<Bytes>)
    requires AllAdmissible(LogFormat(env, cfg), log) && LogFile(LogFormat(env, cfg), log) <= file
    requires IngressHeld(env, log, r)
    ensures payload.Some?
    ensures if payload.value == [] then Forgotten(env, r) else StandsFor(env, log, r, payload.value)
  {
    hide LogFile, StandsFor, Forgotten, IngressMatches, IngressHeld;
    IngressReadsBack(env, cfg, log, file, r);
    if r.payloadOffset == 0 {
      return Some(if r.compact.Some? then r.compact.value else []);
    }
    payload := ReadAt(file, r.payloadOffset, r.payloadLen);
    if payload.Some? {
      var m := MatchIngress(env, file, r, payload.value);
      if m != Same {
        return None;
      }
    }
  }

  method IdentifiedPayload(env: Env, cfg: Config, file: Bytes, c: u128, r: IdentifiedReceipt, ghost log: seq<Frame>)
    returns (payload: Option<Bytes>)
    requires AllAdmissible(LogFormat(env, cfg), log) && LogFile(LogFormat(env, cfg), log) <= file
    requires IdentifiedHeld(env, log, c, r)
    ensures payload.Some?
    ensures if payload.value == [] then IdentifiedCompact(env, r) && r.compact.None?
            else IdentifiedStandsFor(env, log, c, r, payload.value)
  {
    hide LogFile, IdentifiedStandsFor, IdentifiedCompact, IdentifiedMatches, IdentifiedHeld;
    IdentifiedReadsBack(env, cfg, log, file, c, r);
    if r.payloadOffset == 0 {
      return Some(if r.compact.Some? then r.compact.value else []);
    }
    payload := ReadAt(file, r.payloadOffset, r.payloadLen);
    if payload.Some? {
      var m := MatchIdentified(env, file, r, payload.value);
      if m != Same {
        return None;
      }
    }
  }

  function CursorKey(r: CompactIngress): Key { [r.identity.sourceId, r.identity.sequence] }

  function CommitKey(r: CompactIdentified): Key { [r.commitId] }

  method CompactOneIngress(env: Env, cfg: Config, file: Bytes, receipt: IngressReceipt, ghost log: seq<Frame>)
    returns (r: Option<CompactIngress>)
    requires AllAdmissible(LogFormat(env, cfg), log) && LogFile(LogFormat(env, cfg), log) <= file
    requires IngressHeld(env, log, receipt)
    ensures r.Some? <==> IngressFits(receipt)
    ensures r.Some? ==> r.value.identity == receipt.identity && IngressCompacted(env, log, receipt, r.value)
  {
    hide LogFile, IngressHeld, StandsFor, Forgotten;
    if !IngressFits(receipt) {
      return None;
    }
    var payload := IngressPayload(env, cfg, file, receipt, log);
    r := Some(CompactIngress(receipt.identity, receipt.payloadLen, receipt.payloadCrc, receipt.points, receipt.records,
                             payload.value, receipt.frameOffset, receipt.bytesWritten));
  }

  method CompactOneIdentified(env: Env, cfg: Config, file: Bytes, c: u128, receipt: IdentifiedReceipt, ghost log: seq<Frame>)
    returns (r: Option<CompactIdentified>)
    requires AllAdmissible(LogFormat(env, cfg), log) && LogFile(LogFormat(env, cfg), log) <= file
    requires IdentifiedHeld(env, log, c, receipt)
    ensures r.Some? <==> IdentifiedFits(receipt)
    ensures r.Some? ==> IdentifiedCompacted(env, log, c, receipt, r.value)
  {
    hide LogFile, IdentifiedHeld, IdentifiedStandsFor;
    if !IdentifiedFits(receipt) {
      return None;
    }
    var payload := IdentifiedPayload(env, cfg, file, c, receipt, log);
    r := Some(CompactIdentified(c, receipt.payloadLen, receipt.payloadCrc, receipt.points, receipt.records, payload.value));
  }

  // One compact receipt for every cursor, and none besides.
  ghost predicate IngressListed(env: Env, log: seq<Frame>, receipts: map<IngressKey, IngressReceipt>, list: seq<CompactIngress>) {
    && (forall k :: k in receipts <==> exists x :: x in list && KeyOf(x.identity) == k)
    && (forall x <- list :: KeyOf(x.identity) in receipts && IngressCompacted(env, log, receipts[KeyOf(x.identity)], x))
  }

  ghost predicate IdentifiedListed(env: Env, log: seq<Frame>, receipts: map<u128, IdentifiedReceipt>,
                                   list: seq<CompactIdentified>) {
    && (forall c :: c in receipts <==> exists x :: x in list && x.commitId == c)
    && (forall x <- list :: x.commitId in receipts && IdentifiedCompacted(env, log, x.commitId, receipts[x.commitId], x))
  }

  // The receipts of all source cursors, sorted so that each source's sequences increase.
  method CompactIngressReceipts(env: Env, cfg: Config, file: Bytes, receipts: map<IngressKey, IngressReceipt>,
                                ghost log: seq<Frame>)
    returns (r: Option<seq<CompactIngress>>)
    requires AllAdmissible(LogFormat(env, cfg), log) && LogFile(LogFormat(env, cfg), log) <= file
    requires forall k <- receipts :: IngressHeld(env, log, receipts[k]) && KeyOf(receipts[k].identity) == k
    ensures r.Some? <==> forall k <- receipts :: IngressFits(receipts[k])
    ensures r.Some? ==>
              && IngressListed(env, log, receipts, r.value)
              && (forall i, j :: 0 <= i < j < |r.value| ==> CursorBefore(r.value[i].identity, r.value[j].identity))
              && (forall i, j :: 0 <= i < j < |r.value| ==>
                    || r.value[i].identity.sourceId < r.value[j].identity.sourceId
                    || (r.value[i].identity.sourceId == r.value[j].identity.sourceId
                        && r.value[i].identity.sequence < r.value[j].identity.sequence))
  {
    hide LogFile, IngressHeld, IngressCompacted, Sort, IngressFits, DistinctKeys;
    var list: seq<CompactIngress> := [];
    var pending := receipts.Keys;
    assert DistinctKeys(list, CursorKey) by { NoKeys(list, CursorKey); }
    while pending != {}
      invariant pending <= receipts.Keys
      invariant forall k <- receipts :: k in pending || IngressFits(receipts[k])
      invariant forall x <- list :: KeyOf(x.identity) in receipts - pending
                                    && IngressCompacted(env, log, receipts[KeyOf(x.identity)], x)
      invariant forall k <- receipts :: k in pending || exists x :: x in list && KeyOf(x.identity) == k
      invariant DistinctKeys(list, CursorKey)
      decreases |pending|
    {
      var k :| k in pending;
      var x := CompactOneIngress(env, cfg, file, receipts[k], log);
      if x.None? {
        return None;
      }
      NewCursor(list, x.value, receipts - pending);
      ghost var before := list;
      list := list + [x.value];
      pending := pending - {k};
      forall j <- receipts ensures j in pending || exists y :: y in list && KeyOf(y.identity) == j {
        if j == k {
          assert x.value in list;
        } else if j !in pending {
          var y :| y in before && KeyOf(y.identity) == j;
          assert y in list;
        }
      }
    }
    SortedIngress(env, log, receipts, list);
    r := Some(Sort(list, CursorKey));
  }

  lemma NoKeys<T>(list: seq<T>, key: T -> Key)
    requires list == []
    ensures DistinctKeys(list, key)
  {
  }

  lemma NewCursor(list: seq<CompactIngress>, x: CompactIngress, done: map<IngressKey, IngressReceipt>)
    requires DistinctKeys(list, CursorKey) && KeyOf(x.identity) !in done
    requires forall y <- list :: KeyOf(y.identity) in done
    ensures DistinctKeys(list + [x], CursorKey)
  {
    forall i, j | 0 <= i < j < |list| + 1 ensures CursorKey((list + [x])[i]) != CursorKey((list + [x])[j]) {
      if j == |list| {
        assert list[i] in list;
        SameCursor(list[i], x);
      }
    }
  }

  lemma SameCursor(a: CompactIngress, b: CompactIngress)
    ensures CursorKey(a) == CursorKey(b) <==> KeyOf(a.identity) == KeyOf(b.identity)
  {
    assert CursorKey(a)[0] == a.identity.sourceId && CursorKey(a)[1] == a.identity.sequence;
    assert CursorKey(b)[0] == b.identity.sourceId && CursorKey(b)[1] == b.identity.sequence;
  }

  lemma SortedIngress(env: Env, log: seq<Frame>, receipts: map<IngressKey, IngressReceipt>, list: seq<CompactIngress>)
    requires IngressListed(env, log, receipts, list) && DistinctKeys(list, CursorKey)
    ensures var sorted := Sort(list, CursorKey);
            && IngressListed(env, log, receipts, sorted)
            && (forall i, j :: 0 <= i < j < |sorted| ==> CursorBefore(sorted[i].identity, sorted[j].identity))
            && (forall i, j :: 0 <= i < j < |sorted| ==>
                  || sorted[i].identity.sourceId < sorted[j].identity.sourceId
                  || (sorted[i].identity.sourceId == sorted[j].identity.sourceId
                      && sorted[i].identity.sequence < sorted[j].identity.sequence))
  {
    hide Sort, IngressCompacted, Select;
    var sorted := Sort(list, CursorKey);
    SortElements(list, CursorKey);
    SortIsStable(list, CursorKey);
    SortDistinct(list, CursorKey);
    forall k ensures k in receipts <==> exists x :: x in sorted && KeyOf(x.identity) == k {
      if k in receipts {
        var x :| x in list && KeyOf(x.identity) == k;
        assert x in sorted;
      }
    }
    forall i, j | 0 <= i < j < |sorted|
      ensures CursorBefore(sorted[i].identity, sorted[j].identity)
      ensures || sorted[i].identity.sourceId < sorted[j].identity.sourceId
              || (sorted[i].identity.sourceId == sorted[j].identity.sourceId
                  && sorted[i].identity.sequence < sorted[j].identity.sequence)
    {
      SameCursor(sorted[i], sorted[j]);
      CursorOrder(sorted[i], sorted[j]);
    }
  }

  lemma CursorOrder(a: CompactIngress, b: CompactIngress)
    requires KeyLe(CursorKey(a), CursorKey(b)) && KeyOf(a.identity) != KeyOf(b.identity)
    ensures CursorBefore(a.identity, b.identity)
    ensures || a.identity.sourceId < b.identity.sourceId
            || (a.identity.sourceId == b.identity.sourceId && a.identity.sequence < b.identity.sequence)
  {
    assert CursorKey(a)[1..] == [a.identity.sequence] && CursorKey(b)[1..] == [b.identity.sequence];
  }

  method CompactIdentifiedReceipts(env: Env, cfg: Config, file: Bytes, receipts: map<u128, IdentifiedReceipt>,
                                   ghost log: seq<Frame>)
    returns (r: Option<seq<CompactIdentified>>)
    requires AllAdmissible(LogFormat(env, cfg), log) && LogFile(LogFormat(env, cfg), log) <= file
    requires forall c <- receipts :: IdentifiedHeld(env, log, c, receipts[c])
    ensures r.Some? <==> forall c <- receipts :: IdentifiedFits(receipts[c])
    ensures r.Some? ==>
              && IdentifiedListed(env, log, receipts, r.value)
              && (forall i, j :: 0 <= i < j < |r.value| ==> r.value[i].commitId < r.value[j].commitId)
  {
    hide LogFile, IdentifiedHeld, Sort, IdentifiedFits, DistinctKeys;
    var list: seq<CompactIdentified> := [];
    var pending := receipts.Keys;
    assert DistinctKeys(list, CommitKey) by { NoKeys(list, CommitKey); }
    while pending != {}
      invariant pending <= receipts.Keys
      invariant forall c <- receipts :: c in pending || IdentifiedFits(receipts[c])
      invariant forall x <- list ::
                  x.commitId in receipts - pending && IdentifiedCompacted(env, log, x.commitId, receipts[x.commitId], x)
      invariant forall c <- receipts :: c in pending || exists x :: x in list && x.commitId == c
      invariant DistinctKeys(list, CommitKey)
      decreases |pending|
    {
      var c :| c in pending;
      var x := CompactOneIdentified(env, cfg, file, c, receipts[c], log);
      if x.None? {
        return None;
      }
      NewIdentifier(list, x.value, receipts - pending);
      ghost var before := list;
      list := list + [x.value];
      pending := pending - {c};
      forall j <- receipts ensures j in pending || exists y :: y in list && y.commitId == j {
        if j == c {
          assert x.value in list;
        } else if j !in pending {
          var y :| y in before && y.commitId == j;
          assert y in list;
        }
      }
    }
    SortedIdentified(env, log, receipts, list);
    r := Some(Sort(list, CommitKey));
  }

  lemma NewIdentifier(list: seq<CompactIdentified>, x: CompactIdentified, done: map<u128, IdentifiedReceipt>)
    requires DistinctKeys(list, CommitKey) && x.commitId !in done
    requires forall y <- list :: y.commitId in done
    ensures DistinctKeys(list + [x], CommitKey)
  {
    forall i, j | 0 <= i < j < |list| + 1 ensures CommitKey((list + [x])[i]) != CommitKey((list + [x])[j]) {
      if j == |list| {
        assert list[i] in list;
        assert CommitKey(list[i])[0] != CommitKey(x)[0];
      }
    }
  }

  lemma SortedIdentified(env: Env, log: seq<Frame>, receipts: map<u128, IdentifiedReceipt>, list: seq<CompactIdentified>)
    requires IdentifiedListed(env, log, receipts, list) && DistinctKeys(list, CommitKey)
    ensures var sorted := Sort(list, CommitKey);
            && IdentifiedListed(env, log, receipts, sorted)
            && (forall i, j :: 0 <= i < j < |sorted| ==> sorted[i].commitId < sorted[j].commitId)
  {
    hide Sort, IdentifiedCompacted, Select;
    var sorted := Sort(list, CommitKey);
    SortElements(list, CommitKey);
    SortIsStable(list, CommitKey);
    SortDistinct(list, CommitKey);
    forall c ensures c in receipts <==> exists x :: x in sorted && x.commitId == c {
      if c in receipts {
        var x :| x in list && x.commitId == c;
        assert x in sorted;
      }
    }
    forall i, j | 0 <= i < j < |sorted| ensures sorted[i].commitId < sorted[j].commitId {
      assert CommitKey(sorted[i]) != CommitKey(sorted[j]);
      assert KeyLe(CommitKey(sorted[i]), CommitKey(sorted[j]));
    }
  }

  // ---- Laying out the live points ----

  method FlattenIndex(index: Index) returns (tail: seq<Point>)
    requires forall s <- index :: forall p <- index[s] :: p.seriesId == s
    ensures Arranges(index, tail)
  {
    hide SeriesPoints;
    tail := [];
    var pending := index.Keys;
    forall s: u64 ensures SeriesPoints([], s) == [] {
      SeriesPresent([], s);
    }
    while pending != {}
      invariant pending <= index.Keys
      invariant forall s: u64 :: SeriesPoints(tail, s) == if s in pending then [] else SeriesOf(index, s)
      decreases |pending|
    {
      var s :| s in pending;
      forall x: u64
        ensures SeriesPoints(tail + index[s], x)
             == if x in pending - {s} then [] else SeriesOf(index, x)
      {
        SeriesAppend(tail, index[s], s, x);
      }
      tail := tail + index[s];
      pending := pending - {s};
    }
  }

  lemma SeriesAppend(tail: seq<Point>, more: seq<Point>, s: u64, x: u64)
    requires forall p <- more :: p.seriesId == s
    ensures SeriesPoints(tail + more, x) == SeriesPoints(tail, x) + (if x == s then more else [])
  {
    SelectConcat(tail, more, SeriesKey, [x]);
    SeriesOnly(more, s, x);
  }

  lemma {:induction false} SeriesOnly(more: seq<Point>, s: u64, x: u64)
    requires forall p <- more :: p.seriesId == s
    ensures SeriesPoints(more, x) == if x == s then more else []
  {
    if more != [] {
      var front, last := more[..|more| - 1], more[|more| - 1];
      assert last in more && more == front + [last];
      SeriesOnly(front, s, x);
      SeriesPointsSnoc(front, last, x);
    }
  }

  lemma IndexBySeries(live: seq<Point>)
    ensures forall s <- IndexOf(live) :: forall p <- IndexOf(live)[s] :: p.seriesId == s
  {
    forall s <- IndexOf(live), p <- IndexOf(live)[s] ensures p.seriesId == s {
      SortElements(SeriesPoints(live, s), ValidKey);
      SelectElements(live, SeriesKey, [s]);
      assert SeriesKey(p)[0] == s;
    }
  }

  // ---- Writing the compact log ----

  // The bytes of a log so far, and the log.
  ghost predicate Holds(env: Env, cfg: Config, bytes: Bytes, log: seq<Frame>) {
    AllAdmissible(LogFormat(env, cfg), log) && bytes == LogFile(LogFormat(env, cfg), log)
  }

  method WriteOne(env: Env, cfg: Config, bytes: Bytes, f: Frame, ghost log: seq<Frame>) returns (r: Bytes)
    requires Holds(env, cfg, bytes, log) && Admissible(LogFormat(env, cfg), f)
    ensures Holds(env, cfg, r, log + [f])
  {
    hide LogFile, EncodeFrame, HeaderRefusal;
    LogSnoc(LogSemantics(env, cfg, {}), log, f);
    r := bytes + EncodeFrame(LogFormat(env, cfg), f);
  }

  // A transaction small enough for one frame.
  predicate StandaloneFits(env: Env, cfg: Config, rs: seq<Record>) {
    rs == [] || (&& EncodeCanonical(env, rs).Some? && |rs| <= U32_MAX
                 && |EncodeCanonical(env, rs).value| <= cfg.maxTransactionBytes)
  }

  predicate TailFits(env: Env, cfg: Config, tail: seq<Point>) {
    |tail| <= cfg.maxBatchPoints && StandaloneFits(env, cfg, TailRecords(tail))
  }

  method WriteStandalone(env: Env, cfg: Config, bytes: Bytes, rs: seq<Record>, ghost log: seq<Frame>)
    returns (r: Option<Bytes>)
    requires ValidConfig(cfg) && Holds(env, cfg, bytes, log)
    ensures r.Some? <==> StandaloneFits(env, cfg, rs)
    ensures r.Some? ==>
              StandaloneFrames(env, rs).Some? && Holds(env, cfg, r.value, log + StandaloneFrames(env, rs).value)
  {
    hide EncodeCanonical, LogFile;
    if rs == [] {
      assert log + [] == log;
      return Some(bytes);
    }
    var encoded := EncodeCanonical(env, rs);
    if encoded.None? || |rs| > U32_MAX || |encoded.value| > cfg.maxTransactionBytes {
      return None;
    }
    var f := TaggedFrame(Untagged, rs, encoded.value);
    assert f.payload == encoded.value;
    var more := WriteOne(env, cfg, bytes, f, log);
    r := Some(more);
  }

  method WriteIndexFrames(env: Env, cfg: Config, bytes: Bytes, chunks: seq<IdentityIndex>, ghost log: seq<Frame>)
    returns (r: Bytes)
    requires Holds(env, cfg, bytes, log) && SizesHold(env) && Fits(IdentityIndexFrameLimit(cfg), chunks)
    ensures Holds(env, cfg, r, log + IndexFrames(env, chunks))
  {
    hide IndexSize, Holds, SizesHold;
    r := bytes;
    assert log + IndexFrames(env, chunks[..0]) == log;
    for i := 0 to |chunks|
      invariant Holds(env, cfg, r, log + IndexFrames(env, chunks[..i]))
    {
      assert chunks[i] in chunks;
      var f := Frame(KIND_IDENTITY_INDEX, 0, env.encodeIndex(chunks[i]));
      IndexFrameAdmissible(env, cfg, chunks[i]);
      r := WriteOne(env, cfg, r, f, log + IndexFrames(env, chunks[..i]));
      assert chunks[..i + 1][..i] == chunks[..i];
      assert log + IndexFrames(env, chunks[..i + 1]) == log + IndexFrames(env, chunks[..i]) + [f];
    }
    assert chunks[..|chunks|] == chunks;
  }

  lemma IndexFrameAdmissible(env: Env, cfg: Config, chunk: IdentityIndex)
    requires SizesHold(env) && IndexSize(chunk) <= IdentityIndexFrameLimit(cfg)
    ensures Admissible(LogFormat(env, cfg), Frame(KIND_IDENTITY_INDEX, 0, env.encodeIndex(chunk)))
  {
    hide IndexSize;
    assert |env.encodeIndex(chunk)| == IndexSize(chunk);
  }

  method WriteCompactLog(env: Env, cfg: Config, snapshot: seq<Record>, chunks: seq<IdentityIndex>, tail: seq<Point>)
    returns (r: Option<Bytes>)
    requires ValidConfig(cfg) && SizesHold(env) && Fits(IdentityIndexFrameLimit(cfg), chunks)
    ensures r.Some? <==> StandaloneFits(env, cfg, snapshot) && TailFits(env, cfg, tail)
    ensures r.Some? ==>
              && CompactLog(env, snapshot, chunks, tail).Some?
              && Holds(env, cfg, r.value, CompactLog(env, snapshot, chunks, tail).value)
  {
    hide Holds, StandaloneFrames, SizesHold, Fits, IndexFrames, StandaloneFits;
    var bytes := DatabaseHeader(LogFormat(env, cfg));
    assert Holds(env, cfg, bytes, []) by { HoldsHeader(env, cfg); }
    var first := WriteStandalone(env, cfg, bytes, snapshot, []);
    if first.None? {
      return None;
    }
    ghost var log := [] + StandaloneFrames(env, snapshot).value;
    assert log == StandaloneFrames(env, snapshot).value;
    var second := WriteIndexFrames(env, cfg, first.value, chunks, log);
    if |tail| > cfg.maxBatchPoints {
      return None;
    }
    r := WriteStandalone(env, cfg, second, TailRecords(tail), log + IndexFrames(env, chunks));
  }

  lemma HoldsHeader(env: Env, cfg: Config)
    ensures Holds(env, cfg, DatabaseHeader(LogFormat(env, cfg)), [])
  {
    assert DatabaseHeader(LogFormat(env, cfg)) + [] == DatabaseHeader(LogFormat(env, cfg));
  }

  // ---- The reclaim ----

  // A failure to sync the new log, or to put it in the place of the old one, poisons the old handle.
  datatype Result = Reclaimed(db: Database) | NotReclaimed(poisons: bool)

  ghost predicate Preserved(env: Env, before: Handle, after: Handle) {
    && after.memory.catalog == before.memory.catalog
    && after.memory.index == before.memory.index && after.memory.points == before.memory.points
    && IdentitiesPreserved(env, before.journal.log, before.memory.ids, after.memory.ids)
    && after.durable == after.memory.ids.lastSequences
    && after.journal.synced == |after.journal.log| && !after.journal.poisoned
  }

  // Some part of the compact log is over a size limit, or a counter out of range.
  ghost predicate TooLarge(env: Env, cfg: Config, zones: set<string>, before: Handle) {
    || !ReceiptsFit(before.memory.ids)
    || !EveryReceiptFits(env, cfg, before.journal.log, before.memory.ids)
    || (exists snapshot :: Rebuilds(zones, before.memory.catalog, snapshot) && !StandaloneFits(env, cfg, snapshot))
    || (exists tail :: Arranges(before.memory.index, tail) && !TailFits(env, cfg, tail))
  }

  /**
  Under the 58-byte margin no reclaim is refused for a receipt that fits no frame: what is left
  is a counter out of range, the catalog, or the live points.
  */
  lemma WithinMarginNeverTooLarge(s: Setting, zones: set<string>, before: Handle)
    requires Fair(s) && Good(s, before) && ReadsWhole(s.env) && s.cfg.maxTransactionBytes <= U32_MAX - RECEIPT_EXCESS_BYTES
    requires TooLarge(s.env, s.cfg, zones, before)
    ensures || !ReceiptsFit(before.memory.ids)
            || (exists snapshot :: Rebuilds(zones, before.memory.catalog, snapshot) && !StandaloneFits(s.env, s.cfg, snapshot))
            || (exists tail :: Arranges(before.memory.index, tail) && !TailFits(s.env, s.cfg, tail))
  {
    hide HandleInv, Inv, Replay, LogBytes, ReadsWhole, EveryReceiptFits, ReceiptsFit, Rebuilds, StandaloneFits, Arranges,
      TailFits;
    GoodParts(s, before);
    GoodJournal(s, before);
    InvReplays(Meaning(s), s.cfg.durability, before.journal);
    HeldReceiptsFit(s.env, s.cfg, s.seals, before.journal.log);
  }

  ghost predicate DefinesIndex(c: Catalog, index: Index) {
    forall s <- index :: DefinesPoints(c, index[s])
  }

  /**
  Reclaiming a live log. The new handle, when there is one, loads the same catalog, query
  index, identifiers, cursors and watermarks as the old one, with every receipt standing
  for the same bytes; when there is none the old handle keeps its log and memory. It fails only
  on a poisoned handle, a disk error, a size limit or a live point the catalog does not define,
  and always on the last and on a receipt that fits no frame.
  */
  method ReclaimLiveLog(db: Database, ghost zones: set<string>, flush: Io, syncOk: bool, placed: bool) returns (r: Result)
    requires db.Valid() && CatalogEnv(db.env, zones) && SizesHold(db.env)
    modifies db
    ensures db.Valid() && db.log == old(db.log) && db.CurrentMemory() == old(db.CurrentMemory())
    ensures r.NotReclaimed? && r.poisons ==> db.poisoned && !(syncOk && placed)
    ensures r.NotReclaimed? && !r.poisons ==>
              db.Value() == if old(db.poisoned) then old(db.Value()) else FlushHandle(old(db.Value()), flush).0
    ensures r.Reclaimed? ==>
              fresh(r.db) && r.db.Valid() && r.db.env == db.env && r.db.cfg == db.cfg
              && Preserved(db.env, old(db.Value()), r.db.Value())
    ensures r.Reclaimed? ==>
              && !old(db.poisoned) && FlushHandle(old(db.Value()), flush).1 && syncOk && placed
              && DefinesIndex(old(db.catalog), old(db.index))
              && ReceiptsFit(old(db.Ids())) && EveryReceiptFits(db.env, db.cfg, old(db.log), old(db.Ids()))
              && ReclaimsTo(Setting(db.env, db.cfg, db.seals), zones, FlushHandle(old(db.Value()), flush).0, r.db.Value())
    ensures r.NotReclaimed? ==>
              || old(db.poisoned) || !FlushHandle(old(db.Value()), flush).1 || !syncOk || !placed
              || !DefinesIndex(old(db.catalog), old(db.index))
              || TooLarge(db.env, db.cfg, zones, db.Value())
  {
    hide HandleInv, Lawful, CatalogEnv, SizesHold, IdentitiesPreserved, TooLarge, DefinesIndex, ReclaimsTo,
      ReceiptsFit, EveryReceiptFits;
    if db.poisoned {
      return NotReclaimed(false);
    }
    FlushHandleKeeps(db.env, db.cfg, db.seals, db.Value(), flush);
    var ok := db.Flush(flush);
    if !ok {
      return NotReclaimed(false);
    }
    r := RewriteLog(db, zones, syncOk, placed);
    if r.NotReclaimed? && r.poisons {
      PoisonedHandle(db.env, db.cfg, db.seals, db.Value());
      db.poisoned := true;
    }
  }

  lemma PoisonedHandle(env: Env, cfg: Config, seals: set<u64>, before: Handle)
    requires HandleInv(env, cfg, seals, before)
    ensures HandleInv(env, cfg, seals, before.(journal := before.journal.(poisoned := true)))
  {
    hide Replay, Inv;
    PoisonKeepsInv(LogSemantics(env, cfg, seals), cfg.durability, before.journal);
  }

  // Scanning these bytes finds damage unless the catalog defines the live points; otherwise it loads what the handle holds.
  ghost predicate LoadsSame(env: Env, cfg: Config, before: Handle, bytes: Bytes) {
    && bytes != [] && DatabaseHeaderOk(LogFormat(env, cfg), bytes)
    && var found := ScanFile(LogSemantics(env, cfg, {}), bytes);
       && (found.stop.Damaged? <==> !DefinesIndex(before.memory.catalog, before.memory.index))
       && (!found.stop.Damaged? ==>
            && found.state.catalog == before.memory.catalog
            && IndexOf(found.state.live) == before.memory.index && |found.state.live| == before.memory.points
            && IdentitiesPreserved(env, before.journal.log, before.memory.ids, found.state.ids))
  }

  // These bytes are a compact form of the handle's log.
  ghost predicate WritesCompact(s: Setting, zones: set<string>, before: Handle, bytes: Bytes) {
    && Replay(Meaning(s), before.journal.log).Some?
    && exists newLog ::
         && Holds(s.env, s.cfg, bytes, newLog)
         && CompactsTo(s.env, zones, before.journal.log, Replay(Meaning(s), before.journal.log).value, newLog)
  }

  // The handle opened on those bytes is the one a reclaim goes to.
  lemma OpenedCompact(s: Setting, zones: set<string>, before: Handle, bytes: Bytes, after: Handle)
    requires !before.journal.poisoned && before.journal.synced == |before.journal.log|
    requires WritesCompact(s, zones, before, bytes) && HandleInv(s.env, s.cfg, {}, after)
    requires DatabaseHeaderOk(LogFormat(s.env, s.cfg), bytes)
    requires var found := ScanFile(LogSemantics(s.env, s.cfg, {}), bytes);
             !found.stop.Damaged? && after.journal.file == bytes[..found.offset]
    requires after.journal.synced == |after.journal.log| && !after.journal.poisoned
    ensures ReclaimsTo(s, zones, before, after)
  {
    hide Replay, LogFile, ScanFile, DatabaseHeaderOk, CompactsTo, Load;
    var newLog :| Holds(s.env, s.cfg, bytes, newLog)
                  && CompactsTo(s.env, zones, before.journal.log, Replay(Meaning(s), before.journal.log).value, newLog);
    var format, log := LogFormat(s.env, s.cfg), after.journal.log;
    ScanOfLog(LogSemantics(s.env, s.cfg, {}), newLog);
    EncodeLogLength(format, newLog);
    assert bytes[..|bytes|] == bytes;
    HandleFile(s.env, s.cfg, {}, after);
    FileDeterminesLog(format, log, newLog);
    assert log[..|log|] == log;
    LoadedIds(Replay(LogSemantics(s.env, s.cfg, {}), log).value);
    assert Frames(after.journal) == log;
  }

  method RewriteLog(db: Database, ghost zones: set<string>, syncOk: bool, placed: bool) returns (r: Result)
    requires db.Valid() && !db.poisoned && db.synced == |db.log| && CatalogEnv(db.env, zones) && SizesHold(db.env)
    ensures r.Reclaimed? ==>
              fresh(r.db) && r.db.Valid() && r.db.env == db.env && r.db.cfg == db.cfg
              && Preserved(db.env, db.Value(), r.db.Value()) && syncOk && placed && DefinesIndex(db.catalog, db.index)
              && ReceiptsFit(db.Ids()) && EveryReceiptFits(db.env, db.cfg, db.log, db.Ids())
              && ReclaimsTo(Setting(db.env, db.cfg, db.seals), zones, db.Value(), r.db.Value())
    ensures r.NotReclaimed? && r.poisons ==> !(syncOk && placed)
    ensures r.NotReclaimed? && !r.poisons ==>
              !DefinesIndex(db.catalog, db.index) || TooLarge(db.env, db.cfg, zones, db.Value())
  {
    hide HandleInv, Lawful, CatalogEnv, SizesHold, IdentitiesPreserved, ScanFile, DatabaseHeaderOk, IndexOf, TooLarge,
      DefinesIndex, WritesCompact, ReclaimsTo, ReceiptsFit, EveryReceiptFits;
    var bytes := BuildCompact(db, zones);
    if bytes.None? {
      return NotReclaimed(false);
    }
    var scanned := OpenFile(db.env, db.cfg, {}, bytes.value, syncOk);
    if scanned.OpenFailed? {
      return NotReclaimed(scanned.error == SyncFailed);
    }
    if !placed {
      return NotReclaimed(true);
    }
    OpenedCompact(Setting(db.env, db.cfg, db.seals), zones, db.Value(), bytes.value, scanned.db.Value());
    r := Reclaimed(scanned.db);
  }

  method BuildCompact(db: Database, ghost zones: set<string>) returns (r: Option<Bytes>)
    requires db.Valid() && !db.poisoned && CatalogEnv(db.env, zones) && SizesHold(db.env)
    ensures r.None? ==> TooLarge(db.env, db.cfg, zones, db.Value())
    ensures r.Some? ==> ReceiptsFit(db.Ids()) && EveryReceiptFits(db.env, db.cfg, db.log, db.Ids())
    ensures r.Some? ==> LoadsSame(db.env, db.cfg, db.Value(), r.value)
    ensures r.Some? ==> WritesCompact(Setting(db.env, db.cfg, db.seals), zones, db.Value(), r.value)
  {
    hide HandleInv, Lawful, CatalogEnv, SizesHold, IdentitiesPreserved, WritesCompact, Holds, Compacts, Arranges, LoadsSame, CompactLog,
      ReferencesOk, CatalogOk, Rebuilds, Fits, StandaloneFits, TailFits, SomeTooLarge, InOrder, IdentifiedFirst, TooLarge,
      ReceiptsFit, EveryReceiptFits;
    var env, cfg := db.env, db.cfg;
    var index := CollectReceipts(db);
    if index.None? {
      CounterTooLarge(env, cfg, zones, db.Value());
      return None;
    }
    var snapshot := SnapshotRecords(db.catalog, zones);
    HandleCatalog(env, cfg, db.seals, zones, db.Value());
    var chunks := SplitIndex(IdentityIndexFrameLimit(cfg), index.value);
    FitsEveryIndex(env, cfg, db.log, db.Ids(), index.value);
    if chunks.None? {
      ReceiptTooLarge(env, cfg, zones, db.Value());
      return None;
    }
    var tail := LayOut(db);
    r := WriteCompactLog(env, cfg, snapshot.value, chunks.value, tail);
    if r.None? {
      RecordsTooLarge(env, cfg, zones, db.Value(), snapshot.value, tail);
    } else {
      ReclaimedHandle(env, cfg, db.seals, zones, db.Value(), snapshot.value, index.value, chunks.value, tail, r.value);
    }
  }

  lemma CounterTooLarge(env: Env, cfg: Config, zones: set<string>, before: Handle)
    requires !ReceiptsFit(before.memory.ids)
    ensures TooLarge(env, cfg, zones, before)
  {
  }

  lemma ReceiptTooLarge(env: Env, cfg: Config, zones: set<string>, before: Handle)
    requires !EveryReceiptFits(env, cfg, before.journal.log, before.memory.ids)
    ensures TooLarge(env, cfg, zones, before)
  {
    hide EveryReceiptFits, ReceiptsFit;
  }

  lemma RecordsTooLarge(env: Env, cfg: Config, zones: set<string>, before: Handle, snapshot: seq<Record>, tail: seq<Point>)
    requires Rebuilds(zones, before.memory.catalog, snapshot) && Arranges(before.memory.index, tail)
    requires !StandaloneFits(env, cfg, snapshot) || !TailFits(env, cfg, tail)
    ensures TooLarge(env, cfg, zones, before)
  {
    hide Rebuilds, Arranges, StandaloneFits, TailFits, ReceiptsFit, EveryReceiptFits;
  }

  lemma HandleCatalog(env: Env, cfg: Config, seals: set<u64>, zones: set<string>, before: Handle)
    requires CatalogEnv(env, zones) && HandleInv(env, cfg, seals, before)
    ensures CatalogOk(zones, before.memory.catalog) && ReferencesOk(before.memory.catalog)
  {
    hide Replay, Inv, CatalogEnv, WellFormed, ReferencesOk;
    LogCatalogOk(env, cfg, seals, zones, before.journal.log);
  }

  method CollectReceipts(db: Database) returns (r: Option<IdentityIndex>)
    requires db.Valid() && !db.poisoned
    ensures r.Some? <==> ReceiptsFit(db.Ids())
    ensures r.Some? ==> Compacts(db.env, db.log, db.Ids(), r.value) && InOrder(r.value)
  {
    hide HandleInv, Lawful, LogFile, IngressFits, IdentifiedFits, CursorBefore;
    HandleFile(db.env, db.cfg, db.seals, db.Value());
    HandleReceipts(db.env, db.cfg, db.seals, db.Value());
    var identified := CompactIdentifiedReceipts(db.env, db.cfg, db.file, db.identified, db.log);
    var ingress := CompactIngressReceipts(db.env, db.cfg, db.file, db.ingress, db.log);
    if identified.None? || ingress.None? {
      return None;
    }
    r := Some(IdentityIndex(identified.value, ingress.value));
  }

  lemma HandleReceipts(env: Env, cfg: Config, seals: set<u64>, db: Handle)
    requires HandleInv(env, cfg, seals, db)
    ensures AllHeld(env, db.journal.log, db.memory.ids)
    ensures forall k <- db.memory.ids.ingress :: KeyOf(db.memory.ids.ingress[k].identity) == k
  {
    hide Replay, Inv, AppliedOnce, Records, WatermarksGreatest, CommitIdsSplit, IngressHeld, IdentifiedHeld;
    LogBacksReceipts(env, cfg, seals, db.journal.log);
    LogAppliesOnce(env, cfg, seals, db.journal.log);
  }

  method LayOut(db: Database) returns (tail: seq<Point>)
    requires db.Valid()
    ensures Arranges(db.index, tail)
  {
    hide Arranges, Replay, Inv, Lawful;
    IndexBySeries(Replay(LogSemantics(db.env, db.cfg, db.seals), db.log).value.live);
    tail := FlattenIndex(db.index);
  }

  // What the scan of the compact log loaded is what the old handle held.
  lemma ReclaimedHandle(env: Env, cfg: Config, seals: set<u64>, zones: set<string>, before: Handle, snapshot: seq<Record>,
                        index: IdentityIndex, chunks: seq<IdentityIndex>, tail: seq<Point>, bytes: Bytes)
    requires Lawful(env) && CatalogEnv(env, zones) && HandleInv(env, cfg, seals, before)
    requires Rebuilds(zones, before.memory.catalog, snapshot)
    requires Compacts(env, before.journal.log, before.memory.ids, index) && InOrder(index)
    requires JoinIdentified(chunks) == index.identified && JoinIngress(chunks) == index.ingress && IdentifiedFirst(chunks)
    requires Arranges(before.memory.index, tail) && TailFits(env, cfg, tail)
    requires CompactLog(env, snapshot, chunks, tail).Some?
    requires Holds(env, cfg, bytes, CompactLog(env, snapshot, chunks, tail).value)
    ensures LoadsSame(env, cfg, before, bytes)
    ensures WritesCompact(Setting(env, cfg, seals), zones, before, bytes)
  {
    hide Replay, Inv, Compacts, Arranges, IdentitiesPreserved, IndexOf, ScanFile, LogFile, CompactLog, Lawful, CatalogEnv,
      Rebuilds, DatabaseHeaderOk, CatalogOk;
    var newLog := CompactLog(env, snapshot, chunks, tail).value;
    var sem := LogSemantics(env, cfg, {});
    ScanOfLog(sem, newLog);
    LogScan.HeaderFits(sem.format, bytes);
    var st := Replay(LogSemantics(env, cfg, seals), before.journal.log).value;
    RebuiltFrom(zones, st.catalog, snapshot);
    assert IsCompact(env, zones, before.journal.log, st, snapshot, index, chunks, tail, newLog);
    CompactLogReplaysIff(env, cfg, seals, zones, before.journal.log, st, snapshot, index, chunks, tail, newLog);
    DefinedAlike(st.catalog, st.live);
    if Replay(sem, newLog).Some? {
      CompactLogPreserves(env, cfg, seals, zones, before.journal.log, st, snapshot, index, chunks, tail, newLog,
                          Replay(sem, newLog).value);
    }
  }

  // A written log scans without damage exactly when it replays.
  lemma ScanOfLog<S>(sem: Semantics<S>, log: seq<Frame>)
    requires AllAdmissible(sem.format, log)
    ensures DatabaseHeaderOk(sem.format, LogFile(sem.format, log))
    ensures var r := ScanFile(sem, LogFile(sem.format, log));
            if Replay(sem, log).Some? then r == ScanOutcome(Replay(sem, log).value, EndOffset(log), CleanEof)
            else r.stop.Damaged?
  {
    hide Replay, ScanFile, DatabaseHeaderOk, LogBytes, Admissible;
    WrittenFileScan(sem, log);
    if Replay(sem, log).Some? {
      var file := LogFile(sem.format, log);
      EncodeLogLength(sem.format, log);
      WholeFramesIsGreatest(log, EndOffset(log), |log|);
      assert log[..|log|] == log;
      CutLogRecovers(sem, log, EndOffset(log));
      assert file[..|file|] == file;
    }
  }

  lemma DefinedAlike(c: Catalog, live: seq<Point>)
    ensures DefinesIndex(c, IndexOf(live)) <==> DefinesPoints(c, live)
  {
    hide Sort, SeriesPoints;
    forall p <- live ensures p.seriesId in IndexOf(live) && p in IndexOf(live)[p.seriesId] {
      SortElements(SeriesPoints(live, p.seriesId), ValidKey);
      SelectedSeries(live, p.seriesId, p);
    }
    forall s <- IndexOf(live), p <- IndexOf(live)[s] ensures p in live {
      SortElements(SeriesPoints(live, s), ValidKey);
      SelectElements(live, SeriesKey, [s]);
      SelectedFrom(live, s, p);
    }
  }

  lemma SelectedFrom(live: seq<Point>, s: u64, p: Point)
    ensures p in SeriesPoints(live, s) ==> p in live
  {
    SelectElements(live, SeriesKey, [s]);
  }

  lemma RebuiltFrom(zones: set<string>, c: Catalog, rs: seq<Record>)
    requires Rebuilds(zones, c, rs)
    ensures ApplyRecords(zones, EMPTY_CATALOG, rs) == Some(c) && PointsOf(rs) == []
  {
    hide ApplyRecords, PrefixOk;
    NoPoints(rs);
  }

  lemma {:induction false} NoPoints(rs: seq<Record>)
    requires forall r <- rs :: !r.PointsRecord?
    ensures PointsOf(rs) == []
  {
    if rs != [] {
      assert rs[|rs| - 1] in rs;
      NoPoints(rs[..|rs| - 1]);
    }
  }
}

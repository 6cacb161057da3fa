/**
Rewriting the log to the catalog, the identity receipts and the live points.

The compact log holds one catalog transaction, the identity index frames and one
point transaction. The writer scans it before it takes the place of the old log;
`CompactLogPreserves` says what every compact log that passes the scan preserves, and
`SameVerdict` that retries are answered as before.
*/
module Reclaim {
  import opened ByteCodec
  import opened StableSorting
  import opened Model
  import opened TransactionCodec
  import opened LogFrame
  import opened FramedLog
  import opened DurableLog
  import opened StorageLog
  import opened PointIndex
  import opened Receipts
  import opened ExactlyOnce
  import opened IdentityFrames
  import opened CatalogRules
  import opened DatabaseModel
  import opened DatabaseRuns

  // ---- The compact log ----

  // The catalog rules are those of CatalogRules.
  ghost predicate CatalogEnv(env: Env, zones: set<string>) {
    forall c: Catalog, rs: seq<Record> :: env.apply(c, rs) == ApplyRecords(zones, c, rs)
  }

  function StandaloneFrames(env: Env, rs: seq<Record>): Option<seq<Frame>> {
    if rs == [] then Some([])
    else match EncodeCanonical(env, rs)
      case None => None
      case Some(canonical) => if |rs| > U32_MAX then None else Some([TaggedFrame(Untagged, rs, canonical)])
  }

  function IndexFrames(env: Env, chunks: seq<IdentityIndex>): seq<Frame> {
    if chunks == [] then []
    else IndexFrames(env, chunks[..|chunks| - 1])
         + [Frame(KIND_IDENTITY_INDEX, 0, env.encodeIndex(chunks[|chunks| - 1]))]
  }

  function TailRecords(tail: seq<Point>): seq<Record> {
    if tail == [] then [] else [PointsRecord(tail)]
  }

  function CompactLog(env: Env, snapshot: seq<Record>, chunks: seq<IdentityIndex>, tail: seq<Point>): Option<seq<Frame>> {
    match StandaloneFrames(env, snapshot)
    case None => None
    case Some(first) =>
      match StandaloneFrames(env, TailRecords(tail))
      case None => None
      case Some(last) => Some(first + IndexFrames(env, chunks) + last)
  }

  // ---- What the scan of it finds ----

  lemma UntaggedApplied(env: Env, cfg: Config, seals: set<u64>, st: LogState, rs: seq<Record>, canonical: Bytes, offset: nat)
    requires Lawful(env) && EncodeCanonical(env, rs) == Some(canonical) && |rs| <= U32_MAX
    requires ApplyFrame(env, cfg, seals, st, TaggedFrame(Untagged, rs, canonical), offset).Accept?
    ensures env.apply(st.catalog, rs).Some?
    ensures ApplyFrame(env, cfg, seals, st, TaggedFrame(Untagged, rs, canonical), offset).value
         == AfterTransaction(env, st, Untagged, canonical, rs, env.apply(st.catalog, rs).value, offset)
  {
    hide EncodeCanonical, DecodeTransaction, AfterTransaction;
    TransactionRoundTrip(env, rs);
    assert [] + canonical == canonical && canonical[0..] == canonical;
  }

  // A standalone transaction adds its points and replaces the catalog.
  lemma StandaloneReplay(env: Env, cfg: Config, seals: set<u64>, log: seq<Frame>, rs: seq<Record>, frames: seq<Frame>)
    requires Lawful(env) && StandaloneFrames(env, rs) == Some(frames)
    requires Replay(LogSemantics(env, cfg, seals), log + frames).Some?
    ensures Replay(LogSemantics(env, cfg, seals), log).Some?
    ensures var before := Replay(LogSemantics(env, cfg, seals), log).value;
            var after := Replay(LogSemantics(env, cfg, seals), log + frames).value;
            && after.live == before.live + PointsOf(rs)
            && after.ids == before.ids && after.pendingReclaim == before.pendingReclaim
            && (if rs == [] then after.catalog == before.catalog
                else env.apply(before.catalog, rs) == Some(after.catalog))
  {
    hide ApplyFrame, LogBytes, EncodeCanonical;
    if rs == [] {
      assert log + frames == log;
      var before := Replay(LogSemantics(env, cfg, seals), log).value;
      assert before.live + PointsOf(rs) == before.live;
    } else {
      var f := frames[0];
      assert log + frames == log + [f];
      assert (log + [f])[..|log|] == log;
      var before := Replay(LogSemantics(env, cfg, seals), log).value;
      assert LogSemantics(env, cfg, seals).apply(before, f, EndOffset(log))
          == ApplyFrame(env, cfg, seals, before, f, EndOffset(log));
      UntaggedApplied(env, cfg, seals, before, rs, EncodeCanonical(env, rs).value, EndOffset(log));
    }
  }

  // The receipt book holds exactly the listed receipts, as restored from them.
  ghost predicate Restored(ids: Identities, identified: seq<CompactIdentified>, ingress: seq<CompactIngress>) {
    && (forall c :: c in ids.identified <==> exists r :: r in identified && r.commitId == c)
    && (forall r <- identified ::
          && r.commitId in ids.identified && r.commitId in ids.commitIds
          && ids.identified[r.commitId] == RestoreIdentified(r, ids.identified[r.commitId].frameOffset))
    && (forall k :: k in ids.ingress <==> exists r :: r in ingress && KeyOf(r.identity) == k)
    && (forall r <- ingress :: KeyOf(r.identity) in ids.ingress && ids.ingress[KeyOf(r.identity)] == RestoreIngress(r))
  }

  lemma RestoredIdentified(ids: Identities, identified: seq<CompactIdentified>, ingress: seq<CompactIngress>,
                           r: CompactIdentified, offset: nat)
    requires Restored(ids, identified, ingress) && r.commitId !in ids.commitIds
    ensures Restored(RecordIdentified(ids, r.commitId, RestoreIdentified(r, offset)), identified + [r], ingress)
  {
    hide RestoreIngress, RestoreIdentified;
    var after, more := RecordIdentified(ids, r.commitId, RestoreIdentified(r, offset)), identified + [r];
    forall c ensures c in after.identified <==> exists x :: x in more && x.commitId == c {
      if c == r.commitId {
        assert r in more;
      } else if c in ids.identified {
        var x :| x in identified && x.commitId == c;
        assert x in more;
      }
    }
    assert RestoreIdentified(r, offset).frameOffset == offset by { RestoredOffset(r, offset); }
  }

  lemma RestoredOffset(r: CompactIdentified, offset: nat)
    ensures RestoreIdentified(r, offset).frameOffset == offset
  {
  }

  lemma RestoredIngress(ids: Identities, identified: seq<CompactIdentified>, ingress: seq<CompactIngress>, r: CompactIngress)
    requires Restored(ids, identified, ingress) && KeyOf(r.identity) !in ids.ingress
    ensures Restored(RecordIngress(ids, RestoreIngress(r)), identified, ingress + [r])
  {
    hide RestoreIdentified;
    var after, more := RecordIngress(ids, RestoreIngress(r)), ingress + [r];
    forall k ensures k in after.ingress <==> exists x :: x in more && KeyOf(x.identity) == k {
      if k == KeyOf(r.identity) {
        assert r in more;
      } else if k in ids.ingress {
        var x :| x in ingress && KeyOf(x.identity) == k;
        assert x in more;
      }
    }
  }

  lemma {:induction false} RestoredIdentifiedList(env: Env, ids: Identities, identified: seq<CompactIdentified>,
                                                  ingress: seq<CompactIngress>, rs: seq<CompactIdentified>, offset: nat)
    requires Restored(ids, identified, ingress) && ApplyCompactIdentified(env, ids, rs, offset).Some?
    ensures Restored(ApplyCompactIdentified(env, ids, rs, offset).value, identified + rs, ingress)
  {
    hide Restored, RecordIdentified, CompactIdentifiedOk;
    if rs == [] {
      assert identified + rs == identified;
    } else {
      var front, last := rs[..|rs| - 1], rs[|rs| - 1];
      RestoredIdentifiedList(env, ids, identified, ingress, front, offset);
      RestoredIdentified(ApplyCompactIdentified(env, ids, front, offset).value, identified + front, ingress, last, offset);
      assert identified + rs == identified + front + [last];
    }
  }

  lemma {:induction false} RestoredIngressList(env: Env, ids: Identities, identified: seq<CompactIdentified>,
                                               ingress: seq<CompactIngress>, rs: seq<CompactIngress>)
    requires Restored(ids, identified, ingress) && ApplyCompactIngress(env, ids, rs).Some?
    ensures Restored(ApplyCompactIngress(env, ids, rs).value, identified, ingress + rs)
  {
    hide Restored, RecordIngress, CompactIngressOk;
    if rs == [] {
      assert ingress + rs == ingress;
    } else {
      var front, last := rs[..|rs| - 1], rs[|rs| - 1];
      RestoredIngressList(env, ids, identified, ingress, front);
      RestoredIngress(ApplyCompactIngress(env, ids, front).value, identified, ingress + front, last);
      assert ingress + rs == ingress + front + [last];
    }
  }

  lemma IndexApplied(env: Env, cfg: Config, seals: set<u64>, st: LogState, chunk: IdentityIndex, offset: nat,
                     identified: seq<CompactIdentified>, ingress: seq<CompactIngress>)
    requires Lawful(env) && Restored(st.ids, identified, ingress)
    requires ApplyFrame(env, cfg, seals, st, Frame(KIND_IDENTITY_INDEX, 0, env.encodeIndex(chunk)), offset).Accept?
    ensures var after := ApplyFrame(env, cfg, seals, st, Frame(KIND_IDENTITY_INDEX, 0, env.encodeIndex(chunk)), offset).value;
            && Restored(after.ids, identified + chunk.identified, ingress + chunk.ingress)
            && after == st.(ids := after.ids, commits := st.commits + 1)
  {
    hide Restored, ApplyCompactIdentified, ApplyCompactIngress;
    assert env.decodeIndex(env.encodeIndex(chunk)) == Some(chunk);
    RestoredIdentifiedList(env, st.ids, identified, ingress, chunk.identified, offset);
    var mid := ApplyCompactIdentified(env, st.ids, chunk.identified, offset).value;
    RestoredIngressList(env, mid, identified + chunk.identified, ingress, chunk.ingress);
  }

  lemma {:induction false} IndexReplay(env: Env, cfg: Config, seals: set<u64>, log: seq<Frame>, chunks: seq<IdentityIndex>)
    requires Lawful(env)
    requires Replay(LogSemantics(env, cfg, seals), log + IndexFrames(env, chunks)).Some?
    ensures Replay(LogSemantics(env, cfg, seals), log).Some?
    ensures var before := Replay(LogSemantics(env, cfg, seals), log).value;
            var after := Replay(LogSemantics(env, cfg, seals), log + IndexFrames(env, chunks)).value;
            && after.live == before.live && after.catalog == before.catalog
            && (before.ids == NO_IDENTITIES ==> Restored(after.ids, JoinIdentified(chunks), JoinIngress(chunks)))
  {
    hide ApplyFrame, LogBytes, Restored;
    var sem := LogSemantics(env, cfg, seals);
    if chunks == [] {
      assert log + IndexFrames(env, chunks) == log;
      assert Restored(NO_IDENTITIES, [], []) by { NothingRestored(); }
    } else {
      var front, last := chunks[..|chunks| - 1], chunks[|chunks| - 1];
      var shorter, f := log + IndexFrames(env, front), Frame(KIND_IDENTITY_INDEX, 0, env.encodeIndex(last));
      assert log + IndexFrames(env, chunks) == shorter + [f];
      assert (shorter + [f])[..|shorter|] == shorter;
      var mid := Replay(sem, shorter).value;
      assert sem.apply(mid, f, EndOffset(shorter)) == ApplyFrame(env, cfg, seals, mid, f, EndOffset(shorter));
      IndexReplay(env, cfg, seals, log, front);
      IndexKeepsRest(env, cfg, seals, mid, last, EndOffset(shorter));
      if Replay(sem, log).value.ids == NO_IDENTITIES {
        IndexApplied(env, cfg, seals, mid, last, EndOffset(shorter), JoinIdentified(front), JoinIngress(front));
      }
    }
  }

  lemma IndexKeepsRest(env: Env, cfg: Config, seals: set<u64>, st: LogState, chunk: IdentityIndex, offset: nat)
    requires ApplyFrame(env, cfg, seals, st, Frame(KIND_IDENTITY_INDEX, 0, env.encodeIndex(chunk)), offset).Accept?
    ensures var after := ApplyFrame(env, cfg, seals, st, Frame(KIND_IDENTITY_INDEX, 0, env.encodeIndex(chunk)), offset).value;
            after.live == st.live && after.catalog == st.catalog
  {
    hide ApplyIdentityIndex;
  }

  lemma NothingRestored()
    ensures Restored(NO_IDENTITIES, [], [])
  {
  }

  // ---- Compacting receipts ----

  // A compact receipt says what the receipt says, and carries the bytes it stands for, if there are any.
  ghost predicate IngressCompacted(env: Env, log: seq<Frame>, r: IngressReceipt, c: CompactIngress) {
    && c.identity == r.identity && c.payloadLen == r.payloadLen && c.payloadCrc == r.payloadCrc
    && c.points == r.points && c.records == r.records
    && c.frameOffset == r.frameOffset && c.bytesWritten == r.bytesWritten
    && (if c.payload == [] then Forgotten(env, r) else StandsFor(env, log, r, c.payload))
  }

  ghost predicate IdentifiedStandsFor(env: Env, log: seq<Frame>, c: u128, r: IdentifiedReceipt, original: Bytes) {
    || (IdentifiedCompact(env, r) && r.compact == Some(original))
    || exists i: nat :: IdentifiedBacked(env, log, i, c, r) && log[i].payload == original
  }

  ghost predicate IdentifiedCompacted(env: Env, log: seq<Frame>, id: u128, r: IdentifiedReceipt, c: CompactIdentified) {
    && c.commitId == id && c.payloadLen == r.payloadLen && c.payloadCrc == r.payloadCrc
    && c.points == r.points && c.records == r.records
    && (if c.payload == [] then IdentifiedCompact(env, r) && r.compact.None?
        else IdentifiedStandsFor(env, log, id, r, c.payload))
  }

  ghost predicate Compacts(env: Env, log: seq<Frame>, ids: Identities, index: IdentityIndex) {
    && (forall c :: c in ids.identified <==> exists r :: r in index.identified && r.commitId == c)
    && (forall r <- index.identified ::
          r.commitId in ids.identified && IdentifiedCompacted(env, log, r.commitId, ids.identified[r.commitId], r))
    && (forall k :: k in ids.ingress <==> exists r :: r in index.ingress && KeyOf(r.identity) == k)
    && (forall r <- index.ingress ::
          KeyOf(r.identity) in ids.ingress && IngressCompacted(env, log, ids.ingress[KeyOf(r.identity)], r))
  }

  // What a reclaim preserves of the receipt book.
  ghost predicate IdentitiesPreserved(env: Env, log: seq<Frame>, ids: Identities, newIds: Identities) {
    && newIds.commitIds == ids.commitIds
    && newIds.identified.Keys == ids.identified.Keys
    && newIds.ingress.Keys == ids.ingress.Keys
    && newIds.lastSequences == ids.lastSequences
    && (forall k <- ids.ingress :: IngressPreserved(env, log, ids.ingress[k], newIds.ingress[k]))
    && (forall c <- ids.identified :: IdentifiedPreserved(env, log, c, ids.identified[c], newIds.identified[c]))
  }

  ghost predicate IngressPreserved(env: Env, log: seq<Frame>, r: IngressReceipt, n: IngressReceipt) {
    && n.identity == r.identity && n.points == r.points && n.records == r.records
    && n.frameOffset == r.frameOffset && n.bytesWritten == r.bytesWritten
    && IngressCompact(env, n)
    && (n.compact.None? ==> Forgotten(env, r))
    && (n.compact.Some? ==> StandsFor(env, log, r, n.compact.value))
  }

  ghost predicate IdentifiedPreserved(env: Env, log: seq<Frame>, c: u128, r: IdentifiedReceipt, n: IdentifiedReceipt) {
    && n.points == r.points && n.records == r.records
    && IdentifiedCompact(env, n)
    && (n.compact.None? ==> IdentifiedCompact(env, r) && r.compact.None?)
    && (n.compact.Some? ==> IdentifiedStandsFor(env, log, c, r, n.compact.value))
  }

  lemma IngressPreservedOne(env: Env, log: seq<Frame>, r: IngressReceipt, newLog: seq<Frame>, c: CompactIngress)
    requires IngressCompacted(env, log, r, c) && IngressHeld(env, newLog, RestoreIngress(c))
    ensures IngressPreserved(env, log, r, RestoreIngress(c))
  {
    hide StandsFor, IngressBacked;
    assert forall i: nat :: !IngressBacked(env, newLog, i, RestoreIngress(c)) by { RestoredNotBacked(env, newLog, c); }
  }

  lemma RestoredNotBacked(env: Env, log: seq<Frame>, c: CompactIngress)
    ensures forall i: nat :: !IngressBacked(env, log, i, RestoreIngress(c))
  {
    hide LogBytes;
  }

  lemma IdentifiedPreservedOne(env: Env, log: seq<Frame>, id: u128, r: IdentifiedReceipt, newLog: seq<Frame>,
                               c: CompactIdentified, offset: nat)
    requires IdentifiedCompacted(env, log, id, r, c) && IdentifiedHeld(env, newLog, id, RestoreIdentified(c, offset))
    ensures IdentifiedPreserved(env, log, id, r, RestoreIdentified(c, offset))
  {
    hide IdentifiedStandsFor, LogBytes;
  }

  // Same cursors, same watermarks.
  lemma WatermarksFromCursors(a: Identities, b: Identities)
    requires WatermarksGreatest(a) && WatermarksGreatest(b) && a.ingress.Keys == b.ingress.Keys
    ensures a.lastSequences == b.lastSequences
  {
    forall s | s in a.lastSequences ensures s in b.lastSequences && b.lastSequences[s] == a.lastSequences[s] {
      assert IngressKey(s, a.lastSequences[s]) in a.ingress.Keys;
      assert IngressKey(s, b.lastSequences[s]) in b.ingress.Keys;
    }
    forall s | s in b.lastSequences ensures s in a.lastSequences {
      assert IngressKey(s, b.lastSequences[s]) in b.ingress.Keys;
    }
  }

  // Same cursors with the same commit identifiers, same commit identifiers overall.
  lemma CommitIdsFromReceipts(a: Identities, b: Identities)
    requires CommitIdsSplit(a) && CommitIdsSplit(b) && CursorsNamed(a) && CursorsNamed(b)
    requires a.identified.Keys == b.identified.Keys && a.ingress.Keys == b.ingress.Keys
    requires forall k <- a.ingress :: a.ingress[k].identity == b.ingress[k].identity
    ensures a.commitIds == b.commitIds
  {
    forall c | c in a.ingressIds ensures c in b.ingressIds {
      var k := a.ingressIds[c];
      assert k in a.ingress && b.ingress[k].identity.commitId == c;
    }
    forall c | c in b.ingressIds ensures c in a.ingressIds {
      var k := b.ingressIds[c];
      assert k in b.ingress && a.ingress[k].identity.commitId == c;
    }
    assert a.ingressIds.Keys == b.ingressIds.Keys;
  }

  lemma ReceiptsPreserved(env: Env, log: seq<Frame>, ids: Identities, index: IdentityIndex, newLog: seq<Frame>,
                          newIds: Identities)
    requires Compacts(env, log, ids, index) && Restored(newIds, index.identified, index.ingress)
    requires AllHeld(env, newLog, newIds)
    ensures newIds.identified.Keys == ids.identified.Keys && newIds.ingress.Keys == ids.ingress.Keys
    ensures forall k <- ids.ingress :: IngressPreserved(env, log, ids.ingress[k], newIds.ingress[k])
    ensures forall c <- ids.identified :: IdentifiedPreserved(env, log, c, ids.identified[c], newIds.identified[c])
  {
    hide IngressCompacted, IdentifiedCompacted, IngressPreserved, IdentifiedPreserved, IngressHeld, IdentifiedHeld;
    assert newIds.identified.Keys == ids.identified.Keys;
    assert newIds.ingress.Keys == ids.ingress.Keys;
    forall k <- ids.ingress ensures IngressPreserved(env, log, ids.ingress[k], newIds.ingress[k]) {
      var r :| r in index.ingress && KeyOf(r.identity) == k;
      assert newIds.ingress[k] == RestoreIngress(r);
      IngressPreservedOne(env, log, ids.ingress[k], newLog, r);
    }
    forall c <- ids.identified ensures IdentifiedPreserved(env, log, c, ids.identified[c], newIds.identified[c]) {
      var r :| r in index.identified && r.commitId == c;
      assert newIds.identified[c] == RestoreIdentified(r, newIds.identified[c].frameOffset);
      IdentifiedPreservedOne(env, log, c, ids.identified[c], newLog, r, newIds.identified[c].frameOffset);
    }
  }

  // ---- The live points ----

  // The points of an index laid end to end, series by series in any order of series.
  ghost predicate Arranges(index: Index, tail: seq<Point>) {
    forall s: u64 :: SeriesPoints(tail, s) == SeriesOf(index, s)
  }

  lemma SortedIsFixed(points: seq<Point>)
    ensures Sort(Sort(points, ValidKey), ValidKey) == Sort(points, ValidKey)
  {
    SortIsStable(points, ValidKey);
    SortDeterminedBySelect(Sort(points, ValidKey), Sort(points, ValidKey), ValidKey);
  }

  lemma SeriesPresent(live: seq<Point>, s: u64)
    ensures s in SeriesIds(live) <==> SeriesPoints(live, s) != []
  {
    if s in SeriesIds(live) {
      var p :| p in live && p.seriesId == s;
      SelectElements(live, SeriesKey, [s]);
      assert p in SeriesPoints(live, s);
    } else {
      SeriesPointsAbsent(live, s);
    }
  }

  // Laying out an index and indexing the result gives the index back.
  lemma ArrangedIndex(live: seq<Point>, tail: seq<Point>)
    requires Arranges(IndexOf(live), tail)
    ensures IndexOf(tail) == IndexOf(live) && |tail| == |live|
  {
    hide Sort, SeriesPoints;
    forall s: u64
      ensures SeriesPoints(tail, s) == Sort(SeriesPoints(live, s), ValidKey)
      ensures s in SeriesIds(tail) <==> s in SeriesIds(live)
      ensures Sort(SeriesPoints(tail, s), ValidKey) == Sort(SeriesPoints(live, s), ValidKey)
      ensures |SeriesPoints(tail, s)| == |SeriesPoints(live, s)|
    {
      SeriesOfIndexOf(live, s);
      SeriesPresent(live, s);
      SeriesPresent(tail, s);
      SortedIsFixed(SeriesPoints(live, s));
    }
    assert SeriesIds(tail) == SeriesIds(live);
    SameCounts(live, tail);
  }

  lemma SeriesOfConcat(a: seq<Point>, p: Point, b: seq<Point>, s: u64)
    ensures |SeriesPoints(a + [p] + b, s)| == |SeriesPoints(a + b, s)| + (if p.seriesId == s then 1 else 0)
  {
    SelectConcat(a + [p], b, SeriesKey, [s]);
    SelectConcat(a, b, SeriesKey, [s]);
    SeriesPointsSnoc(a, p, s);
  }

  lemma SomeSeries(b: seq<Point>)
    ensures b != [] ==> |SeriesPoints(b, b[0].seriesId)| > 0
  {
    if b != [] {
      assert b[0] in b && b[0].seriesId in SeriesIds(b);
      SeriesPresent(b, b[0].seriesId);
    }
  }

  // Point lists with equally many points in every series are equally long.
  lemma {:induction false} SameCounts(a: seq<Point>, b: seq<Point>)
    requires forall s: u64 :: |SeriesPoints(a, s)| == |SeriesPoints(b, s)|
    ensures |a| == |b|
  {
    hide SeriesPoints, SeriesKey;
    if a == [] {
      forall s: u64 ensures |SeriesPoints(a, s)| == 0 {
        SeriesPresent(a, s);
      }
      SomeSeries(b);
    } else {
      var front, p := a[..|a| - 1], a[|a| - 1];
      assert a == front + [p] + [];
      assert p in a && p.seriesId in SeriesIds(a);
      SeriesPresent(a, p.seriesId);
      SeriesPresent(b, p.seriesId);
      var j :| 0 <= j < |b| && b[j].seriesId == p.seriesId;
      var rest := b[..j] + b[j + 1..];
      assert b == b[..j] + [b[j]] + b[j + 1..];
      forall s: u64 ensures |SeriesPoints(front, s)| == |SeriesPoints(rest, s)| {
        SeriesOfConcat(front, p, [], s);
        assert front + [] == front;
        SeriesOfConcat(b[..j], b[j], b[j + 1..], s);
      }
      SameCounts(front, rest);
    }
  }

  // ---- The catalog ----

  lemma {:induction false} LogCatalogOk(env: Env, cfg: Config, seals: set<u64>, zones: set<string>, log: seq<Frame>)
    requires CatalogEnv(env, zones) && Replay(LogSemantics(env, cfg, seals), log).Some?
    ensures CatalogOk(zones, Replay(LogSemantics(env, cfg, seals), log).value.catalog)
  {
    hide ApplyFrame, CatalogOk, LogBytes;
    if log == [] {
      EmptyOk(zones);
    } else {
      var front, last := log[..|log| - 1], log[|log| - 1];
      LogCatalogOk(env, cfg, seals, zones, front);
      var st := Replay(LogSemantics(env, cfg, seals), front).value;
      assert LogSemantics(env, cfg, seals).apply(st, last, EndOffset(front))
          == ApplyFrame(env, cfg, seals, st, last, EndOffset(front));
      FrameCatalogOk(env, cfg, seals, zones, st, last, EndOffset(front));
    }
  }

  lemma FrameCatalogOk(env: Env, cfg: Config, seals: set<u64>, zones: set<string>, st: LogState, f: Frame, offset: nat)
    requires CatalogEnv(env, zones) && CatalogOk(zones, st.catalog)
    requires ApplyFrame(env, cfg, seals, st, f, offset).Accept?
    ensures CatalogOk(zones, ApplyFrame(env, cfg, seals, st, f, offset).value.catalog)
  {
    hide CatalogOk, ApplyRecords, DecodeTransaction, ApplyIdentityIndex, TagRefusal, ReadTag, TagBytes, RecordTag;
    if f.kind == KIND_TRANSACTION || f.kind == KIND_IDENTIFIED || f.kind == KIND_INGRESS {
      var tag := ReadTag(f.kind, f.payload);
      var rs := DecodeTransaction(env, f.payload[|TagBytes(tag)|..], f.items).value;
      ApplyKeeps(zones, st.catalog, rs, env.apply(st.catalog, rs).value);
    }
  }

  // ---- The whole reclaim ----

  /**
  Whatever compact log passes the scan, the state it loads has the same catalog, the same
  query index, and a receipt book with the same identifiers, cursors and watermarks whose
  receipts stand for the same bytes. The live points are those in memory, which a seal has cleared.
  */
  lemma CompactLogPreserves(env: Env, cfg: Config, seals: set<u64>, zones: set<string>, log: seq<Frame>, st: LogState,
                            snapshot: seq<Record>, index: IdentityIndex, chunks: seq<IdentityIndex>, tail: seq<Point>,
                            newLog: seq<Frame>, after: LogState)
    requires Lawful(env) && CatalogEnv(env, zones)
    requires Replay(LogSemantics(env, cfg, seals), log).Some? && Replay(LogSemantics(env, cfg, seals), log).value.ids == st.ids
    requires ApplyRecords(zones, EMPTY_CATALOG, snapshot) == Some(st.catalog) && PointsOf(snapshot) == []
    requires Compacts(env, log, st.ids, index)
    requires JoinIdentified(chunks) == index.identified && JoinIngress(chunks) == index.ingress
    requires Arranges(IndexOf(st.live), tail)
    requires CompactLog(env, snapshot, chunks, tail) == Some(newLog)
    requires Replay(LogSemantics(env, cfg, {}), newLog) == Some(after)
    ensures after.catalog == st.catalog
    ensures IndexOf(after.live) == IndexOf(st.live) && |after.live| == |st.live|
    ensures IdentitiesPreserved(env, log, st.ids, after.ids)
  {
    hide Replay, ApplyRecords, Compacts, Arranges, IdentitiesPreserved, EncodeCanonical, PointsOf, IndexOf, Lawful;
    var first := StandaloneFrames(env, snapshot).value;
    var ids := IndexFrames(env, chunks);
    var last := StandaloneFrames(env, TailRecords(tail)).value;
    assert newLog == (first + ids) + last;
    StandaloneReplay(env, cfg, {}, first + ids, TailRecords(tail), last);
    IndexReplay(env, cfg, {}, first, chunks);
    assert first == [] + first;
    StandaloneReplay(env, cfg, {}, [], snapshot, first);
    EmptyReplay(env, cfg);
    TailPoints(tail);
    var mid := Replay(LogSemantics(env, cfg, {}), first + ids).value;
    assert mid.live == [] + [];
    assert after.live == tail;
    ArrangedIndex(st.live, tail);
    assert mid.catalog == st.catalog by {
      EmptySnapshot(zones);
      assert env.apply(EMPTY_CATALOG, snapshot) == ApplyRecords(zones, EMPTY_CATALOG, snapshot);
    }
    if tail != [] {
      TailKeepsCatalog(zones, st.catalog, tail);
      assert env.apply(st.catalog, TailRecords(tail)) == ApplyRecords(zones, st.catalog, TailRecords(tail));
    }
    ReclaimedIds(env, cfg, seals, log, st.ids, index, newLog, after.ids);
  }

  lemma EmptySnapshot(zones: set<string>)
    ensures ApplyRecords(zones, EMPTY_CATALOG, []) == Some(EMPTY_CATALOG)
  {
  }

  lemma TailKeepsCatalog(zones: set<string>, c: Catalog, tail: seq<Point>)
    ensures ApplyRecords(zones, c, TailRecords(tail)).Some? ==> ApplyRecords(zones, c, TailRecords(tail)).value == c
  {
  }

  lemma EmptyReplay(env: Env, cfg: Config)
    ensures Replay(LogSemantics(env, cfg, {}), []) == Some(EMPTY_STATE)
  {
  }

  lemma TailPoints(tail: seq<Point>)
    ensures PointsOf(TailRecords(tail)) == tail
  {
    if tail != [] {
      assert [PointsRecord(tail)][..0] == [];
    }
  }

  lemma ReclaimedIds(env: Env, cfg: Config, seals: set<u64>, log: seq<Frame>, ids: Identities, index: IdentityIndex,
                     newLog: seq<Frame>, newIds: Identities)
    requires Replay(LogSemantics(env, cfg, seals), log).Some? && Replay(LogSemantics(env, cfg, seals), log).value.ids == ids
    requires Replay(LogSemantics(env, cfg, {}), newLog).Some?
    requires newIds == Replay(LogSemantics(env, cfg, {}), newLog).value.ids
    requires Compacts(env, log, ids, index) && Restored(newIds, index.identified, index.ingress)
    ensures IdentitiesPreserved(env, log, ids, newIds)
  {
    hide Replay, Compacts, Restored, AllHeld, AppliedOnce, Records, CursorsNamed, CommitIdsSplit, WatermarksGreatest,
      AppliedIn;
    LogBacksReceipts(env, cfg, {}, newLog);
    ReceiptsPreserved(env, log, ids, index, newLog, newIds);
    LogAppliesOnce(env, cfg, seals, log);
    LogAppliesOnce(env, cfg, {}, newLog);
    WatermarksFromCursors(newIds, ids);
    CommitIdsFromReceipts(newIds, ids);
  }

  // ---- Retries after a reclaim ----

  predicate AboutIdentity(e: Error) {
    e.IngressSourceSequenceConflict? || e.IngressCommitIdConflict? || e.IngressSequenceNotIncreasing?
  }

  /**
  An ingress call that named a known cursor, commit identifier or outdated sequence before
  the reclaim gets the same verdict after it, and the same receipt up to its durability.
  */
  lemma SameVerdict(s: Setting, before: Handle, t: Setting, after: Handle, identity: IngressIdentity, records: seq<Record>)
    requires s.env == t.env && s.cfg == t.cfg && PrefixLaw(s.env.crc)
    requires Good(s, before) && Good(t, after) && !before.journal.poisoned && !after.journal.poisoned
    requires IdentitiesPreserved(s.env, before.journal.log, before.memory.ids, after.memory.ids)
    ensures var d := DecideIngress(s.env, s.cfg, before, identity, records);
            var e := DecideIngress(t.env, t.cfg, after, identity, records);
            && (d.Answer? <==> e.Answer?)
            && (d.Answer? ==> e.commit == d.commit.(durable := e.commit.durable))
            && (d.Refuse? && AboutIdentity(d.error) ==> e == d)
            && !d.Poison? && !e.Poison?
  {
    hide EncodeCanonical, IngressMatches, HandleInv, StandsFor, PrefixLaw, IngressPreserved, IdentifiedPreserved;
    var ids, newIds := before.memory.ids, after.memory.ids;
    var k := KeyOf(identity);
    if k in ids.ingress && EncodeCanonical(s.env, records).Some? {
      var canonical := EncodeCanonical(s.env, records).value;
      SameMatch(s, before, t, after, k, canonical);
      SameReceipt(s.env, before.journal.log, ids.ingress[k], newIds.ingress[k]);
    }
  }

  lemma SameReceipt(env: Env, log: seq<Frame>, r: IngressReceipt, n: IngressReceipt)
    requires IngressPreserved(env, log, r, n)
    ensures n.identity == r.identity && n.points == r.points && n.records == r.records
    ensures n.frameOffset == r.frameOffset && n.bytesWritten == r.bytesWritten
  {
  }

  lemma SameMatch(s: Setting, before: Handle, t: Setting, after: Handle, k: IngressKey, candidate: Bytes)
    requires s.env == t.env && s.cfg == t.cfg && PrefixLaw(s.env.crc)
    requires Good(s, before) && Good(t, after) && !before.journal.poisoned && !after.journal.poisoned
    requires IdentitiesPreserved(s.env, before.journal.log, before.memory.ids, after.memory.ids)
    requires k in before.memory.ids.ingress && k in after.memory.ids.ingress
    ensures IngressMatches(s.env, before.journal.file, before.memory.ids.ingress[k], candidate)
         == IngressMatches(t.env, after.journal.file, after.memory.ids.ingress[k], candidate)
    ensures var m := IngressMatches(s.env, before.journal.file, before.memory.ids.ingress[k], candidate);
            m == Same || m == Different
  {
    hide HandleInv, PrefixLaw, IdentifiedPreserved;
    var r, n := before.memory.ids.ingress[k], after.memory.ids.ingress[k];
    assert IngressPreserved(s.env, before.journal.log, r, n);
    if n.compact.Some? {
      var original := n.compact.value;
      assert StandsFor(t.env, after.journal.log, n, original);
      hide StandsFor, IngressMatches;
      IngressAnswer(s, before, r, original, candidate);
      IngressAnswer(t, after, n, original, candidate);
    }
  }

  // ---- Retries under a commit identifier ----

  /**
  The same bytes are recognised. Others are refused, except that bytes colliding with those of
  a frame still in the log are taken for damage.
  */
  lemma IdentifiedAnswer(s: Setting, db: Handle, c: u128, r: IdentifiedReceipt, original: Bytes, candidate: Bytes)
    requires Good(s, db) && !db.journal.poisoned && IdentifiedStandsFor(s.env, db.journal.log, c, r, original)
    ensures |original| == r.payloadLen && s.env.crc(original) == r.payloadCrc
    ensures IdentifiedMatches(s.env, db.journal.file, r, candidate) ==
            if candidate == original then Same
            else if r.payloadOffset != 0 && |candidate| == |original| && s.env.crc(candidate) == s.env.crc(original) then Corrupt
            else Different
  {
    hide Replay, HandleInv, LogBytes, LogFile, RawHeader, FromLE;
    HandleFile(s.env, s.cfg, s.seals, db);
    if IdentifiedCompact(s.env, r) && r.compact == Some(original) {
    } else {
      hide IdentifiedMatches;
      var i: nat :| IdentifiedBacked(s.env, db.journal.log, i, c, r) && db.journal.log[i].payload == original;
      IdentifiedVerdict(s.env, s.cfg, db.journal.log, db.journal.file, i, c, r, candidate);
    }
  }

  // What a reclaim leaves of a receipt stands for the same bytes.
  lemma IdentifiedStillStands(s: Setting, db: Handle, newLog: seq<Frame>, c: u128, r: IdentifiedReceipt, n: IdentifiedReceipt,
                              original: Bytes)
    requires Good(s, db) && !db.journal.poisoned && IdentifiedPreserved(s.env, db.journal.log, c, r, n)
    requires IdentifiedStandsFor(s.env, db.journal.log, c, r, original)
    ensures n.payloadOffset == 0 && IdentifiedStandsFor(s.env, newLog, c, n, original)
  {
    hide HandleInv, IdentifiedMatches, LogBytes, FromLE;
    if n.compact.Some? {
      IdentifiedAnswer(s, db, c, r, original, original);
      IdentifiedAnswer(s, db, c, r, n.compact.value, original);
    }
  }

  // A known plain identifier is not one of an ordered commit.
  lemma PlainIdentifier(s: Setting, db: Handle, c: u128)
    requires Good(s, db)
    ensures c in db.memory.ids.identified ==> c in db.memory.ids.commitIds && c !in db.memory.ids.ingressIds
    ensures c in db.memory.ids.commitIds && c !in db.memory.ids.ingressIds ==> c in db.memory.ids.identified
  {
    hide Replay, AppliedOnce, Records, WatermarksGreatest, CursorsNamed, AppliedIn;
    LogAppliesOnce(s.env, s.cfg, s.seals, db.journal.log);
  }

  /**
  Repeating a commit identifier. The same bytes write nothing and are reported as a duplicate;
  others are a conflict. A collision with a frame still in the log poisons the handle instead.
  */
  lemma IdentifiedRetry(s: Setting, db: Handle, c: u128, records: seq<Record>, original: Bytes, io: Io)
    requires Good(s, db) && !db.journal.poisoned && EncodeCanonical(s.env, records).Some?
    requires c in db.memory.ids.identified
    requires IdentifiedStandsFor(s.env, db.journal.log, c, db.memory.ids.identified[c], original)
    ensures var t := Transaction(records, Some(c), None);
            var candidate := TagBytes(Identified(c)) + EncodeCanonical(s.env, records).value;
            Perform(s.env, s.cfg, db, CommitTransaction(t), io) ==
            if candidate == original then (db, Done(NothingWritten(db, true)))
            else if && db.memory.ids.identified[c].payloadOffset != 0
                    && |candidate| == |original| && s.env.crc(candidate) == s.env.crc(original)
            then (db.(journal := db.journal.(poisoned := true)), Fail(Corruption))
            else (db, Fail(IngressCommitIdConflict(c)))
  {
    hide EncodeCanonical, IdentifiedMatches, IngressMatches, HandleInv, IdentifiedStandsFor, TagBytes;
    PlainIdentifier(s, db, c);
    IdentifiedAnswer(s, db, c, db.memory.ids.identified[c], original,
                     TagBytes(Identified(c)) + EncodeCanonical(s.env, records).value);
  }

  /**
  A call under an identifier known before the reclaim gets the same verdict after it. Only a
  collision is answered differently: what was damage before is a conflict afterwards.
  */
  lemma SameIdentifiedVerdict(s: Setting, before: Handle, t: Setting, after: Handle, c: u128, records: seq<Record>)
    requires s.env == t.env && s.cfg == t.cfg
    requires Good(s, before) && Good(t, after) && !before.journal.poisoned && !after.journal.poisoned
    requires IdentitiesPreserved(s.env, before.journal.log, before.memory.ids, after.memory.ids)
    requires c in before.memory.ids.commitIds
    ensures var d := DecideIdentified(s.env, s.cfg, before, c, records);
            var e := DecideIdentified(t.env, t.cfg, after, c, records);
            && (d.Answer? <==> e.Answer?)
            && (d.Answer? ==> d == Answer(NothingWritten(before, true)) && e == Answer(NothingWritten(after, true)))
            && (d.Refuse? ==> e == d)
            && (d.Poison? ==> d == Poison(Corruption) && e == Refuse(IngressCommitIdConflict(c)))
  {
    hide EncodeCanonical, IdentifiedMatches, HandleInv, IngressPreserved, IdentifiedPreserved, TagBytes, NothingWritten;
    PlainIdentifier(s, before, c);
    PlainIdentifier(t, after, c);
    if c in before.memory.ids.identified && EncodeCanonical(s.env, records).Some? {
      SameIdentifiedMatch(s, before, t, after, c, TagBytes(Identified(c)) + EncodeCanonical(s.env, records).value);
    }
  }

  lemma SameIdentifiedMatch(s: Setting, before: Handle, t: Setting, after: Handle, c: u128, candidate: Bytes)
    requires s.env == t.env && s.cfg == t.cfg
    requires Good(s, before) && Good(t, after) && !before.journal.poisoned && !after.journal.poisoned
    requires IdentitiesPreserved(s.env, before.journal.log, before.memory.ids, after.memory.ids)
    requires c in before.memory.ids.identified && c in after.memory.ids.identified
    ensures var m := IdentifiedMatches(s.env, before.journal.file, before.memory.ids.identified[c], candidate);
            var n := IdentifiedMatches(t.env, after.journal.file, after.memory.ids.identified[c], candidate);
            (m == Same || m == Different || m == Corrupt) && n == if m == Corrupt then Different else m
  {
    hide HandleInv, IngressPreserved;
    var r, n := before.memory.ids.identified[c], after.memory.ids.identified[c];
    assert IdentifiedPreserved(s.env, before.journal.log, c, r, n);
    if n.compact.Some? {
      var original := n.compact.value;
      assert IdentifiedStandsFor(t.env, after.journal.log, c, n, original);
      hide IdentifiedStandsFor, IdentifiedMatches;
      IdentifiedAnswer(s, before, c, r, original, candidate);
      IdentifiedAnswer(t, after, c, n, original, candidate);
    }
  }

  // ---- The step a reclaim takes ----

  // A compact form of a log and what is in memory.
  ghost predicate IsCompact(env: Env, zones: set<string>, log: seq<Frame>, st: LogState, snapshot: seq<Record>,
                            index: IdentityIndex, chunks: seq<IdentityIndex>, tail: seq<Point>, newLog: seq<Frame>) {
    && ApplyRecords(zones, EMPTY_CATALOG, snapshot) == Some(st.catalog) && PointsOf(snapshot) == []
    && Compacts(env, log, st.ids, index)
    && JoinIdentified(chunks) == index.identified && JoinIngress(chunks) == index.ingress
    && Arranges(IndexOf(st.live), tail)
    && CompactLog(env, snapshot, chunks, tail) == Some(newLog)
  }

  ghost predicate CompactsTo(env: Env, zones: set<string>, log: seq<Frame>, st: LogState, newLog: seq<Frame>) {
    exists snapshot, index, chunks, tail :: IsCompact(env, zones, log, st, snapshot, index, chunks, tail, newLog)
  }

  // The handle over a log just written, scanned and synced.
  ghost predicate OpensOn(s: Setting, log: seq<Frame>, db: Handle) {
    && Sound(Meaning(s), log)
    && db.journal == Journal(LogFile(LogFormat(s.env, s.cfg), log), 0, false, log, None, |log|)
    && db.memory == Load(Replay(Meaning(s), log).value)
    && db.durable == db.memory.ids.lastSequences
  }

  // A flushed handle and the handle over a compact form of its log. The new log is scanned without seals.
  ghost predicate ReclaimsTo(s: Setting, zones: set<string>, before: Handle, after: Handle) {
    && !before.journal.poisoned && before.journal.synced == |before.journal.log|
    && Replay(Meaning(s), before.journal.log).Some?
    && CompactsTo(s.env, zones, before.journal.log, Replay(Meaning(s), before.journal.log).value, after.journal.log)
    && OpensOn(s.(seals := {}), after.journal.log, after)
  }
}

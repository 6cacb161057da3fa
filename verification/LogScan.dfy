/**
The scan of `active.wlog` as it runs: one pass over the file that updates the
recovered maps in place, used by recovery and by salvage.

Recovery reports damage as corruption and treats an incomplete last frame as a torn
tail. Salvage stops at the first frame it cannot accept, which may leave that frame
partly applied; only the byte, commit and point counts of a salvage are meaningful.
*/
module LogScan {
  import opened ByteCodec
  import opened StableSorting
  import opened Model
  import opened PointCodec
  import opened TransactionCodec
  import opened LogFrame
  import opened FramedLog
  import opened DurableLog
  import opened StorageLog
  import opened PointIndex

  datatype ScanReport =
    | BadHeader(why: HeaderFault)
    | Corrupt(offset: nat, fault: Fault)
    | Report(validatedBytes: nat, tailBytes: nat, stop: Stop)

  // Points grouped by series in append order, before they are sorted.
  function Grouped(live: seq<Point>): Index {
    map s | s in SeriesIds(live) :: SeriesPoints(live, s)
  }

  lemma GroupedSnoc(live: seq<Point>, p: Point)
    ensures Grouped(live + [p]) == Grouped(live)[p.seriesId := SeriesOf(Grouped(live), p.seriesId) + [p]]
  {
    hide SeriesPoints;
    var before, after := Grouped(live), Grouped(live + [p]);
    assert SeriesIds(live + [p]) == SeriesIds(live) + {p.seriesId};
    forall s | s in after ensures after[s] == before[p.seriesId := SeriesOf(before, p.seriesId) + [p]][s] {
      SeriesPointsSnoc(live, p, s);
      if s !in SeriesIds(live) {
        SeriesPointsAbsent(live, s);
      } else {
        assert SeriesPoints(live, s) + [] == SeriesPoints(live, s);
      }
    }
  }

  // The commit identifier a frame claims.
  function Claimed(tag: Tag): set<u128> {
    match tag
    case Untagged => {}
    case Identified(c) => {c}
    case Ingress(identity) => {identity.commitId}
  }

  // The receipt maps after the receipt of a frame, whose commit identifier is already claimed.
  function Recorded(env: Env, ids: Identities, tag: Tag, f: Frame, body: Bytes, pointCount: nat, recordCount: nat,
                    offset: nat): Identities
  {
    match tag
    case Untagged => ids
    case Identified(c) =>
      ids.(identified := ids.identified[c :=
        IdentifiedReceipt(offset + FRAME_HEADER_BYTES, |f.payload|, env.crc(f.payload), None,
                          offset, pointCount, recordCount, FRAME_HEADER_BYTES + |f.payload|)])
    case Ingress(identity) =>
      ids.(ingress := ids.ingress[KeyOf(identity) :=
             IngressReceipt(identity, offset + FRAME_HEADER_BYTES + INGRESS_IDENTITY_BYTES, |body|, env.crc(body), None,
                            offset, pointCount, recordCount, FRAME_HEADER_BYTES + |f.payload|)],
           ingressIds := ids.ingressIds[identity.commitId := KeyOf(identity)],
           lastSequences := ids.lastSequences[identity.sourceId := identity.sequence])
  }

  lemma RecordedTag(env: Env, ids: Identities, tag: Tag, f: Frame, records: seq<Record>, offset: nat)
    requires |TagBytes(tag)| <= |f.payload|
    ensures RecordTag(env, ids, tag, f.payload, records, offset)
         == Recorded(env, ids.(commitIds := ids.commitIds + Claimed(tag)), tag, f, f.payload[|TagBytes(tag)|..],
                     |PointsOf(records)|, |records|, offset)
  {
    hide TagBytes, PointsOf;
    assert ids.commitIds + {} == ids.commitIds;
  }

  class Scan {
    const env: Env
    const cfg: Config
    const publishedSeals: set<u64>

    var index: Index
    var catalog: Catalog
    var commitIds: set<u128>
    var identified: map<u128, IdentifiedReceipt>
    var ingress: map<IngressKey, IngressReceipt>
    var ingressIds: map<u128, IngressKey>
    var lastSequences: map<u128, u64>
    var commits: nat
    var points: nat
    var catalogRecords: nat
    var pendingReclaim: bool

    constructor (env: Env, cfg: Config, publishedSeals: set<u64>)
      ensures Holds(EMPTY_STATE)
      ensures this.env == env && this.cfg == cfg && this.publishedSeals == publishedSeals
    {
      this.env, this.cfg, this.publishedSeals := env, cfg, publishedSeals;
      index, catalog := map[], EMPTY_CATALOG;
      commitIds, identified, ingress, ingressIds, lastSequences := {}, map[], map[], map[], map[];
      commits, points, catalogRecords, pendingReclaim := 0, 0, 0, false;
    }

    function Ids(): Identities
      reads this
    {
      Identities(commitIds, identified, ingress, ingressIds, lastSequences)
    }

    // Everything but the point index agrees with a replayed state.
    ghost predicate Agrees(st: LogState)
      reads this
    {
      && catalog == st.catalog
      && Ids() == st.ids
      && commits == st.commits
      && points == |st.live|
      && catalogRecords == st.catalogRecords
      && pendingReclaim == st.pendingReclaim
    }

    ghost predicate Holds(st: LogState)
      reads this
    {
      Agrees(st) && index == Grouped(st.live)
    }

    method PushPoints(batch: seq<Point>, ghost live: seq<Point>)
      requires index == Grouped(live)
      modifies this`index
      ensures index == Grouped(live + batch)
    {
      assert live + batch[..0] == live;
      for i := 0 to |batch|
        invariant index == Grouped(live + batch[..i])
      {
        var p := batch[i];
        GroupedSnoc(live + batch[..i], p);
        assert live + batch[..i] + [p] == live + batch[..i + 1];
        index := index[p.seriesId := SeriesOf(index, p.seriesId) + [p]];
      }
      assert batch[..|batch|] == batch;
    }

    method ApplyLegacyPoints(f: Frame, offset: nat, ghost st: LogState) returns (fault: Option<Fault>)
      requires Holds(st) && f.kind == KIND_LEGACY_POINTS
      requires HeaderRefusal(cfg, f.kind, f.items, |f.payload|).None?
      modifies this
      ensures ApplyFrame(env, cfg, publishedSeals, st, f, offset)
           == if fault.Some? then Reject(fault.value)
              else Accept(st.(live := st.live + DecodePoints(f.payload), commits := st.commits + 1))
      ensures fault.Some? ==> Holds(st)
      ensures fault.None? ==> Holds(st.(live := st.live + DecodePoints(f.payload), commits := st.commits + 1))
    {
      hide ApplyFrame, DecodePoints, Grouped;
      LegacyOutcome(env, cfg, publishedSeals, st, f, offset);
      var recovered := DecodePoints(f.payload);
      if !PointsOk(recovered) {
        return Some(InvalidLegacyPoint);
      }
      PushPoints(recovered, st.live);
      points := points + f.items;
      commits := commits + 1;
      fault := None;
    }

    method ApplySealCheckpoint(f: Frame, offset: nat, ghost st: LogState) returns (fault: Option<Fault>)
      requires Holds(st) && f.kind == KIND_SEAL_CHECKPOINT
      requires HeaderRefusal(cfg, f.kind, f.items, |f.payload|).None?
      modifies this
      ensures match ApplyFrame(env, cfg, publishedSeals, st, f, offset)
              case Accept(next) => fault.None? && Holds(next)
              case Reject(x) => fault == Some(x) && Holds(st)
    {
      var generation := ReadU64(f.payload, 0);
      if generation == 0 || ReadU64(f.payload, 8) != points {
        return Some(SealCheckpointInvalid);
      }
      if generation in publishedSeals {
        index, points, pendingReclaim := map[], 0, true;
      }
      commits := commits + 1;
      fault := None;
    }

    // Receipts are recorded one by one, so a refused index may be half recorded.
    method ApplyCompactIndex(f: Frame, offset: nat, ghost st: LogState) returns (fault: Option<Fault>)
      requires Holds(st) && f.kind == KIND_IDENTITY_INDEX
      requires HeaderRefusal(cfg, f.kind, f.items, |f.payload|).None?
      modifies this
      ensures match ApplyFrame(env, cfg, publishedSeals, st, f, offset)
              case Accept(next) => fault.None? && Holds(next)
              case Reject(x) => fault == Some(x) && commits == old(commits) && points == old(points)
    {
      hide ApplyFrame, ApplyCompactIdentified, ApplyCompactIngress, Grouped, HeaderRefusal;
      IndexOutcome(env, cfg, publishedSeals, st, f, offset);
      var decoded := env.decodeIndex(f.payload);
      if decoded.None? {
        return Some(IdentityIndexInvalid);
      }
      var ok := RestoreIdentifiedReceipts(decoded.value.identified, offset);
      if ok {
        ok := RestoreIngressReceipts(decoded.value.ingress);
      }
      if !ok {
        return Some(IdentityIndexInvalid);
      }
      commits := commits + 1;
      fault := None;
    }

    method RestoreIdentifiedReceipts(rs: seq<CompactIdentified>, offset: nat) returns (ok: bool)
      modifies this`commitIds, this`identified
      ensures match ApplyCompactIdentified(env, old(Ids()), rs, offset)
              case None => !ok
              case Some(ids) => ok && Ids() == ids
    {
      for i := 0 to |rs|
        invariant ApplyCompactIdentified(env, old(Ids()), rs[..i], offset) == Some(Ids())
      {
        var r := rs[i];
        assert rs[..i + 1][..i] == rs[..i];
        if !CompactIdentifiedOk(env, r) || r.commitId in commitIds {
          IdentifiedRefusalSpreads(env, old(Ids()), rs, i + 1, offset);
          return false;
        }
        commitIds := commitIds + {r.commitId};
        identified := identified[r.commitId := RestoreIdentified(r, offset)];
      }
      assert rs[..|rs|] == rs;
      ok := true;
    }

    method RestoreIngressReceipts(rs: seq<CompactIngress>) returns (ok: bool)
      modifies this`commitIds, this`ingress, this`ingressIds, this`lastSequences
      ensures match ApplyCompactIngress(env, old(Ids()), rs)
              case None => !ok
              case Some(ids) => ok && Ids() == ids
    {
      for i := 0 to |rs|
        invariant ApplyCompactIngress(env, old(Ids()), rs[..i]) == Some(Ids())
      {
        var r := rs[i];
        assert rs[..i + 1][..i] == rs[..i];
        if !CompactIngressOk(env, r) || IngressRefusal(Ids(), r.identity).Some? {
          IngressRefusalSpreads(env, old(Ids()), rs, i + 1);
          return false;
        }
        commitIds := commitIds + {r.identity.commitId};
        ingress := ingress[KeyOf(r.identity) := RestoreIngress(r)];
        ingressIds := ingressIds[r.identity.commitId := KeyOf(r.identity)];
        lastSequences := lastSequences[r.identity.sourceId := r.identity.sequence];
      }
      assert rs[..|rs|] == rs;
      ok := true;
    }

    // Checks the identity a frame carries. A fresh commit identifier is recorded at once.
    method ClaimIdentity(tag: Tag) returns (fault: Option<Fault>)
      modifies this`commitIds
      ensures fault == TagRefusal(old(Ids()), tag)
      ensures fault.None? ==> commitIds == old(commitIds) + Claimed(tag)
    {
      match tag
      case Untagged => fault := None;
      case Identified(c) =>
        if c in commitIds {
          return Some(DuplicateCommitId);
        }
        commitIds := commitIds + {c};
        fault := None;
      case Ingress(identity) =>
        if identity.sourceId == 0 {
          return Some(InvalidIngressSequence);
        }
        if KeyOf(identity) in ingress {
          return Some(DuplicateIngressSequence);
        }
        if identity.commitId in commitIds {
          return Some(DuplicateCommitId);
        }
        commitIds := commitIds + {identity.commitId};
        if identity.sourceId in lastSequences && identity.sequence <= lastSequences[identity.sourceId] {
          return Some(InvalidIngressSequence);
        }
        fault := None;
    }

    // Decodes and checks a transaction; the catalog is replaced before the point limit is checked.
    method CheckTransaction(f: Frame, tag: Tag, ghost st: LogState) returns (fault: Option<Fault>, records: seq<Record>)
      requires |TagBytes(tag)| <= |f.payload| && catalog == st.catalog
      modifies this`catalog
      ensures match DecodeTransaction(env, f.payload[|TagBytes(tag)|..], f.items)
              case None => fault == Some(InvalidTransaction)
              case Some(rs) =>
                match env.apply(st.catalog, rs)
                case None => fault == Some(InvalidCatalogTransaction)
                case Some(next) =>
                  if |PointsOf(rs)| > cfg.maxBatchPoints then fault == Some(TransactionPointCountTooLarge)
                  else fault.None? && records == rs && catalog == next
    {
      hide DecodeTransaction, TagBytes, PointsOf;
      records := [];
      var decoded := DecodeTransaction(env, f.payload[|TagBytes(tag)|..], f.items);
      if decoded.None? {
        return Some(InvalidTransaction), [];
      }
      records := decoded.value;
      var applied := env.apply(catalog, records);
      if applied.None? {
        return Some(InvalidCatalogTransaction), [];
      }
      catalog := applied.value;
      var pointCount, _ := CountRecords(records);
      fault := if pointCount > cfg.maxBatchPoints then Some(TransactionPointCountTooLarge) else None;
    }

    method ApplyTransaction(f: Frame, offset: nat, ghost st: LogState) returns (fault: Option<Fault>)
      requires Holds(st)
      requires f.kind == KIND_TRANSACTION || f.kind == KIND_IDENTIFIED || f.kind == KIND_INGRESS
      requires HeaderRefusal(cfg, f.kind, f.items, |f.payload|).None?
      modifies this
      ensures match ApplyFrame(env, cfg, publishedSeals, st, f, offset)
              case Accept(next) => fault.None? && Holds(next)
              case Reject(x) => fault == Some(x) && commits == old(commits) && points == old(points)
    {
      hide DecodeTransaction, ReadTag, TagBytes, PointsOf, MetadataCount, Grouped, ApplyFrame, RecordTag, TagRefusal,
        Recorded, HeaderRefusal;
      TransactionOutcome(env, cfg, publishedSeals, st, f, offset);
      TagFits(cfg, f);
      var tag := ReadTag(f.kind, f.payload);
      fault := ClaimIdentity(tag);
      if fault.Some? {
        return;
      }
      var records: seq<Record>;
      fault, records := CheckTransaction(f, tag, st);
      if fault.Some? {
        return;
      }
      RecordedTag(env, st.ids, tag, f, records, offset);
      AddRecords(f, tag, records, offset, st);
    }

    method AddRecords(f: Frame, tag: Tag, records: seq<Record>, offset: nat, ghost st: LogState)
      requires |TagBytes(tag)| <= |f.payload|
      requires index == Grouped(st.live) && points == |st.live| && commits == st.commits
      requires catalogRecords == st.catalogRecords && pendingReclaim == st.pendingReclaim
      requires Ids() == st.ids.(commitIds := st.ids.commitIds + Claimed(tag))
      modifies this
      ensures catalog == old(catalog)
      ensures Ids() == Recorded(env, old(Ids()), tag, f, f.payload[|TagBytes(tag)|..], |PointsOf(records)|, |records|, offset)
      ensures index == Grouped(st.live + PointsOf(records)) && points == |st.live + PointsOf(records)|
      ensures commits == st.commits + 1 && catalogRecords == st.catalogRecords + MetadataCount(records)
      ensures pendingReclaim == st.pendingReclaim
    {
      hide TagBytes, PointsOf, MetadataCount, Grouped, Recorded;
      var pointCount, metadataCount := CountRecords(records);
      PushPoints(PointsOf(records), st.live);
      points := points + pointCount;
      catalogRecords := catalogRecords + metadataCount;
      RecordReceipt(tag, f, f.payload[|TagBytes(tag)|..], pointCount, |records|, offset);
      commits := commits + 1;
    }

    method RecordReceipt(tag: Tag, f: Frame, body: Bytes, pointCount: nat, recordCount: nat, offset: nat)
      modifies this`identified, this`ingress, this`ingressIds, this`lastSequences
      ensures Ids() == Recorded(env, old(Ids()), tag, f, body, pointCount, recordCount, offset)
    {
      match tag
      case Untagged =>
      case Identified(c) =>
        identified := identified[c :=
          IdentifiedReceipt(offset + FRAME_HEADER_BYTES, |f.payload|, env.crc(f.payload), None,
                            offset, pointCount, recordCount, FRAME_HEADER_BYTES + |f.payload|)];
      case Ingress(identity) =>
        ingress := ingress[KeyOf(identity) :=
          IngressReceipt(identity, offset + FRAME_HEADER_BYTES + INGRESS_IDENTITY_BYTES, |body|, env.crc(body), None,
                         offset, pointCount, recordCount, FRAME_HEADER_BYTES + |f.payload|)];
        ingressIds := ingressIds[identity.commitId := KeyOf(identity)];
        lastSequences := lastSequences[identity.sourceId := identity.sequence];
    }

    method ApplyOne(f: Frame, offset: nat, ghost st: LogState) returns (fault: Option<Fault>)
      requires Holds(st) && HeaderRefusal(cfg, f.kind, f.items, |f.payload|).None?
      modifies this
      ensures match ApplyFrame(env, cfg, publishedSeals, st, f, offset)
              case Accept(next) => fault.None? && Holds(next)
              case Reject(x) => fault == Some(x) && commits == old(commits) && points == old(points)
    {
      hide ApplyFrame, Grouped;
      assert f.kind <= KIND_IDENTITY_INDEX;
      if f.kind == KIND_LEGACY_POINTS {
        fault := ApplyLegacyPoints(f, offset, st);
      } else if f.kind == KIND_SEAL_CHECKPOINT {
        fault := ApplySealCheckpoint(f, offset, st);
      } else if f.kind == KIND_IDENTITY_INDEX {
        fault := ApplyCompactIndex(f, offset, st);
      } else {
        fault := ApplyTransaction(f, offset, st);
      }
    }

    /**
    The scan answers what the frame-by-frame reading of the file answers. Recovery
    fails on damage; otherwise, and in salvage, the counts are those of the accepted
    frames, and without damage everything recovered is what those frames load.
    */
    method Run(file: Bytes, salvage: bool) returns (r: ScanReport)
      requires Holds(EMPTY_STATE)
      modifies this
      ensures var sem := LogSemantics(env, cfg, publishedSeals);
              if !DatabaseHeaderOk(sem.format, file) then r == BadHeader(HeaderFaultOf(sem.format, file).value)
              else
                var found := ScanFile(sem, file);
                if found.stop.Damaged? && !salvage then r == Corrupt(found.offset, found.stop.fault)
                else
                  && r == Report(found.offset, if salvage then 0 else |file| - found.offset, found.stop)
                  && commits == found.state.commits && points == |found.state.live|
                  && (!found.stop.Damaged? ==> Agrees(found.state) && index == IndexOf(found.state.live))
    {
      hide ApplyFrame, ParseFrame, DatabaseHeaderOk, HeaderFaultOf, Grouped, IndexOf, FramedLog.Scan;
      var fault := HeaderFaultOf(LogFormat(env, cfg), file);
      if fault.Some? {
        return BadHeader(fault.value);
      }
      var offset, stop, st := ReadFrames(file);
      if stop.Damaged? && !salvage {
        return Corrupt(offset, stop.fault);
      }
      if !stop.Damaged? {
        index := SortSeries(index, st.live);
      }
      r := Report(offset, if salvage then 0 else |file| - offset, stop);
    }

    method ReadFrames(file: Bytes) returns (offset: nat, stop: Stop, ghost st: LogState)
      requires Holds(EMPTY_STATE) && DatabaseHeaderOk(LogFormat(env, cfg), file)
      modifies this
      ensures DATABASE_HEADER_BYTES <= offset <= |file|
      ensures ScanFile(LogSemantics(env, cfg, publishedSeals), file) == ScanOutcome(st, offset, stop)
      ensures commits == st.commits && points == |st.live|
      ensures !stop.Damaged? ==> Holds(st)
    {
      hide ApplyFrame, ParseFrame, DatabaseHeaderOk, Grouped, HeaderRefusal;
      ghost var sem := LogSemantics(env, cfg, publishedSeals);
      var format := LogFormat(env, cfg);
      HeaderFits(format, file);
      ghost var found := ScanFile(sem, file);
      st := EMPTY_STATE;
      offset := DATABASE_HEADER_BYTES;
      stop := CleanEof;
      while offset < |file| && stop.CleanEof?
        invariant DATABASE_HEADER_BYTES <= offset <= |file|
        invariant stop.CleanEof? ==> found == FramedLog.Scan(sem, file[offset..], offset, st)
        invariant !stop.CleanEof? ==> found == ScanOutcome(st, offset, stop)
        invariant commits == st.commits && points == |st.live|
        invariant !stop.Damaged? ==> Holds(st)
        decreases |file| - offset, if stop.CleanEof? then 1 else 0
      {
        var rest := file[offset..];
        match ParseFrame(format, rest)
        case Stopped(reason) =>
          assert reason != CleanEof;
          stop := reason;
        case Whole(f) =>
          assert sem.apply(st, f, offset) == ApplyFrame(env, cfg, publishedSeals, st, f, offset);
          var fault := ApplyOne(f, offset, st);
          if fault.Some? {
            stop := Damaged(fault.value);
          } else {
            st := ApplyFrame(env, cfg, publishedSeals, st, f, offset).value;
            assert rest[FrameBytes(f)..] == file[offset + FrameBytes(f)..];
            offset := offset + FrameBytes(f);
          }
      }
      assert offset == |file| ==> file[offset..] == [];
    }
  }

  // Every series is sorted once, at the end of the scan.
  method SortSeries(grouped: Index, ghost live: seq<Point>) returns (index: Index)
    requires grouped == Grouped(live)
    ensures index == IndexOf(live)
  {
    hide Sort, SeriesPoints;
    index := grouped;
    var pending := index.Keys;
    while pending != {}
      invariant pending <= index.Keys == SeriesIds(live)
      invariant forall s <- index ::
                  index[s] == if s in pending then SeriesPoints(live, s) else Sort(SeriesPoints(live, s), ValidKey)
      decreases |pending|
    {
      var s :| s in pending;
      index := index[s := Sort(index[s], ValidKey)];
      pending := pending - {s};
    }
  }

  // Batch lengths and metadata records, added up from the first record on.
  function Tally(records: seq<Record>): (nat, nat) {
    if records == [] then (0, 0)
    else
      var (points, metadata) := Tally(records[1..]);
      match records[0]
      case PointsRecord(batch) => (|batch| + points, metadata)
      case _ => (points, 1 + metadata)
  }

  lemma {:induction false} TallyCounts(records: seq<Record>)
    ensures Tally(records) == (|PointsOf(records)|, MetadataCount(records))
  {
    if records != [] {
      TallyCounts(records[1..]);
      RecordsSplit([records[0]], records[1..]);
      OneRecord(records[0]);
      assert records == [records[0]] + records[1..];
    }
  }

  // Both counters of the loop: the sum of the batch lengths, and the records that are not batches.
  method CountRecords(records: seq<Record>) returns (points: nat, metadata: nat)
    ensures (points, metadata) == Tally(records) == (|PointsOf(records)|, MetadataCount(records))
  {
    TallyCounts(records);
    points, metadata := 0, 0;
    for i := 0 to |records|
      invariant points == |PointsOf(records[..i])| && metadata == MetadataCount(records[..i])
    {
      assert records[..i + 1][..i] == records[..i];
      match records[i]
      case PointsRecord(batch) => points := points + |batch|;
      case _ => metadata := metadata + 1;
    }
    assert records[..|records|] == records;
  }

  lemma HeaderFits(format: Format, file: Bytes)
    requires DatabaseHeaderOk(format, file)
    ensures |file| >= DATABASE_HEADER_BYTES
  {
  }

  lemma LegacyOutcome(env: Env, cfg: Config, seals: set<u64>, st: LogState, f: Frame, offset: nat)
    requires f.kind == KIND_LEGACY_POINTS && HeaderRefusal(cfg, f.kind, f.items, |f.payload|).None?
    ensures ApplyFrame(env, cfg, seals, st, f, offset)
         == if PointsOk(DecodePoints(f.payload))
            then Accept(st.(live := st.live + DecodePoints(f.payload), commits := st.commits + 1))
            else Reject(InvalidLegacyPoint)
    ensures |DecodePoints(f.payload)| == f.items
  {
    hide DecodePoints;
  }

  lemma IndexOutcome(env: Env, cfg: Config, seals: set<u64>, st: LogState, f: Frame, offset: nat)
    requires f.kind == KIND_IDENTITY_INDEX && HeaderRefusal(cfg, f.kind, f.items, |f.payload|).None?
    ensures ApplyFrame(env, cfg, seals, st, f, offset)
         == match ApplyIdentityIndex(env, st.ids, f.payload, offset)
            case None => Reject(IdentityIndexInvalid)
            case Some(ids) => Accept(st.(ids := ids, commits := st.commits + 1))
  {
    hide ApplyIdentityIndex;
  }

  lemma TagFits(cfg: Config, f: Frame)
    requires HeaderRefusal(cfg, f.kind, f.items, |f.payload|).None?
    ensures f.kind == KIND_IDENTIFIED ==> |f.payload| >= COMMIT_ID_BYTES
    ensures f.kind == KIND_INGRESS ==> |f.payload| >= INGRESS_IDENTITY_BYTES
  {
  }

  lemma TransactionOutcome(env: Env, cfg: Config, seals: set<u64>, st: LogState, f: Frame, offset: nat)
    requires f.kind == KIND_TRANSACTION || f.kind == KIND_IDENTIFIED || f.kind == KIND_INGRESS
    requires HeaderRefusal(cfg, f.kind, f.items, |f.payload|).None?
    ensures ApplyFrame(env, cfg, seals, st, f, offset) == ApplyTransactionFrame(env, cfg, st, f, offset)
  {
    hide ApplyTransactionFrame;
  }

  lemma {:induction false} IdentifiedRefusalSpreads(env: Env, ids: Identities, rs: seq<CompactIdentified>, n: nat, offset: nat)
    requires n <= |rs| && ApplyCompactIdentified(env, ids, rs[..n], offset).None?
    ensures ApplyCompactIdentified(env, ids, rs, offset).None?
    decreases |rs|
  {
    hide CompactIdentifiedOk;
    if n == |rs| {
      assert rs[..n] == rs;
    } else {
      assert rs[..|rs| - 1][..n] == rs[..n];
      IdentifiedRefusalSpreads(env, ids, rs[..|rs| - 1], n, offset);
    }
  }

  lemma {:induction false} IngressRefusalSpreads(env: Env, ids: Identities, rs: seq<CompactIngress>, n: nat)
    requires n <= |rs| && ApplyCompactIngress(env, ids, rs[..n]).None?
    ensures ApplyCompactIngress(env, ids, rs).None?
    decreases |rs|
  {
    hide CompactIngressOk;
    if n == |rs| {
      assert rs[..n] == rs;
    } else {
      assert rs[..|rs| - 1][..n] == rs[..n];
      IngressRefusalSpreads(env, ids, rs[..|rs| - 1], n);
    }
  }

  /**
  Recovery and salvage agree on every file with a valid header: they accept the same
  frames, salvage calls clean or torn what recovery accepts, and the salvaged prefix on
  its own recovers without a tail, with the same counts.
  */
  lemma SalvagedPrefixRecovers(env: Env, cfg: Config, seals: set<u64>, file: Bytes)
    requires DatabaseHeaderOk(LogFormat(env, cfg), file)
    ensures var sem := LogSemantics(env, cfg, seals);
            var found := ScanFile(sem, file);
            && DatabaseHeaderOk(sem.format, file[..found.offset])
            && ScanFile(sem, file[..found.offset]) == ScanOutcome(found.state, found.offset, CleanEof)
  {
    ScannedPrefixIsClean(LogSemantics(env, cfg, seals), file);
  }
}

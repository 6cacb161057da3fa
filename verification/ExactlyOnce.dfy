/**
Every identity in a log is applied once.

`AppliedIn` lists the identities of a log in log order: those of transaction
frames, and those a compacted log keeps in its identity index. Whatever log the
reader accepts, no commit identifier occurs twice in that list and each source's
sequences strictly increase along it (`LogAppliesOnce`).
*/
module ExactlyOnce {
  import opened ByteCodec
  import opened Model
  import opened TransactionCodec
  import opened LogFrame
  import opened FramedLog
  import opened StorageLog

  datatype Applied = Applied(commitId: u128, cursor: Option<IngressKey>)

  function AppliedByTag(tag: Tag): seq<Applied> {
    match tag
    case Untagged => []
    case Identified(commitId) => [Applied(commitId, None)]
    case Ingress(identity) => [Applied(identity.commitId, Some(KeyOf(identity)))]
  }

  function AppliedIdentified(rs: seq<CompactIdentified>): seq<Applied> {
    seq(|rs|, i requires 0 <= i < |rs| => Applied(rs[i].commitId, None))
  }

  function AppliedIngress(rs: seq<CompactIngress>): seq<Applied> {
    seq(|rs|, i requires 0 <= i < |rs| => Applied(rs[i].identity.commitId, Some(KeyOf(rs[i].identity))))
  }

  function AppliedBy(env: Env, f: Frame): seq<Applied> {
    if f.kind == KIND_IDENTITY_INDEX then
      match env.decodeIndex(f.payload)
      case None => []
      case Some(index) => AppliedIdentified(index.identified) + AppliedIngress(index.ingress)
    else if f.kind == KIND_IDENTIFIED && |f.payload| < COMMIT_ID_BYTES then []
    else if f.kind == KIND_INGRESS && |f.payload| < INGRESS_IDENTITY_BYTES then []
    else AppliedByTag(ReadTag(f.kind, f.payload))
  }

  function AppliedIn(env: Env, log: seq<Frame>): seq<Applied> {
    if log == [] then [] else AppliedIn(env, log[..|log| - 1]) + AppliedBy(env, log[|log| - 1])
  }

  // ---- What one receipt book knows ----

  // The commit identifiers are the identified and the ingress ones, and none is both.
  ghost predicate CommitIdsSplit(ids: Identities) {
    && ids.commitIds == ids.identified.Keys + ids.ingressIds.Keys
    && ids.identified.Keys !! ids.ingressIds.Keys
  }

  // Source cursors and ingress commit identifiers name each other.
  ghost predicate CursorsNamed(ids: Identities) {
    && (forall k <- ids.ingress ::
          && KeyOf(ids.ingress[k].identity) == k
          && k.sourceId != 0
          && ids.ingress[k].identity.commitId in ids.ingressIds
          && ids.ingressIds[ids.ingress[k].identity.commitId] == k)
    && (forall c <- ids.ingressIds ::
          && ids.ingressIds[c] in ids.ingress
          && ids.ingress[ids.ingressIds[c]].identity.commitId == c)
  }

  // The watermark of a source is its greatest sequence.
  ghost predicate WatermarksGreatest(ids: Identities) {
    && (forall k <- ids.ingress :: k.sourceId in ids.lastSequences && k.sequence <= ids.lastSequences[k.sourceId])
    && (forall s <- ids.lastSequences :: IngressKey(s, ids.lastSequences[s]) in ids.ingress)
  }

  ghost predicate IdsOk(ids: Identities) {
    CommitIdsSplit(ids) && CursorsNamed(ids) && WatermarksGreatest(ids)
  }

  // No identity twice, sources in increasing order.
  ghost predicate AppliedOnce(applied: seq<Applied>) {
    && (forall i, j :: 0 <= i < j < |applied| ==> applied[i].commitId != applied[j].commitId)
    && (forall i, j ::
          && 0 <= i < j < |applied|
          && applied[i].cursor.Some? && applied[j].cursor.Some?
          && applied[i].cursor.value.sourceId == applied[j].cursor.value.sourceId
          ==> applied[i].cursor.value.sequence < applied[j].cursor.value.sequence)
  }

  // The receipt book holds exactly the identities of the list.
  ghost predicate Records(ids: Identities, applied: seq<Applied>) {
    && (forall c :: c in ids.commitIds <==> exists i :: 0 <= i < |applied| && applied[i].commitId == c)
    && (forall i :: 0 <= i < |applied| && applied[i].cursor.Some? ==> applied[i].cursor.value in ids.ingress)
    && (forall i :: 0 <= i < |applied| && applied[i].cursor.None? ==> applied[i].commitId in ids.identified)
    && (forall k <- ids.ingress :: Applied(ids.ingress[k].identity.commitId, Some(k)) in applied)
  }

  ghost predicate Kept(ids: Identities, applied: seq<Applied>) {
    IdsOk(ids) && AppliedOnce(applied) && Records(ids, applied)
  }

  // ---- One more identity ----

  lemma AppliedOnceSnoc(applied: seq<Applied>, x: Applied)
    requires AppliedOnce(applied)
    requires forall i :: 0 <= i < |applied| ==> applied[i].commitId != x.commitId
    requires forall i :: 0 <= i < |applied| && applied[i].cursor.Some? && x.cursor.Some?
                         && applied[i].cursor.value.sourceId == x.cursor.value.sourceId
                         ==> applied[i].cursor.value.sequence < x.cursor.value.sequence
    ensures AppliedOnce(applied + [x])
  {
  }

  lemma RecordsSnoc(ids: Identities, after: Identities, applied: seq<Applied>, x: Applied)
    requires Records(ids, applied)
    requires after.commitIds == ids.commitIds + {x.commitId}
    requires ids.ingress.Keys <= after.ingress.Keys && ids.identified.Keys <= after.identified.Keys
    requires if x.cursor.Some? then x.cursor.value in after.ingress else x.commitId in after.identified
    requires forall k <- after.ingress ::
               || (k in ids.ingress && after.ingress[k] == ids.ingress[k])
               || x == Applied(after.ingress[k].identity.commitId, Some(k))
    ensures Records(after, applied + [x])
  {
    var more := applied + [x];
    forall c ensures c in after.commitIds <==> exists i :: 0 <= i < |more| && more[i].commitId == c {
      if c == x.commitId {
        assert more[|applied|].commitId == c;
      } else if c in ids.commitIds {
        var i :| 0 <= i < |applied| && applied[i].commitId == c;
        assert more[i].commitId == c;
      }
    }
  }

  lemma IdentifiedKept(ids: Identities, applied: seq<Applied>, commitId: u128, receipt: IdentifiedReceipt)
    requires Kept(ids, applied) && commitId !in ids.commitIds
    ensures Kept(RecordIdentified(ids, commitId, receipt), applied + [Applied(commitId, None)])
  {
    hide IdsOk, AppliedOnce, Records;
    var after, x := RecordIdentified(ids, commitId, receipt), Applied(commitId, None);
    IdentifiedIdsOk(ids, commitId, receipt);
    UnknownIsNew(ids, applied, commitId);
    AppliedOnceSnoc(applied, x);
    RecordsSnoc(ids, after, applied, x);
  }

  lemma IdentifiedIdsOk(ids: Identities, commitId: u128, receipt: IdentifiedReceipt)
    requires IdsOk(ids) && commitId !in ids.commitIds
    ensures IdsOk(RecordIdentified(ids, commitId, receipt))
  {
    var after := RecordIdentified(ids, commitId, receipt);
    assert CommitIdsSplit(after) by { hide CursorsNamed, WatermarksGreatest; }
    assert after.ingress == ids.ingress && after.ingressIds == ids.ingressIds;
  }

  lemma UnknownIsNew(ids: Identities, applied: seq<Applied>, commitId: u128)
    requires Records(ids, applied) && commitId !in ids.commitIds
    ensures forall i :: 0 <= i < |applied| ==> applied[i].commitId != commitId
  {
  }

  lemma IngressKept(ids: Identities, applied: seq<Applied>, receipt: IngressReceipt)
    requires Kept(ids, applied) && IngressRefusal(ids, receipt.identity).None?
    ensures Kept(RecordIngress(ids, receipt),
                 applied + [Applied(receipt.identity.commitId, Some(KeyOf(receipt.identity)))])
  {
    hide IdsOk, AppliedOnce, Records;
    var after, x := RecordIngress(ids, receipt), Applied(receipt.identity.commitId, Some(KeyOf(receipt.identity)));
    IngressIdsOk(ids, receipt);
    IngressFollows(ids, applied, receipt.identity);
    AppliedOnceSnoc(applied, x);
    RecordsSnoc(ids, after, applied, x);
  }

  // An ingress identity the log admits is new, and later than every sequence of its source.
  lemma IngressFollows(ids: Identities, applied: seq<Applied>, identity: IngressIdentity)
    requires Kept(ids, applied) && IngressRefusal(ids, identity).None?
    ensures forall i :: 0 <= i < |applied| ==> applied[i].commitId != identity.commitId
    ensures forall i :: 0 <= i < |applied| && applied[i].cursor.Some?
                        && applied[i].cursor.value.sourceId == identity.sourceId
                        ==> applied[i].cursor.value.sequence < identity.sequence
  {
    hide IdsOk, AppliedOnce, Records;
    UnknownIsNew(ids, applied, identity.commitId);
    forall i | 0 <= i < |applied| && applied[i].cursor.Some?
               && applied[i].cursor.value.sourceId == identity.sourceId
      ensures applied[i].cursor.value.sequence < identity.sequence
    {
      var k := applied[i].cursor.value;
      AppliedIsRecorded(ids, applied, k);
      RecordedIsBelow(ids, applied, k);
    }
  }

  lemma IngressIdsOk(ids: Identities, receipt: IngressReceipt)
    requires IdsOk(ids) && IngressRefusal(ids, receipt.identity).None?
    ensures IdsOk(RecordIngress(ids, receipt))
  {
    hide CommitIdsSplit, CursorsNamed, WatermarksGreatest, RecordIngress;
    IngressSplit(ids, receipt);
    IngressNamed(ids, receipt);
    IngressWatermark(ids, receipt);
  }

  lemma IngressSplit(ids: Identities, receipt: IngressReceipt)
    requires CommitIdsSplit(ids) && IngressRefusal(ids, receipt.identity).None?
    ensures CommitIdsSplit(RecordIngress(ids, receipt))
  {
    var after := RecordIngress(ids, receipt);
    assert after.ingressIds.Keys == ids.ingressIds.Keys + {receipt.identity.commitId};
  }

  lemma IngressNamed(ids: Identities, receipt: IngressReceipt)
    requires CommitIdsSplit(ids) && CursorsNamed(ids) && IngressRefusal(ids, receipt.identity).None?
    ensures CursorsNamed(RecordIngress(ids, receipt))
  {
    var after := RecordIngress(ids, receipt);
    var c0, k0 := receipt.identity.commitId, KeyOf(receipt.identity);
    assert c0 !in ids.ingressIds && k0 !in ids.ingress && k0.sourceId != 0;
    var ingress, ingressIds := after.ingress, after.ingressIds;
    assert ingress == ids.ingress[k0 := receipt] && ingressIds == ids.ingressIds[c0 := k0];
    hide CommitIdsSplit, IngressRefusal, RecordIngress;
    forall k <- ingress
      ensures KeyOf(ingress[k].identity) == k && k.sourceId != 0
      ensures ingress[k].identity.commitId in ingressIds && ingressIds[ingress[k].identity.commitId] == k
    {
      if k != k0 { assert k in ids.ingress; }
    }
    forall c <- ingressIds
      ensures ingressIds[c] in ingress && ingress[ingressIds[c]].identity.commitId == c
    {
      if c != c0 { assert c in ids.ingressIds; }
    }
  }

  lemma IngressWatermark(ids: Identities, receipt: IngressReceipt)
    requires WatermarksGreatest(ids) && IngressRefusal(ids, receipt.identity).None?
    ensures WatermarksGreatest(RecordIngress(ids, receipt))
  {
    var after := RecordIngress(ids, receipt);
    var k0 := KeyOf(receipt.identity);
    var s0 := k0.sourceId;
    assert after.ingress.Keys == ids.ingress.Keys + {k0};
    assert after.lastSequences == ids.lastSequences[s0 := k0.sequence];
    assert s0 in ids.lastSequences ==> ids.lastSequences[s0] < k0.sequence;
    hide IngressRefusal, RecordIngress;
    forall s <- after.lastSequences ensures IngressKey(s, after.lastSequences[s]) in after.ingress.Keys {
      if s != s0 { assert IngressKey(s, ids.lastSequences[s]) in ids.ingress; }
    }
    forall k <- after.ingress
      ensures k.sourceId in after.lastSequences && k.sequence <= after.lastSequences[k.sourceId]
    {
      if k != k0 { assert k in ids.ingress; }
    }
  }

  lemma TagKept(env: Env, ids: Identities, applied: seq<Applied>, tag: Tag, payload: Bytes, records: seq<Record>, offset: nat)
    requires |TagBytes(tag)| <= |payload|
    requires Kept(ids, applied) && TagRefusal(ids, tag).None?
    ensures Kept(RecordTag(env, ids, tag, payload, records, offset), applied + AppliedByTag(tag))
  {
    hide Kept;
    match tag
    case Untagged => assert applied + AppliedByTag(tag) == applied;
    case Identified(commitId) =>
      IdentifiedKept(ids, applied, commitId, RecordTag(env, ids, tag, payload, records, offset).identified[commitId]);
    case Ingress(identity) =>
      IngressKept(ids, applied, RecordTag(env, ids, tag, payload, records, offset).ingress[KeyOf(identity)]);
  }

  // ---- A compact index ----

  lemma {:induction false} CompactIdentifiedKept(env: Env, ids: Identities, applied: seq<Applied>,
                                                 rs: seq<CompactIdentified>, offset: nat)
    requires Kept(ids, applied) && ApplyCompactIdentified(env, ids, rs, offset).Some?
    ensures Kept(ApplyCompactIdentified(env, ids, rs, offset).value, applied + AppliedIdentified(rs))
  {
    hide Kept, RecordIdentified, CompactIdentifiedOk;
    if rs == [] {
      assert applied + AppliedIdentified(rs) == applied;
    } else {
      var front, last := rs[..|rs| - 1], rs[|rs| - 1];
      CompactIdentifiedKept(env, ids, applied, front, offset);
      var before := ApplyCompactIdentified(env, ids, front, offset).value;
      IdentifiedKept(before, applied + AppliedIdentified(front), last.commitId, RestoreIdentified(last, offset));
      assert applied + AppliedIdentified(rs) == applied + AppliedIdentified(front) + [Applied(last.commitId, None)];
    }
  }

  lemma {:induction false} CompactIngressKept(env: Env, ids: Identities, applied: seq<Applied>, rs: seq<CompactIngress>)
    requires Kept(ids, applied) && ApplyCompactIngress(env, ids, rs).Some?
    ensures Kept(ApplyCompactIngress(env, ids, rs).value, applied + AppliedIngress(rs))
  {
    hide Kept, RecordIngress, CompactIngressOk, IngressRefusal;
    if rs == [] {
      assert applied + AppliedIngress(rs) == applied;
    } else {
      var front, last := rs[..|rs| - 1], rs[|rs| - 1];
      CompactIngressKept(env, ids, applied, front);
      var before := ApplyCompactIngress(env, ids, front).value;
      IngressKept(before, applied + AppliedIngress(front), RestoreIngress(last));
      assert applied + AppliedIngress(rs)
          == applied + AppliedIngress(front) + [Applied(last.identity.commitId, Some(KeyOf(last.identity)))];
    }
  }

  // ---- A whole log ----

  lemma FrameKept(env: Env, cfg: Config, seals: set<u64>, st: LogState, applied: seq<Applied>, f: Frame, offset: nat)
    requires Kept(st.ids, applied)
    requires ApplyFrame(env, cfg, seals, st, f, offset).Accept?
    ensures Kept(ApplyFrame(env, cfg, seals, st, f, offset).value.ids, applied + AppliedBy(env, f))
  {
    hide Kept, RecordTag, DecodeTransaction, ApplyCompactIdentified, ApplyCompactIngress, TagRefusal, ReadTag, TagBytes;
    if f.kind == KIND_IDENTITY_INDEX {
      var index := env.decodeIndex(f.payload).value;
      CompactIdentifiedKept(env, st.ids, applied, index.identified, offset);
      var mid := ApplyCompactIdentified(env, st.ids, index.identified, offset).value;
      CompactIngressKept(env, mid, applied + AppliedIdentified(index.identified), index.ingress);
      assert applied + (AppliedIdentified(index.identified) + AppliedIngress(index.ingress))
          == applied + AppliedIdentified(index.identified) + AppliedIngress(index.ingress);
    } else if f.kind == KIND_LEGACY_POINTS || f.kind == KIND_SEAL_CHECKPOINT {
      assert AppliedBy(env, f) == [] by { UntaggedKind(f); }
      assert applied + [] == applied;
    } else {
      var tag := ReadTag(f.kind, f.payload);
      var records := DecodeTransaction(env, f.payload[|TagBytes(tag)|..], f.items).value;
      TagKept(env, st.ids, applied, tag, f.payload, records, offset);
    }
  }

  lemma UntaggedKind(f: Frame)
    requires f.kind != KIND_IDENTIFIED && f.kind != KIND_INGRESS
    ensures ReadTag(f.kind, f.payload) == Untagged
  {
  }

  /**
  Exactly once: in every log the reader accepts, no commit identifier is applied
  twice, each source's sequences strictly increase in log order, and the receipt
  book holds exactly the identities applied.
  */
  lemma {:induction false} LogAppliesOnce(env: Env, cfg: Config, seals: set<u64>, log: seq<Frame>)
    requires Replay(LogSemantics(env, cfg, seals), log).Some?
    ensures Kept(Replay(LogSemantics(env, cfg, seals), log).value.ids, AppliedIn(env, log))
  {
    hide ApplyFrame, AppliedBy;
    if log == [] {
    } else {
      var front, last := log[..|log| - 1], log[|log| - 1];
      LogAppliesOnce(env, cfg, seals, front);
      var st := Replay(LogSemantics(env, cfg, seals), front).value;
      assert LogSemantics(env, cfg, seals).apply(st, last, EndOffset(front))
          == ApplyFrame(env, cfg, seals, st, last, EndOffset(front));
      FrameKept(env, cfg, seals, st, AppliedIn(env, front), last, EndOffset(front));
    }
  }

  // ---- Nothing recorded is ever forgotten or changed ----

  ghost predicate Extends(a: Identities, b: Identities) {
    && a.commitIds <= b.commitIds
    && (forall c <- a.identified :: c in b.identified && b.identified[c] == a.identified[c])
    && (forall k <- a.ingress :: k in b.ingress && b.ingress[k] == a.ingress[k])
  }

  lemma RecordExtends(ids: Identities, c: u128, r: IdentifiedReceipt, s: IngressReceipt)
    requires CommitIdsSplit(ids)
    ensures c !in ids.commitIds ==> Extends(ids, RecordIdentified(ids, c, r))
    ensures IngressRefusal(ids, s.identity).None? ==> Extends(ids, RecordIngress(ids, s))
  {
  }

  lemma {:induction false} CompactIdentifiedExtends(env: Env, ids: Identities, applied: seq<Applied>,
                                                    rs: seq<CompactIdentified>, offset: nat)
    requires Kept(ids, applied) && ApplyCompactIdentified(env, ids, rs, offset).Some?
    ensures Extends(ids, ApplyCompactIdentified(env, ids, rs, offset).value)
  {
    hide RecordIdentified, CompactIdentifiedOk, CursorsNamed, WatermarksGreatest, AppliedOnce, Records, CommitIdsSplit;
    if rs != [] {
      var front, last := rs[..|rs| - 1], rs[|rs| - 1];
      CompactIdentifiedExtends(env, ids, applied, front, offset);
      CompactIdentifiedKept(env, ids, applied, front, offset);
      var before := ApplyCompactIdentified(env, ids, front, offset).value;
      var any: IngressReceipt :| true;
      RecordExtends(before, last.commitId, RestoreIdentified(last, offset), any);
    }
  }

  lemma {:induction false} CompactIngressExtends(env: Env, ids: Identities, applied: seq<Applied>, rs: seq<CompactIngress>)
    requires Kept(ids, applied) && ApplyCompactIngress(env, ids, rs).Some?
    ensures Extends(ids, ApplyCompactIngress(env, ids, rs).value)
  {
    hide RecordIngress, CompactIngressOk, IngressRefusal, CursorsNamed, WatermarksGreatest, AppliedOnce, Records,
      CommitIdsSplit;
    if rs != [] {
      var front, last := rs[..|rs| - 1], rs[|rs| - 1];
      CompactIngressExtends(env, ids, applied, front);
      CompactIngressKept(env, ids, applied, front);
      var before := ApplyCompactIngress(env, ids, front).value;
      var any: IdentifiedReceipt :| true;
      RecordExtends(before, 0, any, RestoreIngress(last));
    }
  }

  lemma TagExtends(env: Env, ids: Identities, tag: Tag, payload: Bytes, records: seq<Record>, offset: nat)
    requires |TagBytes(tag)| <= |payload|
    requires IdsOk(ids) && TagRefusal(ids, tag).None?
    ensures Extends(ids, RecordTag(env, ids, tag, payload, records, offset))
  {
  }

  lemma FrameExtends(env: Env, cfg: Config, seals: set<u64>, st: LogState, applied: seq<Applied>, f: Frame, offset: nat)
    requires Kept(st.ids, applied)
    requires ApplyFrame(env, cfg, seals, st, f, offset).Accept?
    ensures Extends(st.ids, ApplyFrame(env, cfg, seals, st, f, offset).value.ids)
  {
    hide RecordTag, DecodeTransaction, ApplyCompactIdentified, ApplyCompactIngress, TagRefusal, ReadTag, TagBytes,
      CursorsNamed, WatermarksGreatest, AppliedOnce, Records, CommitIdsSplit;
    if f.kind == KIND_IDENTITY_INDEX {
      var index := env.decodeIndex(f.payload).value;
      CompactIdentifiedExtends(env, st.ids, applied, index.identified, offset);
      CompactIdentifiedKept(env, st.ids, applied, index.identified, offset);
      var mid := ApplyCompactIdentified(env, st.ids, index.identified, offset).value;
      CompactIngressExtends(env, mid, applied + AppliedIdentified(index.identified), index.ingress);
    } else if f.kind != KIND_LEGACY_POINTS && f.kind != KIND_SEAL_CHECKPOINT {
      var tag := ReadTag(f.kind, f.payload);
      var records := DecodeTransaction(env, f.payload[|TagBytes(tag)|..], f.items).value;
      TagExtends(env, st.ids, tag, f.payload, records, offset);
    }
  }

  // A longer log knows every identity of a shorter one, with the same receipt and in the same order.
  lemma {:induction false} LogExtends(env: Env, cfg: Config, seals: set<u64>, log: seq<Frame>, n: nat)
    requires n <= |log|
    requires Replay(LogSemantics(env, cfg, seals), log).Some?
    requires Replay(LogSemantics(env, cfg, seals), log[..n]).Some?
    ensures Extends(Replay(LogSemantics(env, cfg, seals), log[..n]).value.ids,
                    Replay(LogSemantics(env, cfg, seals), log).value.ids)
    ensures AppliedIn(env, log[..n]) <= AppliedIn(env, log)
    decreases |log|
  {
    hide ApplyFrame, AppliedBy, Kept, Extends;
    if n == |log| {
      assert log[..n] == log;
      assert Extends(Replay(LogSemantics(env, cfg, seals), log).value.ids,
                     Replay(LogSemantics(env, cfg, seals), log).value.ids) by { ExtendsSelf(env, cfg, seals, log); }
    } else {
      var front, last := log[..|log| - 1], log[|log| - 1];
      assert front[..n] == log[..n];
      LogExtends(env, cfg, seals, front, n);
      LogAppliesOnce(env, cfg, seals, front);
      var st := Replay(LogSemantics(env, cfg, seals), front).value;
      assert LogSemantics(env, cfg, seals).apply(st, last, EndOffset(front))
          == ApplyFrame(env, cfg, seals, st, last, EndOffset(front));
      FrameExtends(env, cfg, seals, st, AppliedIn(env, front), last, EndOffset(front));
      ExtendsTransitive(Replay(LogSemantics(env, cfg, seals), log[..n]).value.ids, st.ids,
                        Replay(LogSemantics(env, cfg, seals), log).value.ids);
    }
  }

  lemma ExtendsSelf(env: Env, cfg: Config, seals: set<u64>, log: seq<Frame>)
    requires Replay(LogSemantics(env, cfg, seals), log).Some?
    ensures Extends(Replay(LogSemantics(env, cfg, seals), log).value.ids,
                    Replay(LogSemantics(env, cfg, seals), log).value.ids)
  {
    hide Replay;
  }

  lemma ExtendsTransitive(a: Identities, b: Identities, c: Identities)
    requires Extends(a, b) && Extends(b, c)
    ensures Extends(a, c)
  {
  }

  /**
  Watermarks: whatever part of a log is synced, a sequence at or below the watermark
  of that part was applied inside it.
  */
  lemma WatermarkCovers(env: Env, cfg: Config, seals: set<u64>, log: seq<Frame>, n: nat, k: IngressKey)
    requires n <= |log|
    requires Replay(LogSemantics(env, cfg, seals), log).Some?
    requires Replay(LogSemantics(env, cfg, seals), log[..n]).Some?
    requires k in Replay(LogSemantics(env, cfg, seals), log).value.ids.ingress
    ensures var synced := Replay(LogSemantics(env, cfg, seals), log[..n]).value.ids;
            && (k in synced.ingress <==> k.sourceId in synced.lastSequences && k.sequence <= synced.lastSequences[k.sourceId])
  {
    hide ApplyFrame, AppliedIn, Replay, Kept;
    LogAppliesOnce(env, cfg, seals, log);
    LogAppliesOnce(env, cfg, seals, log[..n]);
    LogExtends(env, cfg, seals, log, n);
    PrefixWatermark(
      Replay(LogSemantics(env, cfg, seals), log).value.ids, AppliedIn(env, log),
      Replay(LogSemantics(env, cfg, seals), log[..n]).value.ids, AppliedIn(env, log[..n]), k);
  }

  lemma PrefixWatermark(ids: Identities, all: seq<Applied>, synced: Identities, some: seq<Applied>, k: IngressKey)
    requires Kept(ids, all) && Kept(synced, some) && some <= all && k in ids.ingress
    ensures k in synced.ingress <==> k.sourceId in synced.lastSequences && k.sequence <= synced.lastSequences[k.sourceId]
  {
    hide IdsOk, AppliedOnce, Records;
    RecordedIsBelow(synced, some, k);
    if k.sourceId in synced.lastSequences && k.sequence <= synced.lastSequences[k.sourceId] {
      var top := IngressKey(k.sourceId, synced.lastSequences[k.sourceId]);
      LastIsApplied(synced, some, top);
      var j :| 0 <= j < |some| && some[j].cursor == Some(top);
      KeyIsApplied(ids, all, k);
      var i :| 0 <= i < |all| && all[i].cursor == Some(k);
      assert all[j] == some[j];
      OrderedCursors(all, j, i);
      assert all[i] == some[i];
      AppliedIsRecorded(synced, some, k);
    }
  }

  lemma RecordedIsBelow(ids: Identities, applied: seq<Applied>, k: IngressKey)
    requires Kept(ids, applied)
    ensures k in ids.ingress ==> k.sourceId in ids.lastSequences && k.sequence <= ids.lastSequences[k.sourceId]
  {
    hide CommitIdsSplit, CursorsNamed, AppliedOnce, Records;
  }

  lemma LastIsApplied(ids: Identities, applied: seq<Applied>, top: IngressKey)
    requires Kept(ids, applied)
    requires top.sourceId in ids.lastSequences && ids.lastSequences[top.sourceId] == top.sequence
    ensures exists j :: 0 <= j < |applied| && applied[j].cursor == Some(top)
  {
    assert top == IngressKey(top.sourceId, ids.lastSequences[top.sourceId]);
    assert top in ids.ingress;
    hide CommitIdsSplit, CursorsNamed, AppliedOnce;
    KeyIsApplied(ids, applied, top);
  }

  lemma KeyIsApplied(ids: Identities, applied: seq<Applied>, k: IngressKey)
    requires Kept(ids, applied) && k in ids.ingress
    ensures exists j :: 0 <= j < |applied| && applied[j].cursor == Some(k)
  {
    hide IdsOk, AppliedOnce;
    var x := Applied(ids.ingress[k].identity.commitId, Some(k));
    assert x in applied;
    var j :| 0 <= j < |applied| && applied[j] == x;
    assert applied[j].cursor == Some(k);
  }

  lemma OrderedCursors(applied: seq<Applied>, j: nat, i: nat)
    requires AppliedOnce(applied) && j < |applied| && i < |applied|
    requires applied[j].cursor.Some? && applied[i].cursor.Some?
    requires applied[j].cursor.value.sourceId == applied[i].cursor.value.sourceId
    requires applied[i].cursor.value.sequence <= applied[j].cursor.value.sequence
    ensures i <= j
  {
  }

  lemma AppliedIsRecorded(ids: Identities, applied: seq<Applied>, k: IngressKey)
    requires Kept(ids, applied)
    ensures (exists i :: 0 <= i < |applied| && applied[i].cursor == Some(k)) ==> k in ids.ingress
  {
  }
}

/**
Sealing live points: a checkpoint in the log, then a manifest that publishes the segment.

Recovery drops the points before a checkpoint whose generation the manifest publishes.
`SealedOnce` says a crash on either side of the publication shows every point once, and
`SealRecoversIff` when recovery after the publication succeeds at all: exactly when the
log holds no earlier checkpoint of the same generation.
*/
module Sealing {
  import opened ByteCodec
  import opened Model
  import opened PointCodec
  import opened TransactionCodec
  import opened LogFrame
  import opened FramedLog
  import opened DurableLog
  import opened StorageLog
  import opened PointIndex
  import opened DatabaseModel
  import opened Queries

  predicate IsCheckpoint(f: Frame) {
    f.kind == KIND_SEAL_CHECKPOINT && |f.payload| == SEAL_CHECKPOINT_BYTES
  }

  function GenerationOf(f: Frame): u64
    requires IsCheckpoint(f)
  {
    ReadU64(f.payload, 0)
  }

  function CountOf(f: Frame): u64
    requires IsCheckpoint(f)
  {
    ReadU64(f.payload, 8)
  }

  // The generations a log has checkpoints for.
  predicate Checkpointed(log: seq<Frame>, g: u64) {
    exists f <- log :: IsCheckpoint(f) && GenerationOf(f) == g
  }

  // The store seals only a non-empty live index.
  predicate SealsSomething(log: seq<Frame>) {
    forall f <- log :: IsCheckpoint(f) ==> CountOf(f) > 0
  }

  lemma CheckpointFields(generation: u64, points: u64)
    ensures var f := CheckpointFrame(generation, points);
            IsCheckpoint(f) && GenerationOf(f) == generation && CountOf(f) == points
  {
    hide LE, FromLE;
    var payload := LE(generation, 8) + LE(points, 8);
    Pow256Values();
    FromLEOfLE(generation, 8);
    FromLEOfLE(points, 8);
    assert payload[0..8] == LE(generation, 8);
    assert payload[8..16] == LE(points, 8);
  }

  // ---- Which seals matter to a log ----

  lemma SameOutcome(env: Env, cfg: Config, a: set<u64>, b: set<u64>, st: LogState, f: Frame, offset: nat)
    requires IsCheckpoint(f) ==> (GenerationOf(f) in a <==> GenerationOf(f) in b)
    ensures ApplyFrame(env, cfg, a, st, f, offset) == ApplyFrame(env, cfg, b, st, f, offset)
  {
    hide ApplyTransactionFrame, ApplyIdentityIndex, DecodePoints, FromLE;
  }

  // Only the seals of generations a log has checkpoints for affect its replay.
  lemma {:induction false} SealsAgree(env: Env, cfg: Config, a: set<u64>, b: set<u64>, log: seq<Frame>)
    requires forall f <- log :: IsCheckpoint(f) ==> (GenerationOf(f) in a <==> GenerationOf(f) in b)
    ensures Replay(LogSemantics(env, cfg, a), log) == Replay(LogSemantics(env, cfg, b), log)
  {
    hide ApplyFrame, LogBytes, FromLE;
    if log != [] {
      var front, last := log[..|log| - 1], log[|log| - 1];
      assert last in log;
      SealsAgree(env, cfg, a, b, front);
      if Replay(LogSemantics(env, cfg, a), front).Some? {
        var st := Replay(LogSemantics(env, cfg, a), front).value;
        SameOutcome(env, cfg, a, b, st, last, EndOffset(front));
        assert LogSemantics(env, cfg, a).apply(st, last, EndOffset(front)) == ApplyFrame(env, cfg, a, st, last, EndOffset(front));
        assert LogSemantics(env, cfg, b).apply(st, last, EndOffset(front)) == ApplyFrame(env, cfg, b, st, last, EndOffset(front));
      }
    }
  }

  // ---- Publishing a fresh generation ----

  lemma CheckpointOutcome(env: Env, cfg: Config, seals: set<u64>, st: LogState, g: u64, n: u64, offset: nat)
    ensures ApplyFrame(env, cfg, seals, st, CheckpointFrame(g, n), offset)
         == if g == 0 || n != |st.live| then Reject(SealCheckpointInvalid)
            else if g in seals then Accept(st.(live := [], pendingReclaim := true, commits := st.commits + 1))
            else Accept(st.(commits := st.commits + 1))
  {
    CheckpointFields(g, n);
    hide FromLE, LE;
  }

  lemma ReplayLast(env: Env, cfg: Config, seals: set<u64>, log: seq<Frame>, f: Frame)
    ensures Replay(LogSemantics(env, cfg, seals), log + [f]) ==
            match Replay(LogSemantics(env, cfg, seals), log)
            case None => None
            case Some(st) =>
              match ApplyFrame(env, cfg, seals, st, f, EndOffset(log))
              case Reject(_) => None
              case Accept(next) => Some(next)
  {
    hide ApplyFrame, LogBytes;
    assert (log + [f])[..|log|] == log;
    if Replay(LogSemantics(env, cfg, seals), log).Some? {
      var st := Replay(LogSemantics(env, cfg, seals), log).value;
      assert LogSemantics(env, cfg, seals).apply(st, f, EndOffset(log)) == ApplyFrame(env, cfg, seals, st, f, EndOffset(log));
    }
  }

  // Publishing a generation first checkpointed at the end of the log empties the live tail and nothing else.
  lemma PublishFresh(env: Env, cfg: Config, seals: set<u64>, log: seq<Frame>, g: u64, n: u64, st: LogState)
    requires g !in seals && !Checkpointed(log, g)
    requires Replay(LogSemantics(env, cfg, seals), log + [CheckpointFrame(g, n)]) == Some(st)
    ensures Replay(LogSemantics(env, cfg, seals + {g}), log + [CheckpointFrame(g, n)])
         == Some(st.(live := [], pendingReclaim := true))
    ensures n == |st.live|
  {
    hide ApplyFrame, Replay, FromLE, LE, CheckpointFrame;
    SealsAgree(env, cfg, seals, seals + {g}, log);
    ReplayLast(env, cfg, seals, log, CheckpointFrame(g, n));
    ReplayLast(env, cfg, seals + {g}, log, CheckpointFrame(g, n));
    var before := Replay(LogSemantics(env, cfg, seals), log).value;
    CheckpointOutcome(env, cfg, seals, before, g, n, EndOffset(log));
    CheckpointOutcome(env, cfg, seals + {g}, before, g, n, EndOffset(log));
  }

  /**
  A crash on either side of the publication. Before it, the points are live; after it, they
  are the newest segment and nothing is live. Either way history is the same list of points,
  each once, and catalog and receipts are the same.
  */
  lemma SealedOnce(env: Env, cfg: Config, seals: set<u64>, log: seq<Frame>, g: u64, n: u64, parts: seq<seq<Point>>)
    requires g !in seals && !Checkpointed(log, g)
    requires Replay(LogSemantics(env, cfg, seals), log + [CheckpointFrame(g, n)]).Some?
    ensures Replay(LogSemantics(env, cfg, seals + {g}), log + [CheckpointFrame(g, n)]).Some?
    ensures var unpublished := Replay(LogSemantics(env, cfg, seals), log + [CheckpointFrame(g, n)]).value;
            var published := Replay(LogSemantics(env, cfg, seals + {g}), log + [CheckpointFrame(g, n)]).value;
            && Concat(parts) + unpublished.live == Concat(parts + [unpublished.live]) + published.live
            && published.live == []
            && published.ids == unpublished.ids && published.catalog == unpublished.catalog
  {
    hide Replay, Checkpointed, CheckpointFrame;
    var st := Replay(LogSemantics(env, cfg, seals), log + [CheckpointFrame(g, n)]).value;
    PublishFresh(env, cfg, seals, log, g, n, st);
    assert (parts + [st.live])[..|parts|] == parts;
  }

  // The running handle after publication: the live index is cleared, everything else stays.
  lemma PublishKeepsHandle(env: Env, cfg: Config, seals: set<u64>, db: Handle, log: seq<Frame>, g: u64, n: u64)
    requires HandleInv(env, cfg, seals, db) && db.journal.torn.None? && g !in seals && !Checkpointed(log, g)
    requires db.journal.log == log + [CheckpointFrame(g, n)] && db.journal.synced == |db.journal.log|
    ensures HandleInv(env, cfg, seals + {g},
                      db.(memory := db.memory.(index := map[], points := 0, pendingReclaim := true)))
  {
    hide Replay, LogFile, LogBytes, CheckpointFrame, Checkpointed;
    var a, b := LogSemantics(env, cfg, seals), LogSemantics(env, cfg, seals + {g});
    var st := Replay(a, db.journal.log).value;
    PublishFresh(env, cfg, seals, log, g, n, st);
    assert db.journal.log[..db.journal.synced] == db.journal.log;
    assert IndexOf([]) == map[];
    assert Frames(db.journal) == db.journal.log;
    assert Sound(b, Frames(db.journal));
  }

  // ---- Publishing a generation checkpointed before ----

  // States that differ at most in their live points.
  predicate SameButLive(a: LogState, b: LogState) {
    b.(live := a.live, pendingReclaim := a.pendingReclaim) == a
  }

  lemma OtherFramesAgree(env: Env, cfg: Config, a: set<u64>, b: set<u64>, st: LogState, other: LogState, f: Frame, offset: nat)
    requires !IsCheckpoint(f) && SameButLive(st, other)
    requires ApplyFrame(env, cfg, a, st, f, offset).Accept?
    ensures ApplyFrame(env, cfg, b, other, f, offset).Accept?
    ensures var next := ApplyFrame(env, cfg, a, st, f, offset).value;
            var otherNext := ApplyFrame(env, cfg, b, other, f, offset).value;
            && SameButLive(next, otherNext)
            && |otherNext.live| - |other.live| == |next.live| - |st.live|
  {
    hide DecodeTransaction, ApplyIdentityIndex, DecodePoints, FromLE, TagRefusal, ReadTag, TagBytes, RecordTag, PointsOf;
  }

  // Once a published checkpoint has dropped points, fewer are live than the log was written for.
  lemma {:induction false} StaleFallsBehind(env: Env, cfg: Config, seals: set<u64>, log: seq<Frame>, g: u64)
    requires g !in seals && SealsSomething(log) && Checkpointed(log, g)
    requires Replay(LogSemantics(env, cfg, seals), log).Some?
    ensures var st := Replay(LogSemantics(env, cfg, seals), log).value;
            var r := Replay(LogSemantics(env, cfg, seals + {g}), log);
            r.Some? ==> SameButLive(st, r.value) && |r.value.live| < |st.live|
  {
    hide ApplyFrame, Replay, FromLE, SameButLive;
    assert log != [];
    var front, last := log[..|log| - 1], log[|log| - 1];
    assert log == front + [last] && last in log;
    ReplayLast(env, cfg, seals, front, last);
    ReplayLast(env, cfg, seals + {g}, front, last);
    var st := Replay(LogSemantics(env, cfg, seals), front).value;
    if Checkpointed(front, g) {
      StaleFallsBehind(env, cfg, seals, front, g);
      var r := Replay(LogSemantics(env, cfg, seals + {g}), front);
      if r.Some? {
        if IsCheckpoint(last) {
          CountChecked(env, cfg, seals, st, last, EndOffset(front));
          CountChecked(env, cfg, seals + {g}, r.value, last, EndOffset(front));
        } else {
          OtherFramesAgree(env, cfg, seals, seals + {g}, st, r.value, last, EndOffset(front));
        }
      }
    } else {
      assert IsCheckpoint(last) && GenerationOf(last) == g;
      SealsAgree(env, cfg, seals, seals + {g}, front);
      FirstDrop(env, cfg, seals, st, last, EndOffset(front), g);
    }
  }

  lemma CountChecked(env: Env, cfg: Config, seals: set<u64>, st: LogState, f: Frame, offset: nat)
    requires IsCheckpoint(f)
    ensures ApplyFrame(env, cfg, seals, st, f, offset).Accept? ==> CountOf(f) == |st.live|
  {
    hide FromLE;
  }

  lemma FirstDrop(env: Env, cfg: Config, seals: set<u64>, st: LogState, f: Frame, offset: nat, g: u64)
    requires IsCheckpoint(f) && GenerationOf(f) == g && CountOf(f) > 0 && g !in seals
    requires ApplyFrame(env, cfg, seals, st, f, offset).Accept?
    ensures ApplyFrame(env, cfg, seals + {g}, st, f, offset).Accept?
    ensures var next := ApplyFrame(env, cfg, seals, st, f, offset).value;
            var dropped := ApplyFrame(env, cfg, seals + {g}, st, f, offset).value;
            SameButLive(next, dropped) && |dropped.live| < |next.live|
  {
    hide FromLE;
  }

  /**
  When a store can open after publishing generation g at the end of a log it was writing:
  exactly when the log holds no earlier checkpoint of g. A store that crashed between its
  checkpoint and the publication reuses the generation number, and falls on the other side.
  */
  lemma SealRecoversIff(env: Env, cfg: Config, seals: set<u64>, log: seq<Frame>, g: u64, n: u64)
    requires g !in seals && SealsSomething(log)
    requires Replay(LogSemantics(env, cfg, seals), log + [CheckpointFrame(g, n)]).Some?
    ensures Replay(LogSemantics(env, cfg, seals + {g}), log + [CheckpointFrame(g, n)]).Some? <==> !Checkpointed(log, g)
  {
    hide ApplyFrame, Replay, FromLE, LE, CheckpointFrame, Checkpointed, SealsSomething;
    var st := Replay(LogSemantics(env, cfg, seals), log + [CheckpointFrame(g, n)]).value;
    if !Checkpointed(log, g) {
      PublishFresh(env, cfg, seals, log, g, n, st);
    } else {
      ReplayLast(env, cfg, seals, log, CheckpointFrame(g, n));
      ReplayLast(env, cfg, seals + {g}, log, CheckpointFrame(g, n));
      StaleFallsBehind(env, cfg, seals, log, g);
      var before := Replay(LogSemantics(env, cfg, seals), log).value;
      CheckpointOutcome(env, cfg, seals, before, g, n, EndOffset(log));
      var r := Replay(LogSemantics(env, cfg, seals + {g}), log);
      if r.Some? {
        CheckpointOutcome(env, cfg, seals + {g}, r.value, g, n, EndOffset(log));
      }
    }
  }

  lemma AfterPoint(env: Env, cfg: Config, log: seq<Frame>, st: LogState, p: Point)
    requires PointOk(p) && ValidConfig(cfg) && Replay(LogSemantics(env, cfg, {}), log) == Some(st)
    ensures Replay(LogSemantics(env, cfg, {}), log + [PointsFrame([p])])
         == Some(st.(live := st.live + [p], commits := st.commits + 1))
  {
    hide ApplyFrame, Replay, PointsFrame;
    ReplayLast(env, cfg, {}, log, PointsFrame([p]));
    PointsFrameApplies(env, cfg, {}, st, [p], EndOffset(log));
  }

  lemma AfterUnpublished(env: Env, cfg: Config, log: seq<Frame>, st: LogState, g: u64, n: u64)
    requires g != 0 && n == |st.live| && Replay(LogSemantics(env, cfg, {}), log) == Some(st)
    ensures Replay(LogSemantics(env, cfg, {}), log + [CheckpointFrame(g, n)]) == Some(st.(commits := st.commits + 1))
  {
    hide ApplyFrame, Replay, CheckpointFrame;
    ReplayLast(env, cfg, {}, log, CheckpointFrame(g, n));
    CheckpointOutcome(env, cfg, {}, st, g, n, EndOffset(log));
  }

  // A concrete log: one point, a checkpoint, a second point, a checkpoint of the same generation.
  lemma ReusedGenerationFails(env: Env, cfg: Config, p: Point)
    requires PointOk(p) && ValidConfig(cfg)
    ensures var log := [PointsFrame([p]), CheckpointFrame(1, 1), PointsFrame([p])];
            && Replay(LogSemantics(env, cfg, {}), log + [CheckpointFrame(1, 2)]).Some?
            && Replay(LogSemantics(env, cfg, {1}), log + [CheckpointFrame(1, 2)]).None?
  {
    hide Replay, CheckpointFrame, PointsFrame, LogSemantics, Checkpointed, SealsSomething;
    var first, chk := PointsFrame([p]), CheckpointFrame(1, 1);
    var log := [first, chk, first];
    NothingReplayed(env, cfg);
    AfterPoint(env, cfg, [], EMPTY_STATE, p);
    assert [] + [first] == [first];
    var one := EMPTY_STATE.(live := EMPTY_STATE.live + [p], commits := 1);
    AfterUnpublished(env, cfg, [first], one, 1, 1);
    assert [first] + [chk] == [first, chk];
    AfterPoint(env, cfg, [first, chk], one.(commits := 2), p);
    assert [first, chk] + [first] == log;
    AfterUnpublished(env, cfg, log, one.(live := one.live + [p], commits := 3), 1, 2);
    ReusedLogShape(p);
    assert {} + {1} == {1};
    SealRecoversIff(env, cfg, {}, log, 1, 2);
  }

  lemma ReusedLogShape(p: Point)
    ensures var log := [PointsFrame([p]), CheckpointFrame(1, 1), PointsFrame([p])];
            Checkpointed(log, 1) && SealsSomething(log)
  {
    hide CheckpointFrame, PointsFrame;
    CheckpointFields(1, 1);
    NotACheckpoint([p]);
    var log := [PointsFrame([p]), CheckpointFrame(1, 1), PointsFrame([p])];
    assert log[1] in log;
  }

  lemma NothingReplayed(env: Env, cfg: Config)
    ensures Replay(LogSemantics(env, cfg, {}), []) == Some(EMPTY_STATE)
  {
  }

  lemma NotACheckpoint(points: seq<Point>)
    requires |points| <= U32_MAX
    ensures !IsCheckpoint(PointsFrame(points))
  {
  }
}
